/** The incremental request parser on top of the segmented buffer. */
module RequestParser {
  import opened Text
  import opened Wrappers
  import opened Numbers
  import opened BlankLines
  import opened SegmentedBuffer
  import opened StartLines
  import opened Headers
  import opened RequestHead
  import opened ChunkedCoding
  import opened RequestModel
  import opened LateLines
  import opened Grains

  class HttpRequest {
    var start: Option<StartLine>
    var httpHeaders: Fields
    var cookies: map<string, string>
    var httpBody: string
    var bodyLength: nat
    var contentLength: nat
    var headerParseComplete: bool
    var bodyComplete: bool
    var chunkedRequest: bool
    var contentSizeSet: bool
    var pathSet: bool
    var clientMaxBodySize: nat
    var nextChunkSize: nat
    var chunkSizeKnown: bool
    var firstNewLineFound: bool

    ghost function DecoderNow(): Decoder
      reads this
    {
      Decoder(httpBody, bodyLength, nextChunkSize, chunkSizeKnown, bodyComplete)
    }

    ghost function HeadNow(): Head
      reads this
    {
      Head(httpHeaders, cookies)
    }

    ghost function Now(): Request
      reads this
    {
      Request(start, HeadNow(), headerParseComplete, contentLength, contentSizeSet, chunkedRequest, pathSet,
        clientMaxBodySize,
              DecoderNow(), firstNewLineFound)
    }

    constructor ()
      ensures Now() == NEW_REQUEST
    {
      start, httpHeaders, cookies, httpBody, bodyLength, contentLength := None, [], map[], "", 0, 0;
      headerParseComplete, bodyComplete, chunkedRequest, contentSizeSet, pathSet := false, false, false, false, false;
      clientMaxBodySize, nextChunkSize, chunkSizeKnown, firstNewLineFound := DEFAULT_CLIENT_BODY_SIZE, 0, false, false;
    }

    /** httpRequest::clear. */
    method Clear()
      modifies this
      ensures Now() == NEW_REQUEST
    {
      ClearBody();
      start, httpHeaders, cookies, contentLength := None, [], map[], 0;
      headerParseComplete, chunkedRequest, contentSizeSet, pathSet := false, false, false, false;
      clientMaxBodySize := DEFAULT_CLIENT_BODY_SIZE;
      assert HeadNow() == Head([], map[]);
    }

    method ClearBody()
      modifies this`httpBody, this`bodyLength, this`bodyComplete, this`nextChunkSize, this`chunkSizeKnown,
        this`firstNewLineFound
      ensures DecoderNow() == FRESH && !firstNewLineFound
    {
      httpBody, bodyLength, bodyComplete := "", 0, false;
      nextChunkSize, chunkSizeKnown, firstNewLineFound := 0, false, false;
    }

    // ---------- body ----------

    /** On any buffer, whatever its counters say; with exact line counts, what the decoder does on the flat contents. */
    method AddChunkedContent(input: Buffer) returns (error: Option<nat>)
      requires input.Valid()
      modifies this`httpBody, this`bodyLength, this`nextChunkSize, this`chunkSizeKnown, this`bodyComplete, input
      ensures input.Valid() && input.history == old(input.history)
      ensures Delivers(input.history, old(input.Contents()), old(DecoderNow()), input.Contents(), DecoderNow(), error,
                       clientMaxBodySize)
      ensures old(input.Synced()) ==>
                && input.Synced()
                && Fed(input.Contents(), DecoderNow(), error) ==
                  Feed(old(input.Contents()), old(DecoderNow()), clientMaxBodySize)
      ensures GrainStep(old(input.Now()), input.Now())
    {
      hide Feed, OnLine, HasLine, FirstLine, AfterLine, State.Valid, State.Synced, State.Contents, State.Removed;
      hide DecoderNow, GoesOn, EndsAt, TakesCounted, Shortens, CountedEnd, GrainStep, State.HeadTo, HeadBehindLine;
      ghost var sync, ahead := input.Synced(), input.Contents();
      ghost var before := input.Now();
      NoStep(before);
      ghost var s, d, max := input.Contents(), DecoderNow(), clientMaxBodySize;
      GoesOnNowhere(s, d, max);
      NothingShortens(s);
      var found, line := input.GetCRLFLine();
      OneMore(before, before, input.Now(), found, line);
      while found
        invariant input.Valid() && input.history == old(input.history) && GrainStep(old(input.Now()), input.Now())
        invariant GoesOn(s, d, ahead, DecoderNow(), max) && Shortens(s, input.Contents())
        invariant sync ==> input.Synced() && (found <==> HasLine(ahead))
        invariant sync ==> Feed(ahead, DecoderNow(), max) == Feed(s, d, max)
        invariant found ==> HasLine(ahead) && line == FirstLine(ahead) && input.Contents() == AfterLine(ahead)
        invariant !found ==> input.Contents() == ahead && forall p: nat :: !CountedEnd(input.history, ahead, p)
        decreases if found then |input.Contents()| + 1 else 0
      {
        FeedStep(ahead, DecoderNow(), max);
        ghost var d1 := DecoderNow();
        var verdict := TakeChunkLine(line);
        LineDelivered(s, d, ahead, d1, input.Contents(), DecoderNow(), verdict, max);
        if verdict.Pause? {
          return None;
        }
        if verdict.Fail? {
          return Some(verdict.code);
        }
        ahead, before := input.Contents(), input.Now();
        found, line := input.GetCRLFLine();
        OneMore(old(input.Now()), before, input.Now(), found, line);
        ShortensTwice(s, ahead, input.Contents());
      }
      AllTaken(input.history, s, input.Contents());
      if sync {
        FeedNothing(ahead, DecoderNow(), max);
      }
      return None;
    }

    /** The body of the loop: continue with the next line, return, or throw. */
    method TakeChunkLine(line: string) returns (verdict: Verdict)
      modifies this`httpBody, this`bodyLength, this`nextChunkSize, this`chunkSizeKnown, this`bodyComplete
      ensures (DecoderNow(), verdict) == OnLine(old(DecoderNow()), line, clientMaxBodySize)
    {
      hide Stoi;
      if !chunkSizeKnown {
        if line == "" {
          return Pause;
        }
        var size := Stoi(line, 16);
        if size.None? {
          return Fail(400);
        }
        nextChunkSize := ToSize(size.value);
        chunkSizeKnown := true;
        return Continue;
      }
      if AddSizes(bodyLength, nextChunkSize) > clientMaxBodySize {
        return Fail(413);
      }
      if nextChunkSize == 0 {
        if line == "" {
          bodyComplete := true;
          return Pause;
        }
        return Fail(400);
      }
      httpBody := httpBody + line;
      bodyLength := AddSizes(bodyLength, |line|);
      nextChunkSize := 0;
      chunkSizeKnown := false;
      return Continue;
    }

    method AddToFixedContentSize(input: Buffer) returns (error: Option<nat>)
      requires input.Valid() && input.Contents() != "" && !bodyComplete
      modifies this`httpBody, this`bodyLength, this`bodyComplete, input
      ensures input.Valid() && input.history == old(input.history)
      ensures Parsed(input.Contents(), Now(), error) == AddFixed(old(input.Contents()), old(Now()))
    {
      hide Buffer.Valid, Buffer.Synced, Buffer.Contents, Buffer.Now, FixedBody.Missing;
      if contentLength > clientMaxBodySize {
        return Some(413);
      }
      var size := input.Size();
      if size + bodyLength >= contentLength {
        httpBody := input.ReadAndRemove(FixedBody.Missing(contentLength, bodyLength));
        bodyLength := contentLength;
        bodyComplete := true;
      } else {
        bodyLength := bodyLength + size;
        httpBody := input.ReadAndRemove(size);
      }
      SplitOff(old(input.Contents()), httpBody, input.Contents());
      return None;
    }

    method TakeFirstLine(input: Buffer)
      requires input.Valid()
      modifies this`httpBody, this`bodyLength, this`firstNewLineFound, input
      ensures input.Valid() && input.history == old(input.history) && firstNewLineFound
      ensures old(input.Synced()) ==> input.Synced()
      ensures old(input.Synced()) && HasLine(old(input.Contents())) ==>
                && input.Contents() == AfterLine(old(input.Contents()))
                && httpBody == old(httpBody) + FirstLine(old(input.Contents()))
                && bodyLength == AddSizes(old(bodyLength), |FirstLine(old(input.Contents()))|)
    {
      hide AddSizes, HeadBehindLine, Shortens, CountedEnd, HasLine, FirstLine, AfterLine;
      hide State.Valid, State.Synced, State.Contents, State.Removed, State.HeadTo;
      var found, line := input.GetCRLFLine();
      httpBody := httpBody + line;
      bodyLength := AddSizes(bodyLength, |line|);
      firstNewLineFound := true;
    }

    method AddUntilNewline(input: Buffer)
      requires input.Valid() && input.Contents() != ""
      modifies this`httpBody, this`bodyLength, this`bodyComplete, this`firstNewLineFound, input
      ensures input.Valid() && input.history == old(input.history)
      ensures old(input.Synced()) ==>
                Parsed(input.Contents(), Now(), None) == RequestModel.AddUntilNewline(old(input.Contents()), old(Now()))
    {
      hide State.Removed, State.HeadTo, HeadBehindLine, Shortens, CountedEnd;
      hide HasLine, FirstLine, AfterLine, Buffer.Valid, Buffer.Synced, Buffer.Contents, Buffer.Now;
      var lines := input.Lines();
      var size := input.Size();
      if lines == 0 && size != 0 {
        httpBody := input.ReadAndRemove(size);
        SplitOff(old(input.Contents()), httpBody, input.Contents());
        size := input.Size();
        bodyLength := bodyLength + size;
        return;
      }
      hide AddSizes;
      if !firstNewLineFound {
        TakeFirstLine(input);
      }
      lines := input.Lines();
      if lines != 0 {
        var found, line := input.GetCRLFLine();
        bodyComplete := true;
      }
    }

    method ParseBody(input: Buffer) returns (error: Option<nat>)
      requires input.Valid()
      modifies this`httpBody, this`bodyLength, this`nextChunkSize, this`chunkSizeKnown, this`bodyComplete,
        this`firstNewLineFound, input
      ensures input.Valid() && input.history == old(input.history)
      ensures old(input.Synced()) || (!chunkedRequest && contentSizeSet) ==>
                Parsed(input.Contents(), Now(), error) == RequestModel.ParseBody(old(input.Contents()), old(Now()))
      ensures old(input.Synced()) && chunkedRequest ==> input.Synced()
      ensures chunkedRequest && !old(bodyComplete) ==>
                DeliversBody(input.history, old(input.Contents()), old(Now()), input.Contents(), Now(), error)
      ensures chunkedRequest ==> GrainStep(old(input.Now()), input.Now())
    {
      hide Delivers, Feed, AddFixed, RequestModel.AddUntilNewline, GrainStep;
      NoStep(input.Now());
      hide Buffer.Valid, Buffer.Synced, Buffer.Contents, Buffer.Now;
      var size := input.Size();
      if size == 0 || bodyComplete {
        NothingDelivered(input.history, DecoderNow(), clientMaxBodySize);
        return None;
      }
      if chunkedRequest {
        error := AddChunkedContent(input);
        assert Now() == old(Now()).(decoder := DecoderNow());
      } else if contentSizeSet {
        error := AddToFixedContentSize(input);
      } else {
        AddUntilNewline(input);
        error := None;
      }
    }

    // ---------- head ----------

    method ParseCookieHeader(cookieHeader: string)
      modifies this`cookies
      ensures cookies == Cookies.Parse(cookieHeader, 0, old(cookies))
    {
      var pos: nat := 0;
      while pos < |cookieHeader|
        invariant Cookies.Parse(cookieHeader, pos, cookies) == Cookies.Parse(cookieHeader, 0, old(cookies))
      {
        var semicolonPos := Find(cookieHeader, ';', pos);
        AddCookie(cookieHeader[pos..semicolonPos]);
        pos := semicolonPos + 1;
      }
    }

    /** One piece of the header: it counts only when it holds an '='. */
    method AddCookie(cookie: string)
      modifies this`cookies
      ensures cookies == Cookies.Store(cookie, old(cookies))
    {
      var equalPos := Find(cookie, '=', 0);
      if equalPos < |cookie| {
        cookies := cookies[Cookies.Trim(cookie[..equalPos]) := Cookies.Trim(cookie[equalPos + 1..])];
      }
    }

    method SetHeader(f: Field)
      modifies this`httpHeaders
      ensures httpHeaders == Insert(old(httpHeaders), f)
    {
      httpHeaders := Insert(httpHeaders, f);
    }

    /**
      Skips empty lines; an empty result means that the lines ran out. `p` is where a counted blank line ends, if it
      does.
     */
    method SkipToStartLine(input: Buffer, ghost p: nat) returns (line: string)
      requires input.Valid()
      modifies input
      ensures input.Valid() && input.history == old(input.history)
      ensures old(input.Now().HeadTo(p) && StartsBefore(input.Contents(), p - input.Now().Cut())) ==>
                input.Now().HeadTo(p) && StartRead(input.Contents(), line) == ReadStart(old(input.Contents()))
      ensures old(input.Synced()) ==>
                input.Synced() && StartRead(input.Contents(), line) == ReadStart(old(input.Contents()))
    {
      hide HasLine, FirstLine, AfterLine, ReadStart, StartsBefore, State.HeadTo, HeadBehindLine;
      hide State.Valid, State.Synced, State.Contents;
      line := "";
      ghost var ahead := input.Now().HeadTo(p) && StartsBefore(input.Contents(), p - input.Now().Cut());
      while line == ""
        invariant input.Valid() && input.history == old(input.history)
        invariant ahead ==> input.Now().HeadTo(p)
        invariant ahead && line == "" ==>
                    StartsBefore(input.Contents(), p - input.Now().Cut()) &&
                      ReadStart(input.Contents()) == ReadStart(old(input.Contents()))
        invariant ahead && line != "" ==> StartRead(input.Contents(), line) == ReadStart(old(input.Contents()))
        invariant old(input.Synced()) ==>
                    input.Synced() &&
                    ReadStart(old(input.Contents())) ==
                    if line == "" then ReadStart(input.Contents()) else StartRead(input.Contents(), line)
        decreases if line == "" then |input.Contents()| + 1 else 0
      {
        ghost var before := input.Now();
        StartReadStep(input.Contents());
        var found, next := input.GetCRLFLine();
        if !found {
          return "";
        }
        if ahead {
          StartStep(before, input.Now(), next, p);
        }
        line := next;
      }
    }

    /** The loop of _parseHttpHeaders, in front of a counted blank line that ends at `p`. */
    method ReadHeaderLines(input: Buffer, ghost p: nat) returns (end: HeadEnd)
      requires input.Valid()
      modifies this`httpHeaders, this`cookies, input
      ensures input.Valid() && input.history == old(input.history)
      ensures old(input.Now().HeadTo(p)) ==>
                HeadRead(input.Contents(), HeadNow(), end) == ReadFields(old(input.Contents()), old(HeadNow()))
      ensures old(input.Synced()) ==>
                input.Synced() &&
                HeadRead(input.Contents(), HeadNow(), end) == ReadFields(old(input.Contents()), old(HeadNow()))
    {
      hide HasLine, FirstLine, AfterLine, ParseLine, AddField, State.HeadTo, HeadBehindLine;
      hide Buffer.Valid, Buffer.Synced, Buffer.Contents, Buffer.Now, HeadNow;
      ghost var seen, sync, ahead := input.Now().HeadTo(p), input.Synced(), input.Contents();
      ghost var before := input.Now();
      var found, line := input.GetCRLFLine();
      while found
        invariant input.Valid() && input.history == old(input.history)
        invariant seen ==> found && HeadBehindLine(before, input.Now(), line, p)
        invariant sync ==> input.Synced() && (found <==> HasLine(ahead))
        invariant seen || sync ==>
                    ReadFields(ahead, HeadNow()) == ReadFields(old(input.Contents()), old(HeadNow()))
        invariant found ==> HasLine(ahead) && line == FirstLine(ahead) && input.Contents() == AfterLine(ahead)
        invariant !found ==> input.Contents() == ahead
        decreases if found then |input.Contents()| + 1 else 0
      {
        if line == "" {
          return AtBlank;
        }
        var field := ParseLine(line);
        if field.None? {
          return BadLine;
        }
        AddHeader(field.value);
        ghost var last := before;
        ahead, before := input.Contents(), input.Now();
        if seen {
          HeadGoesOn(last, before, line, p);
        }
        found, line := input.GetCRLFLine();
      }
      return NoLine;
    }

    method AddHeader(f: Field)
      modifies this`httpHeaders, this`cookies
      ensures HeadNow() == AddField(old(HeadNow()), f)
    {
      SetHeader(f);
      if f.key == "Cookie" {
        ParseCookieHeader(f.value);
      }
    }

    method SetVars()
      modifies this`httpHeaders, this`contentSizeSet, this`chunkedRequest, this`contentLength
      requires !contentSizeSet && !chunkedRequest && contentLength == 0
      ensures Now() == RequestModel.SetVars(old(Now()))
    {
      hide Get, Stoi, Insert, EraseFirst, Find;
      var length := Get(httpHeaders, "Content-Length");
      if length != "" {
        var v := Stoi(length, 10);
        contentLength := if v.Some? then ToSize(v.value) else 0;
        contentSizeSet := true;
      }
      var coding := Get(httpHeaders, "Transfer-Encoding");
      if coding == "chunked" {
        chunkedRequest := true;
        contentLength := 0;
      }
      var host := Get(httpHeaders, "Host");
      var pos := Find(host, ':', 0);
      if pos < |host| {
        httpHeaders := EraseFirst(httpHeaders, "Host");
        SetHeader(Field("Host", host[..pos]));
      }
    }

    /** A request whose head has not been read yet holds none of the values the head sets. */
    ghost predicate Unset()
      reads this
    {
      !contentSizeSet && !chunkedRequest && contentLength == 0 && start.None?
    }

    method ParseHeader(env: Env, input: Buffer, ghost p: nat) returns (error: Option<nat>)
      requires input.Valid() && Unset()
      modifies this`start, this`httpHeaders, this`cookies, this`contentSizeSet, this`chunkedRequest,
        this`contentLength, this`headerParseComplete, input
      ensures input.Valid() && input.history == old(input.history)
      ensures old(input.Synced() ||
                  (input.Now().HeadTo(p) && StartsBefore(input.Contents(), p - input.Now().Cut()))) ==>
                Parsed(input.Contents(), Now(), error) ==
                  RequestModel.ParseHeader(env, old(input.Contents()), old(Now()))
      ensures old(input.Synced()) ==> input.Synced()
      ensures error.None? ==> headerParseComplete
    {
      hide ReadStart, ReadFields, StartsBefore, State.HeadTo, HostAccepted, RequestModel.SetVars, Env.startLine;
      hide RequestModel.ParseHttpHeaders, Buffer.Valid, Buffer.Synced, Buffer.Contents, Buffer.Now;
      var line := SkipToStartLine(input, p);
      if line != "" {
        var ok := ParseStartLine(env, line);
        if !ok {
          return Some(400);
        }
      }
      error := ParseHttpHeaders(env, input, p);
    }

    /** The header loop, and what is checked and set behind it; a head that runs out of lines is not checked. */
    method ParseHttpHeaders(env: Env, input: Buffer, ghost p: nat) returns (error: Option<nat>)
      requires input.Valid() && !contentSizeSet && !chunkedRequest && contentLength == 0
      modifies this`httpHeaders, this`cookies, this`contentSizeSet, this`chunkedRequest, this`contentLength,
        this`headerParseComplete, input
      ensures input.Valid() && input.history == old(input.history)
      ensures old(input.Synced() || input.Now().HeadTo(p)) ==>
                Parsed(input.Contents(), Now(), error) ==
                  RequestModel.ParseHttpHeaders(env, old(input.Contents()), old(Now()))
      ensures old(input.Synced()) ==> input.Synced()
      ensures error.None? ==> headerParseComplete
    {
      hide ReadFields, State.HeadTo, HostAccepted, RequestModel.SetVars;
      hide Buffer.Valid, Buffer.Synced, Buffer.Contents, Buffer.Now;
      var end := ReadHeaderLines(input, p);
      if end.BadLine? {
        return Some(400);
      }
      if end.AtBlank? {
        var ok := CheckHttpHeaders(env);
        if !ok {
          return Some(400);
        }
        SetVars();
      }
      headerParseComplete := true;
      return None;
    }

    /** The line behind the pattern: cut at its blanks, and its target at the first question mark. */
    method ParseStartLine(env: Env, line: string) returns (ok: bool)
      modifies this`start
      ensures ok == env.startLine(line).Some?
      ensures start == if ok then env.startLine(line) else old(start)
    {
      hide IsMethod, IsVersion, MethodOf, Split, CutUp, IsStartLine, Find;
      ok := IsStartLine(env.targetOk, line);
      if !ok {
        return;
      }
      TwoBlanks(env.targetOk, line);
      var requestTypePos := Find(line, ' ', 0);
      var addressPos := Find(line, ' ', requestTypePos + 1);
      var word, address, query := line[..requestTypePos], line[requestTypePos + 1..addressPos], "";
      var protocol := line[addressPos + 1..];  // substr with a count below zero, an unsigned number: all of the rest
      CutsAt(word, address, protocol);
      var pos := Find(address, '?', 0);
      if pos < |address| {
        query := address[pos + 1..];
        address := address[..pos];
      }
      start := Some(StartLine(MethodOf(word), address, query, protocol));
    }

    method CheckHttpHeaders(env: Env) returns (ok: bool)
      ensures ok == HostAccepted(env, Now())
    {
      hide Values;
      var hosts := Values(httpHeaders, "Host");
      if hosts == [] {
        return !(start.Some? && start.value.protocol == "HTTP/1.1");
      }
      return env.hostOk(hosts[0]);
    }

    // ---------- the phases ----------

    /**
      What the parser needs of the buffer: in front of the head nothing has been removed since it was last empty; a
      body that is read by lines lies ahead in bytes that the automaton counts right; other bodies need nothing.
     */
    ghost predicate Readable(env: Env, input: Buffer)
      reads this, input
    {
      && input.Valid()
      && if headerParseComplete then pathSet && (ReadsLines(Now()) ==> input.Synced())
         else
           && Unset() && input.Now().Untouched() && (input.epoch == 0 || StartsPlain(input.Contents()))
           && (HasOddBlank(input.Contents()) ==> HeadReadable(env, input.history, input.Contents(), Now()))
    }

    /**
      Either the head has been read, or nothing has been removed in front of it and it does not open with a blank
      line.
     */
    ghost predicate HeadInFront(input: Buffer)
      reads this, input
    {
      headerParseComplete ||
      (input.Now().Untouched() && (input.epoch == 0 || StartsPlain(input.Contents())) &&
       (HasOddBlank(input.Contents()) ==> OpensWithText(input.Contents())))
    }

    method Parse(env: Env, input: Buffer) returns (error: Option<nat>)
      requires input.Valid() && (!headerParseComplete ==> Unset())
      modifies this, input
      ensures input.Valid() && input.history == old(input.history)
      ensures old(HeadInFront(input)) ==>
                ParseStep(env, input.history, HasOddBlank(old(input.Contents())), old(input.Contents()), old(Now()),
                          input.Contents(), Now(), error)
      ensures old(input.Synced()) ==>
                Parsed(input.Contents(), Now(), error) ==
                RequestModel.Parse(env, old(input.emptyLines) > 0, old(input.Contents()), old(Now()))
      ensures old(Readable(env, input)) ==>
                Parsed(input.Contents(), Now(), error) ==
                RequestModel.Parse(env, HasOddBlank(old(input.Contents())), old(input.Contents()), old(Now()))
      ensures !headerParseComplete && error.None? ==> Unset() && input.Now() == old(input.Now())
      ensures old(headerParseComplete) ==> headerParseComplete
      ensures old(headerParseComplete && chunkedRequest) ==> GrainStep(old(input.Now()), input.Now())
    {
      assert Readable(env, input) ==> HeadInFront(input) by { hide HasOddBlank, StartsPlain, HeadOf, OpensWithText; }
      hide HasOddBlank, HeadReadable, OpensWithText, StartsPlain, Fixed, ReadsLines, BodyStep, GrainStep;
      hide RequestModel.ParseHeader, RequestModel.Parse;
      hide RequestModel.FinishBody, Resolve, State.Valid, State.Synced, State.Contents, State.Untouched;
      PhasesOf(env, HasOddBlank(input.Contents()), input.Contents(), Now());
      PhasesOf(env, input.emptyLines > 0, input.Contents(), Now());
      ghost var r := Now();
      assert r.headerParseComplete == headerParseComplete && r.pathSet == pathSet;
      hide HttpRequest.Now;
      var blanks := input.EmptyLines();
      if !headerParseComplete && blanks == 0 {
        return None;
      }
      if !headerParseComplete {
        error := TakeHead(env, input);
        if error.Some? {
          FailedStays(env, Parsed(input.Contents(), Now(), error));
          return;
        }
      } else if pathSet {
        ResolvedBefore(env, Parsed(input.Contents(), Now(), None));
      }
      error := ResolveAndFinish(env, input);
    }

    /** Reads the head once the gate is open; what the body needs of the buffer then holds. */
    method TakeHead(env: Env, input: Buffer) returns (error: Option<nat>)
      requires input.Valid() && !headerParseComplete && Unset()
      modifies this`start, this`httpHeaders, this`cookies, this`contentSizeSet, this`chunkedRequest,
        this`contentLength, this`headerParseComplete, input
      ensures input.Valid() && input.history == old(input.history) && (error.None? ==> headerParseComplete)
      ensures old(HeadInFront(input) && HasOddBlank(input.Contents())) ==>
                Parsed(input.Contents(), Now(), error) ==
                RequestModel.ParseHeader(env, old(input.Contents()), old(Now()))
      ensures old(input.Synced()) ==>
                input.Synced() &&
                Parsed(input.Contents(), Now(), error) ==
                RequestModel.ParseHeader(env, old(input.Contents()), old(Now()))
      ensures var q := Resolve(env, Parsed(input.Contents(), Now(), None));
              old(Readable(env, input) && HasOddBlank(input.Contents())) && error.None? && q.error.None? ==>
                ReadsLines(q.request) ==> input.Synced()
    {
      hide HasOddBlank, OddBlankEnd, StartsBefore, StartsPlain, State.HeadTo, ReadsLines, OpensWithText;
      hide RequestModel.ParseHeader, Resolve, State.Valid, State.Synced, State.Contents, State.Untouched;
      ghost var p := input.epoch + OddBlankEnd(input.Contents(), 0);
      ghost var readable := Readable(env, input) && HasOddBlank(input.Contents());
      if HeadInFront(input) && HasOddBlank(input.Contents()) {
        HeadIsAhead(input.Now());
      }
      error := ParseHeader(env, input, p);
      if readable && error.None? {
        HeadLeadsOn(env, old(input.Now()), input.Now(), old(Now()), Now());
      }
    }

    method ResolveAndFinish(env: Env, input: Buffer) returns (error: Option<nat>)
      requires input.Valid()
      modifies this`pathSet, this`clientMaxBodySize, this`httpBody, this`bodyLength, this`nextChunkSize,
        this`chunkSizeKnown, this`bodyComplete, this`firstNewLineFound, input
      ensures input.Valid() && input.history == old(input.history)
      ensures var q := Resolve(env, Parsed(old(input.Contents()), old(Now()), None));
              (q.error.None? && ReadsLines(q.request) ==> old(input.Synced())) ==>
                Parsed(input.Contents(), Now(), error) == RequestModel.FinishBody(q)
      ensures var q := Resolve(env, Parsed(old(input.Contents()), old(Now()), None));
              if q.error.Some? then Parsed(input.Contents(), Now(), error) == q
              else BodyStep(input.history, q.unread, q.request, input.Contents(), Now(), error)
      ensures chunkedRequest ==> GrainStep(old(input.Now()), input.Now())
    {
      hide RequestModel.ParseBody, BodyStep, GrainStep, Buffer.Valid, Buffer.Synced, Buffer.Contents, Buffer.Now;
      NoStep(input.Now());
      if !pathSet {
        error := ResolvePath(env);
        if error.Some? {
          return;
        }
      }
      error := FinishBody(input);
    }

    method ResolvePath(env: Env) returns (error: Option<nat>)
      modifies this`pathSet, this`clientMaxBodySize
      ensures var r := Resolve(env, Parsed("", old(Now()).(pathSet := false), None));
              old(!pathSet) ==> Now() == r.request && error == r.error
    {
      pathSet := true;
      match env.resolve(start, httpHeaders) {
        case Refused(code) => error := Some(code);
        case Accepted(max) =>
          clientMaxBodySize := max;
          error := None;
      }
    }

    method FinishBody(input: Buffer) returns (error: Option<nat>)
      requires input.Valid()
      modifies this`httpBody, this`bodyLength, this`nextChunkSize, this`chunkSizeKnown, this`bodyComplete,
        this`firstNewLineFound, input
      ensures input.Valid() && input.history == old(input.history)
      ensures old(ReadsLines(Now()) ==> input.Synced()) ==>
                Parsed(input.Contents(), Now(), error) ==
                  RequestModel.FinishBody(Parsed(old(input.Contents()), old(Now()), None))
      ensures BodyStep(input.history, old(input.Contents()), old(Now()), input.Contents(), Now(), error)
      ensures WithoutBody(Now()) == WithoutBody(old(Now())) && Fixed(Now()) == Fixed(old(Now()))
      ensures chunkedRequest ==> GrainStep(old(input.Now()), input.Now())
    {
      hide RequestModel.ParseBody, DeliversBody, GrainStep, Buffer.Valid, Buffer.Synced, Buffer.Contents, Buffer.Now;
      NoStep(input.Now());
      if bodyComplete {
        return None;
      }
      if start.Some? && start.value.httpMethod in {GET, HEAD, DELETE, OPTIONS, TRACE, CONNECT} {
        bodyComplete := true;
        return None;
      }
      error := ParseBody(input);
    }
  }

  lemma NothingShortens(s: string)
    ensures Shortens(s, s)
  {
  }

  lemma NothingDelivered(history: string, d: Decoder, max: nat)
    ensures Delivers(history, "", d, "", d, None, max)
  {
    GoesOnNowhere("", d, max);
    hide Feed;
  }

  /** What a delivery does to a chunked request: its decoder goes on, and nothing else changes. */
  ghost predicate DeliversBody(history: string, s: string, r: Request, s': string, r': Request, error: Option<nat>) {
    && r' == r.(decoder := r'.decoder)
    && Delivers(history, s, r.decoder, s', r'.decoder, error, r.clientMaxBodySize)
  }

  /**
    What finishing the body does: a chunked one goes on as far as the line counts let it, others as on the flat
    contents.
   */
  ghost predicate BodyStep(history: string, s: string, r: Request, s': string, r': Request, error: Option<nat>) {
    if ReadsLines(r) then r.chunkedRequest ==> DeliversBody(history, s, r, s', r', error)
    else Parsed(s', r', error) == FinishBody(Parsed(s, r, None))
  }

  /** What parsing does to `s`, the last bytes of `history`, whatever the line counts say. */
  ghost predicate ParseStep(env: Env, history: string, gate: bool, s: string, r: Request, s': string, r': Request,
                            error: Option<nat>)
  {
    if r.headerParseComplete then r.pathSet ==> BodyStep(history, s, r, s', r', error)
    else if !gate then s' == s && r' == r && error.None?
    else
      var q := HeadOf(env, s, r);
      if q.error.Some? then Parsed(s', r', error) == q else BodyStep(history, q.unread, q.request, s', r', error)
  }

  lemma StartReadStep(s: string)
    ensures ReadStart(s) ==
            if !HasLine(s) then StartRead(s, "") else if FirstLine(s) == "" then ReadStart(AfterLine(s))
            else StartRead(AfterLine(s), FirstLine(s))
  {
    hide HasLine, FirstLine, AfterLine;
  }

  /** The start line of `s` is there and ends before position `o`. */
  predicate StartsBefore(s: string, o: int) {
    ReadStart(s).line != "" && |s| - |ReadStart(s).unread| < o
  }

  /** A line is taken off in front of the blank one: either the start line, or an empty line before it. */
  lemma StartStep(s: State, t: State, line: string, p: nat)
    requires s.HeadTo(p) && StartsBefore(s.Contents(), p - s.Cut()) && HeadBehindLine(s, t, line, p)
    requires t.history == s.history
    requires HasLine(s.Contents()) && line == FirstLine(s.Contents()) && t.Contents() == AfterLine(s.Contents())
    ensures t.HeadTo(p)
    ensures line == "" ==> StartsBefore(t.Contents(), p - t.Cut()) && ReadStart(t.Contents()) == ReadStart(s.Contents())
    ensures line != "" ==> StartRead(t.Contents(), line) == ReadStart(s.Contents())
  {
    LineSplits(s.Contents());
    StartConsumes(t.Contents());
    hide HasLine, FirstLine, AfterLine, State.HeadTo, State.Contents;
  }

  lemma HeadGoesOn(s: State, t: State, line: string, p: nat)
    requires HeadBehindLine(s, t, line, p) && line != ""
    ensures t.HeadTo(p)
  {
  }

  /** The bytes `s` hold a head whose body, when it is chunked, the automaton counts right. */
  predicate HeadReadable(env: Env, history: string, s: string, r: Request) {
    && OpensWithText(s)
    && var h := HeadOf(env, s, r);
       h.error.None? && ReadsLines(h.request) ==> |h.unread| <= |history| && AgreesBehind(history, h.unread)
  }

  lemma BlankIsBehindStart(s: string)
    requires HasOddBlank(s) && OpensWithText(s)
    ensures StartsBefore(s, OddBlankEnd(s, 0))
  {
    OddBlankIsBlank(s);
    hide BlankEnd, OddBlankEnd, ReadStart;
    StartBeforeBlank(s);
  }

  lemma HeadLeadsOn(env: Env, s: State, t: State, r: Request, r': Request)
    requires HeadReadable(env, s.history, s.Contents(), r) && t.history == s.history
    requires Parsed(t.Contents(), r', None) == ParseHeader(env, s.Contents(), r)
    ensures var q := Resolve(env, Parsed(t.Contents(), r', None));
            q.error.None? && ReadsLines(q.request) ==> t.Synced()
  {
    hide ParseHeader, ReadsLines, AgreesBehind, State.Contents;
  }

  lemma PhasesOf(env: Env, gate: bool, s: string, r: Request)
    ensures RequestModel.Parse(env, gate, s, r) ==
            if !r.headerParseComplete && !gate then Parsed(s, r, None)
            else FinishBody(Resolve(env, if r.headerParseComplete then Parsed(s, r, None) else ParseHeader(env, s, r)))
  {
    hide ParseHeader, FinishBody, Resolve;
  }

  lemma ResolvedBefore(env: Env, p: Parsed)
    requires p.request.pathSet
    ensures Resolve(env, p) == p
  {
  }

  /** Before anything is removed, a counted blank line is ahead of the start line. */
  lemma HeadIsAhead(s: State)
    requires s.Valid() && s.Untouched() && (s.epoch == 0 || StartsPlain(s.Contents()))
    requires HasOddBlank(s.Contents()) && OpensWithText(s.Contents())
    ensures var p := s.epoch + OddBlankEnd(s.Contents(), 0);
            s.HeadTo(p) && StartsBefore(s.Contents(), p - s.Cut())
  {
    hide State.Valid, State.HeadTo, HasOddBlank, StartsBefore, OddBlankEnd, OpensWithText, StartsPlain;
    hide State.Contents;
    BlankIsBehindStart(s.Contents());
    GateIsExact(s);
  }

  lemma SplitOff(s: string, a: string, b: string)
    requires s == a + b
    ensures s[..|a|] == a && s[|a|..] == b
  {
  }
}
