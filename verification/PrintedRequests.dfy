/** Requests as a client would write them: a printed head, and a body in chunks or of declared length. */
module PrintedRequests {
  import opened Text
  import opened Wrappers
  import opened Numbers
  import opened NewlineScan
  import opened BlankLines
  import opened Headers
  import opened StartLines
  import opened RequestHead
  import opened ChunkedCoding
  import opened ChunkedStreams
  import opened RequestModel

  /** Start line, fields, empty line. */
  function PrintedHead(line: string, m: Fields): string {
    line + "\r\n" + PrintFields(m) + "\r\n"
  }

  /** A head that can be printed: one start line, and fields in any order. */
  predicate IsHead(line: string, m: Fields) {
    line != "" && NoLineBytes(line) && forall i :: 0 <= i < |m| ==> Printable(m[i])
  }

  // ---------- where the head ends ----------

  lemma PlainHasNoLine(s: string)
    requires NoLineBytes(s)
    ensures !HasLine(s)
  {
  }

  lemma HeadParts(line: string, m: Fields, body: string)
    ensures PrintedHead(line, m) + body == line + "\r\n" + (PrintFields(m) + "\r\n" + body)
    ensures PrintedHead(line, m) + body == line + ("\r\n" + (PrintFields(m) + "\r\n" + body))
    ensures |PrintedHead(line, m)| == |line| + |PrintFields(m)| + 4
  {
  }

  /** The first blank line of a printed request is the one that ends its head. */
  lemma BlankEndsHead(line: string, m: Fields, body: string)
    requires IsHead(line, m)
    ensures HasBlank(PrintedHead(line, m) + body) && AfterBlank(PrintedHead(line, m) + body) == body
    ensures BlankEnd(PrintedHead(line, m) + body, 0) == |PrintedHead(line, m)| - 1
    ensures OpensWithText(PrintedHead(line, m) + body)
  {
    var x := PrintFields(m) + "\r\n" + body;
    PlainHasNoLine(line);
    FieldsOfPrinted(m, body, NEW_REQUEST.head);
    FieldsEndAtBlank(x, NEW_REQUEST.head);
    HeadParts(line, m, body);
    hide ReadFields, HasBlank, AfterBlank, BlankEnd, PrintFields, HasLine, PrintedHead;
    AfterBlankBehindText(line, x);
    AfterBlankLength(PrintedHead(line, m) + body);
  }

  lemma AfterBlankLength(s: string)
    requires HasBlank(s)
    ensures BlankEnd(s, 0) == |s| - |AfterBlank(s)| - 1
  {
    hide BlankEnd;
  }

  /** A printed field list ends in a line, in front of which stands no CR. */
  lemma {:induction false} LastLine(front: string, m: Fields) returns (f: string)
    requires front != "" && front[|front| - 1] != '\r'
    requires forall i :: 0 <= i < |m| ==> Printable(m[i])
    ensures f != "" && f[|f| - 1] != '\r' && front + "\r\n" + PrintFields(m) == f + "\r\n"
    decreases |m|
  {
    if m == [] {
      f := front;
      assert front + "\r\n" + PrintFields(m) == front + "\r\n";
    } else {
      PrintedLineIsOneLine(m[0]);
      var g := front + "\r\n" + PrintField(m[0]);
      assert g[|g| - 1] == PrintField(m[0])[|PrintField(m[0])| - 1];
      assert front + "\r\n" + PrintFields(m) == g + "\r\n" + PrintFields(m[1..]);
      hide PrintFields, PrintField, Printable;
      f := LastLine(g, m[1..]);
    }
  }

  lemma OneCR(f: string, rest: string, e: nat)
    requires f != "" && f[|f| - 1] != '\r' && e == |f| + 3
    ensures TrailingCRs((f + "\r\n" + rest)[..e - 2]) == 1
  {
    var s := (f + "\r\n" + rest)[..e - 2];
    assert s == f + "\r" && s[..|s| - 1] == f;
  }

  /** The gate sees the blank line of a printed request, and nothing before it. */
  lemma PrintedHeadIsSeen(line: string, m: Fields, body: string)
    requires IsHead(line, m)
    ensures FirstBlankIsOdd(PrintedHead(line, m) + body) && HasOddBlank(PrintedHead(line, m) + body)
    ensures OddBlankEnd(PrintedHead(line, m) + body, 0) == |PrintedHead(line, m)| - 1
  {
    var s := PrintedHead(line, m) + body;
    hide HasBlank, BlankEnd, PrintFields, TrailingCRs, IsOddBlankEnd, OddBlankEnd;
    var f := LastLine(line, m);
    HeadBehindLast(line, m, body, f);
    hide PrintedHead;
    BlankEndsHead(line, m, body);
    OneCR(f, "\r\n" + body, |PrintedHead(line, m)| - 1);
    OddBlankIsBlank(s);
    BlankIsInside(s);
  }

  lemma HeadBehindLast(line: string, m: Fields, body: string, f: string)
    requires line + "\r\n" + PrintFields(m) == f + "\r\n"
    ensures PrintedHead(line, m) + body == f + "\r\n" + ("\r\n" + body) && |PrintedHead(line, m)| == |f| + 4
  {
    hide PrintFields;
    assert PrintedHead(line, m) == (f + "\r\n") + "\r\n";
  }

  lemma BlankIsInside(s: string)
    ensures HasBlank(s) <==> BlankEnd(s, 0) < |s|
  {
  }

  // ---------- cleanness ----------

  lemma {:induction false} FieldsAgree(m: Fields)
    requires forall i :: 0 <= i < |m| ==> Printable(m[i])
    ensures Agrees(AfterCRLF, false, PrintFields(m)) && !EndsInCR(false, PrintFields(m))
    ensures Scan(Start(AfterCRLF), PrintFields(m)).status.AfterCRLF?
    decreases |m|
  {
    if m != [] {
      var line, rest := PrintField(m[0]) + "\r\n", PrintFields(m[1..]);
      PrintedLineIsOneLine(m[0]);
      SizeLineAgrees(AfterCRLF, false, PrintField(m[0]));
      FieldsAgree(m[1..]);
      assert PrintFields(m) == line + rest;
      hide Agrees, Scan, PrintFields, PrintField, Printable;
      AgreesConcat(AfterCRLF, false, line, rest);
      ScanOfTwo(AfterCRLF, line, rest);
      LastOfTwo(line, rest);
    }
  }

  lemma LastOfTwo(a: string, b: string)
    ensures EndsInCR(false, a + b) == EndsInCR(EndsInCR(false, a), b)
  {
  }

  /** Wherever a printed head is read, the automaton counts it right and ends behind a blank line. */
  lemma HeadAgrees(st: NewLineStatus, afterCR: bool, line: string, m: Fields)
    requires IsHead(line, m)
    ensures Agrees(st, afterCR, PrintedHead(line, m)) && !EndsInCR(afterCR, PrintedHead(line, m))
    ensures Scan(Start(st), PrintedHead(line, m)).status.AfterCRLFCR?
  {
    var a, b := line + "\r\n", PrintFields(m);
    SizeLineAgrees(st, afterCR, line);
    FieldsAgree(m);
    BlankLineAgrees();
    assert PrintedHead(line, m) == a + b + "\r\n" && PrintedHead(line, m)[|PrintedHead(line, m)| - 1] == '\n';
    hide Agrees, Scan, PrintFields, PrintedHead;
    AgreesConcat(st, afterCR, a, b);
    ScanOfTwo(st, a, b);
    EndOfTwo(afterCR, a, b);
    AgreesConcat(st, afterCR, a + b, "\r\n");
    ScanOfTwo(st, a + b, "\r\n");
  }

  lemma EndOfTwo(afterCR: bool, a: string, b: string)
    ensures EndsInCR(afterCR, a + b) == EndsInCR(EndsInCR(afterCR, a), b)
  {
  }

  /** A printed head is clean, and what follows is clean exactly when it is so behind a blank line. */
  lemma PrintedHeadIsClean(line: string, m: Fields, body: string)
    requires IsHead(line, m)
    ensures Clean(PrintedHead(line, m))
    ensures Clean(PrintedHead(line, m) + body) <==> Clean("\r\n\r\n" + body)
  {
    var h := PrintedHead(line, m);
    HeadAgrees(NoNewline, false, line, m);
    AgreesIffClean(h);
    AgreesIffClean(h + body);
    AgreesConcat(NoNewline, false, h, body);
    AgreesBehindBlank(body);
  }

  /** A stream stays clean when an encoded body is added exactly when every chunk ends in an even number of CR bytes. */
  lemma EncodedIsClean(h: string, chunks: seq<string>)
    requires forall i :: 0 <= i < |chunks| ==> chunks[i] != "" && !HasLine(chunks[i])
    ensures Clean(h + (Encode(chunks) + Chunk(""))) <==> Clean(h) && EndsEven(chunks)
  {
    var body := Encode(chunks) + Chunk("");
    AgreesIffClean(h);
    AgreesIffClean(h + body);
    AgreesConcat(NoNewline, false, h, body);
    EncodedAgrees(Scan(Start(NoNewline), h).status, EndsInCR(false, h), chunks);
    hide Agrees, Clean, Scan, EndsEven, Encode, Chunk;
  }

  /** Behind the encoded body the automaton stands behind a blank line again. */
  lemma BehindEncoded(chunks: seq<string>, rest: string)
    requires forall i :: 0 <= i < |chunks| ==> chunks[i] != "" && !HasLine(chunks[i])
    ensures Clean("\r\n\r\n" + (Encode(chunks) + Chunk("") + rest)) <==> EndsEven(chunks) && Clean("\r\n\r\n" + rest)
  {
    var body := Encode(chunks) + Chunk("");
    AgreesBehindBlank(body + rest);
    AgreesBehindBlank(rest);
    AgreesConcat(AfterCRLFCR, false, body, rest);
    EncodedAgrees(AfterCRLFCR, false, chunks);
    EncodedEnds(AfterCRLFCR, false, chunks);
    hide Agrees, Clean, Scan, EndsEven, Encode, Chunk;
  }

  lemma {:induction false} EncodedEnds(st: NewLineStatus, afterCR: bool, chunks: seq<string>)
    requires forall i :: 0 <= i < |chunks| ==> chunks[i] != "" && !HasLine(chunks[i])
    ensures EndsEven(chunks) ==>
              var body := Encode(chunks) + Chunk("");
              Scan(Start(st), body).status.AfterCRLFCR? && !EndsInCR(afterCR, body)
    decreases |chunks|
  {
    if chunks == [] {
      assert Encode(chunks) + Chunk("") == Chunk("");
      TerminatorAgrees(st, afterCR);
    } else {
      var c, tail := chunks[0], Encode(chunks[1..]) + Chunk("");
      assert Encode(chunks) + Chunk("") == Chunk(c) + tail;
      hide Agrees, Chunk, Encode, TrailingCRs, Scan, EndsEven;
      ChunkAgrees(st, afterCR, c);
      EndsEvenTail(chunks);
      ScanOfTwo(st, Chunk(c), tail);
      EndOfTwo(afterCR, Chunk(c), tail);
      EncodedEnds(Scan(Start(st), Chunk(c)).status, EndsInCR(afterCR, Chunk(c)), chunks[1..]);
    }
  }

  // ---------- the head, read ----------

  /** What the request holds of its lines: start line, fields as they came, the first Host without port, cookies. */
  ghost predicate Carries(env: Env, line: string, m: Fields, start: Option<StartLine>, head: RequestHead.Head) {
    && start == env.startLine(line) && PortIsCut(m, head.fields)
    && head.cookies == Cookies.ParseAll(Values(m, "Cookie"), map[])
  }

  /** The Host that comes first fits the pattern; there may be none unless the protocol is HTTP/1.1. */
  predicate HostIsFine(env: Env, start: StartLine, m: Fields) {
    var hosts := Values(m, "Host");
    if hosts == [] then start.protocol != "HTTP/1.1" else env.hostOk(hosts[0])
  }

  /** What is chosen for the request, told by its lines; they determine the fields that are asked about. */
  ghost predicate ResolvesTo(env: Env, line: string, m: Fields, resolution: Resolution) {
    forall fields :: PortIsCut(m, fields) ==> env.resolve(env.startLine(line), fields) == resolution
  }

  /** The head is accepted: its start line, its Host, and the location it resolves to. */
  ghost predicate Accepts(env: Env, line: string, m: Fields, max: nat) {
    && IsHead(line, m) && env.startLine(line).Some?
    && HostIsFine(env, env.startLine(line).value, m)
    && ResolvesTo(env, line, m, Accepted(max))
    && |PrintedHead(line, m)| <= MAX_HEADER_SIZE + 1
  }

  /** The request when the header loop is done with the lines of a head. */
  function Unchecked(env: Env, line: string, m: Fields): Request {
    NEW_REQUEST.(start := env.startLine(line), head := AddAll(NEW_REQUEST.head, m))
  }

  /** The request once its head has been read. */
  function WithHead(env: Env, line: string, m: Fields, max: nat): Request {
    SetVars(Unchecked(env, line, m)).(headerParseComplete := true, pathSet := true, clientMaxBodySize := max)
  }

  lemma FieldsAdded(m: Fields)
    ensures var h := AddAll(NEW_REQUEST.head, m);
            && Sorted(h.fields) && (forall key :: Values(h.fields, key) == Values(m, key))
            && h.cookies == Cookies.ParseAll(Values(m, "Cookie"), map[])
  {
    AddAllFields(NEW_REQUEST.head, m);
    AddAllCookies(NEW_REQUEST.head, m);
    hide AddAll, InsertAll, Values;
    var fields := AddAll(NEW_REQUEST.head, m).fields;
    forall key ensures Sorted(fields) && Values(fields, key) == Values(m, key) {
      ArrivalOrder([], m, key);
      NoValues(key);
      assert [] + Values(m, key) == Values(m, key);
    }
    ArrivalOrder([], m, "");
  }

  lemma NoValues(key: string)
    ensures Values([], key) == []
  {
  }

  /** The lines of a printed head, read up to its checks. */
  lemma LinesAreRead(env: Env, line: string, m: Fields, body: string)
    requires IsHead(line, m)
    ensures var s := PrintedHead(line, m) + body;
            && ReadStart(s) == StartRead(PrintFields(m) + "\r\n" + body, line)
            && ReadFields(PrintFields(m) + "\r\n" + body, NEW_REQUEST.head) ==
                 HeadRead(body, AddAll(NEW_REQUEST.head, m), AtBlank)
  {
    PlainHasNoLine(line);
    HeadParts(line, m, body);
    LineOf(line, PrintFields(m) + "\r\n" + body);
    FieldsOfPrinted(m, body, NEW_REQUEST.head);
    hide HasLine, FirstLine, AfterLine, ReadFields, PrintFields, AddAll, PrintedHead;
  }

  lemma HostIsAsked(env: Env, line: string, m: Fields)
    requires env.startLine(line).Some?
    ensures HostAccepted(env, Unchecked(env, line, m)) <==> HostIsFine(env, env.startLine(line).value, m)
  {
    FieldsAdded(m);
    hide AddAll, Env.startLine, Values;
  }

  /**
    Who gets past the head. A start line that does not fit is refused; a printed head behind one that does is refused
    exactly when its first Host does not fit, or there is none and the protocol is HTTP/1.1. The answer is always 400.
   */
  lemma HeadIsChecked(env: Env, line: string, m: Fields, body: string)
    requires IsHead(line, m)
    ensures var p := ParseHeader(env, PrintedHead(line, m) + body, NEW_REQUEST);
            var hosts := Values(m, "Host");
            && (env.startLine(line).None? ==>
                  p == Parsed(PrintFields(m) + "\r\n" + body, NEW_REQUEST, Some(400)))
            && (env.startLine(line).Some? ==>
                  && p.unread == body && (p.error.Some? ==> p.error == Some(400))
                  && (p.error.None? <==>
                      if hosts == [] then env.startLine(line).value.protocol != "HTTP/1.1" else env.hostOk(hosts[0])))
  {
    LinesAreRead(env, line, m, body);
    hide ReadStart, ReadFields, AddAll, Env.startLine, HostAccepted, SetVars, PrintedHead, PrintFields, Values;
    if env.startLine(line).Some? {
      HostIsAsked(env, line, m);
    }
    HeadIsSome(line, m);
  }

  lemma HeadIsSome(line: string, m: Fields)
    requires IsHead(line, m)
    ensures line != ""
  {
  }

  /** The Host line that comes first decides; without one the version does. */
  lemma FirstHostDecides(env: Env, httpMethod: HttpMethod, target: string, version: string, m: Fields, i: nat,
                         body: string)
    requires httpMethod !in {CONNECT, TRACE, UNKNOWN} && IsVersion(version)
    requires Lacks(target, ' ') && Lacks(target, '?') && env.targetOk(target)
    requires IsHead(NameOf(httpMethod) + " " + target + " " + version, m)
    requires i <= |m| && forall j :: 0 <= j < i ==> m[j].key != "Host"
    ensures var s := PrintedHead(NameOf(httpMethod) + " " + target + " " + version, m) + body;
            var p := ParseHeader(env, s, NEW_REQUEST);
            && (i < |m| && m[i].key == "Host" ==> p.error == if env.hostOk(m[i].value) then None else Some(400))
            && (i == |m| ==> p.error == if version == "HTTP/1.1" then Some(400) else None)
  {
    var line := NameOf(httpMethod) + " " + target + " " + version;
    NoQuery(target);
    StartLineReadBack(env.targetOk, httpMethod, target, None, version);
    ValuesBehind(m, "Host", i);
    ValuesFirst(m[i..], "Host");
    hide NameOf, IsHead, Values, ParseHeader, PrintedHead, IsStartLine, Split, TargetText;
    HeadIsChecked(env, line, m, body);
  }

  lemma NoQuery(target: string)
    ensures TargetText(target, None) == target
  {
  }

  /** A line that is no header line, anywhere in a head, is refused. */
  lemma BadLineIsRefused(env: Env, line: string, m: Fields, bad: string, rest: string)
    requires IsHead(line, m) && env.startLine(line).Some?
    requires bad != "" && !HasLine(bad) && ParseLine(bad).None?
    ensures ParseHeader(env, line + "\r\n" + (PrintFields(m) + (bad + "\r\n" + rest)), NEW_REQUEST) ==
            Parsed(rest, Unchecked(env, line, m), Some(400))
  {
    PlainHasNoLine(line);
    LineOf(line, PrintFields(m) + (bad + "\r\n" + rest));
    BadLineEnds(m, bad, rest, NEW_REQUEST.head);
    hide HasLine, FirstLine, AfterLine, ReadFields, PrintFields, AddAll, ParseLine, Env.startLine;
  }

  lemma {:induction false} BadLineEnds(m: Fields, bad: string, rest: string, h: RequestHead.Head)
    requires forall i :: 0 <= i < |m| ==> Printable(m[i])
    requires bad != "" && !HasLine(bad) && ParseLine(bad).None?
    ensures ReadFields(PrintFields(m) + (bad + "\r\n" + rest), h) == HeadRead(rest, AddAll(h, m), BadLine)
    decreases |m|
  {
    var end := bad + "\r\n" + rest;
    if m == [] {
      assert "" + end == end;
      LineOf(bad, rest);
      hide HasLine, FirstLine, AfterLine, ParseLine;
    } else {
      var tail := PrintFields(m[1..]) + end;
      assert PrintFields(m) + end == PrintField(m[0]) + "\r\n" + tail;
      hide ReadFields, Printable, PrintField, PrintFields, AddField, HasLine, ParseLine;
      FieldOfPrinted(m[0], tail, h);
      BadLineEnds(m[1..], bad, rest, AddField(h, m[0]));
    }
  }

  lemma WithHeadCarries(env: Env, line: string, m: Fields, max: nat)
    ensures Carries(env, line, m, WithHead(env, line, m, max).start, WithHead(env, line, m, max).head)
    ensures WithHead(env, line, m, max).start == env.startLine(line)
  {
    FieldsAdded(m);
    hide AddAll, Values, Env.startLine, Sorted, StripHostPort, DeclaredLength, Cookies.ParseAll;
    HostWithoutPort(AddAll(NEW_REQUEST.head, m).fields);
  }

  /**
    Header round trip for whole heads: the request has the lines that were printed, each key with its values in their
    order, the Host without its port, and the cookies; the bytes behind stay.
   */
  lemma PrintedHeadIsRead(env: Env, line: string, m: Fields, max: nat, body: string)
    requires Accepts(env, line, m, max)
    ensures HeadOf(env, PrintedHead(line, m) + body, NEW_REQUEST) == Parsed(body, WithHead(env, line, m, max), None)
    ensures Carries(env, line, m, WithHead(env, line, m, max).start, WithHead(env, line, m, max).head)
  {
    LinesAreRead(env, line, m, body);
    HeadIsSome(line, m);
    HostIsAsked(env, line, m);
    WithHeadCarries(env, line, m, max);
    hide ReadStart, ReadFields, AddAll, Env.startLine, HostAccepted, PrintedHead, PrintFields, Values;
    hide PortIsCut, IsHead, HostIsFine, StripHostPort, DeclaredLength;
  }

  /** What the stream of an accepted request must satisfy, of the conditions on whole requests, it does. */
  lemma PrintedStream(env: Env, line: string, m: Fields, max: nat, body: string)
    requires Accepts(env, line, m, max)
    ensures var s := PrintedHead(line, m) + body;
            && OpensWithText(s) && HeadFits(s) && HasOddBlank(s)
            && (Settled(env, s, NEW_REQUEST) <==> BodyCanBeCut(body, WithHead(env, line, m, max)))
            && Read(env, s, NEW_REQUEST) == FinishBody(Parsed(body, WithHead(env, line, m, max), None))
  {
    var s := PrintedHead(line, m) + body;
    BlankEndsHead(line, m, body);
    PrintedHeadIsSeen(line, m, body);
    PrintedHeadIsRead(env, line, m, max, body);
    hide BlankEnd, OddBlankEnd, HeadOf, WithHead, BodyCanBeCut, PrintedHead, IsHead, HostIsFine, ResolvesTo;
    assert s + "" == s;
    hide HasBlank, HasOddBlank, OpensWithText, FinishBody, Read;
    HeadOfMore(env, s, "", NEW_REQUEST);
  }

  /** Every cut of a printed request comes out as its head followed by its body. */
  lemma PrintedRequest(env: Env, line: string, m: Fields, max: nat, body: string, pieces: seq<string>)
    requires Accepts(env, line, m, max) && Join(pieces) == PrintedHead(line, m) + body
    requires BodyCanBeCut(body, WithHead(env, line, m, max))
    ensures WithoutContent(RequestModel.Receive(env, "", NEW_REQUEST, pieces)) ==
            WithoutContent(FinishBody(Parsed(body, WithHead(env, line, m, max), None)))
  {
    hide OpensWithText, HeadFits, HasOddBlank, Settled, WithoutContent, FinishBody, Read;
    hide RequestModel.Receive, Accepts, BodyCanBeCut, WithHead;
    PrintedStream(env, line, m, max, body);
    RequestSegmentation(env, pieces);
  }

  /** Cookie round trip for whole heads: a map printed as the one Cookie line is the cookies of the request. */
  lemma CookiesOfHead(env: Env, line: string, m: Fields, start: Option<StartLine>, head: RequestHead.Head,
                      cookies: seq<Cookies.Cookie>, jar: map<string, string>)
    requires Carries(env, line, m, start, head) && Values(m, "Cookie") == [Cookies.Print("", cookies)]
    requires forall i :: 0 <= i < |cookies| ==> Cookies.Printable(cookies[i])
    requires Cookies.DistinctNames(cookies) && Cookies.Holds(jar, cookies)
    ensures head.cookies == jar
  {
    hide Values, PortIsCut, Env.startLine, Cookies.Printable, Cookies.Print, Cookies.Parse, Cookies.Holds;
    hide Cookies.DistinctNames;
    Cookies.CookieRoundTrip(cookies, jar);
    var text := Cookies.Print("", cookies);
    assert [text][1..] == [];
    assert Cookies.ParseAll([text], map[]) == Cookies.ParseAll([], Cookies.Parse(text, 0, map[]));
  }

  // ---------- a stale gate ----------

  lemma {:induction false} FieldsOfFront(m: Fields, part: string, h: RequestHead.Head)
    requires (forall i :: 0 <= i < |m| ==> Printable(m[i])) && !HasLine(part)
    ensures ReadFields(PrintFields(m) + part, h) == HeadRead(part, AddAll(h, m), NoLine)
    decreases |m|
  {
    if m == [] {
      assert "" + part == part;
    } else {
      var tail := PrintFields(m[1..]) + part;
      assert PrintFields(m) + part == PrintField(m[0]) + "\r\n" + tail;
      hide ReadFields, Printable, PrintField, PrintFields, AddField, HasLine;
      FieldOfPrinted(m[0], tail, h);
      FieldsOfFront(m[1..], part, AddField(h, m[0]));
    }
  }

  /**
    What an open gate does to the front of a head: with the gate shut it waits, with the gate open it is taken for the
    whole head. No Host is asked for, no length and no coding is set, and the rest of the head is taken for body.
   */
  lemma OpenGateTakesFront(env: Env, line: string, m: Fields, part: string)
    requires line != "" && NoLineBytes(line) && (forall i :: 0 <= i < |m| ==> Printable(m[i])) && !HasLine(part)
    requires env.startLine(line).Some?
    ensures var s := line + "\r\n" + (PrintFields(m) + part);
            var taken := NEW_REQUEST.(start := env.startLine(line), head := AddAll(NEW_REQUEST.head, m),
                                      headerParseComplete := true);
            && RequestModel.Parse(env, false, s, NEW_REQUEST) == Parsed(s, NEW_REQUEST, None)
            && RequestModel.Parse(env, true, s, NEW_REQUEST) == FinishBody(Resolve(env, Parsed(part, taken, None)))
            && !taken.contentSizeSet && !taken.chunkedRequest
  {
    hide Env.startLine;
    var s := line + "\r\n" + (PrintFields(m) + part);
    PlainHasNoLine(line);
    LineOf(line, PrintFields(m) + part);
    FieldsOfFront(m, part, NEW_REQUEST.head);
    assert ReadStart(s) == StartRead(PrintFields(m) + part, line) by { hide HasLine, FirstLine, AfterLine; }
    hide HasLine, ReadStart, ReadFields, PrintFields, AddAll, FinishBody, Resolve, Printable;
  }

  // ---------- chunked bodies ----------

  /** An accepted request whose method has a body, and whose first Transfer-Encoding says that it comes in chunks. */
  ghost predicate IsChunked(env: Env, line: string, m: Fields, max: nat) {
    && Accepts(env, line, m, max) && env.startLine(line).value.httpMethod in {POST, PUT, PATCH, UNKNOWN}
    && Values(m, "Transfer-Encoding") != [] && Values(m, "Transfer-Encoding")[0] == "chunked"
    && max + INT_LIMIT <= SIZE_LIMIT
  }

  lemma ChunkedHead(env: Env, line: string, m: Fields, max: nat)
    requires IsChunked(env, line, m, max)
    ensures var r := WithHead(env, line, m, max);
            && r.chunkedRequest && r.decoder == FRESH && r.clientMaxBodySize == max && !WithoutBody(r) && !Fixed(r)
            && r.contentLength == 0
            && Carries(env, line, m, r.start, r.head)
  {
    FieldsAdded(m);
    WithHeadCarries(env, line, m, max);
    hide AddAll, Values, StripHostPort, DeclaredLength, HostIsFine, IsHead, PrintedHead, ResolvesTo, Carries;
    hide Env.startLine;
  }

  /** The outcome of a request with an encoded body. */
  ghost predicate IsEncodedOutcome(env: Env, line: string, p: Parsed, m: Fields, chunks: seq<string>, rest: string,
                                   max: nat)
  {
    && Carries(env, line, m, p.request.start, p.request.head)
    && if |Join(chunks)| <= max then
         && p.error == None && p.unread == rest && p.request.decoder.complete
         && p.request.decoder.body == Join(chunks) && p.request.decoder.bodyLength == |Join(chunks)|
       else p.error == Some(413) && !p.request.decoder.complete && p.request.decoder.bodyLength <= max
  }

  lemma EncodedFinishes(env: Env, line: string, m: Fields, max: nat, chunks: seq<string>, rest: string)
    requires IsChunked(env, line, m, max) && forall i :: 0 <= i < |chunks| ==> Plain(chunks[i])
    ensures var p := FinishBody(Parsed(Encode(chunks) + Chunk("") + rest, WithHead(env, line, m, max), None));
            IsEncodedOutcome(env, line, p, m, chunks, rest, max) && WithoutContent(p) == p
  {
    hide Chunk, Encode, Body, WithHead, FinishBody, Plain, Join, Carries, IsChunked;
    ChunkedFinishes(env, line, m, max, Encode(chunks) + Chunk("") + rest);
    EncodedFeeds(env, line, m, max, chunks, rest);
  }

  lemma ChunkedFinishes(env: Env, line: string, m: Fields, max: nat, body: string)
    requires IsChunked(env, line, m, max)
    ensures var r := WithHead(env, line, m, max);
            FinishBody(Parsed(body, r, None)) == FromFed(r, Body(body, FRESH, max)) &&
            !Fixed(r) && Carries(env, line, m, r.start, r.head)
  {
    ChunkedHead(env, line, m, max);
    HeadIsInBody(env, line, m, max);
    hide Body, WithHead, FinishBody, Carries, IsChunked, WithoutBody, InBody, Read;
    ChunkedRead(env, body, WithHead(env, line, m, max));
  }

  lemma EncodedFeeds(env: Env, line: string, m: Fields, max: nat, chunks: seq<string>, rest: string)
    requires IsChunked(env, line, m, max) && forall i :: 0 <= i < |chunks| ==> Plain(chunks[i])
    ensures var f, size := Body(Encode(chunks) + Chunk("") + rest, FRESH, max), |Join(chunks)|;
            if size <= max then f == Fed(rest, Decoder(Join(chunks), size, 0, true, true), None)
            else f.error == Some(413) && f.decoder.bodyLength <= max && !f.decoder.complete
  {
    LimitIsBounded(env, line, m, max);
    hide Chunk, Encode, Body, Plain, Join, IsChunked;
    ChunkedRoundTrip(chunks, rest, FRESH, max);
    assert "" + Join(chunks) == Join(chunks);
  }

  lemma HeadIsInBody(env: Env, line: string, m: Fields, max: nat)
    ensures InBody(WithHead(env, line, m, max))
  {
    hide AddAll, Get, StripHostPort, DeclaredLength, PrintedHead;
  }

  lemma LimitIsBounded(env: Env, line: string, m: Fields, max: nat)
    requires IsChunked(env, line, m, max)
    ensures max + INT_LIMIT <= SIZE_LIMIT
  {
  }

  /**
    Chunked requests, end to end: however a printed head, its encoded body and later bytes are cut into reads, the body
    is the concatenation of the chunks and the later bytes stay, or the request fails with 413 when the chunks exceed
    the limit.
   */
  lemma EncodedRequest(env: Env, line: string, m: Fields, max: nat, chunks: seq<string>, rest: string,
                       pieces: seq<string>)
    requires IsChunked(env, line, m, max) && forall i :: 0 <= i < |chunks| ==> Plain(chunks[i])
    requires Join(pieces) == PrintedHead(line, m) + (Encode(chunks) + Chunk("") + rest)
    ensures IsEncodedOutcome(env, line, RequestModel.Receive(env, "", NEW_REQUEST, pieces), m, chunks, rest, max)
  {
    var body := Encode(chunks) + Chunk("") + rest;
    ChunkedHead(env, line, m, max);
    EncodedCanBeCut(chunks, rest, max);
    hide Chunk, Encode, Body, WithHead, FinishBody, Plain, Join, Carries, RequestModel.Receive, Fixed;
    hide EmptySizeLine, Accepts, PrintedHead;
    PrintedRequest(env, line, m, max, body, pieces);
    EncodedFinishes(env, line, m, max, chunks, rest);
    SameButContent(RequestModel.Receive(env, "", NEW_REQUEST, pieces),
      FinishBody(Parsed(body, WithHead(env, line, m, max), None)));
  }

  /** Only the content of a body of declared length is left out of the comparison. */
  lemma SameButContent(p: Parsed, q: Parsed)
    requires WithoutContent(p) == WithoutContent(q)
    ensures p.unread == q.unread && p.error == q.error
    ensures p.request.head == q.request.head && p.request.start == q.request.start
    ensures p.request.decoder.complete == q.request.decoder.complete &&
            p.request.decoder.bodyLength == q.request.decoder.bodyLength
    ensures Fixed(p.request) == Fixed(q.request) && (!Fixed(q.request) ==> p == q)
  {
  }
}
