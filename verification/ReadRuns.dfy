/** Runs of reads over one stream: what one read does, whatever the line counts say, and where the run leads. */
module ReadRuns {
  import opened Text
  import opened Wrappers
  import opened NewlineScan
  import opened BlankLines
  import opened SegmentedBuffer
  import opened RequestHead
  import opened ChunkedCoding
  import opened RequestModel
  import opened RequestParser
  import opened LateLines

  // ---------- one read ----------

  /**
    What the parser relies on to read as the flat model does, with `s` in the buffer and `history` all that ever came.
   */
  predicate CanRead(env: Env, history: string, epoch: nat, s: string, r: Request) {
    if r.headerParseComplete then r.pathSet && (ReadsLines(r) ==> |s| <= |history| && AgreesBehind(history, s))
    else (epoch == 0 || StartsPlain(s)) && (HasOddBlank(s) ==> HeadReadable(env, history, s, r))
  }

  /** What one read does to `s`, the last bytes of `history`, whatever the line counts say. */
  ghost predicate ReadStep(env: Env, history: string, s: string, r: Request, s': string, r': Request,
                           error: Option<nat>) {
    if s == "" then s' == "" && r' == r && error.None?
    else if r.headerParseComplete then r.pathSet ==> BodyStep(history, s, r, s', r', error)
    else if !HasOddBlank(s) then s' == s && r' == r && error == if |s| > MAX_HEADER_SIZE then Some(413) else None
    else
      var q := HeadOf(env, s, r);
      if q.error.Some? then Parsed(s', r', error) == q else BodyStep(history, q.unread, q.request, s', r', error)
  }

  /** Parsing and the size check make one read. */
  lemma ParseIsReadStep(env: Env, history: string, s: string, r: Request, s': string, r': Request, error: Option<nat>)
    requires s != "" && ParseStep(env, history, HasOddBlank(s), s, r, s', r', error)
    requires r.headerParseComplete ==> r'.headerParseComplete
    requires !r'.headerParseComplete && error.None? ==> s' == s
    ensures ReadStep(env, history, s, r, s', r',
                     if error.None? && !r'.headerParseComplete && |s'| > MAX_HEADER_SIZE then Some(413) else error)
  {
    if !r.headerParseComplete && HasOddBlank(s) && HeadOf(env, s, r).error.None? {
      var q := HeadOf(env, s, r);
      HeadCompletes(env, s, r);
      FinishKeepsMode(q.unread, q.request);
    }
    hide HeadOf, HasOddBlank, FinishBody, ReadsLines, Delivers;
  }

  lemma HeadCompletes(env: Env, s: string, r: Request)
    ensures HeadOf(env, s, r).error.None? ==> HeadOf(env, s, r).request.headerParseComplete
  {
    hide ReadStart, ReadFields, HostAccepted, StripHostPort;
  }

  // ---------- streams that can be cut ----------

  /** The stream opens with the head of a request with a chunked body. */
  predicate HasChunks(env: Env, s: string) {
    && HasOddBlank(s) && HeadOf(env, s, NEW_REQUEST).error.None?
    && ReadsLines(HeadOf(env, s, NEW_REQUEST).request) && HeadOf(env, s, NEW_REQUEST).request.chunkedRequest
  }

  /** What decoding its body in one delivery comes to. */
  function Target(env: Env, s: string): Fed {
    var q := HeadOf(env, s, NEW_REQUEST);
    Feed(q.unread, q.request.decoder, q.request.clientMaxBodySize)
  }

  /** In a chunked body a counted line end stands where decoding stops, or behind; other bodies may hold anything. */
  ghost predicate BodyIsCounted(env: Env, s: string) {
    HasChunks(env, s) ==> Due(s, HeadOf(env, s, NEW_REQUEST).unread, |Target(env, s).unread|, 0)
  }

  /** A stream that opens with a request which can be cut anywhere, as far as the flat model goes. */
  predicate Divisible(env: Env, s: string) {
    OpensWithText(s) && HeadFits(s) && Settled(env, s, NEW_REQUEST)
  }

  /** A stream that opens with a request which can be cut anywhere. */
  ghost predicate Cuttable(env: Env, s: string) {
    Divisible(env, s) && BodyIsCounted(env, s)
  }

  lemma SegmentationOfCuttable(env: Env, pieces: seq<string>)
    requires Cuttable(env, Join(pieces))
    ensures WithoutContent(RequestModel.Receive(env, "", NEW_REQUEST, pieces)) ==
            WithoutContent(Read(env, Join(pieces), NEW_REQUEST))
  {
    hide Read, RequestModel.Receive, Settled, WithoutContent, BodyIsCounted;
    RequestSegmentation(env, pieces);
  }

  lemma KindOfCuttable(env: Env, s: string)
    requires HasOddBlank(s) && Settled(env, s, NEW_REQUEST) && HeadOf(env, s, NEW_REQUEST).error.None?
    ensures HasKind(HeadOf(env, s, NEW_REQUEST).request)
  {
    hide HeadOf, EmptySizeLine, HasOddBlank;
  }

  /** The front `t` of a cuttable stream holds the head: it is that of the stream, with the rest behind it. */
  lemma HeadOfFront(env: Env, t: string, rest: string)
    requires Divisible(env, t + rest) && HasOddBlank(t)
    ensures HasOddBlank(t + rest) && OpensWithText(t)
    ensures var q := HeadOf(env, t, NEW_REQUEST);
            && HeadOf(env, t + rest, NEW_REQUEST) == q.(unread := q.unread + rest)
            && Read(env, t, NEW_REQUEST) == FinishBody(q)
            && Read(env, t + rest, NEW_REQUEST) == FinishBody(q.(unread := q.unread + rest))
            && (q.error.None? ==> HasKind(q.request) && InBody(q.request) && q.request.decoder == FRESH)
            && (q.error.Some? ==> FinishBody(q) == q)
  {
    OddBlankMore(t, rest);
    TextInFront(t, rest);
    HeadOfMore(env, t, rest, NEW_REQUEST);
    hide HeadOf, HasOddBlank, HasBlank, Read, FinishBody, OpensWithText;
    if HeadOf(env, t, NEW_REQUEST).error.None? {
      KindOfCuttable(env, t + rest);
    }
  }

  lemma PlainFront(t: string, rest: string)
    requires StartsPlain(t + rest)
    ensures StartsPlain(t)
  {
  }

  /** What is counted in a stream is counted in it behind any other bytes. */
  lemma CountedBehind(history: string, stream: string, x: string, p: nat)
    requires CountedEnd(stream, x, p) && (history == "" || StartsPlain(stream))
    ensures CountedEnd(history + stream, x, |history| + p)
  {
    assert (history + stream)[..|history| + p] == history + stream[..p];
    ScanOfTwo(NoNewline, history, stream[..p]);
    if history == "" {
      NothingScanned();
    } else if p > 0 {
      ScanRestart(Scan(Start(NoNewline), history).status, false, stream[..p]);
    }
    hide Scan;
  }

  lemma DueBehind(history: string, stream: string, x: string, unread: nat)
    requires Due(stream, x, unread, 0) && (history == "" || StartsPlain(stream)) && |x| <= |stream|
    ensures Due(history + stream, x, unread, |history + stream| - |x|)
  {
    if HasLine(x) && |x| > unread {
      var p: nat :| CountedEnd(stream, x, p) && |stream| - p - 1 <= unread;
      CountedBehind(history, stream, x, p);
      assert |history| + p >= |history + stream| - |x|;
    }
    hide HasLine, Scan;
  }

  // ---------- on the way ----------

  predicate InChunks(r: Request) {
    r.headerParseComplete && r.chunkedRequest && !WithoutBody(r)
  }

  /** A run, after `history`, has delivered `before` of a stream, and `rest` is still to come. */
  ghost predicate Stands(env: Env, history: string, before: string, rest: string, s: string, r: Request) {
    if !r.headerParseComplete then r == NEW_REQUEST && s == before
    else if InChunks(r) then
      && HasChunks(env, before + rest) && r == HeadOf(env, before + rest, NEW_REQUEST).request.(decoder := r.decoder)
      && OnBody(history + (before + rest), Target(env, before + rest), s, r.decoder, rest, r.clientMaxBodySize)
    else r.pathSet && HasKind(r)
  }

  /** A chunked body begins behind its head, all of it still to be delivered. */
  lemma ChunksBegin(env: Env, history: string, t: string, rest: string)
    requires Cuttable(env, t + rest) && HasOddBlank(t) && (history == "" || StartsPlain(t + rest))
    requires HeadOf(env, t, NEW_REQUEST).error.None? && InChunks(HeadOf(env, t, NEW_REQUEST).request)
    ensures var q := HeadOf(env, t, NEW_REQUEST);
            && HasChunks(env, t + rest) && ReadsLines(q.request)
            && OnBody(history + (t + rest), Target(env, t + rest), "", q.request.decoder, q.unread + rest,
                      q.request.clientMaxBodySize)
            && |q.unread| <= |t| && t[|t| - |q.unread|..] == q.unread
            && !Stalled(Target(env, t + rest))
  {
    hide HeadOf, HasOddBlank, HasBlank, AfterBlank, Read, FinishBody, OpensWithText, Settled, HeadFits, Feed;
    hide Due, Stalled, StartsPlain, OnBody, HasKind;
    HeadOfFront(env, t, rest);
    var q := HeadOf(env, t, NEW_REQUEST);
    OddBlankIsBlank(t);
    HeadLeavesBody(env, t);
    NotStalled(env, t + rest);
    assert ReadsLines(q.request) by { hide WithoutBody; }
    hide ReadsLines, WithoutBody, Fixed;
    assert HasChunks(env, t + rest);
    SuffixOfBoth(history, t, rest, q.unread);
    BodyBegins(history, Target(env, t + rest), t + rest, q.unread + rest, q.request.decoder,
      q.request.clientMaxBodySize);
  }

  lemma BodyBegins(history: string, target: Fed, stream: string, x: string, d: Decoder, max: nat)
    requires !d.complete && Feed(x, d, max) == target && Due(stream, x, |target.unread|, 0)
    requires |x| <= |stream| && (history + stream)[|history + stream| - |x|..] == x
    requires history == "" || StartsPlain(stream)
    ensures OnBody(history + stream, target, "", d, x, max)
  {
    hide Feed, Due, StartsPlain;
    assert "" + x == x;
    DueBehind(history, stream, x, |target.unread|);
  }

  lemma SuffixOfBoth(history: string, t: string, rest: string, u: string)
    requires |u| <= |t| && t[|t| - |u|..] == u
    ensures |u + rest| <= |t + rest| && (t + rest)[|t + rest| - |u + rest|..] == u + rest
    ensures |u + rest| <= |history + (t + rest)|
    ensures (history + (t + rest))[|history + (t + rest)| - |u + rest|..] == u + rest
  {
  }

  lemma NotStalled(env: Env, s: string)
    requires HasOddBlank(s) && Settled(env, s, NEW_REQUEST) && HeadOf(env, s, NEW_REQUEST).error.None?
    requires InChunks(HeadOf(env, s, NEW_REQUEST).request) && HeadOf(env, s, NEW_REQUEST).request.decoder == FRESH
    ensures !Stalled(Target(env, s))
  {
    var q := HeadOf(env, s, NEW_REQUEST);
    StallsAtEmptySizeLine(q.unread, q.request.decoder, q.request.clientMaxBodySize);
    hide HeadOf, Feed, EmptySizeLine, Stalled, HasOddBlank;
  }

  lemma HeadLeavesBody(env: Env, t: string)
    requires HasBlank(t) && OpensWithText(t) && HeadOf(env, t, NEW_REQUEST).error.None?
    ensures HeadOf(env, t, NEW_REQUEST).unread == AfterBlank(t)
    ensures |AfterBlank(t)| <= |t| && t[|t| - |AfterBlank(t)|..] == AfterBlank(t)
  {
    BlankLeaves(t);
    hide ReadStart, ReadFields, HasBlank, BlankEnd, AfterBlank, HostAccepted, StripHostPort, DeclaredLength;
    HeadEndsAtBlank(t, NEW_REQUEST.head);
  }

  lemma BlankLeaves(t: string)
    requires HasBlank(t) && OpensWithText(t)
    ensures BlankEnd(t, 0) > 3 && |AfterBlank(t)| <= |t| && t[|t| - |AfterBlank(t)|..] == AfterBlank(t)
  {
  }

  /** The single read of a chunked request, through its decoder. */
  lemma TargetIsRead(env: Env, s: string)
    requires HasChunks(env, s) && Divisible(env, s)
    ensures Read(env, s, NEW_REQUEST) == FromFed(HeadOf(env, s, NEW_REQUEST).request, Target(env, s))
  {
    assert s + "" == s;
    HeadOfFront(env, s, "");
    var q := HeadOf(env, s, NEW_REQUEST);
    hide HeadOf, HasOddBlank, Read, Feed, Divisible, InBody, FinishBody;
    ChunkedRead(env, q.unread, q.request);
    assert q == Parsed(q.unread, q.request, None);
  }

  /** A delivery in the middle of a chunked body. */
  lemma ChunksGoOn(env: Env, history: string, before: string, data: string, rest: string, s: string, r: Request,
                   s': string, r': Request, error: Option<nat>)
    requires Cuttable(env, before + data + rest) && Stands(env, history, before, data + rest, s, r) && InChunks(r)
    requires BodyStep(history + before + data, s + data, r, s', r', error) &&
             !Stalled(Target(env, before + data + rest))
    ensures if error.Some? then Parsed(s' + rest, r', error) == Read(env, before + data + rest, NEW_REQUEST)
            else InChunks(r') && Stands(env, history, before + data, rest, s', r')
  {
    hide HeadOf, HasChunks, Read, Divisible, BodyIsCounted, Stalled, OnBody, Target, Delivers, WithoutBody, Fixed;
    hide FinishBody;
    var stream, target := before + data + rest, Target(env, before + data + rest);
    var all := history + stream;
    assert before + (data + rest) == stream && s + (data + rest) == s + data + rest;
    TargetIsRead(env, stream);
    FrontOfAll(history, before, data, rest);
    if r.decoder.complete {
      CompleteFinishes(s + data, r);
      CompleteGoesOn(all, target, s, data, rest, r.decoder, r.clientMaxBodySize);
    } else {
      ChunksReadLines(r);
      hide ReadsLines;
      BodyGoesOn(all, target, s, data, rest, r.decoder, s', r'.decoder, error, r.clientMaxBodySize);
      DecoderOnly(r, r');
    }
  }

  lemma ChunksReadLines(r: Request)
    requires InChunks(r) && !r.decoder.complete
    ensures ReadsLines(r)
  {
  }

  lemma FrontOfAll(history: string, before: string, data: string, rest: string)
    ensures var all := history + (before + data + rest);
            && all[..|all| - |rest|] == history + before + data && all[|all| - |rest|..] == rest
  {
  }

  lemma DecoderOnly(r: Request, r': Request)
    requires r' == r.(decoder := r'.decoder)
    ensures InChunks(r') == InChunks(r)
  {
  }

  lemma CompleteFinishes(s: string, r: Request)
    requires InChunks(r) && r.decoder.complete
    ensures !ReadsLines(r) && FinishBody(Parsed(s, r, None)) == Parsed(s, r, None)
  {
  }

  lemma CompleteGoesOn(history: string, target: Fed, s: string, data: string, rest: string, d: Decoder, max: nat)
    requires d.complete && OnBody(history, target, s, d, data + rest, max)
    ensures OnBody(history, target, s + data, d, rest, max)
  {
    assert s + (data + rest) == s + data + rest;
  }

  lemma ReadIsFinish(env: Env, t: string, r: Request)
    requires r.headerParseComplete && r.pathSet && HasKind(r)
    ensures t != "" ==> Read(env, t, r) == FinishBody(Parsed(t, r, None))
    ensures t == "" ==> Read(env, t, r) == Parsed(t, r, None)
  {
    HeadSizeChecked(Parsed(t, r, None));
    hide Feed;
  }

  /** Outside chunked bodies one read is that of the flat model; into one, or in one, the run stays on its way. */
  lemma NextRead(env: Env, history: string, before: string, data: string, rest: string, s: string, r: Request,
                 s': string, r': Request, error: Option<nat>)
    requires Cuttable(env, before + data + rest) && (history == "" || StartsPlain(before + data + rest))
    requires Stands(env, history, before, data + rest, s, r)
    requires ReadStep(env, history + before + data, s + data, r, s', r', error)
    ensures error.None? ==> Stands(env, history, before + data, rest, s', r')
    ensures error.None? && !InChunks(r') ==> !InChunks(r) && Parsed(s', r', error) == Read(env, s + data, r)
    ensures error.Some? ==>
              || Parsed(s' + rest, r', error) == Read(env, before + data + rest, NEW_REQUEST)
              || (!InChunks(r) && Parsed(s', r', error) == Read(env, s + data, r))
  {
    hide Cuttable, Read, HasChunks, OnBody, HeadOf, HasKind, StartsPlain, ReadStep, WithoutBody;
    if !r.headerParseComplete {
      assert history + (before + data) == history + before + data;
      HeadRead(env, history, before + data, rest, s', r', error);
    } else if InChunks(r) {
      ChunksRead(env, history, before, data, rest, s, r, s', r', error);
    } else {
      OtherRead(env, history + before + data, s + data, r, s', r', error);
    }
  }

  lemma OtherRead(env: Env, history: string, t: string, r: Request, s': string, r': Request, error: Option<nat>)
    requires r.headerParseComplete && !InChunks(r) && r.pathSet && HasKind(r)
    requires ReadStep(env, history, t, r, s', r', error)
    ensures Parsed(s', r', error) == Read(env, t, r)
    ensures r'.headerParseComplete && !InChunks(r') && r'.pathSet && HasKind(r')
  {
    ReadIsFinish(env, t, r);
    FinishKeepsMode(t, r);
    hide Read, FinishBody;
  }

  lemma ChunksRead(env: Env, history: string, before: string, data: string, rest: string, s: string, r: Request,
                   s': string, r': Request, error: Option<nat>)
    requires Cuttable(env, before + data + rest) && Stands(env, history, before, data + rest, s, r) && InChunks(r)
    requires ReadStep(env, history + before + data, s + data, r, s', r', error)
    ensures if error.Some? then Parsed(s' + rest, r', error) == Read(env, before + data + rest, NEW_REQUEST)
            else InChunks(r') && Stands(env, history, before + data, rest, s', r')
  {
    var stream := before + data + rest;
    assert before + (data + rest) == stream;
    assert HasChunks(env, stream);
    hide HeadOf, Read, BodyStep, OnBody, Divisible, BodyIsCounted, WithoutBody;
    ResolvedInChunks(env, stream);
    if s + data == "" {
      assert s == "" && data == "" && data + rest == rest && before + data == before;
    } else {
      hide Stands;
      ChunksGoOn(env, history, before, data, rest, s, r, s', r', error);
    }
  }

  lemma ResolvedInChunks(env: Env, s: string)
    requires HasChunks(env, s) && Divisible(env, s)
    ensures HeadOf(env, s, NEW_REQUEST).request.pathSet && !Stalled(Target(env, s))
  {
    assert s + "" == s;
    HeadOfFront(env, s, "");
    hide HeadOf, HasOddBlank, Read, FinishBody;
    NotStalled(env, s);
  }

  /** A read while the head is awaited. */
  lemma HeadRead(env: Env, history: string, t: string, rest: string, s': string, r': Request, error: Option<nat>)
    requires Cuttable(env, t + rest) && (history == "" || StartsPlain(t + rest))
    requires ReadStep(env, history + t, t, NEW_REQUEST, s', r', error)
    ensures error.None? ==> Stands(env, history, t, rest, s', r')
    ensures error.None? && !InChunks(r') ==> Parsed(s', r', error) == Read(env, t, NEW_REQUEST)
    ensures error.Some? ==>
              || Parsed(s' + rest, r', error) == Read(env, t + rest, NEW_REQUEST)
              || Parsed(s', r', error) == Read(env, t, NEW_REQUEST)
  {
    if t != "" && HasOddBlank(t) {
      HeadOfFront(env, t, rest);
      var q := HeadOf(env, t, NEW_REQUEST);
      if q.error.None? && InChunks(q.request) {
        FirstChunks(env, history, t, rest, s', r', error);
      } else if q.error.None? {
        FinishKeepsMode(q.unread, q.request);
        assert q == Parsed(q.unread, q.request, None);
      }
      hide HeadOf, HasOddBlank, Read, FinishBody, Divisible, BodyIsCounted, OpensWithText;
    } else {
      WaitingRead(env, t);
    }
  }

  lemma WaitingRead(env: Env, t: string)
    requires !HasOddBlank(t)
    ensures Read(env, t, NEW_REQUEST) ==
            Parsed(t, NEW_REQUEST, if |t| > MAX_HEADER_SIZE then Some(413) else None)
  {
    hide HasOddBlank;
  }

  /** The read that brings the head of a chunked request, and maybe some of its body. */
  lemma FirstChunks(env: Env, history: string, t: string, rest: string, s': string, r': Request, error: Option<nat>)
    requires Cuttable(env, t + rest) && HasOddBlank(t) && (history == "" || StartsPlain(t + rest))
    requires HeadOf(env, t, NEW_REQUEST).error.None? && InChunks(HeadOf(env, t, NEW_REQUEST).request)
    requires var q := HeadOf(env, t, NEW_REQUEST); BodyStep(history + t, q.unread, q.request, s', r', error)
    ensures if error.Some? then Parsed(s' + rest, r', error) == Read(env, t + rest, NEW_REQUEST)
            else InChunks(r') && Stands(env, history, t, rest, s', r')
  {
    hide HeadOf, Read, Divisible, BodyIsCounted, Stalled, OnBody, Target, Delivers, WithoutBody, FinishBody;
    hide HasOddBlank, StartsPlain;
    hide ReadsLines, HasChunks, OpensWithText, HasKind, InBody;
    HeadOfFront(env, t, rest);
    var q := HeadOf(env, t, NEW_REQUEST);
    ChunksBegin(env, history, t, rest);
    TargetIsRead(env, t + rest);
    FrontOfAll(history, t, "", rest);
    assert t + "" + rest == t + rest && history + t + "" == history + t && "" + q.unread == q.unread;
    BodyGoesOn(history + (t + rest), Target(env, t + rest), "", q.unread, rest, q.request.decoder, s', r'.decoder,
      error, q.request.clientMaxBodySize);
    DecoderOnly(q.request, r');
  }

  // ---------- over the pieces ----------

  lemma ReceiveStep(env: Env, s: string, r: Request, pieces: seq<string>, i: nat)
    requires i < |pieces|
    ensures var p := Read(env, s + pieces[i], r);
            RequestModel.Receive(env, s, r, pieces[i..]) ==
            if p.error.Some? then p.(unread := p.unread + Join(pieces[i + 1..]))
            else RequestModel.Receive(env, p.unread, p.request, pieces[i + 1..])
  {
    assert pieces[i..][1..] == pieces[i + 1..];
    hide Read, Join;
  }

  /** Outside a chunked body, what the reads from number `i` on will come to is what the whole run comes to. */
  ghost predicate LeadsTo(env: Env, pieces: seq<string>, i: nat, s: string, r: Request)
    requires i <= |pieces|
  {
    InChunks(r) ||
    WithoutContent(RequestModel.Receive(env, s, r, pieces[i..])) == WithoutContent(Read(env, Join(pieces), NEW_REQUEST))
  }

  /** The outcome of a run: that of the single read. */
  predicate Arrives(env: Env, stream: string, s: string, r: Request, error: Option<nat>) {
    WithoutContent(Parsed(s, r, error)) == WithoutContent(Read(env, stream, NEW_REQUEST))
  }

  /** Each read keeps the run on its way, or ends it where the single read ends. */
  lemma OneRead(env: Env, history: string, pieces: seq<string>, i: nat, s: string, r: Request, s': string, r': Request,
                error: Option<nat>)
    requires i < |pieces| && LeadsTo(env, pieces, i, s, r)
    requires Stands(env, history, Join(pieces[..i]), Join(pieces[i..]), s, r)
    requires Cuttable(env, Join(pieces)) && (history == "" || StartsPlain(Join(pieces)))
    requires ReadStep(env, history + Join(pieces[..i]) + pieces[i], s + pieces[i], r, s', r', error)
    ensures error.Some? ==> Arrives(env, Join(pieces), s' + Join(pieces[i + 1..]), r', error)
    ensures error.None? ==>
              && Stands(env, history, Join(pieces[..i + 1]), Join(pieces[i + 1..]), s', r')
              && LeadsTo(env, pieces, i + 1, s', r')
  {
    hide Read, RequestModel.Receive, Cuttable, Stands, ReadStep, StartsPlain, Join, WithoutContent, InChunks, LeadsTo;
    var before, rest := Join(pieces[..i]), Join(pieces[i + 1..]);
    JoinSnoc(pieces, i);
    assert Join(pieces) == before + pieces[i] + rest;
    NextRead(env, history, before, pieces[i], rest, s, r, s', r', error);
    if InChunks(r') {
      ChunksLead(env, pieces, i + 1, s', r');
    }
    if !InChunks(r) && Parsed(s', r', error) == Read(env, s + pieces[i], r) {
      LeadsOn(env, pieces, i, s, r);
    }
  }

  lemma ChunksLead(env: Env, pieces: seq<string>, i: nat, s: string, r: Request)
    requires i <= |pieces| && InChunks(r)
    ensures LeadsTo(env, pieces, i, s, r)
  {
  }

  lemma LeadsOn(env: Env, pieces: seq<string>, i: nat, s: string, r: Request)
    requires i < |pieces| && LeadsTo(env, pieces, i, s, r) && !InChunks(r)
    ensures var p := Read(env, s + pieces[i], r);
            if p.error.Some? then Arrives(env, Join(pieces), p.unread + Join(pieces[i + 1..]), p.request, p.error)
            else LeadsTo(env, pieces, i + 1, p.unread, p.request)
  {
    hide Read, RequestModel.Receive, Join, WithoutContent, InChunks;
    ReceiveStep(env, s, r, pieces, i);
  }

  lemma RunStarts(env: Env, history: string, pieces: seq<string>)
    requires Cuttable(env, Join(pieces))
    ensures LeadsTo(env, pieces, 0, "", NEW_REQUEST)
    ensures Stands(env, history, Join(pieces[..0]), Join(pieces[0..]), "", NEW_REQUEST)
    ensures Join(pieces[..0]) == ""
  {
    SegmentationOfCuttable(env, pieces);
    hide Cuttable, RequestModel.Receive, Read, WithoutContent;
    assert pieces[0..] == pieces;
  }

  /** When all pieces have been delivered without an error, the run has arrived. */
  lemma RunEnds(env: Env, history: string, pieces: seq<string>, s: string, r: Request)
    requires Cuttable(env, Join(pieces)) && LeadsTo(env, pieces, |pieces|, s, r)
    requires Stands(env, history, Join(pieces[..|pieces|]), Join(pieces[|pieces|..]), s, r)
    ensures Arrives(env, Join(pieces), s + "", r, None) && pieces[..|pieces|] == pieces
  {
    assert pieces[..|pieces|] == pieces && pieces[|pieces|..] == [] && s + "" == s && Join(pieces) + "" == Join(pieces);
    hide Join, Read, Divisible, BodyIsCounted, WithoutContent;
    if InChunks(r) {
      hide HeadOf, OnBody, Target, HasChunks;
      BodyArrived(history + (Join(pieces) + ""), Target(env, Join(pieces)), s, r.decoder, r.clientMaxBodySize);
      TargetIsRead(env, Join(pieces));
    }
  }

  /** In every state of a run the chunked body is within what it comes to. */
  lemma BodyIsWithin(env: Env, history: string, before: string, rest: string, s: string, r: Request)
    requires Stands(env, history, before, rest, s, r) && InChunks(r)
    ensures |r.decoder.body| <= |Target(env, before + rest).decoder.body|
  {
    hide HeadOf, OnBody, Target, HasChunks;
    BodyIsWithinTarget(history + (before + rest), Target(env, before + rest), s, r.decoder, rest, r.clientMaxBodySize);
  }

  /** A stream that is one request and nothing more. */
  ghost predicate OneRequest(env: Env, s: string) {
    && Cuttable(env, s) && StartsPlain(s)
    && var p := Read(env, s, NEW_REQUEST);
       p.error.None? && p.unread == "" && p.request.decoder.complete
  }

  lemma EmptyIsUntouched(s: State)
    requires s.Valid() && s.Contents() == ""
    ensures s.Untouched() && s.epoch == |s.history|
  {
  }
}
