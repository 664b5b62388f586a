/** Printed requests as streams: they can be cut anywhere, and what they come to. */
module PrintedRuns {
  import opened Text
  import opened Numbers
  import opened NewlineScan
  import opened BlankLines
  import opened SegmentedBuffer
  import opened Wrappers
  import opened StartLines
  import opened Headers
  import opened RequestHead
  import opened ChunkedCoding
  import opened RequestModel
  import opened ChunkedEndings
  import opened LateLines
  import opened PrintedRequests
  import opened ReadRuns

  /** An accepted request whose method has no body. */
  ghost predicate IsBodyless(env: Env, line: string, m: Fields, max: nat) {
    && Accepts(env, line, m, max)
    && env.startLine(line).value.httpMethod in {GET, HEAD, DELETE, OPTIONS, TRACE, CONNECT}
  }

  /**
    An accepted request whose method has a body, whose first Content-Length is read as `n`, where a negative number
    wraps around, and which does not say that the body comes in chunks.
   */
  ghost predicate IsSized(env: Env, line: string, m: Fields, max: nat, n: nat) {
    var lengths, codings := Values(m, "Content-Length"), Values(m, "Transfer-Encoding");
    && Accepts(env, line, m, max) && env.startLine(line).value.httpMethod in {POST, PUT, PATCH, UNKNOWN}
    && lengths != [] && (codings == [] || codings[0] != "chunked")
    && match Stoi(lengths[0], 10)
       case None => false
       case Some(v) => n == if v < 0 then v + SIZE_LIMIT else v
  }

  lemma EncodedLeadsTo(env: Env, line: string, m: Fields, max: nat, chunks: seq<string>, rest: string)
    requires IsChunked(env, line, m, max) && forall i :: 0 <= i < |chunks| ==> Plain(chunks[i])
    ensures var s := PrintedHead(line, m) + (Encode(chunks) + Chunk("") + rest);
            && Cuttable(env, s) && StartsPlain(s)
            && IsEncodedOutcome(env, line, Read(env, s, NEW_REQUEST), m, chunks, rest, max)
            && !Fixed(Read(env, s, NEW_REQUEST).request)
  {
    var body := Encode(chunks) + Chunk("") + rest;
    ChunkedHead(env, line, m, max);
    LimitIsBounded(env, line, m, max);
    hide Chunk, Encode, PrintedHead, WithHead, Read, Cuttable, StartsPlain, FinishBody, Feed, Due, Plain;
    hide EmptySizeLine, Fixed, IsEncodedOutcome, WithoutBody, IsChunked;
    EncodedCanBeCut(chunks, rest, max);
    EncodedIsDue(PrintedHead(line, m), chunks, rest, max);
    ChunkedIsAccepted(env, line, m, max);
    hide Accepts;
    PrintedIsCuttable(env, line, m, max, body);
    PrintedStream(env, line, m, max, body);
    EncodedFinishes(env, line, m, max, chunks, rest);
    FinishKeepsMode(body, WithHead(env, line, m, max));
  }

  lemma ChunkedIsAccepted(env: Env, line: string, m: Fields, max: nat)
    requires IsChunked(env, line, m, max)
    ensures Accepts(env, line, m, max)
  {
  }

  lemma TerminatorIsCounted(st: NewLineStatus)
    ensures Scan(Start(st), "0\r\n\r").status.AfterCRLFCR?
  {
    var s := "0\r\n\r";
    assert s[..3] == "0\r\n" && "0\r\n"[..2] == "0\r" && "0\r"[..1] == "0" && "0"[..0] == "";
  }

  /** The LF that ends an encoded body is counted, whatever came before it, and decoding stops there or before. */
  lemma EncodedIsDue(head: string, chunks: seq<string>, rest: string, max: nat)
    requires (forall i :: 0 <= i < |chunks| ==> Plain(chunks[i])) && max + INT_LIMIT <= SIZE_LIMIT
    ensures var body := Encode(chunks) + Chunk("") + rest;
            Due(head + body, body, |Feed(body, FRESH, max).unread|, 0)
  {
    var front, body := Encode(chunks), Encode(chunks) + Chunk("") + rest;
    ChunkOfNothing();
    FeedOfEncoded(chunks, rest, FRESH, max);
    UnreadHoldsRest(chunks, rest, max);
    hide Encode, Chunk, Feed, Scan, Plain, HasLine, AfterChunks, CountedEnd;
    EndIsCounted(head, front, rest);
  }

  lemma UnreadHoldsRest(chunks: seq<string>, rest: string, max: nat)
    ensures |AfterChunks(chunks, rest, FRESH, max).unread| >= |rest|
  {
    hide Encode, Chunk, Join;
  }

  lemma EndIsCounted(head: string, front: string, rest: string)
    ensures var body := front + "0\r\n\r\n" + rest;
            CountedEnd(head + body, body, |head| + |front| + 4) && |head + body| - (|head| + |front| + 4) - 1 == |rest|
  {
    hide Scan, IsLineEnd;
    TerminatorIsCounted(Scan(Start(NoNewline), head + front).status);
    TerminatorStands(head, front, rest);
    ScanOfTwo(NoNewline, head + front, "0\r\n\r");
  }

  lemma TerminatorStands(head: string, front: string, rest: string)
    ensures var body := front + "0\r\n\r\n" + rest;
            && IsLineEnd(body, |front| + 4)
            && (head + body)[..|head| + |front| + 4] == (head + front) + "0\r\n\r"
  {
    var body := front + "0\r\n\r\n" + rest;
    assert body[|front| + 4] == '\n' && body[|front| + 3] == '\r';
    assert body[..|front| + 4] == front + "0\r\n\r";
  }

  /** A printed request is cuttable when its body is, and a chunked one has a counted line end where it stops. */
  lemma PrintedIsCuttable(env: Env, line: string, m: Fields, max: nat, body: string)
    requires Accepts(env, line, m, max) && BodyCanBeCut(body, WithHead(env, line, m, max))
    requires var r := WithHead(env, line, m, max);
             ReadsLines(r) ==>
               Due(PrintedHead(line, m) + body, body, |Feed(body, r.decoder, r.clientMaxBodySize).unread|, 0)
    ensures Cuttable(env, PrintedHead(line, m) + body) && StartsPlain(PrintedHead(line, m) + body)
  {
    HeadIsHead(env, line, m, max);
    PlainStart(line, m, body);
    hide BodyCanBeCut, OpensWithText, HeadFits, Settled, Read, Accepts, WithHead, Due, Feed;
    hide PrintedHead, HeadOf, ReadsLines, HasOddBlank;
    PrintedStream(env, line, m, max, body);
    PrintedHeadIsRead(env, line, m, max, body);
  }

  lemma HeadIsHead(env: Env, line: string, m: Fields, max: nat)
    requires Accepts(env, line, m, max)
    ensures IsHead(line, m)
  {
  }

  lemma PlainStart(line: string, m: Fields, body: string)
    requires IsHead(line, m)
    ensures StartsPlain(PrintedHead(line, m) + body)
  {
    assert (PrintedHead(line, m) + body)[0] == line[0];
  }

  /** What a run of requests is made of: encoded requests within the limit, */
  lemma EncodedIsOneRequest(env: Env, line: string, m: Fields, max: nat, chunks: seq<string>)
    requires IsChunked(env, line, m, max) && forall i :: 0 <= i < |chunks| ==> Plain(chunks[i])
    requires |Join(chunks)| <= max
    ensures OneRequest(env, PrintedHead(line, m) + (Encode(chunks) + Chunk("") + ""))
  {
    hide Read, Cuttable, StartsPlain, PrintedHead, Encode, Chunk, Join;
    EncodedLeadsTo(env, line, m, max, chunks, "");
  }

  /** requests of declared length, */
  lemma SizedIsOneRequest(env: Env, line: string, m: Fields, max: nat, body: string)
    requires IsSized(env, line, m, max, |body|) && 0 < |body| <= max
    ensures OneRequest(env, PrintedHead(line, m) + body)
  {
    hide Read, Cuttable, StartsPlain, PrintedHead, WithHead, IsSized;
    SizedLeadsTo(env, line, m, max, |body|, body);
  }

  /** and requests without body. */
  lemma HeadIsOneRequest(env: Env, line: string, m: Fields, max: nat)
    requires IsBodyless(env, line, m, max)
    ensures OneRequest(env, PrintedHead(line, m) + "")
  {
    hide Read, Cuttable, StartsPlain, PrintedHead, WithHead, IsBodyless;
    HeadLeadsTo(env, line, m, max, "");
  }

  lemma OutcomeIs(env: Env, line: string, p: Parsed, q: Parsed, m: Fields, chunks: seq<string>, rest: string, max: nat)
    requires WithoutContent(p) == WithoutContent(q) && !Fixed(q.request)
    requires IsEncodedOutcome(env, line, q, m, chunks, rest, max)
    ensures IsEncodedOutcome(env, line, p, m, chunks, rest, max)
  {
    SameButContent(p, q);
    hide Carries;
  }

  lemma BodylessHead(env: Env, line: string, m: Fields, max: nat)
    requires IsBodyless(env, line, m, max)
    ensures Accepts(env, line, m, max) && WithoutBody(WithHead(env, line, m, max))
    ensures Carries(env, line, m, WithHead(env, line, m, max).start, WithHead(env, line, m, max).head)
  {
    WithHeadCarries(env, line, m, max);
    hide Carries, IsHead, ResolvesTo, PrintedHead, Env.startLine, SetVars;
  }

  lemma HeadLeadsTo(env: Env, line: string, m: Fields, max: nat, rest: string)
    requires IsBodyless(env, line, m, max)
    ensures var s := PrintedHead(line, m) + rest;
            && Cuttable(env, s) && StartsPlain(s)
            && var p := Read(env, s, NEW_REQUEST);
               && p.error.None? && p.unread == rest && p.request.decoder.complete
               && Carries(env, line, m, p.request.start, p.request.head)
  {
    BodylessHead(env, line, m, max);
    hide PrintedHead, WithHead, Read, Cuttable, StartsPlain, HeadOf, Accepts, Carries, IsBodyless;
    PrintedIsCuttable(env, line, m, max, rest);
    PrintedStream(env, line, m, max, rest);
  }

  lemma SizedHead(env: Env, line: string, m: Fields, max: nat, n: nat)
    requires IsSized(env, line, m, max, n)
    ensures var r := WithHead(env, line, m, max);
            && Accepts(env, line, m, max) && Fixed(r)
            && r.contentLength == n && r.clientMaxBodySize == max && r.decoder == FRESH && InBody(r)
            && !ReadsLines(r) && Carries(env, line, m, r.start, r.head)
  {
    FieldsAdded(m);
    WithHeadCarries(env, line, m, max);
    NoNumberInNothing();
    hide AddAll, Values, StripHostPort, HostIsFine, IsHead, PrintedHead, ResolvesTo, Carries, Stoi;
    hide Env.startLine;
  }

  /** An accepted request whose method has a body, and whose first Content-Length is no number. */
  ghost predicate IsUnsized(env: Env, line: string, m: Fields, max: nat) {
    var lengths, codings := Values(m, "Content-Length"), Values(m, "Transfer-Encoding");
    && Accepts(env, line, m, max) && env.startLine(line).value.httpMethod in {POST, PUT, PATCH, UNKNOWN}
    && lengths != [] && (codings == [] || codings[0] != "chunked")
    && lengths[0] != "" && Stoi(lengths[0], 10).None?
  }

  lemma UnsizedHead(env: Env, line: string, m: Fields, max: nat)
    requires IsUnsized(env, line, m, max)
    ensures var r := WithHead(env, line, m, max);
            && Accepts(env, line, m, max) && Fixed(r) && r.contentLength == 0 && r.decoder == FRESH && InBody(r)
  {
    FieldsAdded(m);
    WithHeadCarries(env, line, m, max);
    hide AddAll, Values, StripHostPort, HostIsFine, IsHead, PrintedHead, ResolvesTo, Carries, Stoi;
    hide Env.startLine;
  }

  /** A declared length that is no number counts as zero, and a length of zero swallows what comes with the head. */
  lemma UnreadableLengthSwallows(env: Env, line: string, m: Fields, max: nat, body: string)
    requires IsUnsized(env, line, m, max) && body != ""
    ensures var p := Read(env, PrintedHead(line, m) + body, NEW_REQUEST);
            && p.error.None? && p.unread == ""
            && p.request.decoder.complete && p.request.decoder.body == body && p.request.decoder.bodyLength == 0
  {
    UnsizedHead(env, line, m, max);
    ZeroTakesAll(env, body, WithHead(env, line, m, max));
    hide PrintedHead, WithHead, Read, FinishBody, Accepts, IsUnsized, Fixed, Settled, HeadFits, OpensWithText;
    hide BodyCanBeCut, HasOddBlank, InBody;
    PrintedStream(env, line, m, max, body);
  }

  lemma ZeroTakesAll(env: Env, body: string, r: Request)
    requires body != "" && InBody(r) && Fixed(r) && r.contentLength == 0 && r.decoder == FRESH
    ensures var p := FinishBody(Parsed(body, r, None));
            && p.error.None? && p.unread == ""
            && p.request.decoder.complete && p.request.decoder.body == body && p.request.decoder.bodyLength == 0
  {
    FixedRead(env, body, r);
    assert body[..|body|] == body && body[|body|..] == "";
    hide Read, FinishBody, Fixed, InBody;
  }

  lemma NoNumberInNothing()
    ensures Stoi("", 10).None?
  {
  }

  /** A declared length within the limit is taken as far as it has come; beyond it, 413 with the first byte of it. */
  lemma SizedLeadsTo(env: Env, line: string, m: Fields, max: nat, n: nat, body: string)
    requires IsSized(env, line, m, max, n) && 0 < n
    ensures var s, taken := PrintedHead(line, m) + body, Min(n, |body|);
            && Cuttable(env, s) && StartsPlain(s)
            && var p := Read(env, s, NEW_REQUEST);
               && Carries(env, line, m, p.request.start, p.request.head)
               && (n <= max ==>
                     && p.error.None? && p.unread == body[taken..]
                     && p.request.decoder.bodyLength == taken && (p.request.decoder.complete <==> |body| >= n))
               && (n > max ==>
                     && p.unread == body && !p.request.decoder.complete
                     && p.error == if body == "" then None else Some(413))
  {
    SizedHead(env, line, m, max, n);
    hide PrintedHead, WithHead, Read, Cuttable, StartsPlain, HeadOf, Accepts, IsSized, Fixed, ReadsLines, Carries;
    PrintedIsCuttable(env, line, m, max, body);
    PrintedStream(env, line, m, max, body);
    FixedRead(env, body, WithHead(env, line, m, max));
  }

  // ---------- heads that are refused ----------

  /** A head that is refused is refused by any run. */
  lemma RefusedLeadsTo(env: Env, s: string)
    requires HasOddBlank(s) && OpensWithText(s) && HeadFits(s) && HeadOf(env, s, NEW_REQUEST).error.Some?
    ensures Cuttable(env, s) && Read(env, s, NEW_REQUEST) == HeadOf(env, s, NEW_REQUEST)
  {
    OddBlankIsBlank(s);
    assert s + "" == s;
    hide HasBlank, HasOddBlank, OpensWithText, HeadFits, HeadOf, Read, FinishBody;
    HeadOfMore(env, s, "", NEW_REQUEST);
  }

  /**
    A printed head with an answer `code`: its start line does not fit, or its first Host does not, or it is the code
    that the choice of the location ends with.
   */
  ghost predicate IsRefused(env: Env, line: string, m: Fields, code: nat) {
    && IsHead(line, m) && |PrintedHead(line, m)| <= MAX_HEADER_SIZE + 1
    && if env.startLine(line).None? || !HostIsFine(env, env.startLine(line).value, m) then code == 400
       else ResolvesTo(env, line, m, Refused(code))
  }

  lemma RefusedHead(env: Env, line: string, m: Fields, code: nat, rest: string)
    requires IsRefused(env, line, m, code)
    ensures var q := HeadOf(env, PrintedHead(line, m) + rest, NEW_REQUEST);
            && q.error == Some(code)
            && q.unread == if env.startLine(line).None? then PrintFields(m) + "\r\n" + rest else rest
  {
    HeadIsChecked(env, line, m, rest);
    if env.startLine(line).Some? && HostIsFine(env, env.startLine(line).value, m) {
      CheckedFields(env, line, m, rest);
    }
    hide PrintedHead, ParseHeader, Env.startLine, PrintFields, IsHead, PortIsCut;
  }

  lemma CheckedFields(env: Env, line: string, m: Fields, rest: string)
    requires IsHead(line, m) && env.startLine(line).Some? && HostIsFine(env, env.startLine(line).value, m)
    ensures var p := ParseHeader(env, PrintedHead(line, m) + rest, NEW_REQUEST);
            && p.error.None? && p.unread == rest && !p.request.pathSet
            && p.request.start == env.startLine(line) && PortIsCut(m, p.request.head.fields)
  {
    LinesAreRead(env, line, m, rest);
    HeadIsSome(line, m);
    HostIsAsked(env, line, m);
    WithHeadCarries(env, line, m, 0);
    hide ReadStart, ReadFields, AddAll, Env.startLine, HostAccepted, PrintedHead, PrintFields, Values;
    hide PortIsCut, IsHead, HostIsFine, StripHostPort, DeclaredLength;
  }

  lemma RefusedHeadLeadsTo(env: Env, line: string, m: Fields, code: nat, rest: string)
    requires IsRefused(env, line, m, code)
    ensures var s := PrintedHead(line, m) + rest;
            && Cuttable(env, s) && StartsPlain(s)
            && Read(env, s, NEW_REQUEST).error == Some(code)
            && Read(env, s, NEW_REQUEST).unread ==
                 if env.startLine(line).None? then PrintFields(m) + "\r\n" + rest else rest
  {
    var s := PrintedHead(line, m) + rest;
    RefusedHead(env, line, m, code, rest);
    RefusedIsHead(env, line, m, code);
    PrintedHeadFits(line, m, rest);
    PlainStart(line, m, rest);
    hide PrintedHead, Read, Cuttable, StartsPlain, HeadOf, HasOddBlank, OpensWithText, HeadFits, Env.startLine;
    hide PrintFields;
    RefusedLeadsTo(env, s);
  }

  lemma RefusedIsHead(env: Env, line: string, m: Fields, code: nat)
    requires IsRefused(env, line, m, code)
    ensures IsHead(line, m) && |PrintedHead(line, m)| <= MAX_HEADER_SIZE + 1
  {
  }

  lemma PrintedHeadFits(line: string, m: Fields, rest: string)
    requires IsHead(line, m) && |PrintedHead(line, m)| <= MAX_HEADER_SIZE + 1
    ensures var s := PrintedHead(line, m) + rest; HasOddBlank(s) && OpensWithText(s) && HeadFits(s)
  {
    BlankEndsHead(line, m, rest);
    PrintedHeadIsSeen(line, m, rest);
    hide BlankEnd, OddBlankEnd, PrintedHead, IsHead;
  }

  /** A start line in front, and the stream does not open with a blank line. */
  lemma OpensBehindText(line: string, z: string)
    requires line != "" && !HasLine(line)
    ensures OpensWithText(line + ("\r\n" + z))
  {
    BlankBehindText(line, z);
    var e := BlankEnd("\r\n" + z, 0);
    assert e < |"\r\n" + z| ==> IsBlankEnd("\r\n" + z, e);
  }

  /** The head with a line `bad` among its lines. */
  function HeadWithBadLine(line: string, m: Fields, bad: string, rest: string): string {
    line + "\r\n" + (PrintFields(m) + (bad + "\r\n" + rest))
  }

  lemma BadLineLeadsTo(env: Env, line: string, m: Fields, bad: string, rest: string)
    requires IsHead(line, m) && env.startLine(line).Some?
    requires bad != "" && !HasLine(bad) && ParseLine(bad).None?
    requires var s := HeadWithBadLine(line, m, bad, rest); HasOddBlank(s) && HeadFits(s)
    ensures var s := HeadWithBadLine(line, m, bad, rest);
            && Cuttable(env, s) && StartsPlain(s)
            && Read(env, s, NEW_REQUEST).error == Some(400) && Read(env, s, NEW_REQUEST).unread == rest
  {
    var s, z := HeadWithBadLine(line, m, bad, rest), PrintFields(m) + (bad + "\r\n" + rest);
    PlainHasNoLine(line);
    Associate(line, "\r\n", z);
    assert s[0] == line[0];
    hide Read, Cuttable, HasOddBlank, OpensWithText, HeadFits, Env.startLine, ParseLine, HasLine;
    hide PrintFields, ParseHeader, Unchecked;
    OpensBehindText(line, z);
    BadLineIsRefused(env, line, m, bad, rest);
    RefusedLeadsTo(env, s);
  }

  // ---------- chunked bodies of any kind ----------

  /** A chunked request with any body that the buffer and the cuts leave alone. */
  lemma ChunkedLeadsTo(env: Env, line: string, m: Fields, max: nat, body: string)
    requires IsChunked(env, line, m, max) && |body| < SIZE_LIMIT && !EmptySizeLine(body, FRESH, max)
    requires Due(PrintedHead(line, m) + body, body, |Feed(body, FRESH, max).unread|, 0)
    ensures var s := PrintedHead(line, m) + body;
            && Cuttable(env, s) && StartsPlain(s)
            && var p := Read(env, s, NEW_REQUEST);
               && Carries(env, line, m, p.request.start, p.request.head) && !Fixed(p.request)
               && p.request.contentLength == 0
               && DecodedTo(body, FRESH, max, Fed(p.unread, p.request.decoder, p.error))
  {
    ChunkedHead(env, line, m, max);
    DecodingEnds(body, FRESH, max);
    hide PrintedHead, WithHead, Read, Cuttable, StartsPlain, FinishBody, Feed, Due, DecodedTo, Carries;
    hide EmptySizeLine, Fixed, WithoutBody, IsChunked;
    ChunkedIsAccepted(env, line, m, max);
    hide Accepts;
    PrintedIsCuttable(env, line, m, max, body);
    PrintedStream(env, line, m, max, body);
    ChunkedFinishes(env, line, m, max, body);
    FinishKeepsMode(body, WithHead(env, line, m, max));
  }
}
