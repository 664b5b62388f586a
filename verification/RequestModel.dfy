/** The request parser as a function of the flat buffer contents, and whole requests cut into reads. */
module RequestModel {
  import opened Text
  import opened Wrappers
  import opened Numbers
  import opened NewlineScan
  import opened BlankLines
  import opened StartLines
  import opened Headers
  import opened RequestHead
  import opened ChunkedCoding
  import FixedBody

  datatype Resolution = Accepted(maxBody: nat) | Refused(code: nat)

  /**
    What the model takes from outside: the patterns for target and host, and the choice of server, location and file.
   */
  datatype Env = Env(targetOk: string -> bool, hostOk: string -> bool,
                     resolve: (Option<StartLine>, Fields) -> Resolution)
  {
    function startLine(line: string): Option<StartLine> { ReadLine(targetOk, line) }
  }

  const DEFAULT_CLIENT_BODY_SIZE: nat := 1_000_000
  const MAX_HEADER_SIZE: nat := 4096

  datatype Request = Request(
    start: Option<StartLine>,
    head: Head,
    headerParseComplete: bool,
    contentLength: nat,
    contentSizeSet: bool,
    chunkedRequest: bool,
    pathSet: bool,
    clientMaxBodySize: nat,
    decoder: Decoder,
    firstNewLineFound: bool)

  const NEW_REQUEST := Request(None, Head([], map[]), false, 0, false, false, false, DEFAULT_CLIENT_BODY_SIZE, FRESH,
    false)

  datatype Parsed = Parsed(unread: string, request: Request, error: Option<nat>)

  // ---------- head ----------

  function EraseFirst(m: Fields, key: string): Fields {
    if m == [] then [] else if m[0].key == key then m[1..] else [m[0]] + EraseFirst(m[1..], key)
  }

  /** The port is cut off the first Host field. */
  function StripHostPort(m: Fields): Fields {
    var host := Get(m, "Host");
    var k := Find(host, ':', 0);
    if k == |host| then m else Insert(EraseFirst(m, "Host"), Field("Host", host[..k]))
  }

  lemma {:induction false} EraseFirstValue(m: Fields, key: string, other: string)
    requires Values(m, key) != []
    ensures Values(EraseFirst(m, key), other) == if other == key then Values(m, key)[1..] else Values(m, other)
    decreases |m|
  {
    if m[0].key != key {
      EraseFirstValue(m[1..], key, other);
      assert ([m[0]] + EraseFirst(m[1..], key))[1..] == EraseFirst(m[1..], key);
    }
  }

  lemma {:induction false} EraseFirstIsSubsequence(m: Fields, key: string)
    ensures forall f :: f in EraseFirst(m, key) ==> f in m
    decreases |m|
  {
    if m != [] && m[0].key != key {
      EraseFirstIsSubsequence(m[1..], key);
    }
  }

  lemma {:induction false} EraseFirstIsOrdered(m: Fields, key: string)
    requires Sorted(m)
    ensures Sorted(EraseFirst(m, key))
    decreases |m|
  {
    if m != [] && m[0].key != key {
      EraseFirstIsOrdered(m[1..], key);
      var rest := EraseFirst(m[1..], key);
      EraseFirstIsSubsequence(m[1..], key);
      forall j | 0 <= j < |rest| ensures !Less(rest[j].key, m[0].key) {
        assert rest[j] in m[1..];
        var k :| 0 <= k < |m[1..]| && m[1..][k] == rest[j];
        assert m[k + 1] == rest[j];
      }
    }
  }

  /**
    `fields` are the lines `m` as they are stored, each key with its values in their order of arrival; but the first
    Host has lost its port and stands behind the others.
   */
  ghost predicate PortIsCut(m: Fields, fields: Fields) {
    var hosts := Values(m, "Host");
    && Sorted(fields)
    && (forall key :: key != "Host" ==> Values(fields, key) == Values(m, key))
    && Values(fields, "Host") ==
         if hosts == [] || Lacks(hosts[0], ':') then hosts else hosts[1..] + [hosts[0][..Find(hosts[0], ':', 0)]]
  }

  lemma StripKeepsOthers(m: Fields, key: string)
    requires Sorted(m) && key != "Host"
    ensures Values(StripHostPort(m), key) == Values(m, key)
  {
    hide Values, Insert, EraseFirst, Sorted;
    var host := Get(m, "Host");
    var k := Find(host, ':', 0);
    if k < |host| {
      EraseFirstValue(m, "Host", key);
      EraseFirstIsOrdered(m, "Host");
      InsertAppends(EraseFirst(m, "Host"), Field("Host", host[..k]), key);
    }
  }

  /** What is left of the first Host: the name in front of the port. */
  lemma HostWithoutPort(m: Fields)
    requires Sorted(m)
    ensures PortIsCut(m, StripHostPort(m))
  {
    hide Values, Insert, EraseFirst, Sorted;
    var host := Get(m, "Host");
    var k := Find(host, ':', 0);
    if k < |host| {
      EraseFirstValue(m, "Host", "Host");
      EraseFirstIsOrdered(m, "Host");
      InsertAppends(EraseFirst(m, "Host"), Field("Host", host[..k]), "Host");
      InsertIsOrdered(EraseFirst(m, "Host"), Field("Host", host[..k]));
    }
    forall key | key != "Host" ensures Values(StripHostPort(m), key) == Values(m, key) {
      StripKeepsOthers(m, key);
    }
  }

  /** The same, with name and port told apart. */
  lemma NameIsKept(m: Fields, fields: Fields, name: string, port: string)
    requires PortIsCut(m, fields) && Values(m, "Host") != [] && Lacks(name, ':')
    ensures Values(m, "Host")[0] == name + ":" + port ==> Values(fields, "Host") == Values(m, "Host")[1..] + [name]
    ensures Values(m, "Host")[0] == name ==> Values(fields, "Host") == Values(m, "Host")
  {
    hide Values, Sorted;
    var host := Values(m, "Host")[0];
    if host == name + ":" + port {
      assert host[|name|] == ':';
      assert forall i :: 0 <= i < |name| ==> host[i] == name[i];
      assert Find(host, ':', 0) == |name| && host[..|name|] == name;
    }
  }

  function DeclaredLength(m: Fields): nat {
    match Stoi(Get(m, "Content-Length"), 10)
    case None => 0
    case Some(v) => ToSize(v)
  }

  function SetVars(r: Request): Request {
    var m := r.head.fields;
    var chunked := Get(m, "Transfer-Encoding") == "chunked";
    var sized := Get(m, "Content-Length") != "";
    r.(head := r.head.(fields := StripHostPort(m)),
       contentSizeSet := sized,
       chunkedRequest := chunked,
       contentLength := if sized && !chunked then DeclaredLength(m) else 0)
  }

  /** _checkHttpHeaders. */
  predicate HostAccepted(env: Env, r: Request) {
    var hosts := Values(r.head.fields, "Host");
    if hosts == [] then r.start.None? || r.start.value.protocol != "HTTP/1.1" else env.hostOk(hosts[0])
  }

  /** The header loop, and what is checked and set behind it. */
  function ParseHttpHeaders(env: Env, s: string, r: Request): Parsed {
    var read := ReadFields(s, r.head);
    var r' := r.(head := read.head);
    match read.end
    case BadLine => Parsed(read.unread, r', Some(400))
    case NoLine => Parsed(read.unread, r'.(headerParseComplete := true), None)
    case AtBlank =>
      if !HostAccepted(env, r') then Parsed(read.unread, r', Some(400))
      else Parsed(read.unread, SetVars(r').(headerParseComplete := true), None)
  }

  /** parseHeader: start line, header loop, checks. */
  function ParseHeader(env: Env, s: string, r: Request): Parsed {
    var line := ReadStart(s);
    var start := if line.line == "" then None else env.startLine(line.line);
    if line.line != "" && start.None? then Parsed(line.unread, r, Some(400))
    else ParseHttpHeaders(env, line.unread, r.(start := start))
  }

  lemma {:induction false} ValuesBehind(m: Fields, key: string, i: nat)
    requires i <= |m| && forall j :: 0 <= j < i ==> m[j].key != key
    ensures Values(m, key) == Values(m[i..], key)
    decreases i
  {
    if i == 0 {
      assert m[0..] == m;
    } else {
      assert m[1..][i - 1..] == m[i..];
      ValuesBehind(m[1..], key, i - 1);
    }
  }

  // ---------- body ----------

  predicate WithoutBody(r: Request) {
    r.start.Some? && r.start.value.httpMethod in {GET, HEAD, DELETE, OPTIONS, TRACE, CONNECT}
  }

  function AddFixed(s: string, r: Request): Parsed {
    if r.contentLength > r.clientMaxBodySize then Parsed(s, r, Some(413))
    else
      var f := FixedBody.Step(s, FixedBody.Reader(r.decoder.body, r.decoder.bodyLength, r.decoder.complete),
        r.contentLength);
      Parsed(f.unread, r.(decoder := r.decoder.(body := f.reader.body, bodyLength := f.reader.bodyLength,
        complete := f.reader.complete)), None)
  }

  /** Neither a length nor chunking: _addUntilNewline. */
  function AddUntilNewline(s: string, r: Request): Parsed {
    if !HasLine(s) && s != "" then Parsed("", r.(decoder := r.decoder.(body := s)), None)
    else
      var first := !r.firstNewLineFound && HasLine(s);
      var s' := if first then AfterLine(s) else s;
      var d := r.decoder;
      var r' := r.(firstNewLineFound := true,
                   decoder := if first then d.(body := d.body + FirstLine(s),
                     bodyLength := AddSizes(d.bodyLength, |FirstLine(s)|)) else d);
      if HasLine(s') then Parsed(AfterLine(s'), r'.(decoder := r'.decoder.(complete := true)), None)
      else Parsed(s', r', None)
  }

  function ParseBody(s: string, r: Request): Parsed {
    if s == "" || r.decoder.complete then Parsed(s, r, None)
    else if r.chunkedRequest then
      var fed := Feed(s, r.decoder, r.clientMaxBodySize);
      Parsed(fed.unread, r.(decoder := fed.decoder), fed.error)
    else if r.contentSizeSet then AddFixed(s, r)
    else AddUntilNewline(s, r)
  }

  // ---------- the phases ----------

  /** Server, location and file are chosen once. */
  function Resolve(env: Env, p: Parsed): Parsed {
    if p.error.Some? || p.request.pathSet then p
    else
      match env.resolve(p.request.start, p.request.head.fields)
      case Refused(code) => Parsed(p.unread, p.request.(pathSet := true), Some(code))
      case Accepted(max) => Parsed(p.unread, p.request.(pathSet := true, clientMaxBodySize := max), None)
  }

  function FinishBody(p: Parsed): Parsed {
    if p.error.Some? || p.request.decoder.complete then p
    else if WithoutBody(p.request) then p.(request := p.request.(decoder := p.request.decoder.(complete := true)))
    else ParseBody(p.unread, p.request)
  }

  /** After an exception the later phases are skipped. */
  lemma FailedStays(env: Env, p: Parsed)
    requires p.error.Some?
    ensures Resolve(env, p) == p && FinishBody(p) == p
  {
  }

  /** httpRequest::parse on the contents `s`; `gate` tells whether the buffer has counted a blank line. */
  function Parse(env: Env, gate: bool, s: string, r: Request): Parsed {
    if !r.headerParseComplete && !gate then Parsed(s, r, None)
    else
      var p := if r.headerParseComplete then Parsed(s, r, None) else ParseHeader(env, s, r);
      FinishBody(Resolve(env, p))
  }

  /** A head that is not complete may not fill the buffer. */
  function CheckHeadSize(p: Parsed): Parsed {
    if p.error.None? && !p.request.headerParseComplete &&
      |p.unread| > MAX_HEADER_SIZE then p.(error := Some(413)) else p
  }

  /** One read: the bytes are appended and, unless the buffer is empty, parsed. */
  function Read(env: Env, s: string, r: Request): Parsed {
    if s == "" then Parsed(s, r, None) else CheckHeadSize(Parse(env, HasOddBlank(s), s, r))
  }

  /** Reads one after the other; nothing is parsed after an exception. */
  function Receive(env: Env, s: string, r: Request, pieces: seq<string>): Parsed
    decreases |pieces|
  {
    if pieces == [] then Parsed(s, r, None)
    else
      var p := Read(env, s + pieces[0], r);
      if p.error.Some? then p.(unread := p.unread + Join(pieces[1..]))
      else Receive(env, p.unread, p.request, pieces[1..])
  }

  // ---------- segmentation independence of whole requests ----------

  /** The stream does not open with a blank line, which would open the gate before the start line is there. */
  predicate OpensWithText(s: string) {
    HasBlank(s) ==> BlankEnd(s, 0) > 3
  }

  /** The head ends before an incomplete part of it can exceed the limit. */
  predicate HeadFits(s: string) {
    HasOddBlank(s) ==> OddBlankEnd(s, 0) <= MAX_HEADER_SIZE
  }

  predicate Fixed(r: Request) {
    !WithoutBody(r) && !r.chunkedRequest && r.contentSizeSet
  }

  /**
    The bytes `u` behind a head make a body that can be cut anywhere: none is expected, they are chunks without an
    empty size line, or their number is declared and not zero.
   */
  predicate BodyCanBeCut(u: string, r: Request) {
    || WithoutBody(r)
    || (r.chunkedRequest && !EmptySizeLine(u, r.decoder, r.clientMaxBodySize))
    || (Fixed(r) && r.contentLength > 0)
  }

  /** The head has settled how the body is read: not at all, by chunks, or by a declared length. */
  predicate HasKind(r: Request) {
    WithoutBody(r) || r.chunkedRequest || Fixed(r)
  }

  /** The body is read line by line. */
  predicate ReadsLines(r: Request) {
    !WithoutBody(r) && !Fixed(r) && !r.decoder.complete
  }

  /** The head of `s`, read and resolved. */
  function HeadOf(env: Env, s: string, r: Request): Parsed {
    Resolve(env, ParseHeader(env, s, r))
  }

  /** Once the head is there, and unless it is refused, the bytes behind it can be cut anywhere. */
  predicate Settled(env: Env, s: string, r: Request) {
    HasOddBlank(s) && HeadOf(env, s, r).error.None? ==>
      BodyCanBeCut(HeadOf(env, s, r).unread, HeadOf(env, s, r).request)
  }

  /** A body of declared length keeps only what its last delivery brought; everything else is compared. */
  function WithoutContent(p: Parsed): Parsed {
    if Fixed(p.request) then p.(request := p.request.(decoder := p.request.decoder.(body := ""))) else p
  }

  lemma HeaderMore(env: Env, s: string, t: string, r: Request)
    requires HasBlank(s) && OpensWithText(s)
    ensures ParseHeader(env, s + t, r) == ParseHeader(env, s, r).(unread := ParseHeader(env, s, r).unread + t)
    ensures ParseHeader(env, s, r).error.None? ==> ParseHeader(env, s, r).request.headerParseComplete
    ensures ParseHeader(env, s, r).request.decoder == r.decoder && ParseHeader(env, s, r).request.pathSet == r.pathSet
  {
    hide ReadStart, ReadFields, HasBlank, BlankEnd, HostAccepted, StripHostPort, DeclaredLength;
    HeadEndsAtBlank(s, r.head);
    StartMore(s, t);
    FieldsMore(ReadStart(s).unread, t, r.head);
  }

  predicate InBody(r: Request) {
    r.headerParseComplete && r.pathSet
  }

  /** A request whose body is complete takes no further byte. */
  lemma {:induction false} CompleteReceive(env: Env, s: string, r: Request, pieces: seq<string>)
    requires InBody(r) && r.decoder.complete
    ensures Receive(env, s, r, pieces) == Parsed(s + Join(pieces), r, None)
    decreases |pieces|
  {
    if pieces == [] {
      assert s + "" == s;
    } else {
      CompleteReceive(env, s + pieces[0], r, pieces[1..]);
      assert s + pieces[0] + Join(pieces[1..]) == s + (pieces[0] + Join(pieces[1..]));
    }
  }

  function FromFed(r: Request, f: Fed): Parsed {
    Parsed(f.unread, r.(decoder := f.decoder), f.error)
  }

  lemma ChunkedRead(env: Env, s: string, r: Request)
    requires InBody(r) && r.chunkedRequest && !WithoutBody(r)
    ensures Read(env, s, r) == FromFed(r, Body(s, r.decoder, r.clientMaxBodySize))
    ensures FinishBody(Parsed(s, r, None)) == FromFed(r, Body(s, r.decoder, r.clientMaxBodySize))
  {
    if s == "" {
      FeedNothing(s, r.decoder, r.clientMaxBodySize);
    }
    hide Feed, HasBlank;
  }

  /** In a chunked body the reads of a request are the deliveries of its decoder. */
  lemma {:induction false} ChunkedReceive(env: Env, s: string, r: Request, pieces: seq<string>)
    requires InBody(r) && r.chunkedRequest && !WithoutBody(r)
    ensures Receive(env, s, r, pieces) == FromFed(r, ChunkedCoding.Receive(s, r.decoder, pieces, r.clientMaxBodySize))
    decreases |pieces|
  {
    if pieces != [] {
      ChunkedRead(env, s + pieces[0], r);
      hide Read, Body, WithoutBody;
      var f := Body(s + pieces[0], r.decoder, r.clientMaxBodySize);
      if f.error.None? {
        SameMode(r, f.decoder);
        ChunkedReceive(env, f.unread, r.(decoder := f.decoder), pieces[1..]);
      }
    }
  }

  lemma SameMode(r: Request, d: Decoder)
    ensures WithoutBody(r.(decoder := d)) == WithoutBody(r)
    ensures Fixed(r.(decoder := d)) == Fixed(r)
  {
  }

  function ReaderOf(r: Request): FixedBody.Reader {
    FixedBody.Reader(r.decoder.body, r.decoder.bodyLength, r.decoder.complete)
  }

  function FromFixed(r: Request, f: FixedBody.Fed): Parsed {
    Parsed(f.unread, r.(decoder := r.decoder.(body := f.reader.body, bodyLength := f.reader.bodyLength,
      complete := f.reader.complete)), None)
  }

  lemma FixedRead(env: Env, s: string, r: Request)
    requires InBody(r) && Fixed(r)
    ensures r.contentLength <= r.clientMaxBodySize ==>
              Read(env, s, r) == FinishBody(Parsed(s, r, None)) ==
                FromFixed(r, FixedBody.Step(s, ReaderOf(r), r.contentLength))
    ensures r.contentLength > r.clientMaxBodySize && !r.decoder.complete ==>
              Read(env, s, r) == FinishBody(Parsed(s, r, None)) == Parsed(s, r, if s == "" then None else Some(413))
  {
    hide HasBlank;
  }

  /** In a body of declared length the reads of a request are the deliveries of its reader. */
  lemma {:induction false} FixedReceive(env: Env, s: string, r: Request, pieces: seq<string>)
    requires InBody(r) && Fixed(r) && r.contentLength <= r.clientMaxBodySize
    ensures Receive(env, s, r, pieces) == FromFixed(r, FixedBody.Receive(s, ReaderOf(r), pieces, r.contentLength))
    decreases |pieces|
  {
    if pieces != [] {
      FixedRead(env, s + pieces[0], r);
      hide Read, FixedBody.Step, Fixed;
      var p := FromFixed(r, FixedBody.Step(s + pieces[0], ReaderOf(r), r.contentLength));
      SameMode(r, p.request.decoder);
      FixedReceive(env, p.unread, p.request, pieces[1..]);
    }
  }

  /** A declared length beyond the limit is refused with the first bytes of the body. */
  lemma {:induction false} TooLongReceive(env: Env, r: Request, pieces: seq<string>)
    requires InBody(r) && Fixed(r) && r.contentLength > r.clientMaxBodySize && !r.decoder.complete
    ensures Receive(env, "", r, pieces) == Parsed(Join(pieces), r, if Join(pieces) == "" then None else Some(413))
    decreases |pieces|
  {
    if pieces != [] {
      assert "" + pieces[0] == pieces[0];
      FixedRead(env, pieces[0], r);
      if pieces[0] == "" {
        TooLongReceive(env, r, pieces[1..]);
        assert "" + Join(pieces[1..]) == Join(pieces[1..]);
      }
    }
  }

  /** The bytes behind the head come with the read that closed it, or later: for the body it makes no difference. */
  lemma BodyCuts(env: Env, u: string, r: Request, pieces: seq<string>)
    requires InBody(r) && !r.decoder.complete && r.decoder.bodyLength == 0
    requires BodyCanBeCut(u + Join(pieces), r)
    ensures var first := FinishBody(Parsed(u, r, None));
            WithoutContent(if first.error.Some? then first.(unread := first.unread + Join(pieces))
              else Receive(env, first.unread, first.request, pieces))
            == WithoutContent(FinishBody(Parsed(u + Join(pieces), r, None)))
  {
    if WithoutBody(r) {
      CompleteReceive(env, u, r.(decoder := r.decoder.(complete := true)), pieces);
    } else if r.chunkedRequest {
      ChunkedCuts(env, u, r, pieces);
    } else {
      FixedCuts(env, u, r, pieces);
    }
  }

  lemma FinishKeepsMode(s: string, r: Request)
    ensures var r' := FinishBody(Parsed(s, r, None)).request;
            && r' == r.(decoder := r'.decoder, firstNewLineFound := r'.firstNewLineFound)
            && WithoutBody(r') == WithoutBody(r) && Fixed(r') == Fixed(r)
  {
    hide Feed, FixedBody.Step, HasLine, FirstLine, AfterLine;
  }

  lemma ChunkedCuts(env: Env, u: string, r: Request, pieces: seq<string>)
    requires InBody(r) && !r.decoder.complete && !WithoutBody(r) && r.chunkedRequest
    requires !EmptySizeLine(u + Join(pieces), r.decoder, r.clientMaxBodySize)
    ensures var first := FinishBody(Parsed(u, r, None));
            (if first.error.Some? then first.(unread := first.unread + Join(pieces))
              else Receive(env, first.unread, first.request, pieces))
            == FinishBody(Parsed(u + Join(pieces), r, None))
  {
    var d, max := r.decoder, r.clientMaxBodySize;
    ChunkedRead(env, u, r);
    ChunkedRead(env, u + Join(pieces), r);
    var f := Body(u, d, max);
    PrependedPiece(u, d, pieces, max);
    SameMode(r, f.decoder);
    EveryCutAgrees("", d, [u] + pieces, max);
    if f.error.None? {
      ChunkedReceive(env, f.unread, r.(decoder := f.decoder), pieces);
    }
  }

  lemma PrependedPiece(u: string, d: Decoder, pieces: seq<string>, max: nat)
    ensures Join([u] + pieces) == u + Join(pieces) && "" + Join([u] + pieces) == u + Join(pieces)
    ensures var f := Body(u, d, max);
            ChunkedCoding.Receive("", d, [u] + pieces, max) ==
            if f.error.Some? then f.(unread := f.unread + Join(pieces))
            else ChunkedCoding.Receive(f.unread, f.decoder, pieces, max)
  {
    assert ([u] + pieces)[1..] == pieces && "" + u == u;
    hide Body;
  }

  lemma FixedCuts(env: Env, u: string, r: Request, pieces: seq<string>)
    requires InBody(r) && !r.decoder.complete && r.decoder.bodyLength == 0 && Fixed(r) && r.contentLength > 0
    ensures var first := FinishBody(Parsed(u, r, None));
            WithoutContent(if first.error.Some? then first.(unread := first.unread + Join(pieces))
              else Receive(env, first.unread, first.request, pieces))
            == WithoutContent(FinishBody(Parsed(u + Join(pieces), r, None)))
  {
    FixedRead(env, u, r);
    FixedRead(env, u + Join(pieces), r);
    hide FixedBody.Step, FinishBody, Receive, Read;
    if r.contentLength > r.clientMaxBodySize {
      if u == "" {
        TooLongReceive(env, r, pieces);
        assert "" + Join(pieces) == Join(pieces);
      }
    } else {
      FixedWithin(env, u, r, pieces);
    }
  }

  lemma FixedWithin(env: Env, u: string, r: Request, pieces: seq<string>)
    requires InBody(r) && !r.decoder.complete && r.decoder.bodyLength == 0 && Fixed(r) &&
             0 < r.contentLength <= r.clientMaxBodySize
    ensures var p := FromFixed(r, FixedBody.Step(u, ReaderOf(r), r.contentLength));
            WithoutContent(Receive(env, p.unread, p.request, pieces)) ==
            WithoutContent(FromFixed(r, FixedBody.Step(u + Join(pieces), ReaderOf(r), r.contentLength)))
  {
    var n := r.contentLength;
    var p := FromFixed(r, FixedBody.Step(u, ReaderOf(r), n));
    SameMode(r, p.request.decoder);
    FixedReceive(env, p.unread, p.request, pieces);
    FixedPrepended(u, ReaderOf(r), pieces, n);
    FixedBody.TakesTheMissing(ReaderOf(r), [u] + pieces, n);
    FixedBody.TakesTheMissing(ReaderOf(r), [u + Join(pieces)], n);
    hide FixedBody.Step, FixedBody.Receive, Receive, Join, Min;
    SameMode(r, FromFixed(r, FixedBody.Receive("", ReaderOf(r), [u] + pieces, n)).request.decoder);
    SameMode(r, FromFixed(r, FixedBody.Step(u + Join(pieces), ReaderOf(r), n)).request.decoder);
    hide Fixed;
  }

  /**
    The content that is left out of the comparison, exactly: with `u` behind the head and `pieces` to come, the body is
    the declared bytes if and only if the first read that brings any of them brings them all.
   */
  lemma ContentIffFirstRead(env: Env, u: string, r: Request, pieces: seq<string>)
    requires InBody(r) && Fixed(r) && r.decoder == FRESH && 0 < r.contentLength <= r.clientMaxBodySize
    requires r.contentLength <= |u + Join(pieces)|
    ensures var first := FinishBody(Parsed(u, r, None));
            first.error.None? &&
            var p := Receive(env, first.unread, first.request, pieces);
            p.request.decoder.body == (u + Join(pieces))[..r.contentLength] <==>
            |FixedBody.FirstArrival([u] + pieces)| >= r.contentLength
  {
    var p := FromFixed(r, FixedBody.Step(u, ReaderOf(r), r.contentLength));
    SameMode(r, p.request.decoder);
    FixedRead(env, u, r);
    FixedReceive(env, p.unread, p.request, pieces);
    FixedPrepended(u, ReaderOf(r), pieces, r.contentLength);
    hide FixedBody.Step, FixedBody.Receive, Receive, Join, FixedBody.FirstArrival, FinishBody;
    FixedBody.ContentIffFirstArrival([u] + pieces, r.contentLength);
  }

  lemma FixedPrepended(u: string, rd: FixedBody.Reader, pieces: seq<string>, n: nat)
    ensures Join([u] + pieces) == u + Join(pieces) == Join([u + Join(pieces)])
    ensures var f := FixedBody.Step(u, rd, n);
            FixedBody.Receive("", rd, [u] + pieces, n) == FixedBody.Receive(f.unread, f.reader, pieces, n)
    ensures FixedBody.Receive("", rd, [u + Join(pieces)], n) == FixedBody.Step(u + Join(pieces), rd, n)
  {
    var v := u + Join(pieces);
    assert ([u] + pieces)[1..] == pieces && [v][1..] == [];
    assert "" + u == u && "" + v == v;
    JoinSingle(v);
    var f := FixedBody.Step(v, rd, n);
    assert FixedBody.Receive("", rd, [v], n) == FixedBody.Receive(f.unread, f.reader, [], n);
    hide FixedBody.Step;
  }

  /**
    Before the blank line is complete nothing happens, neither to the request nor to the bytes; only their number is
    checked.
   */
  lemma {:induction false} HeaderWaits(env: Env, s: string, r: Request, pieces: seq<string>)
    requires !r.headerParseComplete && !HasOddBlank(s + Join(pieces)) && |s| <= MAX_HEADER_SIZE
    ensures Receive(env, s, r, pieces) ==
            Parsed(s + Join(pieces), r, if |s + Join(pieces)| > MAX_HEADER_SIZE then Some(413) else None)
    decreases |pieces|
  {
    if pieces == [] {
      assert s + "" == s;
    } else {
      var t := s + pieces[0];
      assert s + Join(pieces) == t + Join(pieces[1..]);
      if HasOddBlank(t) {
        OddBlankMore(t, Join(pieces[1..]));
      }
      hide HasOddBlank;
      if |t| <= MAX_HEADER_SIZE {
        HeaderWaits(env, t, r, pieces[1..]);
      }
    }
  }

  /** A head passes the size check at every point where it can be cut exactly when it fits. */
  lemma HeadPassesIffItFits(env: Env, s: string, r: Request)
    requires HasOddBlank(s) && !r.headerParseComplete
    ensures (forall k :: 0 <= k <= |s| && !HasOddBlank(s[..k]) ==> Read(env, s[..k], r).error.None?) <==> HeadFits(s)
  {
    var e := OddBlankEnd(s, 0);
    forall k | 0 <= k <= |s| ensures HasOddBlank(s[..k]) <==> k > e {
      OddBlankOfPrefix(s, k);
    }
    hide HasOddBlank, ParseHeader, FinishBody, Resolve;
    assert |s[..e]| == e;
    assert e > MAX_HEADER_SIZE ==> Read(env, s[..e], r).error.Some?;
  }

  /**
    Segmentation independence of whole requests: however the stream is cut into reads, the outcome is that of one
    read.
   */
  lemma {:induction false} RequestCuts(env: Env, s: string, r: Request, pieces: seq<string>)
    requires !r.headerParseComplete && !r.pathSet && !r.decoder.complete && r.decoder.bodyLength == 0
    requires !HasOddBlank(s) && |s| <= MAX_HEADER_SIZE && OpensWithText(s + Join(pieces)) && HeadFits(s + Join(pieces))
    requires Settled(env, s + Join(pieces), r)
    ensures WithoutContent(Receive(env, s, r, pieces)) == WithoutContent(Read(env, s + Join(pieces), r))
    decreases |pieces|
  {
    if pieces == [] {
      assert s + Join(pieces) == s;
    } else {
      var t, rest := s + pieces[0], Join(pieces[1..]);
      assert s + Join(pieces) == t + rest;
      if HasOddBlank(t) {
        OddBlankMore(t, rest);
        TextInFront(t, rest);
        HeadThenBody(env, t, r, pieces[1..]);
      } else if |t| <= MAX_HEADER_SIZE {
        hide Settled;
        RequestCuts(env, t, r, pieces[1..]);
      } else {
        NoBlankInFront(t, rest);
      }
    }
  }

  lemma TextInFront(t: string, rest: string)
    requires HasOddBlank(t) && OpensWithText(t + rest)
    ensures HasBlank(t) && OpensWithText(t)
  {
    OddBlankIsBlank(t);
    assert (t + rest)[..|t|] == t;
    BlankOfPrefix(t + rest, |t|);
    assert IsBlankEnd(t, BlankEnd(t, 0)) ==> IsBlankEnd(t + rest, BlankEnd(t, 0));
  }

  /**
    The start line is there whenever the gate opens, at every front of a stream, exactly when the stream does not open
    with a blank line or holds none that the gate sees.
   */
  lemma StartLineIsThereIff(s: string)
    ensures (forall n :: 0 <= n <= |s| && HasOddBlank(s[..n]) ==> ReadStart(s[..n]).line != "") <==>
            (HasOddBlank(s) ==> OpensWithText(s))
  {
    hide HasOddBlank, ReadStart, OpensWithText;
    if HasOddBlank(s) {
      if OpensWithText(s) {
        forall n | 0 <= n <= |s| && HasOddBlank(s[..n]) ensures ReadStart(s[..n]).line != "" {
          assert s == s[..n] + s[n..];
          TextInFront(s[..n], s[n..]);
          StartIsThere(s[..n]);
        }
      } else {
        BlankFirst(s);
        assert s[..4] == "\r\n\r\n";
        NoStartLine();
      }
    } else {
      NoneInFront(s);
    }
  }

  lemma NoneInFront(s: string)
    requires !HasOddBlank(s)
    ensures forall n :: 0 <= n <= |s| ==> !HasOddBlank(s[..n])
  {
    forall n | 0 <= n <= |s| ensures !HasOddBlank(s[..n]) {
      OddBlankOfPrefix(s, n);
    }
  }

  lemma StartIsThere(s: string)
    requires HasBlank(s) && OpensWithText(s)
    ensures ReadStart(s).line != ""
  {
    hide HasBlank, ReadStart;
    HeadEndsAtBlank(s, NEW_REQUEST.head);
  }

  lemma BlankFirst(s: string)
    requires HasOddBlank(s) && !OpensWithText(s)
    ensures |s| >= 4 && s[..4] == "\r\n\r\n" && HasOddBlank(s[..4])
  {
    var e := BlankEnd(s, 0);
    assert IsLineEnd(s, e) && IsLineEnd(s, e - 2);
    var t := "\r\n\r\n";
    assert t[..1] == "\r" && "\r"[..0] == "" && TrailingCRs("\r") == 1;
    assert IsOddBlankEnd(t, 3);
  }

  lemma NoStartLine()
    ensures ReadStart("\r\n\r\n") == StartRead("", "")
  {
    LineOf("", "\r\n");
    LineOf("", "");
    assert "\r\n\r\n" == "" + "\r\n" + "\r\n" && "\r\n" == "" + "\r\n" + "" && !HasLine("");
    hide HasLine, FirstLine, AfterLine;
  }

  /** The input: behind a blank line the head counts as read, and nothing of it has been. */
  lemma BlankLinePassesForHead(env: Env)
    ensures HasOddBlank("\r\n\r\n")
    ensures ParseHeader(env, "\r\n\r\n", NEW_REQUEST) == Parsed("", NEW_REQUEST.(headerParseComplete := true), None)
  {
    var t := "\r\n\r\n";
    assert t[..1] == "\r" && "\r"[..0] == "" && TrailingCRs("\r") == 1;
    assert IsOddBlankEnd(t, 3);
    NoStartLine();
    assert ReadFields("", NEW_REQUEST.head) == HeadRead("", NEW_REQUEST.head, NoLine) by { assert !HasLine(""); }
    hide ReadStart, ReadFields;
  }

  /** A stream whose first bytes hold no odd blank line, and are too many, holds none that comes early enough. */
  lemma NoBlankInFront(t: string, rest: string)
    requires !HasOddBlank(t) && |t| > MAX_HEADER_SIZE && HeadFits(t + rest)
    ensures !HasOddBlank(t + rest)
  {
    assert (t + rest)[..|t|] == t;
    OddBlankOfPrefix(t + rest, |t|);
  }

  lemma HeadSizeChecked(p: Parsed)
    requires p.error.Some? || p.request.headerParseComplete
    ensures CheckHeadSize(FinishBody(p)) == FinishBody(p)
  {
    if p.error.None? {
      assert p == Parsed(p.unread, p.request, None);
      FinishKeepsMode(p.unread, p.request);
    }
    hide ParseBody;
  }

  lemma HeadThenBody(env: Env, t: string, r: Request, pieces: seq<string>)
    requires !r.headerParseComplete && !r.pathSet && !r.decoder.complete && r.decoder.bodyLength == 0
    requires HasOddBlank(t) && HasBlank(t) && OpensWithText(t) && HasOddBlank(t + Join(pieces))
    requires Settled(env, t + Join(pieces), r)
    ensures var p := Read(env, t, r);
            WithoutContent(if p.error.Some? then p.(unread := p.unread + Join(pieces))
              else Receive(env, p.unread, p.request, pieces))
            == WithoutContent(Read(env, t + Join(pieces), r))
  {
    var rest := Join(pieces);
    HeadOfMore(env, t, rest, r);
    hide HasOddBlank, HasBlank, HeadOf, Read, Receive, Join;
    var q := HeadOf(env, t, r);
    if q.error.None? {
      assert q == Parsed(q.unread, q.request, None);
      BodyCuts(env, q.unread, q.request, pieces);
    }
  }

  /** Once the blank line is there, later bytes stay behind the head, and reading means: the head, then the body. */
  lemma HeadOfMore(env: Env, t: string, rest: string, r: Request)
    requires !r.headerParseComplete && !r.pathSet && HasOddBlank(t) && HasBlank(t) && OpensWithText(t) &&
             HasOddBlank(t + rest)
    ensures var q := HeadOf(env, t, r);
            && HeadOf(env, t + rest, r) == q.(unread := q.unread + rest)
            && (q.error.None? ==> InBody(q.request) && q.request.decoder == r.decoder)
            && (q.error.Some? ==>
                  FinishBody(q) == q &&
                  FinishBody(q.(unread := q.unread + rest)) == q.(unread := q.unread + rest))
            && Read(env, t, r) == FinishBody(q)
            && Read(env, t + rest, r) == FinishBody(q.(unread := q.unread + rest))
  {
    HeaderMore(env, t, rest, r);
    var h := ParseHeader(env, t, r);
    var q := HeadOf(env, t, r);
    assert t != "" && t + rest != "" by { hide OddBlankEnd; assert !HasOddBlank(""); }
    ResolveMore(env, h, rest);
    hide HasBlank, ParseHeader, Resolve, OddBlankEnd, HasOddBlank;
    HeadSizeChecked(q);
    HeadSizeChecked(q.(unread := q.unread + rest));
    hide FinishBody;
    assert Read(env, t, r) == FinishBody(q);
    assert Read(env, t + rest, r) == FinishBody(q.(unread := q.unread + rest));
    if q.error.Some? {
      FailedFinishes(q);
      FailedFinishes(q.(unread := q.unread + rest));
    }
  }

  lemma FailedFinishes(p: Parsed)
    requires p.error.Some?
    ensures FinishBody(p) == p
  {
  }

  lemma ResolveMore(env: Env, p: Parsed, rest: string)
    ensures Resolve(env, p.(unread := p.unread + rest)) == Resolve(env, p).(unread := Resolve(env, p).unread + rest)
    ensures Resolve(env, p).request.decoder == p.request.decoder &&
            Resolve(env, p).request.headerParseComplete == p.request.headerParseComplete
    ensures Resolve(env, p).error.None? ==> Resolve(env, p).request.pathSet
  {
  }

  /** The same for a fresh request on an empty buffer. */
  lemma RequestSegmentation(env: Env, pieces: seq<string>)
    requires OpensWithText(Join(pieces)) && HeadFits(Join(pieces)) && Settled(env, Join(pieces), NEW_REQUEST)
    ensures WithoutContent(Receive(env, "", NEW_REQUEST, pieces)) ==
            WithoutContent(Read(env, Join(pieces), NEW_REQUEST))
  {
    assert "" + Join(pieces) == Join(pieces);
    RequestCuts(env, "", NEW_REQUEST, pieces);
  }

  // ---------- a gate that is open too early ----------

  lemma HeadCountsAsRead(env: Env, s: string, r: Request)
    ensures var p := Resolve(env, ParseHeader(env, s, r)); p.error.Some? || p.request.headerParseComplete
  {
    hide ReadStart, ReadFields, HostAccepted, StripHostPort, DeclaredLength, Env.startLine;
  }

  lemma FinishedStays(p: Parsed)
    ensures p.error.Some? ==> FinishBody(p) == p
    ensures FinishBody(p).request.headerParseComplete == p.request.headerParseComplete
  {
    if p.error.None? {
      assert p == Parsed(p.unread, p.request, None);
      FinishKeepsMode(p.unread, p.request);
    }
    hide ParseBody;
  }

  /** An open gate does no harm exactly when the head is there: otherwise what there is of it counts as read. */
  lemma OpenGateHarmlessIff(env: Env, s: string, r: Request)
    requires !r.headerParseComplete
    ensures Parse(env, true, s, r) == Parse(env, HasOddBlank(s), s, r) <==> HasOddBlank(s)
  {
    hide ParseHeader, Resolve, FinishBody, HasOddBlank;
    if !HasOddBlank(s) {
      HeadCountsAsRead(env, s, r);
      FinishedStays(Resolve(env, ParseHeader(env, s, r)));
    }
  }

  // ---------- bodies with neither length nor chunking ----------

  /** A body that is read up to a line end: from one delivery the first line is the body, and a second line ends it. */
  lemma LinesEndBody(a: string, b: string, rest: string, r: Request)
    requires !HasLine(a) && !HasLine(b) && r.decoder == FRESH && !r.firstNewLineFound && |a| < SIZE_LIMIT
    ensures AddUntilNewline(a + "\r\n" + (b + "\r\n" + rest), r) ==
            Parsed(rest, r.(firstNewLineFound := true,
                            decoder := FRESH.(body := a, bodyLength := |a|, complete := true)), None)
    ensures AddUntilNewline(a + "\r\n" + b, r) ==
            Parsed(b, r.(firstNewLineFound := true, decoder := FRESH.(body := a, bodyLength := |a|)), None)
  {
    LineOf(a, b + "\r\n" + rest);
    LineOf(b, rest);
    LineOf(a, b);
    assert "" + a == a;
    hide HasLine, FirstLine, AfterLine;
  }

  /** The input: bytes that come before their line end are replaced by the next ones, and their number is not kept. */
  lemma BytesAreReplaced(r: Request)
    requires r.decoder == FRESH && !r.firstNewLineFound
    ensures var one := AddUntilNewline("a", r);
            var two := AddUntilNewline("b", one.request);
            two.unread == "" && two.request.decoder.body == "b" && two.request.decoder.bodyLength == 0
  {
  }
}
