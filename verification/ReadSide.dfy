/** The reading half of a client: socket reads go into the buffer and the request is parsed as far as they reach. */
module ReadSide {
  import opened Text
  import opened Wrappers
  import opened Numbers
  import opened NewlineScan
  import opened BlankLines
  import opened SegmentedBuffer
  import opened Headers
  import opened ChunkedCoding
  import opened ChunkedEndings
  import opened RequestModel
  import opened RequestParser
  import opened LateLines
  import opened Grains
  import opened PrintedRequests
  import opened ReadRuns
  import opened PrintedRuns
  import opened GrainRuns

  class ClientReader {
    const readBuffer: Buffer
    const request: HttpRequest

    constructor ()
      ensures fresh(readBuffer) && fresh(request)
      ensures Waits() && readBuffer.Contents() == "" && readBuffer.history == "" && request.Now() == NEW_REQUEST
    {
      readBuffer := new Buffer();
      request := new HttpRequest();
    }

    /** The buffer is sound, and before a head is read nothing has been removed from it. */
    ghost predicate Waits()
      reads readBuffer, request
    {
      readBuffer.Valid() && (!request.headerParseComplete ==> request.Unset() && readBuffer.Now().Untouched())
    }

    /** One call of the read callback with the bytes the socket gave. */
    method ReadCb(env: Env, data: string) returns (error: Option<nat>)
      requires Waits()
      modifies readBuffer, request
      ensures readBuffer.history == old(readBuffer.history) + data
      ensures old(HeadComes(data)) ==>
                ReadStep(env, readBuffer.history, old(readBuffer.Contents()) + data, old(request.Now()),
                         readBuffer.Contents(), request.Now(), error)
      ensures old(CanRead(env, readBuffer.history + data, readBuffer.epoch, readBuffer.Contents() + data,
                          request.Now())) ==>
                Parsed(readBuffer.Contents(), request.Now(), error) ==
                Read(env, old(readBuffer.Contents()) + data, old(request.Now()))
      ensures readBuffer.Valid() && (error.None? ==> Waits())
      ensures error.None? && !request.headerParseComplete ==>
                readBuffer.epoch == old(readBuffer.epoch) && !old(request.headerParseComplete)
      ensures old(request.headerParseComplete && request.chunkedRequest) ==>
                GrainStep(WithItem(old(readBuffer.Now()), data), readBuffer.Now())
    {
      hide Read, RequestModel.Parse, HasOddBlank, HeadReadable, HasKind, ReadsLines, AgreesBehind, StartsPlain, Agrees;
      hide State.Valid, State.Untouched, State.Contents, ParseStep, ReadStep, OpensWithText, WithItem, GrainStep;
      NoStep(WithItem(readBuffer.Now(), data));
      ghost var s, r := readBuffer.Contents() + data, request.Now();
      GateOnlyForHeader(env, s, r);
      readBuffer.Add(data);
      var size := readBuffer.Size();
      if size == 0 {
        NothingRead(env, readBuffer.history, s, r);
        return None;
      }
      error := request.Parse(env, readBuffer);
      size := readBuffer.Size();
      if old(HeadComes(data)) {
        ParseIsReadStep(env, readBuffer.history, s, r, readBuffer.Contents(), request.Now(), error);
      }
      if error.None? && !request.headerParseComplete && size > MAX_HEADER_SIZE {
        return Some(413);
      }
    }

    /** The head has been read, or it will stand in front with `data` behind what there is of it. */
    ghost predicate HeadComes(data: string)
      reads readBuffer, request
    {
      request.headerParseComplete ||
      ((readBuffer.epoch == 0 || StartsPlain(readBuffer.Contents() + data)) &&
       (HasOddBlank(readBuffer.Contents() + data) ==> OpensWithText(readBuffer.Contents() + data)))
    }

    /**
      The reads of one request, as the poll loop makes them. However a cuttable stream is cut into reads, request and
      unread bytes come out as they would from one read of everything, and no state on the way has a larger body.
     */
    method ReceiveAll(env: Env, pieces: seq<string>)
      returns (error: Option<nat>, ghost undelivered: string, ghost trace: seq<Request>)
      requires readBuffer.Valid() && readBuffer.Contents() == "" && request.Now() == NEW_REQUEST
      requires Cuttable(env, Join(pieces)) && (readBuffer.history == "" || StartsPlain(Join(pieces)))
      modifies readBuffer, request
      ensures Arrives(env, Join(pieces), readBuffer.Contents() + undelivered, request.Now(), error)
      ensures readBuffer.Valid() && (error.None? ==> undelivered == "" && Waits() && |trace| == |pieces|)
      ensures forall k :: 0 <= k < |trace| && InChunks(trace[k]) ==>
                |trace[k].decoder.body| <= |Target(env, Join(pieces)).decoder.body|
      ensures readBuffer.history + undelivered == old(readBuffer.history) + Join(pieces)
    {
      hide Cuttable, Arrives, CanRead, ReadStep, Stands, LeadsTo, StartsPlain, OpensWithText, Join, InChunks, Target;
      hide State.Valid, State.Contents, HasOddBlank;
      error, undelivered, trace := None, "", [];
      ghost var start := readBuffer.history;
      EmptyIsUntouched(readBuffer.Now());
      RunStarts(env, start, pieces);
      for i := 0 to |pieces|
        invariant error.None? && undelivered == "" && |trace| == i
        invariant Waits()
        invariant readBuffer.history == start + Join(pieces[..i])
        invariant !request.headerParseComplete ==> readBuffer.epoch == |start|
        invariant Stands(env, start, Join(pieces[..i]), Join(pieces[i..]), readBuffer.Contents(), request.Now())
        invariant LeadsTo(env, pieces, i, readBuffer.Contents(), request.Now())
        invariant forall k :: 0 <= k < i && InChunks(trace[k]) ==>
                    |trace[k].decoder.body| <= |Target(env, Join(pieces)).decoder.body|
      {
        ghost var s, r := readBuffer.Contents(), request.Now();
        PiecesSoFar(start, pieces, i);
        HeadCanCome(env, start, Join(pieces[..i]), pieces[i], Join(pieces[i + 1..]), s, r);
        error := ReadCb(env, pieces[i]);
        OneRead(env, start, pieces, i, s, r, readBuffer.Contents(), request.Now(), error);
        if error.Some? {
          undelivered := Join(pieces[i + 1..]);
          return;
        }
        BodyIsWithinAt(env, start, pieces, i + 1, readBuffer.Contents(), request.Now());
        trace := trace + [request.Now()];
      }
      RunEnds(env, start, pieces, readBuffer.Contents(), request.Now());
    }

    /**
      The body behind a head, cut into grains. The run ends as a single delivery does if and only if a counted line end
      stands where that one stops, or behind: for this cut, what `ReceiveAll` asks for every cut is exact.
     */
    method ReceiveGrains(env: Env, pieces: seq<string>) returns (error: Option<nat>, ghost undelivered: string)
      requires readBuffer.Valid() && readBuffer.Contents() == ""
      requires InChunks(request.Now()) && request.pathSet && !request.bodyComplete
      requires forall k :: 0 <= k < |pieces| ==> IsGrain(pieces[k])
      requires !Stalled(Feed(Join(pieces), request.DecoderNow(), request.clientMaxBodySize))
      modifies readBuffer, request
      ensures GrainsEnd(old(readBuffer.history),
                        Feed(Join(pieces), old(request.DecoderNow()), old(request.clientMaxBodySize)), Join(pieces),
                        readBuffer.Contents() + undelivered, request.DecoderNow(), error)
      ensures request.Now() == old(request.Now()).(decoder := request.DecoderNow())
    {
      hide State.Valid, State.Contents, WithItem, ReadStep, GrainStep, InGrains, GrainsEnd, Stalled, Feed, IsGrain;
      hide Join, WithoutBody;
      error, undelivered := None, "";
      ghost var start, d, max := readBuffer.history, request.DecoderNow(), request.clientMaxBodySize;
      ghost var target := Feed(Join(pieces), d, max);
      GrainsBegin(readBuffer.Now(), target, Join(pieces), d, max);
      PiecesAtEnds(pieces);
      for i := 0 to |pieces|
        invariant error.None? && undelivered == "" && readBuffer.Valid()
        invariant readBuffer.history == start + Join(pieces[..i])
        invariant request.Now() == old(request.Now()).(decoder := request.DecoderNow())
        invariant InChunks(request.Now())
        invariant InGrains(start, target, Join(pieces[..i]), Join(pieces[i..]), readBuffer.Now(), request.DecoderNow(),
                           max)
      {
        ghost var b, r := readBuffer.Now(), request.Now();
        PiecesSoFar(start, pieces, i);
        error := ReadCb(env, pieces[i]);
        GrainRead(env, start, target, Join(pieces[..i]), pieces[i], Join(pieces[i + 1..]), b, r, readBuffer.Now(),
          request.Now(), error);
        DecoderOnly(r, request.Now());
        if error.Some? {
          undelivered := Join(pieces[i + 1..]);
          return;
        }
      }
      GrainsDelivered(start, target, Join(pieces), readBuffer.Now(), request.DecoderNow(), max);
    }

    /**
      A new connection gets a head in one piece and its chunked body in grains. The outcome is that of one read if and
      only if the body is counted: of all that `ReceiveAll` asks of a stream, this is what the line counts cost.
     */
    method ReceiveHeadThenGrains(env: Env, head: string, pieces: seq<string>)
      returns (error: Option<nat>, ghost undelivered: string)
      requires readBuffer.Valid() && readBuffer.history == "" && request.Now() == NEW_REQUEST
      requires HasChunks(env, head) && HeadOf(env, head, NEW_REQUEST).unread == ""
      requires Divisible(env, head + Join(pieces)) && forall k :: 0 <= k < |pieces| ==> IsGrain(pieces[k])
      modifies readBuffer, request
      ensures Arrives(env, head + Join(pieces), readBuffer.Contents() + undelivered, request.Now(), error) <==>
              BodyIsCounted(env, head + Join(pieces))
    {
      hide Join, IsGrain, Divisible, HeadOf, Feed, Stalled, State.Valid, State.Contents, ReadStep, WithoutContent, Due;
      hide HasChunks, InChunks, BodyIsCounted, Target, Read;
      NewIsEmpty(readBuffer.Now());
      HeadInsight(env, head, Join(pieces));
      error := ReadCb(env, head);
      HeadAlone(env, head, readBuffer.Contents(), request.Now(), error);
      error, undelivered := ReceiveGrains(env, pieces);
      ArrivesIff(env, head, Join(pieces), readBuffer.Contents() + undelivered, request.Now(), error);
    }

    /**
      Requests one after the other on the same connection, the next one sent when the one before has been answered.
      Whatever has gone through the buffer, each comes out as from one read on a fresh connection.
     */
    method ReceiveRequests(env: Env, streams: seq<seq<string>>) returns (ghost requests: seq<Request>)
      requires readBuffer.Valid() && readBuffer.Contents() == "" && request.Now() == NEW_REQUEST
      requires forall k :: 0 <= k < |streams| ==> OneRequest(env, Join(streams[k]))
      modifies readBuffer, request
      ensures readBuffer.Valid() && readBuffer.Contents() == "" && request.Now() == NEW_REQUEST
      ensures |requests| == |streams|
      ensures forall k :: 0 <= k < |streams| ==>
                WithoutContent(Parsed("", requests[k], None)) ==
                  WithoutContent(Read(env, Join(streams[k]), NEW_REQUEST))
    {
      hide Read, Cuttable, WithoutContent, StartsPlain, Join, State.Valid, State.Contents;
      requests := [];
      for k := 0 to |streams|
        invariant readBuffer.Valid() && readBuffer.Contents() == "" && request.Now() == NEW_REQUEST
        invariant |requests| == k
        invariant forall j :: 0 <= j < k ==>
                    WithoutContent(Parsed("", requests[j], None)) ==
                      WithoutContent(Read(env, Join(streams[j]), NEW_REQUEST))
      {
        ghost var undelivered, trace;
        var error;
        error, undelivered, trace := ReceiveAll(env, streams[k]);
        SameButContent(Parsed(readBuffer.Contents() + undelivered, request.Now(), error),
          Read(env, Join(streams[k]), NEW_REQUEST));
        requests := requests + [request.Now()];
        request.Clear();
      }
    }

    /**
      A request with an encoded body: the chunked round trip through the segmented buffer, for every cut and any bytes
      behind, whatever the line counts; no state on the way has a body above the limit.
     */
    method ReceiveEncoded(env: Env, pieces: seq<string>, ghost line: string, ghost m: Fields, ghost max: nat,
                          ghost chunks: seq<string>, ghost rest: string)
      returns (error: Option<nat>, ghost undelivered: string, ghost trace: seq<Request>)
      requires readBuffer.Valid() && readBuffer.Contents() == "" && request.Now() == NEW_REQUEST
      requires IsChunked(env, line, m, max) && forall i :: 0 <= i < |chunks| ==> Plain(chunks[i])
      requires Join(pieces) == PrintedHead(line, m) + (Encode(chunks) + Chunk("") + rest)
      modifies readBuffer, request
      ensures IsEncodedOutcome(env, line, Parsed(readBuffer.Contents() + undelivered, request.Now(), error), m, chunks,
                               rest, max)
      ensures forall k :: 0 <= k < |trace| && InChunks(trace[k]) ==> |trace[k].decoder.body| <= max
    {
      hide Join, Chunk, Encode, Plain, PrintedHead, WithHead, Read, Cuttable, InChunks, Target;
      hide StartsPlain, State.Valid, State.Contents;
      EncodedLeadsTo(env, line, m, max, chunks, rest);
      error, undelivered, trace := ReceiveAll(env, pieces);
      OutcomeIs(env, line, Parsed(readBuffer.Contents() + undelivered, request.Now(), error),
        Read(env, Join(pieces), NEW_REQUEST), m, chunks, rest, max);
      TargetIsWithin(env, line, m, max, chunks, rest);
    }

    /**
      A request with a chunked body of any kind: what comes out is told by the pairs of lines the body is made of.
     */
    method ReceiveChunked(env: Env, pieces: seq<string>, ghost line: string, ghost m: Fields, ghost max: nat,
                          ghost body: string)
      returns (error: Option<nat>, ghost undelivered: string)
      requires readBuffer.Valid() && readBuffer.Contents() == "" && request.Now() == NEW_REQUEST
      requires IsChunked(env, line, m, max) && |body| < SIZE_LIMIT && !EmptySizeLine(body, FRESH, max)
      requires Due(PrintedHead(line, m) + body, body, |Feed(body, FRESH, max).unread|, 0)
      requires Join(pieces) == PrintedHead(line, m) + body
      modifies readBuffer, request
      ensures Carries(env, line, m, request.start, request.HeadNow()) && request.contentLength == 0
      ensures DecodedTo(body, FRESH, max, Fed(readBuffer.Contents() + undelivered, request.DecoderNow(), error))
    {
      hide Join, PrintedHead, WithHead, Read, Cuttable, InChunks, Carries, DecodedTo, Feed, Due, EmptySizeLine;
      hide StartsPlain, State.Valid, State.Contents, IsChunked;
      ChunkedLeadsTo(env, line, m, max, body);
      ghost var trace;
      error, undelivered, trace := ReceiveAll(env, pieces);
      SameButContent(Parsed(readBuffer.Contents() + undelivered, request.Now(), error),
        Read(env, Join(pieces), NEW_REQUEST));
    }

    /**
      A request without body: the header round trip through the segmented buffer, for every cut and any bytes behind.
     */
    method ReceiveHead(env: Env, pieces: seq<string>, ghost line: string, ghost m: Fields, ghost max: nat,
                       ghost rest: string)
      returns (error: Option<nat>, ghost undelivered: string)
      requires readBuffer.Valid() && readBuffer.Contents() == "" && request.Now() == NEW_REQUEST
      requires IsBodyless(env, line, m, max)
      requires Join(pieces) == PrintedHead(line, m) + rest
      modifies readBuffer, request
      ensures error.None? && readBuffer.Contents() == rest
      ensures Carries(env, line, m, request.start, request.HeadNow()) && request.bodyComplete
    {
      hide Join, PrintedHead, WithHead, WithoutContent, IsBodyless, Read, Cuttable, StartsPlain, Carries;
      hide State.Valid, State.Contents;
      HeadLeadsTo(env, line, m, max, rest);
      ghost var trace;
      error, undelivered, trace := ReceiveAll(env, pieces);
      SameButContent(Parsed(readBuffer.Contents() + undelivered, request.Now(), error),
        Read(env, Join(pieces), NEW_REQUEST));
      assert readBuffer.Contents() + "" == readBuffer.Contents();
    }

    /**
      A head that is refused, for every cut and any bytes behind: whether for its start line, its Host or its location.
     */
    method ReceiveRefused(env: Env, pieces: seq<string>, ghost line: string, ghost m: Fields, ghost code: nat,
                          ghost rest: string)
      returns (error: Option<nat>, ghost undelivered: string)
      requires readBuffer.Valid() && readBuffer.Contents() == "" && request.Now() == NEW_REQUEST
      requires IsRefused(env, line, m, code)
      requires Join(pieces) == PrintedHead(line, m) + rest
      modifies readBuffer, request
      ensures error == Some(code)
      ensures readBuffer.Contents() + undelivered ==
              if env.startLine(line).None? then PrintFields(m) + "\r\n" + rest else rest
    {
      hide Join, PrintedHead, WithoutContent, Read, Cuttable, StartsPlain, IsRefused, Env.startLine, PrintFields;
      hide State.Valid, State.Contents;
      RefusedHeadLeadsTo(env, line, m, code, rest);
      ghost var trace;
      error, undelivered, trace := ReceiveAll(env, pieces);
      SameButContent(Parsed(readBuffer.Contents() + undelivered, request.Now(), error),
        Read(env, Join(pieces), NEW_REQUEST));
    }

    /** A line among those of the head that is no header line: the answer is 400, for every cut. */
    method ReceiveBadLine(env: Env, pieces: seq<string>, ghost line: string, ghost m: Fields, ghost bad: string,
                          ghost rest: string)
      returns (error: Option<nat>, ghost undelivered: string)
      requires readBuffer.Valid() && readBuffer.Contents() == "" && request.Now() == NEW_REQUEST
      requires IsHead(line, m) && env.startLine(line).Some?
      requires bad != "" && !HasLine(bad) && ParseLine(bad).None?
      requires HasOddBlank(Join(pieces)) && HeadFits(Join(pieces))
      requires Join(pieces) == HeadWithBadLine(line, m, bad, rest)
      modifies readBuffer, request
      ensures error == Some(400) && readBuffer.Contents() + undelivered == rest
    {
      hide Join, HeadWithBadLine, WithoutContent, Read, Cuttable, StartsPlain, HasLine, ParseLine, IsHead;
      hide HasOddBlank, HeadFits, Env.startLine, State.Valid, State.Contents;
      BadLineLeadsTo(env, line, m, bad, rest);
      ghost var trace;
      error, undelivered, trace := ReceiveAll(env, pieces);
      SameButContent(Parsed(readBuffer.Contents() + undelivered, request.Now(), error),
        Read(env, Join(pieces), NEW_REQUEST));
    }

    /**
      A request with a body of declared length: that many bytes leave, or as many as have come, for every cut and any
      bytes. A length beyond the limit is refused with the first byte of the body.
     */
    method ReceiveSized(env: Env, pieces: seq<string>, ghost line: string, ghost m: Fields, ghost max: nat,
                        ghost n: nat, ghost body: string)
      returns (error: Option<nat>, ghost undelivered: string)
      requires readBuffer.Valid() && readBuffer.Contents() == "" && request.Now() == NEW_REQUEST
      requires IsSized(env, line, m, max, n) && 0 < n
      requires Join(pieces) == PrintedHead(line, m) + body
      modifies readBuffer, request
      ensures Carries(env, line, m, request.start, request.HeadNow())
      ensures n <= max ==>
                && error.None? && readBuffer.Contents() == body[Min(n, |body|)..]
                && request.bodyLength == Min(n, |body|) && (request.bodyComplete <==> |body| >= n)
      ensures n > max ==>
                && readBuffer.Contents() + undelivered == body && !request.bodyComplete
                && error == if body == "" then None else Some(413)
    {
      hide Join, PrintedHead, WithHead, WithoutContent, Fixed, Read, Cuttable, StartsPlain, IsSized, Carries;
      hide State.Valid, State.Contents;
      SizedLeadsTo(env, line, m, max, n, body);
      ghost var trace;
      error, undelivered, trace := ReceiveAll(env, pieces);
      SameButContent(Parsed(readBuffer.Contents() + undelivered, request.Now(), error),
        Read(env, Join(pieces), NEW_REQUEST));
      assert readBuffer.Contents() + "" == readBuffer.Contents();
    }
  }

  lemma GateOnlyForHeader(env: Env, s: string, r: Request)
    ensures s != "" ==> CheckHeadSize(RequestModel.Parse(env, HasOddBlank(s), s, r)) == Read(env, s, r)
    ensures s == "" ==> Read(env, s, r) == Parsed(s, r, None)
  {
  }

  lemma NothingRead(env: Env, history: string, s: string, r: Request)
    ensures s == "" ==> ReadStep(env, history, s, r, s, r, None)
  {
  }

  lemma PiecesAtEnds(pieces: seq<string>)
    ensures Join(pieces[..0]) == "" && pieces[0..] == pieces
    ensures pieces[..|pieces|] == pieces && Join(pieces[|pieces|..]) == ""
  {
    assert pieces[|pieces|..] == [];
  }

  lemma PiecesSoFar(history: string, pieces: seq<string>, i: nat)
    requires i < |pieces|
    ensures Join(pieces) == Join(pieces[..i]) + pieces[i] + Join(pieces[i + 1..])
    ensures Join(pieces[..i + 1]) == Join(pieces[..i]) + pieces[i]
    ensures Join(pieces[i..]) == pieces[i] + Join(pieces[i + 1..])
    ensures history + Join(pieces[..i + 1]) == history + Join(pieces[..i]) + pieces[i]
    ensures history + Join(pieces[..i]) + pieces[i] + Join(pieces[i + 1..]) == history + Join(pieces)
  {
    hide Join;
    JoinSnoc(pieces, i);
    Associate(Join(pieces[..i]), pieces[i], Join(pieces[i + 1..]));
    Associate(history, Join(pieces[..i]), pieces[i]);
    Associate(history, Join(pieces[..i]) + pieces[i], Join(pieces[i + 1..]));
  }

  /** On the way, the head stands in front as long as it is awaited. */
  lemma HeadCanCome(env: Env, history: string, before: string, data: string, rest: string, s: string, r: Request)
    requires Stands(env, history, before, data + rest, s, r)
    requires Cuttable(env, before + data + rest) && (history == "" || StartsPlain(before + data + rest))
    ensures r.headerParseComplete ||
            ((history == "" || StartsPlain(s + data)) && (HasOddBlank(s + data) ==> OpensWithText(s + data)))
  {
    hide StartsPlain, OpensWithText, HasOddBlank, HeadFits, Settled, BodyIsCounted, HasChunks, HeadOf, OnBody, HasKind;
    if !r.headerParseComplete {
      if history != "" {
        PlainFront(s + data, rest);
      }
      if HasOddBlank(s + data) {
        TextInFront(s + data, rest);
      }
    }
  }

  lemma BodyIsWithinAt(env: Env, history: string, pieces: seq<string>, i: nat, s: string, r: Request)
    requires i <= |pieces| && Stands(env, history, Join(pieces[..i]), Join(pieces[i..]), s, r)
    ensures InChunks(r) ==> |r.decoder.body| <= |Target(env, Join(pieces)).decoder.body|
  {
    hide Join, Stands, InChunks, Target;
    JoinOfTwo(pieces, pieces[..i], pieces[i..]);
    if InChunks(r) {
      BodyIsWithin(env, history, Join(pieces[..i]), Join(pieces[i..]), s, r);
    }
  }

  lemma TargetIsWithin(env: Env, line: string, m: Fields, max: nat, chunks: seq<string>, rest: string)
    requires IsChunked(env, line, m, max) && forall i :: 0 <= i < |chunks| ==> Plain(chunks[i])
    ensures |Target(env, PrintedHead(line, m) + (Encode(chunks) + Chunk("") + rest)).decoder.body| <= max
  {
    var body := Encode(chunks) + Chunk("") + rest;
    ChunkedIsAccepted(env, line, m, max);
    ChunkedHead(env, line, m, max);
    LimitIsBounded(env, line, m, max);
    PrintedHeadIsRead(env, line, m, max, body);
    FeedOfEncoded(chunks, rest, FRESH, max);
    CrossingIsFirst(0, chunks, max);
    hide HeadOf, Feed, PrintedHead, WithHead, Encode, Chunk, Accepts, Join, Crossing, Plain;
    assert forall k :: 0 <= k <= |chunks| ==> "" + Join(chunks[..k]) == Join(chunks[..k]);
  }
}
