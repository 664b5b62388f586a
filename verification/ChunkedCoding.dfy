/** Chunked transfer coding (section 7.1 of RFC 9112): the encoder's text and the server's line-based decoder. */
module ChunkedCoding {
  import opened Text
  import opened Wrappers
  import opened Numbers

  // ---------- encoder ----------

  /** transformLineForChunkedResponse. */
  function Chunk(data: string): string {
    Print(|data|, 16) + "\r\n" + data + "\r\n"
  }

  function Encode(chunks: seq<string>): string {
    if chunks == [] then "" else Chunk(chunks[0]) + Encode(chunks[1..])
  }

  lemma ChunkOfNothing()
    ensures Chunk("") == "0\r\n\r\n"
  {
  }

  // ---------- decoder ----------

  datatype Decoder = Decoder(body: string, bodyLength: nat, nextChunkSize: nat, chunkSizeKnown: bool, complete: bool)

  const FRESH := Decoder("", 0, 0, false, false)

  datatype Verdict = Continue | Pause | Fail(code: nat)

  /** Addition of two size_t values, which wraps around at 2^64. */
  function AddSizes(a: nat, b: nat): nat {
    if a + b < SIZE_LIMIT then a + b else a + b - SIZE_LIMIT
  }

  /** The body of the loop of _addChunkedContent for one line. */
  function OnLine(d: Decoder, line: string, max: nat): (Decoder, Verdict) {
    if !d.chunkSizeKnown then
      if line == "" then (d, Pause)
      else
        match Stoi(line, 16)
        case None => (d, Fail(400))
        case Some(size) => (d.(nextChunkSize := ToSize(size), chunkSizeKnown := true), Continue)
    else if AddSizes(d.bodyLength, d.nextChunkSize) > max then (d, Fail(413))
    else if d.nextChunkSize == 0 then
      if line == "" then (d.(complete := true), Pause) else (d, Fail(400))
    else (Decoder(d.body + line, AddSizes(d.bodyLength, |line|), 0, false, d.complete), Continue)
  }

  /** What a delivery leaves: the bytes not consumed, the decoder, and the status code of an exception. */
  datatype Fed = Fed(unread: string, decoder: Decoder, error: Option<nat>)

  function Feed(s: string, d: Decoder, max: nat): Fed
    decreases |s|
  {
    if !HasLine(s) then Fed(s, d, None)
    else
      match OnLine(d, FirstLine(s), max)
      case (d', Continue) => Feed(AfterLine(s), d', max)
      case (d', Pause) => Fed(AfterLine(s), d', None)
      case (d', Fail(code)) => Fed(AfterLine(s), d', Some(code))
  }

  /** parseBody for a chunked request. */
  function Body(s: string, d: Decoder, max: nat): Fed {
    if d.complete then Fed(s, d, None) else Feed(s, d, max)
  }

  /** Deliveries one after the other, each followed by parseBody; nothing is parsed after an exception. */
  function Receive(s: string, d: Decoder, pieces: seq<string>, max: nat): Fed
    decreases |pieces|
  {
    if pieces == [] then Fed(s, d, None)
    else
      var r := Body(s + pieces[0], d, max);
      if r.error.Some? then r.(unread := r.unread + Join(pieces[1..]))
      else Receive(r.unread, r.decoder, pieces[1..], max)
  }

  /** One turn of the loop. */
  lemma FeedStep(s: string, d: Decoder, max: nat)
    requires HasLine(s)
    ensures Feed(s, d, max) ==
            var (d', verdict) := OnLine(d, FirstLine(s), max);
            if verdict.Continue? then Feed(AfterLine(s), d', max)
            else Fed(AfterLine(s), d', if verdict.Fail? then Some(verdict.code) else None)
  {
    hide HasLine, FirstLine, AfterLine, OnLine;
  }

  /** One line at the front of the stream. */
  lemma FeedLine(line: string, rest: string, d: Decoder, max: nat)
    requires !HasLine(line)
    ensures Feed(line + "\r\n" + rest, d, max) ==
            var (d', verdict) := OnLine(d, line, max);
            if verdict.Continue? then Feed(rest, d', max)
            else Fed(rest, d', if verdict.Fail? then Some(verdict.code) else None)
  {
    LineOf(line, rest);
    hide HasLine, FirstLine, AfterLine, OnLine;
  }

  // ---------- segmentation independence ----------

  /**
    A complete line is left unread although the body is not complete: an empty line stood where a chunk size should.
   */
  predicate Stalled(r: Fed) {
    r.error.None? && !r.decoder.complete && HasLine(r.unread)
  }

  /**
    The walk over the lines comes to an empty one where a chunk size should stand, and a complete line is behind it.
   */
  predicate EmptySizeLine(s: string, d: Decoder, max: nat)
    decreases |s|
  {
    HasLine(s) &&
    if !d.chunkSizeKnown && FirstLine(s) == "" then HasLine(AfterLine(s))
    else OnLine(d, FirstLine(s), max).1.Continue? && EmptySizeLine(AfterLine(s), OnLine(d, FirstLine(s), max).0, max)
  }

  lemma {:induction false} StallsAtEmptySizeLine(s: string, d: Decoder, max: nat)
    requires !d.complete
    ensures Stalled(Feed(s, d, max)) <==> EmptySizeLine(s, d, max)
    decreases |s|
  {
    if HasLine(s) {
      var line, rest := FirstLine(s), AfterLine(s);
      FeedStep(s, d, max);
      var o := OnLine(d, line, max);
      if o.1.Continue? {
        StallsAtEmptySizeLine(rest, o.0, max);
      }
      hide HasLine, FirstLine, AfterLine, Feed;
    }
  }

  /** Whether a delivery ends at a line, by a return or an exception, rather than for lack of lines. */
  predicate Stops(s: string, d: Decoder, max: nat)
    decreases |s|
  {
    HasLine(s) && (OnLine(d, FirstLine(s), max).1.Continue? ==>
      Stops(AfterLine(s), OnLine(d, FirstLine(s), max).0, max))
  }

  /** Later bytes stay unread behind a stop, and otherwise continue where the lines ran out. */
  lemma {:induction false} FeedMore(s: string, t: string, d: Decoder, max: nat)
    ensures var r := Feed(s, d, max);
            Feed(s + t, d, max) == if Stops(s, d, max) then r.(unread := r.unread + t)
              else Feed(r.unread + t, r.decoder, max)
    decreases |s|
  {
    if HasLine(s) {
      LineOfPrefix(s, t);
      hide FirstLine, AfterLine, HasLine, OnLine;
      if OnLine(d, FirstLine(s), max).1.Continue? {
        FeedMore(AfterLine(s), t, OnLine(d, FirstLine(s), max).0, max);
      }
    }
  }

  /** A delivery that runs out of lines leaves none, raises nothing, and does not complete the body. */
  lemma {:induction false} RunsDry(s: string, d: Decoder, max: nat)
    requires !Stops(s, d, max)
    ensures var r := Feed(s, d, max); !HasLine(r.unread) && r.error.None? && r.decoder.complete == d.complete
    decreases |s|
  {
    if HasLine(s) {
      RunsDry(AfterLine(s), OnLine(d, FirstLine(s), max).0, max);
    }
  }

  lemma FeedNothing(s: string, d: Decoder, max: nat)
    requires !HasLine(s)
    ensures Feed(s, d, max) == Fed(s, d, None)
  {
  }

  /** Unless an empty line stands where a chunk size should, every way of cutting the stream has the same result. */
  lemma {:induction false} EveryCutAgrees(s: string, d: Decoder, pieces: seq<string>, max: nat)
    requires d.complete || !HasLine(s)
    requires d.complete || !EmptySizeLine(s + Join(pieces), d, max)
    ensures Receive(s, d, pieces, max) == Body(s + Join(pieces), d, max)
    decreases |pieces|
  {
    hide EmptySizeLine, Stalled, Feed, Stops, HasLine;
    if pieces == [] {
      assert s + Join(pieces) == s;
      if !d.complete {
        FeedNothing(s, d, max);
      }
    } else {
      var t, rest := s + pieces[0], Join(pieces[1..]);
      assert s + Join(pieces) == t + rest;
      var r := Body(t, d, max);
      if d.complete {
        EveryCutAgrees(r.unread, r.decoder, pieces[1..], max);
      } else {
        OneMoreCut(t, rest, d, max);
        if r.error.None? {
          EveryCutAgrees(r.unread, r.decoder, pieces[1..], max);
        }
      }
    }
  }

  /** The first delivery of a stream that does not stall: the remainder gives what the whole gives. */
  lemma OneMoreCut(t: string, rest: string, d: Decoder, max: nat)
    requires !d.complete && !EmptySizeLine(t + rest, d, max)
    ensures var r := Feed(t, d, max);
            if r.error.Some? then Feed(t + rest, d, max) == r.(unread := r.unread + rest)
            else
              && (r.decoder.complete || (!HasLine(r.unread) && !EmptySizeLine(r.unread + rest, r.decoder, max)))
              && Feed(t + rest, d, max) == Body(r.unread + rest, r.decoder, max)
  {
    var r := Feed(t, d, max);
    StallsAtEmptySizeLine(t + rest, d, max);
    if !r.decoder.complete {
      StallsAtEmptySizeLine(r.unread + rest, r.decoder, max);
    }
    hide EmptySizeLine;
    FeedMore(t, rest, d, max);
    if !Stops(t, d, max) {
      RunsDry(t, d, max);
    } else if r.error.None? && !r.decoder.complete {
      if HasLine(r.unread) {
        LineOfPrefix(r.unread, rest);
      }
      FeedNothing(r.unread + rest, r.decoder, max);
    }
  }

  /** What is left unread is the end of what was delivered, and the bytes before it alone give the same decoder. */
  lemma {:induction false} FeedOfConsumed(s: string, d: Decoder, max: nat) returns (head: string)
    requires Stops(s, d, max)
    ensures s == head + Feed(s, d, max).unread
    ensures Feed(head, d, max) == Feed(s, d, max).(unread := "")
    decreases |s|
  {
    var line, rest := FirstLine(s), AfterLine(s);
    LineSplits(s);
    FeedLine(line, rest, d, max);
    var o := OnLine(d, line, max);
    head := "";
    if o.1.Continue? {
      head := FeedOfConsumed(rest, o.0, max);
    }
    FeedLine(line, head, d, max);
    hide HasLine, FirstLine, AfterLine, OnLine, Feed;
    head := line + "\r\n" + head;
  }

  lemma FeedConsumes(s: string, d: Decoder, max: nat)
    requires HasLine(s)
    ensures Feed(s, d, max).error.None? ==> |Feed(s, d, max).unread| < |s|
    decreases |s|
  {
    if HasLine(AfterLine(s)) {
      FeedConsumes(AfterLine(s), OnLine(d, FirstLine(s), max).0, max);
    }
  }

  /** A stream that stalls gives something else when it is cut behind the empty line. */
  lemma StalledCutDiffers(s: string, d: Decoder, max: nat)
    requires Stalled(Body(s, d, max))
    ensures exists pieces {:trigger Receive("", d, pieces, max)} ::
              Join(pieces) == s && Receive("", d, pieces, max) != Body(s, d, max)
  {
    var r := Body(s, d, max);
    if !Stops(s, d, max) { RunsDry(s, d, max); }
    var head := FeedOfConsumed(s, d, max);
    FeedConsumes(r.unread, r.decoder, max);
    TwoPieces(head, r.unread, d, r.decoder, max);
    hide Feed, Stops, HasLine, Receive, Join;
    assert Receive("", d, [head, r.unread], max) != r;
  }

  lemma TwoPieces(a: string, b: string, d: Decoder, d': Decoder, max: nat)
    requires Body(a, d, max) == Fed("", d', None)
    ensures Join([a, b]) == a + b
    ensures Receive("", d, [a, b], max) == Body(b, d', max)
  {
    var r := Body(b, d', max);
    assert [a, b][1..] == [b] && [b][1..] == [];
    JoinSingle(b);
    assert "" + a == a && "" + b == b && r.unread + "" == r.unread;
    hide Body;
    assert Receive("", d, [a, b], max) == Receive("", d', [b], max);
    assert Receive("", d', [b], max) == if r.error.Some? then r.(unread := r.unread + Join([]))
      else Receive(r.unread, r.decoder, [], max);
  }

  /** The exact condition: all cuts of a stream agree with the single delivery exactly when no size line is empty. */
  lemma SegmentationIndependence(s: string, d: Decoder, max: nat)
    requires !d.complete
    ensures (forall pieces :: Join(pieces) == s ==> Receive("", d, pieces, max) == Body(s, d, max)) <==>
            !EmptySizeLine(s, d, max)
  {
    StallsAtEmptySizeLine(s, d, max);
    hide EmptySizeLine, Stalled, Feed, Receive;
    if EmptySizeLine(s, d, max) {
      StalledCutDiffers(s, d, max);
    } else {
      forall pieces | Join(pieces) == s ensures Receive("", d, pieces, max) == Body(s, d, max) {
        assert "" + Join(pieces) == s;
        EveryCutAgrees("", d, pieces, max);
      }
    }
  }

  /** A completed body takes no byte of any delivery. */
  lemma {:induction false} CompleteTakesNothing(s: string, d: Decoder, pieces: seq<string>, max: nat)
    requires d.complete
    ensures Receive(s, d, pieces, max) == Fed(s + Join(pieces), d, None)
    decreases |pieces|
  {
    if pieces == [] {
      assert s + "" == s;
    } else {
      CompleteTakesNothing(s + pieces[0], d, pieces[1..], max);
      assert s + pieces[0] + Join(pieces[1..]) == s + (pieces[0] + Join(pieces[1..]));
    }
  }

  /** Two empty lines: one delivery stops at the first and leaves the second, two deliveries take both. */
  lemma EmptyLinesStall(max: nat)
    ensures EmptySizeLine("\r\n\r\n", FRESH, max)
    ensures Receive("", FRESH, ["\r\n\r\n"], max) == Fed("\r\n", FRESH, None)
    ensures Receive("", FRESH, ["\r\n", "\r\n"], max) == Fed("", FRESH, None)
  {
    assert "\r\n\r\n" == "" + "\r\n" + "\r\n" && "\r\n" == "" + "\r\n" + "";
    LineOf("", "\r\n");
    LineOf("", "");
    hide HasLine, FirstLine, AfterLine;
    FeedStep("\r\n\r\n", FRESH, max);
    FeedStep("\r\n", FRESH, max);
    hide Feed;
    OnePiece("\r\n\r\n", FRESH, max);
    assert "\r\n" + "" == "\r\n";
    TwoPieces("\r\n", "\r\n", FRESH, FRESH, max);
  }

  lemma OnePiece(a: string, d: Decoder, max: nat)
    ensures Receive("", d, [a], max) == Body(a, d, max)
  {
    var r := Body(a, d, max);
    assert [a][1..] == [] && "" + a == a && r.unread + "" == r.unread;
    hide Body;
    assert Receive("", d, [a], max) == if r.error.Some? then r.(unread := r.unread + Join([]))
      else Receive(r.unread, r.decoder, [], max);
  }

  // ---------- round trip and body limit ----------

  /** A chunk the line-based decoder can take: not empty, no CRLF inside, and a size that fits an int. */
  predicate Plain(data: string) {
    data != "" && !HasLine(data) && |data| < INT_LIMIT
  }

  /** The running length is the length of the body and within a limit that leaves room below 2^64. */
  predicate Within(d: Decoder, max: nat) {
    d.bodyLength == |d.body| <= max && max + INT_LIMIT <= SIZE_LIMIT
  }

  lemma SizeLine(data: string, rest: string, d: Decoder, max: nat)
    requires !d.chunkSizeKnown && |data| < INT_LIMIT
    ensures Feed(Chunk(data) + rest, d, max) ==
            Feed(data + "\r\n" + rest, d.(nextChunkSize := |data|, chunkSizeKnown := true), max)
  {
    var hex := Print(|data|, 16);
    PrintIsOneLine(|data|);
    StoiOfPrint(|data|, 16);
    FeedLine(hex, data + "\r\n" + rest, d, max);
    assert Chunk(data) + rest == hex + "\r\n" + (data + "\r\n" + rest);
    hide Feed, Print, HasLine, Stoi;
  }

  lemma PrintIsOneLine(n: nat)
    ensures !HasLine(Print(n, 16))
  {
    PrintHasNoLineBytes(n, 16);
  }

  /** One chunk is appended to the body, or stops the decoder with 413 when it would cross the limit. */
  lemma FeedChunk(data: string, rest: string, d: Decoder, max: nat)
    requires Plain(data) && !d.chunkSizeKnown && Within(d, max)
    ensures Feed(Chunk(data) + rest, d, max) ==
            if |d.body| + |data| > max then Fed(rest, d.(nextChunkSize := |data|, chunkSizeKnown := true), Some(413))
            else Feed(rest, Decoder(d.body + data, |d.body| + |data|, 0, false, d.complete), max)
  {
    hide Feed, Chunk, HasLine;
    SizeLine(data, rest, d, max);
    FeedLine(data, rest, d.(nextChunkSize := |data|, chunkSizeKnown := true), max);
  }

  /** The terminating chunk completes the body and leaves every later byte. */
  lemma FeedEnd(rest: string, d: Decoder, max: nat)
    requires !d.chunkSizeKnown && Within(d, max)
    ensures Feed(Chunk("") + rest, d, max) ==
            Fed(rest, d.(nextChunkSize := 0, chunkSizeKnown := true, complete := true), None)
  {
    assert !HasLine("");
    hide Feed, Chunk, HasLine;
    SizeLine("", rest, d, max);
    FeedLine("", rest, d.(nextChunkSize := 0, chunkSizeKnown := true), max);
  }

  /** The first chunk that takes a body of `length` bytes beyond `max`, or |chunks|. */
  function Crossing(length: nat, chunks: seq<string>, max: nat): (k: nat)
    ensures k <= |chunks|
    decreases |chunks|
  {
    if chunks == [] || length + |chunks[0]| > max then 0 else 1 + Crossing(length + |chunks[0]|, chunks[1..], max)
  }

  lemma {:induction false} CrossingIsFirst(length: nat, chunks: seq<string>, max: nat)
    requires length <= max
    ensures var k := Crossing(length, chunks, max);
            && length + |Join(chunks[..k])| <= max
            && (k < |chunks| ==> length + |Join(chunks[..k])| + |chunks[k]| > max)
            && (k == |chunks| <==> length + |Join(chunks)| <= max)
    decreases |chunks|
  {
    var k := Crossing(length, chunks, max);
    if chunks == [] {
    } else if k == 0 {
      assert |Join(chunks)| >= |chunks[0]|;
    } else {
      CrossingIsFirst(length + |chunks[0]|, chunks[1..], max);
      assert chunks[..k][1..] == chunks[1..][..k - 1];
    }
  }

  /** The decoder once the chunks up to the crossing one are in the body. */
  function AfterChunks(chunks: seq<string>, rest: string, d: Decoder, max: nat): Fed {
    var k := Crossing(|d.body|, chunks, max);
    var body := d.body + Join(chunks[..k]);
    if k == |chunks| then Fed(rest, Decoder(body, |body|, 0, true, true), None)
    else
      var d' := Decoder(body, |body|, |chunks[k]|, true, d.complete);
      Fed(Encode(chunks[k + 1..]) + Chunk("") + rest, d', Some(413))
  }

  /**
    Chunked round trip and body limit in one: decoding an encoded list gives exactly its concatenation and leaves
    every later byte, or stops with 413 at the first chunk that takes the body beyond the limit.
   */
  lemma {:induction false} FeedOfEncoded(chunks: seq<string>, rest: string, d: Decoder, max: nat)
    requires forall i :: 0 <= i < |chunks| ==> Plain(chunks[i])
    requires !d.chunkSizeKnown && Within(d, max)
    ensures Feed(Encode(chunks) + Chunk("") + rest, d, max) == AfterChunks(chunks, rest, d, max)
    decreases |chunks|
  {
    if chunks == [] {
      assert Encode(chunks) + Chunk("") + rest == Chunk("") + rest;
      FeedEnd(rest, d, max);
      assert d.body + Join(chunks[..0]) == d.body;
    } else {
      var c, tail := chunks[0], Encode(chunks[1..]) + Chunk("") + rest;
      assert Encode(chunks) + Chunk("") + rest == Chunk(c) + tail;
      FeedChunk(c, tail, d, max);
      hide Chunk, Encode, Feed;
      if |d.body| + |c| > max {
        assert d.body + Join(chunks[..0]) == d.body;
      } else {
        var d' := Decoder(d.body + c, |d.body| + |c|, 0, false, d.complete);
        FeedOfEncoded(chunks[1..], rest, d', max);
        AfterFirstChunk(chunks, rest, d, max);
      }
    }
  }

  lemma AfterFirstChunk(chunks: seq<string>, rest: string, d: Decoder, max: nat)
    requires chunks != [] && |d.body| + |chunks[0]| <= max
    ensures AfterChunks(chunks, rest, d, max) ==
            AfterChunks(chunks[1..], rest, Decoder(d.body + chunks[0], |d.body| + |chunks[0]|, 0, false, d.complete),
              max)
  {
    var k := Crossing(|d.body|, chunks, max);
    assert chunks[..k][1..] == chunks[1..][..k - 1];
    assert Join(chunks[..k]) == chunks[0] + Join(chunks[1..][..k - 1]);
    assert k < |chunks| ==> chunks[1..][k..] == chunks[k + 1..];
  }

  /** From any state between chunks, decoding succeeds exactly when all chunk sizes add up to at most the limit. */
  lemma ChunkedRoundTrip(chunks: seq<string>, rest: string, d: Decoder, max: nat)
    requires forall i :: 0 <= i < |chunks| ==> Plain(chunks[i])
    requires !d.chunkSizeKnown && !d.complete && Within(d, max)
    ensures var r := Body(Encode(chunks) + Chunk("") + rest, d, max);
            var length := |d.body| + |Join(chunks)|;
            if length <= max then r == Fed(rest, Decoder(d.body + Join(chunks), length, 0, true, true), None)
            else r.error == Some(413) && r.decoder.bodyLength <= max && !r.decoder.complete
  {
    hide Chunk, Encode, Feed;
    FeedOfEncoded(chunks, rest, d, max);
    CrossingIsFirst(|d.body|, chunks, max);
    assert chunks[..|chunks|] == chunks;
  }

  // ---------- the limit in every state ----------

  /** The body never shrinks. */
  lemma {:induction false} BodyGrows(s: string, d: Decoder, max: nat)
    ensures |d.body| <= |Feed(s, d, max).decoder.body|
    decreases |s|
  {
    if HasLine(s) {
      BodyGrows(AfterLine(s), OnLine(d, FirstLine(s), max).0, max);
    }
  }

  /** As long as the body is shorter than 2^64, the length kept beside it is its length. */
  lemma {:induction false} LengthIsBody(s: string, d: Decoder, max: nat)
    requires d.bodyLength == |d.body| && |Feed(s, d, max).decoder.body| < SIZE_LIMIT
    ensures Feed(s, d, max).decoder.bodyLength == |Feed(s, d, max).decoder.body|
    decreases |s|
  {
    if HasLine(s) {
      var line, rest := FirstLine(s), AfterLine(s);
      FeedStep(s, d, max);
      var o := OnLine(d, line, max);
      BodyGrows(rest, o.0, max);
      LineLengthens(d, line, max);
      hide HasLine, FirstLine, AfterLine, Feed, OnLine;
      if o.1.Continue? {
        LengthIsBody(rest, o.0, max);
      }
    }
  }

  lemma LineLengthens(d: Decoder, line: string, max: nat)
    requires d.bodyLength == |d.body|
    ensures var d' := OnLine(d, line, max).0;
            |d'.body| < SIZE_LIMIT ==> d'.bodyLength == |d'.body|
    ensures OnLine(d, line, max).1.Continue? || OnLine(d, line, max).0.bodyLength == |OnLine(d, line, max).0.body|
  {
    hide Stoi;
  }

  /** Whatever part of an encoded stream has been fed, the body is within the limit. */
  lemma EncodedStaysWithin(chunks: seq<string>, rest: string, u: string, v: string, d: Decoder, max: nat)
    requires forall i :: 0 <= i < |chunks| ==> Plain(chunks[i])
    requires !d.chunkSizeKnown && Within(d, max) && u + v == Encode(chunks) + Chunk("") + rest
    ensures var r := Feed(u, d, max).decoder; r.bodyLength == |r.body| <= max
  {
    FeedOfEncoded(chunks, rest, d, max);
    CrossingIsFirst(|d.body|, chunks, max);
    hide Encode, Chunk, Feed, Plain, Crossing, Stops, Join;
    FeedMore(u, v, d, max);
    var r := Feed(u, d, max);
    BodyGrows(r.unread + v, r.decoder, max);
    LengthIsBody(u, d, max);
  }

  lemma {:induction false} EmptySizeLineMore(s: string, t: string, d: Decoder, max: nat)
    requires EmptySizeLine(s, d, max)
    ensures EmptySizeLine(s + t, d, max)
    decreases |s|
  {
    LineOfPrefix(s, t);
    if HasLine(AfterLine(s)) {
      LineOfPrefix(AfterLine(s), t);
    }
    hide HasLine, FirstLine, AfterLine, OnLine;
    if d.chunkSizeKnown || FirstLine(s) != "" {
      EmptySizeLineMore(AfterLine(s), t, OnLine(d, FirstLine(s), max).0, max);
    }
  }

  /** An encoded body has no empty size line. */
  lemma EncodedCanBeCut(chunks: seq<string>, rest: string, max: nat)
    requires (forall i :: 0 <= i < |chunks| ==> Plain(chunks[i])) && max + INT_LIMIT <= SIZE_LIMIT
    ensures !EmptySizeLine(Encode(chunks) + Chunk("") + rest, FRESH, max)
  {
    FeedOfEncoded(chunks, rest, FRESH, max);
    hide Feed, Chunk, Encode, EmptySizeLine, Plain, Crossing;
    StallsAtEmptySizeLine(Encode(chunks) + Chunk("") + rest, FRESH, max);
  }

  /** The body limit in every state: after any number of deliveries of any cut of an encoded stream. */
  lemma EveryStateWithin(chunks: seq<string>, rest: string, pieces: seq<string>, i: nat, max: nat)
    requires (forall k :: 0 <= k < |chunks| ==> Plain(chunks[k])) && max + INT_LIMIT <= SIZE_LIMIT
    requires Join(pieces) == Encode(chunks) + Chunk("") + rest && i <= |pieces|
    ensures Receive("", FRESH, pieces[..i], max).decoder.bodyLength <= max
  {
    var u, v := Join(pieces[..i]), Join(pieces[i..]);
    hide Encode, Chunk, Feed, Plain, Join, EmptySizeLine, Receive;
    assert pieces == pieces[..i] + pieces[i..] && "" + u == u;
    JoinOfTwo(pieces, pieces[..i], pieces[i..]);
    EncodedCanBeCut(chunks, rest, max);
    if EmptySizeLine(u, FRESH, max) {
      EmptySizeLineMore(u, v, FRESH, max);
    }
    EveryCutAgrees("", FRESH, pieces[..i], max);
    EncodedStaysWithin(chunks, rest, u, v, FRESH, max);
  }

  // ---------- which single chunks survive ----------

  /** The decoder gains at most the bytes between the line ends. */
  lemma {:induction false} FeedGain(s: string, d: Decoder, max: nat)
    ensures |Feed(s, d, max).decoder.body| + 2 * Pairs(false, s) <= |d.body| + |s|
    decreases |s|
  {
    if HasLine(s) {
      PairsOfAfterLine(s);
      LineSplits(s);
      FeedGain(AfterLine(s), OnLine(d, FirstLine(s), max).0, max);
      PairsBound(false, AfterLine(s));
    } else {
      PairsBound(false, s);
    }
  }

  lemma {:induction false} PairsBound(afterCR: bool, s: string)
    ensures 2 * Pairs(afterCR, s) <= |s| + (if afterCR then 1 else 0)
    decreases |s|
  {
    if s != "" {
      PairsBound(s[0] == '\r', s[1..]);
    }
  }

  lemma TailPairs(a: string)
    ensures Pairs(false, a + "\r\n" + Chunk("")) >= 3
  {
    ChunkOfNothing();
    var t := "\r\n0\r\n\r\n";
    assert a + "\r\n" + Chunk("") == a + t;
    PairsOfConcat(false, a, t);
    assert t[1..] == "\n0\r\n\r\n" && t[2..] == "0\r\n\r\n";
    assert Pairs(EndsInCR(false, a), t) == Pairs(true, t[1..]);
    assert Pairs(true, t[1..]) == 1 + Pairs(false, t[2..]) by { assert t[1..][1..] == t[2..]; }
    PairsOfTerminator();
  }

  lemma PairsOfTerminator()
    ensures Pairs(false, "0\r\n\r\n") == 2
  {
    var t := "0\r\n\r\n";
    LineOf("0", "\r\n");
    assert t == "0" + "\r\n" + "\r\n";
    PairsOfAfterLine(t);
    LineOf("", "");
    assert "\r\n" == "" + "\r\n" + "";
    PairsOfAfterLine("\r\n");
  }

  /** A chunk is decoded to itself exactly when it holds no CRLF, although the announced size would allow any data. */
  lemma SurvivesIffNoLine(data: string, d: Decoder, max: nat)
    requires data != "" && |data| < INT_LIMIT && !d.chunkSizeKnown && Within(d, max) && |d.body| + |data| <= max
    ensures var survived := Fed("", Decoder(d.body + data, |d.body| + |data|, 0, true, true), None);
            Feed(Chunk(data) + Chunk(""), d, max) == survived <==> !HasLine(data)
  {
    hide Chunk, Feed, HasLine;
    if !HasLine(data) {
      FeedChunk(data, Chunk(""), d, max);
      FeedEnd("", Decoder(d.body + data, |d.body| + |data|, 0, false, d.complete), max);
      assert Chunk("") + "" == Chunk("");
    } else {
      LineInsideShortens(data, d, max);
    }
  }

  /** The input: a chunk that holds nothing but a line end. */
  lemma LineEndDoesNotSurvive()
    ensures Feed(Chunk("\r\n") + Chunk(""), FRESH, 2) != Fed("", Decoder("\r\n", 2, 0, true, true), None)
  {
    assert IsLineEnd("\r\n", 1);
    assert HasLine("\r\n") && "" + "\r\n" == "\r\n";
    hide Feed, Chunk, HasLine;
    SurvivesIffNoLine("\r\n", FRESH, 2);
  }

  lemma LineInsideShortens(data: string, d: Decoder, max: nat)
    requires HasLine(data) && |data| < INT_LIMIT && !d.chunkSizeKnown && Within(d, max) && |d.body| + |data| <= max
    ensures |Feed(Chunk(data) + Chunk(""), d, max).decoder.body| < |d.body| + |data|
  {
    var line, after := FirstLine(data), AfterLine(data);
    LineSplits(data);
    hide HasLine, FirstLine, AfterLine, Feed, Chunk, Pairs;
    SizeLine(data, Chunk(""), d, max);
    Regroup(line, after, Chunk(""));
    ShortTail(line, after, d.(nextChunkSize := |data|, chunkSizeKnown := true), max);
  }

  lemma Regroup(a: string, b: string, c: string)
    ensures (a + "\r\n" + b) + "\r\n" + c == a + "\r\n" + (b + "\r\n" + c)
  {
  }

  lemma ShortTail(line: string, after: string, d: Decoder, max: nat)
    requires !HasLine(line) && Within(d, max) && d.chunkSizeKnown && 0 < d.nextChunkSize &&
             |d.body| + d.nextChunkSize <= max
    ensures |Feed(line + "\r\n" + (after + "\r\n" + Chunk("")), d, max).decoder.body| < |d.body| + |line| + 2 + |after|
  {
    hide HasLine, Feed, Pairs;
    var tail := after + "\r\n" + Chunk("");
    ChunkOfNothing();
    FeedLine(line, tail, d, max);
    TailPairs(after);
    hide Chunk;
    FeedGain(tail, OnLine(d, line, max).0, max);
  }
}
