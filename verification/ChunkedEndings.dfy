/** How chunked decoding ends on any stream: complete, refused, or waiting for more. */
module ChunkedEndings {
  import opened Text
  import opened Wrappers
  import opened Numbers
  import opened ChunkedCoding
  import opened ChunkedLimit

  lemma WaitsForSize(t: string, d: Decoder, max: nat)
    requires Between(d) && HasLine(t) && FirstLine(t) == ""
    ensures Feed(t, d, max) == Fed(AfterLine(t), d, None)
  {
    FeedStep(t, d, max);
    hide HasLine, FirstLine, AfterLine, Feed;
  }

  lemma NoSize(t: string, d: Decoder, max: nat)
    requires Between(d) && HasLine(t) && FirstLine(t) != "" && Stoi(FirstLine(t), 16).None?
    ensures Feed(t, d, max) == Fed(AfterLine(t), d, Some(400))
  {
    FeedStep(t, d, max);
    hide HasLine, FirstLine, AfterLine, Feed, Stoi;
  }

  lemma SizeRead(t: string, d: Decoder, max: nat)
    requires Between(d) && HasLine(t) && SizeIn(FirstLine(t)).Some?
    ensures Feed(t, d, max) == Feed(AfterLine(t), WithSize(d, SizeIn(FirstLine(t))), max)
  {
    SizeOfLine(d, FirstLine(t), max);
    FeedStep(t, d, max);
    hide HasLine, FirstLine, AfterLine, Feed, SizeIn, OnLine;
  }

  /** Behind a size that was read: the limit comes first, then the zero that ends the body. */
  lemma BehindSize(u: string, d: Decoder, size: Option<int>, max: nat)
    requires Between(d) && !d.complete && HasLine(u) && d.bodyLength < SIZE_LIMIT
    requires size.Some? && -INT_LIMIT <= size.value < INT_LIMIT && !Announced(size, d.bodyLength, max)
    ensures var f, over := Feed(u, WithSize(d, size), max), AddSizes(d.bodyLength, Size(size)) > max;
            && f.unread == AfterLine(u)
            && (f.decoder.complete <==> !over && FirstLine(u) == "")
            && f.error == (if over then Some(413) else if FirstLine(u) == "" then None else Some(400))
            && (!over <==> size == Some(0) && d.bodyLength <= max)
  {
    FeedStep(u, WithSize(d, size), max);
    hide HasLine, FirstLine, AfterLine, Feed;
  }

  /** What stands at the first pair that does not pass. */
  lemma AtFirstFailure(t: string, d: Decoder, max: nat)
    requires Between(d) && !d.complete && d.bodyLength < SIZE_LIMIT
    requires LinePairs(t) != [] ==> !Announced(LinePairs(t)[0].size, d.bodyLength, max)
    ensures var f, pairs := Feed(t, d, max), LinePairs(t);
            var last := pairs != [] && pairs[0].size == Some(0) && d.bodyLength <= max;
            && (f.decoder.complete <==> last && pairs[0].data == "")
            && (f.error == Some(400) <==>
                || (HasLine(t) && FirstLine(t) != "" && Stoi(FirstLine(t), 16).None?)
                || (last && pairs[0].data != ""))
            && (f.error == Some(413) <==>
                pairs != [] && pairs[0].size.Some? && AddSizes(d.bodyLength, Size(pairs[0].size)) > max)
            && (f.error.Some? ==> f.error.value in {400, 413})
            && f.unread == (if pairs != [] && pairs[0].size.Some? then Behind(t, 1)
                            else if HasLine(t) then AfterLine(t) else t)
  {
    hide Feed, OnLine, Announced, Size, WithSize, Stoi, HasLine, FirstLine, AfterLine;
    PairInFront(t);
    if LinePairs(t) != [] {
      FrontPair(t);
    }
    hide LinePairs, Behind;
    if !HasLine(t) {
      FeedNothing(t, d, max);
    } else {
      var line, u := FirstLine(t), AfterLine(t);
      if line == "" {
        WaitsForSize(t, d, max);
      } else if Stoi(line, 16).None? {
        NoSize(t, d, max);
      } else {
        var size := SizeIn(line);
        SizeRead(t, d, max);
        if HasLine(u) {
          BehindSize(u, d, size, max);
        } else {
          FeedNothing(u, WithSize(d, size), max);
          SizeKeepsComplete(d, size);
        }
      }
    }
  }

  lemma SizeKeepsComplete(d: Decoder, size: Option<int>)
    ensures WithSize(d, size).complete == d.complete
  {
  }

  /**
    What decoding comes to on any stream `s`, told by its pairs of lines. The body has grown by the data of the pairs
    that pass. Behind them it is complete exactly at a zero size within the limit with an empty line behind it; 400 is
    the answer exactly at a size line that is neither empty nor a number, or at a zero size with another line behind it;
    413 exactly where the announced size exceeds the limit.
   */
  predicate DecodedTo(s: string, d: Decoder, max: nat, f: Fed) {
    var pairs := LinePairs(s);
    var k := Passing(pairs, d.bodyLength, max);
    k <= |pairs| &&
    var t, data := Behind(s, k), Data(pairs, k);
    var length := d.bodyLength + |data|;
    var last := k < |pairs| && pairs[k].size == Some(0) && length <= max;
    && f.decoder.body == d.body + data && f.decoder.bodyLength == length
    && (f.decoder.complete <==> last && pairs[k].data == "")
    && (f.error == Some(400) <==>
        || (HasLine(t) && FirstLine(t) != "" && Stoi(FirstLine(t), 16).None?)
        || (last && pairs[k].data != ""))
    && (f.error == Some(413) <==>
        k < |pairs| && pairs[k].size.Some? && AddSizes(length, Size(pairs[k].size)) > max)
    && (f.error.Some? ==> f.error.value in {400, 413})
    && f.unread == (if k < |pairs| && pairs[k].size.Some? then Behind(s, k + 1)
                    else if HasLine(t) then AfterLine(t) else t)
  }

  lemma DecodingEnds(s: string, d: Decoder, max: nat)
    requires Between(d) && !d.complete && d.bodyLength + |s| < SIZE_LIMIT
    ensures DecodedTo(s, d, max, Feed(s, d, max))
  {
    hide Feed, HasLine, FirstLine, AfterLine, Announced, LinePairs, Behind, Data, Passing, SizeIn, Size, Stoi;
    var pairs := LinePairs(s);
    var k := Passing(pairs, d.bodyLength, max);
    BodyIsPassingData(s, d, max);
    PassingFacts(pairs, d.bodyLength, max);
    PairsPass(s, d, max, k);
    PairsBehind(s, k);
    if k < |pairs| {
      assert pairs[k..][0] == pairs[k];
    }
    AtFirstFailure(Behind(s, k), Extended(d, Data(pairs, k)), max);
  }

  lemma StallsAt(t: string, d: Decoder, max: nat)
    requires Between(d) && !d.complete && d.bodyLength < SIZE_LIMIT
    requires LinePairs(t) != [] ==> !Announced(LinePairs(t)[0].size, d.bodyLength, max)
    ensures Stalled(Feed(t, d, max)) <==> HasLine(t) && FirstLine(t) == "" && HasLine(AfterLine(t))
  {
    hide Feed, OnLine, Announced, Size, WithSize, Stoi, HasLine, FirstLine, AfterLine;
    PairInFront(t);
    if LinePairs(t) != [] {
      FrontPair(t);
    }
    hide LinePairs;
    if !HasLine(t) {
      FeedNothing(t, d, max);
    } else if FirstLine(t) == "" {
      WaitsForSize(t, d, max);
    } else if Stoi(FirstLine(t), 16).None? {
      NoSize(t, d, max);
    } else {
      var u, size := AfterLine(t), SizeIn(FirstLine(t));
      SizeRead(t, d, max);
      if HasLine(u) {
        BehindSize(u, d, size, max);
      } else {
        FeedNothing(u, WithSize(d, size), max);
      }
    }
  }

  /** The cuts of a stream disagree exactly when, behind the pairs that pass, a line stands behind an empty one. */
  lemma EmptySizeLineIff(s: string, d: Decoder, max: nat)
    requires Between(d) && !d.complete && d.bodyLength + |s| < SIZE_LIMIT
    ensures var k := Passing(LinePairs(s), d.bodyLength, max);
            k <= |LinePairs(s)| &&
            var t := Behind(s, k);
            EmptySizeLine(s, d, max) <==> HasLine(t) && FirstLine(t) == "" && HasLine(AfterLine(t))
  {
    hide Feed, HasLine, FirstLine, AfterLine, Announced, LinePairs, Behind, Data, Passing, SizeIn, Size, EmptySizeLine;
    StallsAtEmptySizeLine(s, d, max);
    var pairs := LinePairs(s);
    var k := Passing(pairs, d.bodyLength, max);
    PassingFacts(pairs, d.bodyLength, max);
    PairsPass(s, d, max, k);
    PairsBehind(s, k);
    if k < |pairs| {
      assert pairs[k..][0] == pairs[k];
    }
    StallsAt(Behind(s, k), Extended(d, Data(pairs, k)), max);
  }

  /** Trailer fields (section 7.1.2 of RFC 9112) are refused, whatever the chunks. */
  lemma {:induction false} TrailerIsRefused(chunks: seq<string>, trailer: string, rest: string, d: Decoder, max: nat)
    requires forall i :: 0 <= i < |chunks| ==> Plain(chunks[i])
    requires trailer != "" && !HasLine(trailer)
    requires !d.chunkSizeKnown && !d.complete && Within(d, max) && |d.body| + |Join(chunks)| <= max
    ensures var f := Feed(Encode(chunks) + ("0" + "\r\n" + (trailer + "\r\n" + rest)), d, max);
            f.error == Some(400) && !f.decoder.complete && f.unread == rest
    decreases |chunks|
  {
    var end := "0" + "\r\n" + (trailer + "\r\n" + rest);
    hide Chunk, Feed, Plain, HasLine;
    if chunks == [] {
      assert Encode(chunks) + end == end;
      TrailerAtOnce(trailer, rest, d, max);
    } else {
      var c, tail := chunks[0], Encode(chunks[1..]) + end;
      assert Encode(chunks) + end == Chunk(c) + tail;
      hide Encode;
      FeedChunk(c, tail, d, max);
      TrailerIsRefused(chunks[1..], trailer, rest, Decoder(d.body + c, |d.body| + |c|, 0, false, d.complete), max);
    }
  }

  lemma TrailerAtOnce(trailer: string, rest: string, d: Decoder, max: nat)
    requires trailer != "" && !HasLine(trailer) && !d.chunkSizeKnown && !d.complete && Within(d, max)
    ensures var f := Feed("0" + "\r\n" + (trailer + "\r\n" + rest), d, max);
            f.error == Some(400) && !f.decoder.complete && f.unread == rest
  {
    hide Feed, HasLine, Stoi;
    SizeZero();
    FeedLine("0", trailer + "\r\n" + rest, d, max);
    FeedLine(trailer, rest, d.(nextChunkSize := 0, chunkSizeKnown := true), max);
  }

  lemma SizeZero()
    ensures Stoi("0", 16) == Some(0) && !HasLine("0")
  {
    StoiOfPrint(0, 16);
    assert Print(0, 16) == "0";
  }
}
