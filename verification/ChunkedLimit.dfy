/** The body limit of the chunked decoder, on streams that need not keep to the coding. */
module ChunkedLimit {
  import opened Text
  import opened Wrappers
  import opened Numbers
  import opened ChunkedCoding

  /** Two lines: the chunk size read from the first, and what is taken for its data. */
  datatype LinePair = LinePair(size: Option<int>, data: string)

  function SizeIn(line: string): (size: Option<int>)
    ensures size.Some? ==> -INT_LIMIT <= size.value < INT_LIMIT
  {
    if line == "" then None else Stoi(line, 16)
  }

  /** The text, two lines at a time. */
  function LinePairs(s: string): seq<LinePair>
    decreases |s|
  {
    if !HasLine(s) || !HasLine(AfterLine(s)) then []
    else [LinePair(SizeIn(FirstLine(s)), FirstLine(AfterLine(s)))] + LinePairs(AfterLine(AfterLine(s)))
  }

  /** The text behind the first `i` pairs. */
  function Behind(s: string, i: nat): string
    requires i <= |LinePairs(s)|
    decreases i
  {
    if i == 0 then s else Behind(AfterLine(AfterLine(s)), i - 1)
  }

  /** The data of the first `i` pairs. */
  function Data(pairs: seq<LinePair>, i: nat): string
    requires i <= |pairs|
  {
    if i == 0 then "" else Data(pairs, i - 1) + pairs[i - 1].data
  }

  /** The guards of the loop: a size that was read, is not zero, and with the bytes so far is not above the limit. */
  predicate Announced(size: Option<int>, length: nat, max: nat) {
    size.Some? && size.value != 0 && AddSizes(length, Size(size)) <= max
  }

  /** The size as the decoder stores it. */
  function Size(size: Option<int>): nat {
    match size
    case None => 0
    case Some(v) => if v < 0 && v + SIZE_LIMIT >= 0 then v + SIZE_LIMIT else if v < 0 then 0 else v
  }

  function LeadingTrue(flags: seq<bool>, from: nat := 0): (k: nat)
    requires from <= |flags|
    ensures from <= k <= |flags|
    ensures forall i :: from <= i < k ==> flags[i]
    ensures k < |flags| ==> !flags[k]
    decreases |flags| - from
  {
    if from == |flags| || !flags[from] then from else LeadingTrue(flags, from + 1)
  }

  /** Which pairs satisfy the guards, the body having `length` bytes before all of them. */
  function Flags(pairs: seq<LinePair>, length: nat, max: nat): seq<bool> {
    seq(|pairs|, i requires 0 <= i < |pairs| => Announced(pairs[i].size, length + |Data(pairs, i)|, max))
  }

  /** How many pairs pass: those in front of the first that fails the guards. */
  function Passing(pairs: seq<LinePair>, length: nat, max: nat): nat {
    LeadingTrue(Flags(pairs, length, max))
  }

  lemma PassingFacts(pairs: seq<LinePair>, length: nat, max: nat)
    ensures var k := Passing(pairs, length, max);
            && k <= |pairs|
            && (forall i :: 0 <= i < k ==> Announced(pairs[i].size, length + |Data(pairs, i)|, max))
            && (k < |pairs| ==> !Announced(pairs[k].size, length + |Data(pairs, k)|, max))
  {
    hide Announced, Data;
    var flags := Flags(pairs, length, max);
    assert forall i :: 0 <= i < |pairs| ==> flags[i] == Announced(pairs[i].size, length + |Data(pairs, i)|, max);
  }

  lemma {:induction false} DataGrows(pairs: seq<LinePair>, i: nat, k: nat)
    requires i <= k <= |pairs|
    ensures |Data(pairs, i)| <= |Data(pairs, k)|
    decreases k - i
  {
    if i < k {
      DataGrows(pairs, i + 1, k);
    }
  }

  /** Pair number `i` is at the front of what is behind the pairs before it. */
  lemma {:induction false} PairsBehind(s: string, i: nat)
    requires i <= |LinePairs(s)|
    ensures LinePairs(Behind(s, i)) == LinePairs(s)[i..]
    ensures i < |LinePairs(s)| ==> Behind(s, i + 1) == Behind(Behind(s, i), 1)
    decreases i
  {
    if i > 0 {
      var t := AfterLine(AfterLine(s));
      PairsBehind(t, i - 1);
      assert LinePairs(s)[1..] == LinePairs(t);
      assert LinePairs(s)[i..] == LinePairs(t)[i - 1..];
      hide HasLine, FirstLine, AfterLine, LinePairs;
    }
  }

  lemma PairInFront(t: string)
    ensures HasLine(t) && HasLine(AfterLine(t)) <==> LinePairs(t) != []
  {
    hide HasLine, FirstLine, AfterLine, SizeIn;
  }

  lemma FrontPair(t: string)
    requires LinePairs(t) != []
    ensures HasLine(t) && HasLine(AfterLine(t))
    ensures LinePairs(t)[0] == LinePair(SizeIn(FirstLine(t)), FirstLine(AfterLine(t)))
    ensures Behind(t, 1) == AfterLine(AfterLine(t)) && |Behind(t, 1)| + |LinePairs(t)[0].data| <= |t|
  {
    LineSplits(t);
    LineSplits(AfterLine(t));
    hide HasLine, FirstLine, AfterLine, SizeIn;
  }

  // ---------- the decoder over the pairs ----------

  /** A decoder between chunks. */
  predicate Between(d: Decoder) {
    !d.chunkSizeKnown && d.nextChunkSize == 0
  }

  function Extended(d: Decoder, data: string): Decoder {
    d.(body := d.body + data, bodyLength := d.bodyLength + |data|)
  }

  lemma SizeOfLine(d: Decoder, line: string, max: nat)
    requires Between(d)
    ensures var o := OnLine(d, line, max);
            && (o.1.Continue? <==> SizeIn(line).Some?)
            && o.0 == if o.1.Continue? then WithSize(d, SizeIn(line)) else d
  {
    hide Stoi;
  }

  function WithSize(d: Decoder, size: Option<int>): Decoder {
    d.(nextChunkSize := Size(size), chunkSizeKnown := true)
  }

  lemma DataOfLine(d: Decoder, size: Option<int>, line: string, max: nat)
    requires Between(d) && size.Some? && -INT_LIMIT <= size.value < INT_LIMIT && d.bodyLength + |line| < SIZE_LIMIT
    ensures var o := OnLine(WithSize(d, size), line, max);
            && (o.1.Continue? <==> Announced(size, d.bodyLength, max))
            && if o.1.Continue? then o.0 == Extended(d, line) else o.0.body == d.body && o.0.bodyLength == d.bodyLength
  {
  }

  /** A pair that passes extends the body by its data. */
  lemma PairPasses(s: string, d: Decoder, max: nat)
    requires HasLine(s) && HasLine(AfterLine(s)) && Between(d) && d.bodyLength + |s| < SIZE_LIMIT
    requires Announced(SizeIn(FirstLine(s)), d.bodyLength, max)
    ensures Feed(s, d, max) == Feed(AfterLine(AfterLine(s)), Extended(d, FirstLine(AfterLine(s))), max)
  {
    var size, rest := FirstLine(s), AfterLine(s);
    LineSplits(s);
    LineSplits(rest);
    SizeOfLine(d, size, max);
    DataOfLine(d, SizeIn(size), FirstLine(rest), max);
    hide HasLine, FirstLine, AfterLine, Feed, OnLine, SizeIn, WithSize, Extended;
    FeedStep(s, d, max);
    FeedStep(rest, WithSize(d, SizeIn(size)), max);
  }

  /** Without a pair that passes the body stays as it is. */
  lemma NoPairPasses(s: string, d: Decoder, max: nat)
    requires Between(d) && d.bodyLength + |s| < SIZE_LIMIT
    requires !(HasLine(s) && HasLine(AfterLine(s)) && Announced(SizeIn(FirstLine(s)), d.bodyLength, max))
    ensures var r := Feed(s, d, max).decoder; r.body == d.body && r.bodyLength == d.bodyLength
  {
    if HasLine(s) {
      var size, rest := FirstLine(s), AfterLine(s);
      LineSplits(s);
      FeedStep(s, d, max);
      SizeOfLine(d, size, max);
      if SizeIn(size).Some? {
        var d' := WithSize(d, SizeIn(size));
        if HasLine(rest) {
          LineSplits(rest);
          FeedStep(rest, d', max);
          DataOfLine(d, SizeIn(size), FirstLine(rest), max);
        } else {
          FeedNothing(rest, d', max);
        }
      }
      hide HasLine, FirstLine, AfterLine, Feed, OnLine, SizeIn, Announced;
    } else {
      FeedNothing(s, d, max);
    }
  }

  /** The pairs that pass, one after the other. */
  lemma {:induction false} PairsPass(s: string, d: Decoder, max: nat, i: nat)
    requires Between(d) && d.bodyLength + |s| < SIZE_LIMIT &&
             i <= Passing(LinePairs(s), d.bodyLength, max) <= |LinePairs(s)|
    ensures Feed(s, d, max) == Feed(Behind(s, i), Extended(d, Data(LinePairs(s), i)), max)
    ensures |Behind(s, i)| + |Data(LinePairs(s), i)| <= |s|
    decreases i
  {
    hide LinePairs, Passing, Feed, HasLine, FirstLine, AfterLine, Announced, SizeIn, Data;
    NoData(LinePairs(s));
    if i == 0 {
      assert d.body + "" == d.body;
    } else {
      hide Behind;
      var pairs := LinePairs(s);
      var t, data := Behind(s, i - 1), Data(pairs, i - 1);
      DataOf(pairs, i - 1);
      PairsPass(s, d, max, i - 1);
      PairsBehind(s, i - 1);
      FrontPair(t);
      PassingFacts(pairs, d.bodyLength, max);
      assert pairs[i - 1..][0] == pairs[i - 1];
      PairPasses(t, Extended(d, data), max);
      assert d.body + data + pairs[i - 1].data == d.body + (data + pairs[i - 1].data);
    }
  }

  /** Whatever the stream: the body is extended by the data of exactly the pairs that pass. */
  lemma BodyIsPassingData(s: string, d: Decoder, max: nat)
    requires Between(d) && d.bodyLength + |s| < SIZE_LIMIT
    ensures Passing(LinePairs(s), d.bodyLength, max) <= |LinePairs(s)|
    ensures var data := Data(LinePairs(s), Passing(LinePairs(s), d.bodyLength, max));
            var r := Feed(s, d, max).decoder;
            r.body == d.body + data && r.bodyLength == d.bodyLength + |data|
  {
    hide Feed, HasLine, FirstLine, AfterLine, Announced, LinePairs, Behind, Data, Passing, SizeIn;
    var pairs := LinePairs(s);
    var k := Passing(pairs, d.bodyLength, max);
    PassingFacts(pairs, d.bodyLength, max);
    PairsPass(s, d, max, k);
    PairsBehind(s, k);
    var t, d' := Behind(s, k), Extended(d, Data(pairs, k));
    PairInFront(t);
    if LinePairs(t) != [] {
      FrontPair(t);
      assert pairs[k..][0] == pairs[k];
    }
    NoPairPasses(t, d', max);
  }

  /** The limit is exceeded exactly when, at some pair that passes, the data lines themselves add up to more. */
  lemma LimitExceededIff(s: string, d: Decoder, max: nat)
    requires Between(d) && d.bodyLength <= max && d.bodyLength + |s| < SIZE_LIMIT
    ensures var pairs := LinePairs(s);
            Passing(pairs, d.bodyLength, max) <= |pairs| &&
            (Feed(s, d, max).decoder.bodyLength > max <==>
            exists i :: 0 <= i < Passing(pairs, d.bodyLength, max) &&
                        d.bodyLength + |Data(pairs, i)| + |pairs[i].data| > max)
  {
    hide LinePairs, Passing, Feed, Data;
    var pairs := LinePairs(s);
    var k := Passing(pairs, d.bodyLength, max);
    BodyIsPassingData(s, d, max);
    NoData(pairs);
    if k > 0 {
      DataOf(pairs, k - 1);
    }
    forall i | 0 <= i < k ensures |Data(pairs, i)| + |pairs[i].data| <= |Data(pairs, k)| {
      DataOf(pairs, i);
      DataGrows(pairs, i + 1, k);
    }
  }

  /** A sender who announces at least what it sends keeps the limit. */
  lemma HonestSizesKeepLimit(s: string, d: Decoder, max: nat)
    requires Between(d) && d.bodyLength <= max && d.bodyLength + |s| < SIZE_LIMIT && max + INT_LIMIT <= SIZE_LIMIT
    requires forall i :: 0 <= i < |LinePairs(s)| && i < Passing(LinePairs(s), d.bodyLength, max) ==>
               |LinePairs(s)[i].data| <= Size(LinePairs(s)[i].size) < INT_LIMIT
    ensures Feed(s, d, max).decoder.bodyLength <= max
  {
    hide LinePairs, Feed, Passing, Announced, Data, Size;
    BodyIsPassingData(s, d, max);
    PassingFacts(LinePairs(s), d.bodyLength, max);
    HonestSums(LinePairs(s), d.bodyLength, max, Passing(LinePairs(s), d.bodyLength, max));
  }

  lemma {:induction false} HonestSums(pairs: seq<LinePair>, length: nat, max: nat, k: nat)
    requires length <= max && max + INT_LIMIT <= SIZE_LIMIT && k <= |pairs|
    requires forall i :: 0 <= i < k ==> Announced(pairs[i].size, length + |Data(pairs, i)|, max)
    requires forall i :: 0 <= i < k ==> |pairs[i].data| <= Size(pairs[i].size) < INT_LIMIT
    ensures length + |Data(pairs, k)| <= max
    decreases k
  {
    hide Announced, Size, Data;
    if k == 0 {
      NoData(pairs);
    } else {
      HonestSums(pairs, length, max, k - 1);
      DataOf(pairs, k - 1);
      AnnouncedFits(pairs[k - 1], length + |Data(pairs, k - 1)|, max);
    }
  }

  lemma NoData(pairs: seq<LinePair>)
    ensures Data(pairs, 0) == ""
  {
  }

  lemma DataOf(pairs: seq<LinePair>, i: nat)
    requires i < |pairs|
    ensures Data(pairs, i + 1) == Data(pairs, i) + pairs[i].data
  {
  }

  lemma AnnouncedFits(pair: LinePair, length: nat, max: nat)
    requires Announced(pair.size, length, max) && |pair.data| <= Size(pair.size) < INT_LIMIT
    requires length <= max && max + INT_LIMIT <= SIZE_LIMIT
    ensures length + |pair.data| <= max
  {
  }

  // ---------- encoded streams ----------

  /** The pairs of an encoded list: each chunk with its own length. */
  function PairsFor(chunks: seq<string>): seq<LinePair> {
    if chunks == [] then [] else [LinePair(Some(|chunks[0]|), chunks[0])] + PairsFor(chunks[1..])
  }

  lemma {:induction false} PairsForAt(chunks: seq<string>, i: nat)
    ensures |PairsFor(chunks)| == |chunks|
    ensures i < |chunks| ==> PairsFor(chunks)[i] == LinePair(Some(|chunks[i]|), chunks[i])
    decreases |chunks|
  {
    if chunks != [] {
      PairsForAt(chunks[1..], if i == 0 then 0 else i - 1);
    }
  }

  lemma PairInFrontOf(data: string, rest: string)
    requires |data| < INT_LIMIT && !HasLine(data)
    ensures LinePairs(Chunk(data) + rest) == [LinePair(Some(|data|), data)] + LinePairs(rest)
  {
    var hex, s := Print(|data|, 16), Chunk(data) + rest;
    PrintIsOneLine(|data|);
    StoiOfPrint(|data|, 16);
    LineOf(hex, data + "\r\n" + rest);
    LineOf(data, rest);
    assert s == hex + "\r\n" + (data + "\r\n" + rest);
    hide HasLine, FirstLine, AfterLine, Print, Stoi;
  }

  lemma {:induction false} PairsOfEncoded(chunks: seq<string>, rest: string)
    requires forall i :: 0 <= i < |chunks| ==> Plain(chunks[i])
    ensures LinePairs(Encode(chunks) + Chunk("") + rest) ==
            PairsFor(chunks) + ([LinePair(Some(0), "")] + LinePairs(rest))
    decreases |chunks|
  {
    if chunks == [] {
      assert Encode(chunks) + Chunk("") + rest == Chunk("") + rest;
      EmptyHasNoLine();
      hide HasLine, LinePairs, Chunk;
      PairInFrontOf("", rest);
      assert [] + ([LinePair(Some(0), "")] + LinePairs(rest)) == [LinePair(Some(0), "")] + LinePairs(rest);
    } else {
      var c, tail := chunks[0], Encode(chunks[1..]) + Chunk("") + rest;
      assert Encode(chunks) + Chunk("") + rest == Chunk(c) + tail;
      hide HasLine, LinePairs, Chunk, Encode;
      PairInFrontOf(c, tail);
      PairsOfEncoded(chunks[1..], rest);
      Associate([LinePair(Some(|c|), c)], PairsFor(chunks[1..]), [LinePair(Some(0), "")] + LinePairs(rest));
    }
  }

  lemma EmptyHasNoLine()
    ensures !HasLine("")
  {
  }

  /** Encoded streams announce what they send: the pairs that pass are chunks, each with its own length. */
  lemma EncodedIsHonest(chunks: seq<string>, rest: string, length: nat, max: nat)
    requires forall i :: 0 <= i < |chunks| ==> Plain(chunks[i])
    ensures var pairs := LinePairs(Encode(chunks) + Chunk("") + rest);
            && Passing(pairs, length, max) <= |chunks| <= |pairs|
            && forall i :: 0 <= i < Passing(pairs, length, max) ==> |pairs[i].data| <= Size(pairs[i].size) < INT_LIMIT
  {
    var pairs := LinePairs(Encode(chunks) + Chunk("") + rest);
    var n := |chunks|;
    PairsOfEncoded(chunks, rest);
    PairsForAt(chunks, 0);
    assert pairs[n] == LinePair(Some(0), "");
    hide LinePairs, Encode, Chunk, PairsFor, Data, HasLine;
    PassingFacts(pairs, length, max);
    forall i | 0 <= i < n ensures |pairs[i].data| <= Size(pairs[i].size) < INT_LIMIT {
      PairsForAt(chunks, i);
      assert Plain(chunks[i]);
    }
  }

  /** A negative size wraps around: it passes the check exactly when the body already has that many bytes. */
  lemma NegativeSizePassesIff(size: int, length: nat, max: nat)
    requires length <= max && max + INT_LIMIT < SIZE_LIMIT && -INT_LIMIT <= size < 0
    ensures Announced(Some(size), length, max) <==> length >= -size
  {
  }

  lemma FeedPair(size: string, data: string, rest: string, d: Decoder, max: nat)
    requires !HasLine(size) && !HasLine(data) && Between(d) && Announced(SizeIn(size), d.bodyLength, max)
    requires d.bodyLength + |data| < SIZE_LIMIT
    ensures Feed(size + "\r\n" + (data + "\r\n" + rest), d, max) == Feed(rest, Extended(d, data), max)
  {
    SizeOfLine(d, size, max);
    DataOfLine(d, SizeIn(size), data, max);
    hide HasLine, Feed, SizeIn, OnLine, Extended, WithSize;
    FeedLine(size, data + "\r\n" + rest, d, max);
    FeedLine(data, rest, WithSize(d, SizeIn(size)), max);
  }

  lemma SizeOne()
    ensures SizeIn("1") == Some(1) && !HasLine("1") && !HasLine("abc") && !HasLine("a")
  {
    StoiOfPrint(1, 16);
    assert Print(1, 16) == "1";
  }

  lemma SizeMinusOne()
    ensures SizeIn("-1") == Some(-1) && !HasLine("-1") && !HasLine("bc")
  {
    var s := "-1";
    assert SkipSpace(s) == s && s[1..] == "1" && "1"[0..] == "1";
    assert DigitRun("1", 16) == 1 && "1"[..1] == "1";
    ValueOfPrint(1, 16);
    assert Print(1, 16) == "1";
  }

  lemma OnePairIs(size: string, data: string)
    ensures size + "\r\n" + (data + "\r\n" + "") == size + "\r\n" + data + "\r\n"
  {
  }

  /** One pair, fed: it is taken exactly when it passes. */
  lemma FeedOnePair(size: string, data: string, d: Decoder, max: nat)
    requires !HasLine(size) && !HasLine(data) && Between(d) && Announced(SizeIn(size), d.bodyLength, max)
    requires d.bodyLength + |data| < SIZE_LIMIT
    ensures Feed(size + "\r\n" + data + "\r\n", d, max) == Fed("", Extended(d, data), None)
  {
    hide HasLine, SizeIn, Feed, Announced;
    OnePairIs(size, data);
    FeedPair(size, data, "", d, max);
    NoLineInNothing();
    FeedNothing("", Extended(d, data), max);
  }

  lemma NoLineInNothing()
    ensures !HasLine("")
  {
  }

  lemma AnnouncedOne()
    ensures Announced(Some(1), 0, 1) && Announced(Some(-1), 1, 1)
  {
  }

  /** Announcing one byte and sending three passes a limit of one. */
  lemma UnderstatedSizePasses()
    ensures Feed("1" + "\r\n" + "abc" + "\r\n", FRESH, 1).decoder.bodyLength == 3
  {
    hide HasLine, SizeIn, Feed, Announced;
    SizeOne();
    AnnouncedOne();
    FeedOnePair("1", "abc", FRESH, 1);
  }

  /** So does announcing minus one byte once the body has a byte. */
  lemma NegativeSizePasses()
    ensures Feed(("1" + "\r\n" + "a" + "\r\n") + ("-1" + "\r\n" + "bc" + "\r\n"), FRESH, 1).decoder.bodyLength == 3
  {
    hide HasLine, SizeIn, Feed, Announced;
    SizeOne();
    SizeMinusOne();
    AnnouncedOne();
    var negative := "-1" + "\r\n" + "bc" + "\r\n";
    PairThen("1", "a", negative);
    FeedPair("1", "a", negative, FRESH, 1);
    FeedOnePair("-1", "bc", Extended(FRESH, "a"), 1);
  }

  lemma PairThen(size: string, data: string, more: string)
    ensures (size + "\r\n" + data + "\r\n") + more == size + "\r\n" + (data + "\r\n" + more)
  {
  }
}
