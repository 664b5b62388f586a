/** Bodies of a declared length (section 6 of RFC 9112), delivered in any pieces. */
module FixedBody {
  import opened Text
  import opened Numbers

  datatype Reader = Reader(body: string, bodyLength: nat, complete: bool)

  const EMPTY := Reader("", 0, false)

  datatype Fed = Fed(unread: string, reader: Reader)

  /** Buffer::readAndRemove of `length` bytes: a length of 0 takes everything. */
  function Taken(s: string, length: nat): nat {
    if length == 0 then |s| else Min(length, |s|)
  }

  /** The difference of two size_t values. */
  function Missing(contentLength: nat, bodyLength: nat): nat {
    if bodyLength <= contentLength then contentLength - bodyLength
    else SIZE_LIMIT - (bodyLength - contentLength) % SIZE_LIMIT
  }

  /** parseBody and _addToFixedContentSize: the body is replaced, not extended, by what a delivery adds. */
  function Step(s: string, r: Reader, contentLength: nat): Fed
  {
    if s == "" || r.complete then Fed(s, r)
    else if |s| + r.bodyLength >= contentLength then
      var n := Taken(s, Missing(contentLength, r.bodyLength));
      Fed(s[n..], Reader(s[..n], contentLength, true))
    else Fed("", Reader(s, r.bodyLength + |s|, false))
  }

  function Receive(s: string, r: Reader, pieces: seq<string>, contentLength: nat): Fed
    decreases |pieces|
  {
    if pieces == [] then Fed(s, r)
    else
      var f := Step(s + pieces[0], r, contentLength);
      Receive(f.unread, f.reader, pieces[1..], contentLength)
  }

  lemma {:induction false} CompleteKeepsAll(s: string, r: Reader, pieces: seq<string>, contentLength: nat)
    requires r.complete
    ensures Receive(s, r, pieces, contentLength) == Fed(s + Join(pieces), r)
    decreases |pieces|
  {
    if pieces == [] {
      assert s + "" == s;
    } else {
      CompleteKeepsAll(s + pieces[0], r, pieces[1..], contentLength);
      assert s + pieces[0] + Join(pieces[1..]) == s + (pieces[0] + Join(pieces[1..]));
    }
  }

  lemma DropFromTwo(p: string, rest: string, k: nat)
    requires k <= |p| + |rest|
    ensures (p + rest)[k..] == if k <= |p| then p[k..] + rest else rest[k - |p|..]
  {
  }

  /** From a reader that still waits for bytes: exactly the missing ones are taken, whatever the pieces. */
  lemma {:induction false} TakesTheMissing(r: Reader, pieces: seq<string>, contentLength: nat)
    requires r.bodyLength < contentLength && !r.complete
    ensures var f := Receive("", r, pieces, contentLength);
            var missing := contentLength - r.bodyLength;
            && f.unread == Join(pieces)[Min(missing, |Join(pieces)|)..]
            && f.reader.bodyLength == r.bodyLength + Min(missing, |Join(pieces)|)
            && (f.reader.complete <==> |Join(pieces)| >= missing)
    decreases |pieces|
  {
    if pieces != [] {
      var p, rest := pieces[0], Join(pieces[1..]);
      assert "" + p == p;
      var f := Step(p, r, contentLength);
      if f.reader.complete {
        CompleteKeepsAll(f.unread, f.reader, pieces[1..], contentLength);
        DropFromTwo(p, rest, contentLength - r.bodyLength);
      } else {
        TakesTheMissing(f.reader, pieces[1..], contentLength);
        DropFromTwo(p, rest, Min(contentLength - r.bodyLength, |p + rest|));
        hide Receive, Join;
      }
    }
  }

  /** A declared length of 0 swallows the first delivery whole. */
  lemma {:induction false} ZeroLengthSwallows(pieces: seq<string>)
    requires Join(pieces) != ""
    ensures |Receive("", EMPTY, pieces, 0).unread| < |Join(pieces)|
    decreases |pieces|
  {
    var p := pieces[0];
    assert "" + p == p;
    if p == "" {
      ZeroLengthSwallows(pieces[1..]);
    } else {
      assert p[|p|..] == "";
      CompleteKeepsAll("", Reader(p[..|p|], 0, true), pieces[1..], 0);
    }
  }

  /**
    Exact consumption: however the bytes are cut, exactly the declared number of them leaves the buffer -
    and this holds exactly when the declared length is positive or nothing arrives.
   */
  lemma ExactConsumption(pieces: seq<string>, contentLength: nat)
    ensures Receive("", EMPTY, pieces, contentLength).unread == Join(pieces)[Min(contentLength, |Join(pieces)|)..] <==>
            contentLength > 0 || Join(pieces) == ""
    ensures contentLength > 0 ==>
              var f := Receive("", EMPTY, pieces, contentLength);
              f.reader.bodyLength == Min(contentLength, |Join(pieces)|) &&
                (f.reader.complete <==> |Join(pieces)| >= contentLength)
  {
    if contentLength > 0 {
      TakesTheMissing(EMPTY, pieces, contentLength);
    } else if Join(pieces) != "" {
      ZeroLengthSwallows(pieces);
    } else {
      NothingArrives(pieces, contentLength);
    }
  }

  /** The inputs: a declared length of zero takes a byte, and the second of two deliveries is all that is kept. */
  lemma ZeroTakesAByte()
    ensures Receive("", EMPTY, ["x"], 0) == Fed("", Reader("x", 0, true))
    ensures Receive("", EMPTY, ["a", "b"], 2) == Fed("", Reader("b", 2, true))
  {
    assert "" + "x" == "x" && "x"[..1] == "x" && "x"[1..] == "" && ["x"][1..] == [];
    assert Step("x", EMPTY, 0) == Fed("", Reader("x", 0, true));
    assert "" + "a" == "a" && ["a", "b"][1..] == ["b"] && ["b"][1..] == [];
    assert "" + "b" == "b" && "b"[..1] == "b" && "b"[1..] == "";
    assert Step("a", EMPTY, 2) == Fed("", Reader("a", 1, false));
    assert Step("b", Reader("a", 1, false), 2) == Fed("", Reader("b", 2, true));
    hide Step;
    assert Receive("", EMPTY, ["a", "b"], 2) == Receive("", Reader("a", 1, false), ["b"], 2);
  }

  lemma {:induction false} NothingArrives(pieces: seq<string>, contentLength: nat)
    requires Join(pieces) == ""
    ensures Receive("", EMPTY, pieces, contentLength) == Fed("", EMPTY)
    decreases |pieces|
  {
    if pieces != [] {
      NothingArrives(pieces[1..], contentLength);
    }
  }

  /** The first delivery that brings anything. */
  function FirstArrival(pieces: seq<string>): string {
    if pieces == [] then "" else if pieces[0] != "" then pieces[0] else FirstArrival(pieces[1..])
  }

  /** The content is right exactly when the first delivery already holds the whole body: later ones replace it. */
  lemma {:induction false} ContentIffFirstArrival(pieces: seq<string>, contentLength: nat)
    requires 0 < contentLength <= |Join(pieces)|
    ensures Receive("", EMPTY, pieces, contentLength).reader.body == Join(pieces)[..contentLength] <==>
            |FirstArrival(pieces)| >= contentLength
    decreases |pieces|
  {
    var p, rest := pieces[0], Join(pieces[1..]);
    assert "" + p == p;
    if p == "" {
      ContentIffFirstArrival(pieces[1..], contentLength);
    } else {
      var f := Step(p, EMPTY, contentLength);
      if f.reader.complete {
        CompleteKeepsAll(f.unread, f.reader, pieces[1..], contentLength);
        assert (p + rest)[..contentLength] == p[..contentLength];
      } else {
        LaterBodyIsShorter(f.reader, pieces[1..], contentLength);
      }
    }
  }

  lemma {:induction false} LaterBodyIsShorter(r: Reader, pieces: seq<string>, contentLength: nat)
    requires 0 < r.bodyLength < contentLength && !r.complete && |r.body| < contentLength
    ensures |Receive("", r, pieces, contentLength).reader.body| < contentLength
    decreases |pieces|
  {
    if pieces != [] {
      assert "" + pieces[0] == pieces[0];
      var f := Step(pieces[0], r, contentLength);
      if f.reader.complete {
        CompleteKeepsAll(f.unread, f.reader, pieces[1..], contentLength);
      } else {
        LaterBodyIsShorter(f.reader, pieces[1..], contentLength);
      }
    }
  }
}
