/** Byte strings cut into lines by CRLF: the flat view every parser of the server works on. */
module Text {
  predicate Lacks(s: string, c: char) {
    forall j :: 0 <= j < |s| ==> s[j] != c
  }

  /** The first position of `c` at or after `from`, or |s|. */
  function Find(s: string, c: char, from: nat): (k: nat)
    requires from <= |s|
    ensures from <= k <= |s|
    ensures k < |s| ==> s[k] == c
    ensures forall j :: from <= j < k ==> s[j] != c
    decreases |s| - from
  {
    if from == |s| || s[from] == c then from else Find(s, c, from + 1)
  }

  /** Position `i` holds the LF of a CRLF pair. */
  predicate IsLineEnd(s: string, i: int) {
    0 < i < |s| && s[i] == '\n' && s[i - 1] == '\r'
  }

  /** The first line end at or after `from`, or |s| when there is none. */
  function LineEnd(s: string, from: nat): (e: nat)
    requires from <= |s|
    ensures from <= e <= |s|
    ensures e < |s| ==> IsLineEnd(s, e)
    ensures forall j :: from <= j < e ==> !IsLineEnd(s, j)
    decreases |s| - from
  {
    if from == |s| || IsLineEnd(s, from) then from else LineEnd(s, from + 1)
  }

  predicate HasLine(s: string) {
    LineEnd(s, 0) < |s|
  }

  /** The bytes before the first CRLF. */
  function FirstLine(s: string): string
    requires HasLine(s)
  {
    s[..LineEnd(s, 0) - 1]
  }

  /** The bytes after the first CRLF. */
  function AfterLine(s: string): (rest: string)
    requires HasLine(s)
    ensures |rest| < |s|
  {
    s[LineEnd(s, 0) + 1..]
  }

  lemma LineSplits(s: string)
    requires HasLine(s)
    ensures s == FirstLine(s) + "\r\n" + AfterLine(s)
    ensures !HasLine(FirstLine(s))
  {
    var e := LineEnd(s, 0);
    assert s[e - 1..e + 1] == "\r\n";
    assert s == s[..e - 1] + s[e - 1..e + 1] + s[e + 1..];
    forall j | 0 <= j < |FirstLine(s)| ensures !IsLineEnd(FirstLine(s), j) {
      assert !IsLineEnd(s, j);
    }
  }

  /** A text without CRLF, then CRLF, is read back as the first line. */
  lemma LineOf(line: string, rest: string)
    requires !HasLine(line)
    ensures HasLine(line + "\r\n" + rest)
    ensures FirstLine(line + "\r\n" + rest) == line
    ensures AfterLine(line + "\r\n" + rest) == rest
  {
    var s := line + "\r\n" + rest;
    var n := |line|;
    assert s[n] == '\r' && s[n + 1] == '\n';
    assert IsLineEnd(s, n + 1);
    forall j | 0 <= j <= n ensures !IsLineEnd(s, j) {
      assert j < n ==> !IsLineEnd(line, j);
    }
    assert LineEnd(s, 0) == n + 1;
  }

  /** Bytes that arrive later do not change the first line. */
  lemma LineOfPrefix(a: string, b: string)
    requires HasLine(a)
    ensures HasLine(a + b)
    ensures FirstLine(a + b) == FirstLine(a)
    ensures AfterLine(a + b) == AfterLine(a) + b
  {
    var e := LineEnd(a, 0);
    assert IsLineEnd(a + b, e);
    forall j | 0 <= j < e ensures !IsLineEnd(a + b, j) {
      assert !IsLineEnd(a, j);
    }
    assert LineEnd(a + b, 0) == e;
  }

  lemma Associate<T>(a: seq<T>, b: seq<T>, c: seq<T>)
    ensures a + b + c == a + (b + c)
  {
  }

  /** All pieces in order. */
  function Join(pieces: seq<string>): string {
    if pieces == [] then "" else pieces[0] + Join(pieces[1..])
  }

  lemma JoinSingle(piece: string)
    ensures Join([piece]) == piece
  {
    assert Join([piece]) == piece + Join([]);
  }

  lemma {:induction false} JoinConcat(a: seq<string>, b: seq<string>)
    ensures Join(a + b) == Join(a) + Join(b)
    decreases |a|
  {
    if a == [] {
      assert a + b == b;
    } else {
      assert (a + b)[1..] == a[1..] + b;
      JoinConcat(a[1..], b);
    }
  }

  /** The pieces before number `i`, that piece, and those behind it. */
  lemma JoinSnoc(pieces: seq<string>, i: nat)
    requires i < |pieces|
    ensures Join(pieces[..i + 1]) == Join(pieces[..i]) + pieces[i]
    ensures Join(pieces) == Join(pieces[..i]) + Join(pieces[i..])
    ensures Join(pieces[i..]) == pieces[i] + Join(pieces[i + 1..])
  {
    JoinFirst(pieces[i..]);
    assert pieces[i..][1..] == pieces[i + 1..];
    hide Join;
    JoinSingle(pieces[i]);
    JoinOfTwo(pieces, pieces[..i], pieces[i..]);
    JoinOfTwo(pieces[..i + 1], pieces[..i], [pieces[i]]);
  }

  lemma JoinFirst(pieces: seq<string>)
    requires pieces != []
    ensures Join(pieces) == pieces[0] + Join(pieces[1..])
  {
  }

  lemma JoinOfTwo(all: seq<string>, a: seq<string>, b: seq<string>)
    requires all == a + b
    ensures Join(all) == Join(a) + Join(b)
  {
    JoinConcat(a, b);
  }

  /** The number of LF bytes in `s` that follow a CR; `afterCR` says whether a CR precedes `s`. */
  function Pairs(afterCR: bool, s: string): nat
    decreases |s|
  {
    if s == "" then 0
    else (if afterCR && s[0] == '\n' then 1 else 0) + Pairs(s[0] == '\r', s[1..])
  }

  /** Whether a CR stands directly before the end of `s`. */
  predicate EndsInCR(afterCR: bool, s: string) {
    if s == "" then afterCR else s[|s| - 1] == '\r'
  }

  lemma {:induction false} PairsOfConcat(afterCR: bool, a: string, b: string)
    ensures Pairs(afterCR, a + b) == Pairs(afterCR, a) + Pairs(EndsInCR(afterCR, a), b)
    decreases |a|
  {
    if a == "" {
      assert a + b == b;
    } else {
      assert (a + b)[1..] == a[1..] + b;
      PairsOfConcat(a[0] == '\r', a[1..], b);
    }
  }

  lemma {:induction false} PairsCountLines(afterCR: bool, s: string)
    ensures Pairs(afterCR, s) > 0 <==> HasLine(s) || (afterCR && s != "" && s[0] == '\n')
    decreases |s|
  {
    if s != "" {
      var t := s[1..];
      PairsCountLines(s[0] == '\r', t);
      if HasLine(t) {
        assert IsLineEnd(s, LineEnd(t, 0) + 1);
      }
      if t != "" && s[0] == '\r' && t[0] == '\n' {
        assert IsLineEnd(s, 1);
      }
      if HasLine(s) && LineEnd(s, 0) > 1 {
        assert IsLineEnd(t, LineEnd(s, 0) - 1);
      }
    }
  }

  /** Taking off the first line takes off exactly one CRLF. */
  lemma PairsOfAfterLine(s: string)
    requires HasLine(s)
    ensures Pairs(false, s) == 1 + Pairs(false, AfterLine(s))
  {
    LineSplits(s);
    var line, rest := FirstLine(s), AfterLine(s);
    assert s == line + ("\r\n" + rest);
    PairsOfConcat(false, line, "\r\n" + rest);
    PairsCountLines(false, line);
    assert Pairs(false, line) == 0;
    var t := "\r\n" + rest;
    assert t[1..] == "\n" + rest && ("\n" + rest)[1..] == rest;
    assert Pairs(EndsInCR(false, line), t) == Pairs(true, "\n" + rest) == 1 + Pairs(false, rest);
  }
}
