/**
  The four-state automaton with which Buffer::add counts lines and blank lines,
  and exactly when its counts agree with the text.
 */
module NewlineScan {
  import opened Text

  datatype NewLineStatus = NoNewline | AfterCR | AfterCRLF | AfterCRLFCR

  datatype Tally = Tally(status: NewLineStatus, lines: nat, blanks: nat)

  /** The LF of a line that the automaton counts. */
  predicate Counts(st: NewLineStatus) {
    st.AfterCR? || st.AfterCRLFCR?
  }

  function Next(st: NewLineStatus, c: char): NewLineStatus {
    if c == '\r' then
      match st
      case AfterCRLF => AfterCRLFCR
      case NoNewline => AfterCR
      case _ => NoNewline
    else if c == '\n' then
      match st
      case AfterCR => AfterCRLF
      case AfterCRLFCR => AfterCRLFCR
      case _ => NoNewline
    else NoNewline
  }

  function Bump(t: Tally, c: char): Tally {
    Tally(Next(t.status, c),
          t.lines + (if c == '\n' && Counts(t.status) then 1 else 0),
          t.blanks + (if c == '\n' && t.status.AfterCRLFCR? then 1 else 0))
  }

  /** The counters after the bytes of `s`, started from `t`. */
  function Scan(t: Tally, s: string): Tally {
    if s == "" then t else Bump(Scan(t, s[..|s| - 1]), s[|s| - 1])
  }

  function Start(st: NewLineStatus): Tally { Tally(st, 0, 0) }

  lemma ScanSnoc(t: Tally, s: string, i: nat)
    requires i < |s|
    ensures Scan(t, s[..i + 1]) == Bump(Scan(t, s[..i]), s[i])
  {
    assert s[..i + 1][..i] == s[..i];
  }

  lemma {:induction false} ScanConcat(t: Tally, a: string, b: string)
    ensures Scan(t, a + b) == Scan(Scan(t, a), b)
    decreases |b|
  {
    if b == "" {
      assert a + b == a;
    } else {
      assert (a + b)[..|a + b| - 1] == a + b[..|b| - 1];
      ScanConcat(t, a, b[..|b| - 1]);
    }
  }

  /** The counters start where they are told to: only the status influences the run. */
  lemma {:induction false} ScanShift(t: Tally, s: string)
    ensures Scan(t, s).status == Scan(Start(t.status), s).status
    ensures Scan(t, s).lines == t.lines + Scan(Start(t.status), s).lines
    ensures Scan(t, s).blanks == t.blanks + Scan(Start(t.status), s).blanks
    decreases |s|
  {
    if s != "" {
      ScanShift(t, s[..|s| - 1]);
    }
  }

  /** The status behind two texts is that behind the second, entered in the status behind the first. */
  lemma ScanOfTwo(st: NewLineStatus, a: string, b: string)
    ensures Scan(Start(st), a + b).status == Scan(Start(Scan(Start(st), a).status), b).status
  {
    ScanConcat(Start(st), a, b);
    ScanShift(Scan(Start(st), a), b);
  }

  /** Every LF of `s` is counted exactly when a CR stands before it. */
  predicate Agrees(st: NewLineStatus, afterCR: bool, s: string)
    decreases |s|
  {
    s == "" ||
    ((s[0] == '\n' ==> (Counts(st) <==> afterCR)) && Agrees(Next(st, s[0]), s[0] == '\r', s[1..]))
  }

  lemma {:induction false} AgreesConcat(st: NewLineStatus, afterCR: bool, a: string, b: string)
    ensures Agrees(st, afterCR, a + b) <==>
            Agrees(st, afterCR, a) && Agrees(Scan(Start(st), a).status, EndsInCR(afterCR, a), b)
    decreases |a|
  {
    if a == "" {
      assert a + b == b;
    } else {
      assert (a + b)[1..] == a[1..] + b;
      AgreesConcat(Next(st, a[0]), a[0] == '\r', a[1..], b);
      assert a == a[..1] + a[1..];
      ScanConcat(Start(st), a[..1], a[1..]);
      ScanSnoc(Start(st), a, 0);
      assert Scan(Start(st), a[..1]).status == Next(st, a[0]);
      ScanShift(Scan(Start(st), a[..1]), a[1..]);
    }
  }

  lemma AgreesSnoc(st: NewLineStatus, afterCR: bool, s: string)
    requires s != ""
    ensures Agrees(st, afterCR, s) <==>
            Agrees(st, afterCR, s[..|s| - 1]) &&
            (s[|s| - 1] == '\n' ==> (Counts(Scan(Start(st), s[..|s| - 1]).status) <==> EndsInCR(afterCR, s[..|s| - 1])))
  {
    var n := |s| - 1;
    assert s == s[..n] + s[n..];
    AgreesConcat(st, afterCR, s[..n], s[n..]);
    assert s[n..][1..] == "";
  }

  /** Counted lines equal CRLF pairs, after every prefix, exactly when every LF agrees. */
  lemma {:induction false} CountsExactIffAgrees(st: NewLineStatus, afterCR: bool, s: string)
    ensures (forall n :: 0 <= n <= |s| ==> Scan(Start(st), s[..n]).lines == Pairs(afterCR, s[..n])) <==>
            Agrees(st, afterCR, s)
    decreases |s|
  {
    if s == "" {
      assert forall n :: 0 <= n <= |s| ==> s[..n] == "";
    } else {
      var m := |s| - 1;
      var t := s[..m];
      CountsExactIffAgrees(st, afterCR, t);
      assert forall n :: 0 <= n <= m ==> t[..n] == s[..n];
      assert s[..m] == t && t[..m] == t && s[..|s|] == s;
      AgreesSnoc(st, afterCR, s);
      assert s == t + s[m..] && s[m..][1..] == "";
      PairsOfConcat(afterCR, t, s[m..]);
      assert Pairs(EndsInCR(afterCR, t), s[m..]) == (if EndsInCR(afterCR, t) && s[m] == '\n' then 1 else 0);
      assert Scan(Start(st), s).lines ==
        Scan(Start(st), t).lines + (if s[m] == '\n' && Counts(Scan(Start(st), t).status) then 1 else 0);
      if forall n :: 0 <= n <= |s| ==> Scan(Start(st), s[..n]).lines == Pairs(afterCR, s[..n]) {
        assert Scan(Start(st), s[..m]).lines == Pairs(afterCR, s[..m]);
        assert Scan(Start(st), s[..|s|]).lines == Pairs(afterCR, s[..|s|]);
        assert Agrees(st, afterCR, s);
      }
      if Agrees(st, afterCR, s) {
        forall n | 0 <= n <= |s| ensures Scan(Start(st), s[..n]).lines == Pairs(afterCR, s[..n]) {
          assert n <= m ==> s[..n] == t[..n];
          assert n == |s| ==> s[..n] == s;
        }
      }
    }
  }

  lemma ScanExact(st: NewLineStatus, afterCR: bool, s: string)
    requires Agrees(st, afterCR, s)
    ensures Scan(Start(st), s).lines == Pairs(afterCR, s)
  {
    CountsExactIffAgrees(st, afterCR, s);
    assert s[..|s|] == s;
  }

  // ---------- the same condition, read off the text ----------

  /** The number of CR bytes directly before the end of `s`. */
  function TrailingCRs(s: string): (k: nat)
    ensures k <= |s|
    ensures forall i :: |s| - k <= i < |s| ==> s[i] == '\r'
    ensures k < |s| ==> s[|s| - k - 1] != '\r'
  {
    if s == "" || s[|s| - 1] != '\r' then 0 else 1 + TrailingCRs(s[..|s| - 1])
  }

  predicate EndsInLine(s: string) {
    |s| >= 2 && s[|s| - 2] == '\r' && s[|s| - 1] == '\n'
  }

  predicate EndsInBlankLine(s: string) {
    |s| >= 4 && EndsInLine(s) && EndsInLine(s[..|s| - 2])
  }

  /**
    An LF after `before` is counted as the text says: the run of CR bytes in front of it has odd length or
    none, except directly after a blank line, where it must be even and not none.
   */
  predicate LFIsClean(before: string) {
    var k := TrailingCRs(before);
    if EndsInBlankLine(before[..|before| - k]) then k > 0 && k % 2 == 0 else k == 0 || k % 2 == 1
  }

  predicate Clean(s: string) {
    forall i :: 0 <= i < |s| && s[i] == '\n' ==> LFIsClean(s[..i])
  }

  /** The status the automaton is in after the clean text `s`. */
  function StatusOf(s: string): NewLineStatus {
    var k := TrailingCRs(s);
    var t := s[..|s| - k];
    if EndsInBlankLine(t) then (if k == 0 then AfterCRLFCR else if k % 2 == 1 then NoNewline else AfterCR)
    else if EndsInLine(t) then
      (if k == 0 then AfterCRLF else if k == 1 then AfterCRLFCR else if k % 2 == 0 then NoNewline else AfterCR)
    else if k % 2 == 0 then NoNewline else AfterCR
  }

  lemma CleanPrefix(a: string, b: string)
    requires Clean(a + b)
    ensures Clean(a)
  {
    forall i | 0 <= i < |a| && a[i] == '\n' ensures LFIsClean(a[..i]) {
      assert (a + b)[i] == '\n' && (a + b)[..i] == a[..i];
    }
  }

  lemma CleanSnoc(s: string, c: char)
    ensures Clean(s + [c]) <==> Clean(s) && (c == '\n' ==> LFIsClean(s))
  {
    assert (s + [c])[..|s|] == s && (s + [c])[|s|] == c;
    if Clean(s + [c]) {
      CleanPrefix(s, [c]);
    }
    if Clean(s) && (c == '\n' ==> LFIsClean(s)) {
      forall i | 0 <= i < |s + [c]| && (s + [c])[i] == '\n' ensures LFIsClean((s + [c])[..i]) {
        if i < |s| { assert (s + [c])[..i] == s[..i]; }
      }
    }
  }

  lemma StatusOfCR(s: string)
    ensures StatusOf(s + "\r") == Next(StatusOf(s), '\r')
  {
    var u := s + "\r";
    var k := TrailingCRs(s);
    assert u[..|u| - 1] == s;
    assert TrailingCRs(u) == k + 1;
    assert u[..|u| - (k + 1)] == s[..|s| - k];
  }

  /** After a clean LF the bytes before the last pair decide between a line end and a blank line. */
  lemma StatusOfLF(s: string)
    requires LFIsClean(s)
    ensures StatusOf(s + "\n") == Next(StatusOf(s), '\n')
  {
    var u := s + "\n";
    var k := TrailingCRs(s);
    var t := s[..|s| - k];
    assert TrailingCRs(u) == 0 && u[..|u|] == u;
    assert EndsInLine(u) <==> k > 0;
    assert |s| > 0 ==> u[..|u| - 2] == s[..|s| - 1];
    if k == 1 {
      assert s[..|s| - 1] == t;
      assert EndsInBlankLine(u) <==> EndsInLine(t);
    } else if k > 1 {
      assert s[|s| - 2] == '\r';
      assert !EndsInBlankLine(u);
    }
  }

  lemma StatusOfOther(s: string, c: char)
    requires c != '\r' && c != '\n'
    ensures StatusOf(s + [c]) == NoNewline
  {
    var u := s + [c];
    assert TrailingCRs(u) == 0 && u[..|u|] == u && u[|u| - 1] == c;
  }

  lemma CountsIffOddRun(s: string)
    ensures LFIsClean(s) <==> (Counts(StatusOf(s)) <==> EndsInCR(false, s))
  {
    var k := TrailingCRs(s);
    assert k > 0 <==> EndsInCR(false, s);
  }

  /** Main result on the counters: they are exact after every prefix of a stream exactly when the stream is clean. */
  lemma {:induction false} AgreesIffClean(s: string)
    ensures Agrees(NoNewline, false, s) <==> Clean(s)
    ensures Clean(s) ==> Scan(Start(NoNewline), s).status == StatusOf(s)
    decreases |s|
  {
    if s == "" {
    } else {
      var m := |s| - 1;
      var t := s[..m];
      assert s == t + [s[m]];
      AgreesIffClean(t);
      AgreesSnoc(NoNewline, false, s);
      CleanSnoc(t, s[m]);
      CountsIffOddRun(t);
      if Clean(s) {
        if s[m] == '\r' {
          StatusOfCR(t);
          assert s == t + "\r";
        } else if s[m] == '\n' {
          StatusOfLF(t);
          assert s == t + "\n";
        } else {
          StatusOfOther(t, s[m]);
        }
      }
    }
  }

  lemma LineCountExactIffClean(s: string)
    ensures (forall n :: 0 <= n <= |s| ==> Scan(Start(NoNewline), s[..n]).lines == Pairs(false, s[..n])) <==> Clean(s)
  {
    CountsExactIffAgrees(NoNewline, false, s);
    AgreesIffClean(s);
  }

  /** A line end behind two CR bytes is the shortest text that is counted wrong. */
  lemma ShortestUnclean()
    ensures !Clean("\r\r\n")
    ensures forall s :: |s| < 3 ==> Clean(s)
  {
    var s := "\r\r\n";
    assert s[2] == '\n' && s[..2] == "\r\r" && "\r\r"[..1] == "\r" && "\r"[..0] == "";
    assert TrailingCRs(s[..2]) == 2;
    forall t: string | |t| < 3 ensures Clean(t) {
      forall i | 0 <= i < |t| && t[i] == '\n' ensures LFIsClean(t[..i]) {
        assert TrailingCRs(t[..i]) <= 1;
      }
    }
  }

  /** After a byte that is neither CR nor LF it no longer matters what came before. */
  lemma ScanRestart(st: NewLineStatus, afterCR: bool, s: string)
    requires s != "" && s[0] != '\r' && s[0] != '\n'
    ensures Scan(Start(st), s) == Scan(Start(NoNewline), s)
    ensures Agrees(st, afterCR, s) <==> Agrees(NoNewline, false, s)
  {
    assert s == s[..1] + s[1..];
    ScanConcat(Start(st), s[..1], s[1..]);
    ScanConcat(Start(NoNewline), s[..1], s[1..]);
    ScanSnoc(Start(st), s, 0);
    ScanSnoc(Start(NoNewline), s, 0);
    assert s[..0] == "";
  }

  /** A line end at which the automaton counts is in its count. */
  lemma {:induction false} CountedInside(st: NewLineStatus, s: string, o: nat)
    requires o < |s| && s[o] == '\n' && Counts(Scan(Start(st), s[..o]).status)
    ensures Scan(Start(st), s).lines > 0
    decreases |s|
  {
    var m := |s| - 1;
    if o < m {
      assert s[..m][..o] == s[..o];
      CountedInside(st, s[..m], o);
    }
  }
}
