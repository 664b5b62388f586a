/** Blank lines, and exactly when the blank-line counter of Buffer::add has seen one. */
module BlankLines {
  import opened Text
  import opened NewlineScan

  /** Position `i` holds the last LF of CR LF CR LF. */
  predicate IsBlankEnd(s: string, i: int) {
    IsLineEnd(s, i) && IsLineEnd(s, i - 2)
  }

  /** The first position at or after `from` that ends a blank line, or |s| when there is none. */
  function BlankEnd(s: string, from: nat): (e: nat)
    requires from <= |s|
    ensures from <= e <= |s|
    ensures e < |s| ==> IsBlankEnd(s, e)
    ensures forall j :: from <= j < e ==> !IsBlankEnd(s, j)
    decreases |s| - from
  {
    if from == |s| || IsBlankEnd(s, from) then from else BlankEnd(s, from + 1)
  }

  predicate HasBlank(s: string) {
    BlankEnd(s, 0) < |s|
  }

  /** The line in front of the blank one ends behind an odd run of CR bytes. */
  predicate IsOddBlankEnd(s: string, i: int) {
    IsBlankEnd(s, i) && TrailingCRs(s[..i - 2]) % 2 == 1
  }

  function OddBlankEnd(s: string, from: nat): (e: nat)
    requires from <= |s|
    ensures from <= e <= |s|
    ensures e < |s| ==> IsOddBlankEnd(s, e)
    ensures forall j :: from <= j < e ==> !IsOddBlankEnd(s, j)
    decreases |s| - from
  {
    if from == |s| || IsOddBlankEnd(s, from) then from else OddBlankEnd(s, from + 1)
  }

  predicate HasOddBlank(s: string) {
    OddBlankEnd(s, 0) < |s|
  }

  /** The first blank line, if there is one, is one that the counter sees. */
  predicate FirstBlankIsOdd(s: string) {
    HasBlank(s) ==> TrailingCRs(s[..BlankEnd(s, 0) - 2]) % 2 == 1
  }

  lemma OddBlankIs(s: string, e: nat)
    requires e <= |s| && (e < |s| ==> IsOddBlankEnd(s, e))
    requires forall j :: 0 <= j < e ==> !IsOddBlankEnd(s, j)
    ensures OddBlankEnd(s, 0) == e
  {
  }

  lemma OddBlankIsBlank(s: string)
    ensures HasOddBlank(s) ==> HasBlank(s)
    ensures BlankEnd(s, 0) <= OddBlankEnd(s, 0)
    ensures FirstBlankIsOdd(s) ==> OddBlankEnd(s, 0) == BlankEnd(s, 0)
  {
    var e := BlankEnd(s, 0);
    if FirstBlankIsOdd(s) {
      OddBlankIs(s, e);
    }
  }

  /** The same position ends an odd blank line in every text that agrees up to it. */
  lemma OddBlankInFront(s: string, n: nat, i: int)
    requires i < n <= |s|
    ensures IsOddBlankEnd(s[..n], i) <==> IsOddBlankEnd(s, i)
  {
    if IsBlankEnd(s, i) {
      assert s[..n][..i - 2] == s[..i - 2];
    }
  }

  lemma OddBlankOfPrefix(s: string, n: nat)
    requires n <= |s|
    ensures HasOddBlank(s[..n]) <==> OddBlankEnd(s, 0) < n
    ensures HasOddBlank(s[..n]) ==> OddBlankEnd(s[..n], 0) == OddBlankEnd(s, 0)
  {
    var e := OddBlankEnd(s, 0);
    forall i | 0 <= i < n ensures IsOddBlankEnd(s[..n], i) <==> IsOddBlankEnd(s, i) {
      OddBlankInFront(s, n, i);
    }
    hide IsOddBlankEnd;
    OddBlankIs(s[..n], if e < n then e else n);
  }

  lemma OddBlankMore(s: string, t: string)
    requires HasOddBlank(s)
    ensures HasOddBlank(s + t) && OddBlankEnd(s + t, 0) == OddBlankEnd(s, 0)
  {
    assert (s + t)[..|s|] == s;
    OddBlankOfPrefix(s + t, |s|);
  }

  lemma BlankOfPrefix(s: string, n: nat)
    requires n <= |s|
    ensures HasBlank(s[..n]) <==> BlankEnd(s, 0) < n
  {
    var e := BlankEnd(s, 0);
    assert forall i :: 0 <= i < n ==> (IsBlankEnd(s[..n], i) <==> IsBlankEnd(s, i));
    hide IsBlankEnd;
    assert e < n ==> IsBlankEnd(s[..n], e);
    assert forall j :: 0 <= j < BlankEnd(s[..n], 0) ==> !IsBlankEnd(s[..n], j);
  }

  lemma OddBlankSnoc(s: string, c: char)
    ensures HasOddBlank(s + [c]) <==> HasOddBlank(s) || IsOddBlankEnd(s + [c], |s|)
  {
    var u := s + [c];
    assert u[..|s|] == s && u[..|u|] == u;
    OddBlankOfPrefix(u, |s|);
    hide IsOddBlankEnd;
  }

  // ---------- the counter ----------

  /** The text ends in a line end that the automaton counts as long as no blank line has been counted. */
  predicate EndsInOddLine(s: string) {
    s != "" && s[|s| - 1] == '\n' && TrailingCRs(s[..|s| - 1]) % 2 == 1
  }

  /** The status of the automaton while no blank line has been counted. */
  function QuietStatus(s: string): NewLineStatus {
    var k := TrailingCRs(s);
    if EndsInOddLine(s[..|s| - k]) then
      if k == 0 then AfterCRLF else if k == 1 then AfterCRLFCR else if k % 2 == 0 then NoNewline else AfterCR
    else if k % 2 == 0 then NoNewline else AfterCR
  }

  lemma QuietCR(s: string)
    ensures QuietStatus(s + "\r") == Next(QuietStatus(s), '\r')
  {
    var u := s + "\r";
    var k := TrailingCRs(s);
    assert u[..|u| - 1] == s;
    assert TrailingCRs(u) == k + 1;
    assert u[..|u| - (k + 1)] == s[..|s| - k];
  }

  lemma QuietLF(s: string)
    requires !QuietStatus(s).AfterCRLFCR?
    ensures QuietStatus(s + "\n") == Next(QuietStatus(s), '\n')
  {
    var u := s + "\n";
    assert TrailingCRs(u) == 0 && u[..|u|] == u && u[..|u| - 1] == s;
  }

  lemma QuietOther(s: string, c: char)
    requires c != '\r' && c != '\n'
    ensures QuietStatus(s + [c]) == NoNewline
  {
    var u := s + [c];
    assert TrailingCRs(u) == 0 && u[..|u|] == u && u[|u| - 1] == c;
  }

  /** One more LF ends an odd blank line exactly when the automaton is about to count one. */
  lemma OddBlankIfCounted(s: string)
    ensures IsOddBlankEnd(s + "\n", |s|) <==> QuietStatus(s).AfterCRLFCR?
  {
    var u := s + "\n";
    var k := TrailingCRs(s);
    var n := |s| - 1;
    if n >= 1 {
      assert u[..|s| - 2] == s[..n][..n - 1];
      assert k == 1 ==> s[..|s| - k] == s[..n];
      assert k > 1 ==> u[|s| - 2] == '\r';
    }
  }

  /** The gate, exactly: on any stream the counter is positive if and only if an odd blank line has been seen. */
  lemma {:induction false} BlankCountExact(s: string)
    ensures Scan(Start(NoNewline), s).blanks > 0 <==> HasOddBlank(s)
    ensures !HasOddBlank(s) ==> Scan(Start(NoNewline), s).status == QuietStatus(s)
    decreases |s|
  {
    if s != "" {
      var t, c := s[..|s| - 1], s[|s| - 1];
      assert s == t + [c];
      BlankCountExact(t);
      OddBlankSnoc(t, c);
      OddBlankIfCounted(t);
      QuietCR(t);
      if c == '\n' {
        assert s == t + "\n";
        if !QuietStatus(t).AfterCRLFCR? {
          QuietLF(t);
        }
      } else {
        assert !IsOddBlankEnd(s, |t|);
        if c == '\r' {
          assert s == t + "\r";
        } else {
          QuietOther(t, c);
        }
      }
      hide IsOddBlankEnd, QuietStatus, HasOddBlank;
    }
  }

  /** A counted blank line really is in the stream. */
  lemma BlankCountSound(s: string)
    ensures Scan(Start(NoNewline), s).blanks > 0 ==> HasBlank(s)
  {
    BlankCountExact(s);
    OddBlankIsBlank(s);
  }

  /** The automaton counts the LF that ends the first odd blank line. */
  lemma OddBlankIsCounted(s: string)
    requires HasOddBlank(s)
    ensures Scan(Start(NoNewline), s[..OddBlankEnd(s, 0)]).status.AfterCRLFCR?
  {
    var e := OddBlankEnd(s, 0);
    OddBlankOfPrefix(s, e);
    BlankCountExact(s[..e]);
    OddBlankOfPrefix(s, e + 1);
    OddBlankInFront(s, e + 1, e);
    assert s[..e + 1] == s[..e] + "\n";
    OddBlankIfCounted(s[..e]);
  }

  /**
    Main result on the gate: the counter tells of a blank line after every prefix exactly when the first one is odd.
   */
  lemma GateExactIffFirstIsOdd(s: string)
    ensures (forall n :: 0 <= n <= |s| ==> (Scan(Start(NoNewline), s[..n]).blanks > 0 <==> HasBlank(s[..n]))) <==>
            FirstBlankIsOdd(s)
  {
    OddBlankIsBlank(s);
    forall n | 0 <= n <= |s|
      ensures Scan(Start(NoNewline), s[..n]).blanks > 0 <==> OddBlankEnd(s, 0) < n
      ensures HasBlank(s[..n]) <==> BlankEnd(s, 0) < n
    {
      BlankCountExact(s[..n]);
      OddBlankOfPrefix(s, n);
      BlankOfPrefix(s, n);
    }
    var e := BlankEnd(s, 0);
    hide HasOddBlank, BlankEnd, OddBlankEnd, Scan;
    if e < |s| {
      assert HasBlank(s[..e + 1]);
    }
  }

  /** A request line that ends in a surplus CR hides the blank line behind it: the gate stays shut. */
  lemma HiddenBlankLine()
    ensures HasBlank("\r\r\n\r\n") && Scan(Start(NoNewline), "\r\r\n\r\n").blanks == 0
  {
    var s := "\r\r\n\r\n";
    assert IsBlankEnd(s, 4);
    assert s[..2] == "\r\r" && "\r\r"[..1] == "\r" && "\r"[..0] == "";
    assert TrailingCRs(s[..2]) == 2;
    assert forall j :: 0 <= j < 4 ==> !IsBlankEnd(s, j);
    assert forall j :: 0 <= j < 5 ==> !IsOddBlankEnd(s, j);
    BlankCountExact(s);
  }

  // ---------- clean text ----------

  /** The first blank line of a clean stream is odd. */
  lemma CleanFirstIsOdd(s: string)
    requires Clean(s)
    ensures FirstBlankIsOdd(s)
  {
    if HasBlank(s) {
      var e := BlankEnd(s, 0);
      assert s[e - 2] == '\n' && LFIsClean(s[..e - 2]);
      var k := TrailingCRs(s[..e - 2]);
      assert k > 0;
      var t := s[..e - 2][..e - 2 - k];
      assert |t| >= 4 && EndsInBlankLine(t) ==> IsBlankEnd(s, |t| - 1);
      assert !EndsInBlankLine(t);
    }
  }

  /**
    Text behind a blank line is counted right, by the automaton in the status the blank line leaves, exactly when it
    is clean there.
   */
  lemma AgreesBehindBlank(s: string)
    ensures Agrees(AfterCRLFCR, false, s) <==> Clean("\r\n\r\n" + s)
  {
    var b := "\r\n\r\n";
    AgreesIffClean(b + s);
    AgreesConcat(NoNewline, false, b, s);
    BlankLineScanned();
  }

  lemma BlankLineScanned()
    ensures Agrees(NoNewline, false, "\r\n\r\n") && Scan(Start(NoNewline), "\r\n\r\n") == Tally(AfterCRLFCR, 2, 1)
    ensures !EndsInCR(false, "\r\n\r\n")
  {
    var b := "\r\n\r\n";
    assert b[..3] == "\r\n\r" && b[..3][..2] == "\r\n" && "\r\n"[..1] == "\r" && "\r"[..0] == "";
    assert b[1..] == "\n\r\n" && b[1..][1..] == "\r\n" && "\r\n"[1..] == "\n" && "\n"[1..] == "";
  }
}
