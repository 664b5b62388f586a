/**
  A stream cut as finely as it hurts: each piece is one byte with the LFs behind it. No recount helps such a buffer, and
  it gives a line only when a counted line end stands where that line ends, or behind.
 */
module Grains {
  import opened Text
  import opened NewlineScan
  import opened SegmentedBuffer

  predicate LineFeeds(s: string) {
    forall i :: 0 <= i < |s| ==> s[i] == '\n'
  }

  predicate IsGrain(s: string) {
    s != "" && s[0] != '\n' && LineFeeds(s[1..])
  }

  /** Every stream that does not begin with an LF can be cut like that. */
  lemma {:induction false} CanBeGrained(s: string) returns (pieces: seq<string>)
    requires s == "" || s[0] != '\n'
    ensures Join(pieces) == s && forall k :: 0 <= k < |pieces| ==> IsGrain(pieces[k])
    decreases |s|
  {
    if s == "" {
      return [];
    }
    var n := 1;
    while n < |s| && s[n] == '\n'
      invariant n <= |s| && LineFeeds(s[1..n])
    {
      assert s[1..n + 1] == s[1..n] + [s[n]];
      n := n + 1;
    }
    assert s[..n][1..] == s[1..n];
    var rest := CanBeGrained(s[n..]);
    pieces := [s[..n]] + rest;
    assert pieces[1..] == rest && s == s[..n] + s[n..];
  }

  // ---------- the counters ----------

  predicate Fine(items: seq<BufferItem>) {
    forall i :: 0 <= i < |items| ==> items[i].data == "" || LineFeeds(items[i].data[1..])
  }

  /** An item that counts lines, entered in status `st`, begins with a counted line end. */
  predicate Fair(st: NewLineStatus, item: BufferItem) {
    item.lines == 0 || (|item.data| >= 2 && IsLineEnd(item.data, 1) && Counts(Scan(Start(st), item.data[..1]).status))
  }

  predicate AllFair(st: NewLineStatus, items: seq<BufferItem>)
    decreases |items|
  {
    items == [] || (Fair(st, items[0]) && AllFair(Scan(Start(st), items[0].data).status, items[1..]))
  }

  predicate Grained(s: State) {
    0 <= s.Cut() <= |s.history| && Fine(s.items) && AllFair(s.StatusAt(s.Cut()), s.items)
  }

  lemma {:induction false} NoBytes(st: NewLineStatus, items: seq<BufferItem>)
    requires Counted(st, items) && Flatten(items) == ""
    ensures Fine(items) && AllFair(st, items)
    decreases |items|
  {
    if items != [] {
      assert items[0].data == "" && Flatten(items[1..]) == "";
      assert Scan(Start(st), "") == Start(st) && Pairs(false, "") == 0;
      assert Counted(st, items[1..]);
      NoBytes(st, items[1..]);
      assert forall i :: 1 <= i < |items| ==> items[i] == items[1..][i - 1];
    }
  }

  lemma EmptyIsGrained(s: State)
    requires s.Valid() && s.Contents() == ""
    ensures Grained(s)
  {
    NoBytes(s.StatusAt(s.Cut()), s.items);
    hide Scan, Counted, Fine, AllFair;
  }

  /** LFs behind one are counted only when it is. */
  lemma {:induction false} FeedsCount(st: NewLineStatus, s: string, n: nat)
    requires s != "" && s[0] != '\n' && LineFeeds(s[1..]) && 1 <= n <= |s|
    ensures var front := Scan(Start(st), s[..1]).status;
            if n >= 2 && s[0] == '\r' && Counts(front) then true
            else Scan(Start(st), s[..n]).lines == 0 && (n > 1 ==> !Counts(Scan(Start(st), s[..n]).status))
  {
    assert s[..1] == [s[0]] && s[..1][..0] == "" && Scan(Start(st), "") == Start(st);
    ScanSnoc(Start(st), s, 0);
    assert s[..0] == "";
    if n > 1 {
      FeedsCount(st, s, n - 1);
      ScanSnoc(Start(st), s, n - 1);
      assert s[n - 1] == s[1..][n - 2];
    }
  }

  lemma GrainIsFair(st: NewLineStatus, grain: string)
    requires IsGrain(grain)
    ensures Fair(st, BufferItem(grain, |grain|, Scan(Start(st), grain).lines))
  {
    FeedsCount(st, grain, |grain|);
    assert grain[..|grain|] == grain;
    if |grain| >= 2 {
      assert grain[1] == grain[1..][0];
    }
    hide Scan;
  }

  lemma {:induction false} FairSnoc(st: NewLineStatus, items: seq<BufferItem>, item: BufferItem)
    requires AllFair(st, items) && Fair(Scan(Start(st), Flatten(items)).status, item)
    ensures AllFair(st, items + [item])
    decreases |items|
  {
    if items == [] {
      assert [item][1..] == [];
      assert Scan(Start(st), "") == Start(st);
    } else {
      assert (items + [item])[1..] == items[1..] + [item];
      ScanOfTwo(st, items[0].data, Flatten(items[1..]));
      FairSnoc(Scan(Start(st), items[0].data).status, items[1..], item);
    }
  }

  lemma AddedGrain(s: State, grain: string)
    requires s.Valid() && Grained(s) && IsGrain(grain)
    ensures Grained(WithItem(s, grain))
  {
    AddedContents(s, grain);
    StatusStays(s, grain, s.Cut());
    StatusBehind(s);
    GrainIsFair(s.newLineStatus, grain);
    hide Scan, State.Contents, State.Valid, Fair;
    FairSnoc(s.StatusAt(s.Cut()), s.items, WithItem(s, grain).items[|s.items|]);
  }

  lemma FeedsHoldNoPair(data: string, k: nat)
    requires 1 <= k < |data| && LineFeeds(data[1..])
    ensures Pairs(false, data[k..]) == 0 && LineFeeds(data[k..][1..])
  {
    assert forall i :: 0 <= i < |data[k..]| ==> data[k..][i] == data[1..][i + k - 1];
    PairsCountLines(false, data[k..]);
  }

  lemma {:induction false} DrainedFair(st: NewLineStatus, s: State, length: nat)
    requires s.CountersMatch() && Fine(s.items) && AllFair(st, s.items) && length <= |s.Contents()|
    ensures Fine(s.Drained(length).items)
    ensures AllFair(Scan(Start(st), s.Contents()[..length]).status, s.Drained(length).items)
    ensures s.Drained(length).history == s.history
    decreases |s.items|
  {
    hide State.CountersMatch, State.Contents, Scan, Fair;
    if length == 0 {
      assert s.Contents()[..0] == "";
      NothingScanned();
    } else {
      PopParts(s);
      var data := s.items[0].data;
      if s.items[0].size <= length {
        var rest := s.Popped().Contents()[..length - |data|];
        assert s.Contents()[..length] == data + rest;
        ScanOfTwo(st, data, rest);
        DrainedFair(Scan(Start(st), data).status, s.Popped(), length - |data|);
      } else {
        CutParts(s, length);
        CutFair(st, s, length);
      }
    }
  }

  lemma CutFair(st: NewLineStatus, s: State, k: nat)
    requires s.CanPop() && 0 < k < s.items[0].size && Fine(s.items) && AllFair(st, s.items)
    ensures Fine(s.CutBy(k).items)
    ensures AllFair(Scan(Start(st), s.items[0].data[..k]).status, s.CutBy(k).items)
  {
    var data := s.items[0].data;
    FeedsHoldNoPair(data, k);
    assert data == data[..k] + data[k..];
    ScanOfTwo(st, data[..k], data[k..]);
    assert s.CutBy(k).items[1..] == s.items[1..];
    hide Scan, Pairs;
  }

  lemma RemovedGrained(s: State, length: nat)
    requires s.Valid() && Grained(s) && s.Removed(length).Valid()
    requires s.Removed(length).Contents() == if length < |s.Contents()| then s.Contents()[length..] else ""
    ensures Grained(s.Removed(length))
  {
    hide Scan, Counted, Fine, AllFair, State.StatusAt, State.Contents, State.Drained;
    var t := s.Removed(length);
    if length < |s.Contents()| {
      DrainedFair(s.StatusAt(s.Cut()), s, length);
      assert s.Contents()[0..] == s.Contents();
      BehindFront(s, 0, length);
      SameStatus(s, t, t.Cut());
    } else {
      EmptyIsGrained(t);
    }
  }

  /** A positive count comes from a counted line end in the contents. */
  lemma {:induction false} FairTotal(st: NewLineStatus, items: seq<BufferItem>) returns (o: nat)
    requires AllFair(st, items) && SumLines(items) > 0
    ensures IsLineEnd(Flatten(items), o) && Counts(Scan(Start(st), Flatten(items)[..o]).status)
    decreases |items|
  {
    var data, rest := items[0].data, Flatten(items[1..]);
    hide Scan;
    if items[0].lines > 0 {
      FrontOfTwo(data, rest, 1);
      assert (data + rest)[0] == data[0];
      return 1;
    }
    var q := FairTotal(Scan(Start(st), data).status, items[1..]);
    o := |data| + q;
    FrontOfTwo(data, rest, o);
    FrontOfTwo(data, rest, o - 1);
    ScanOfTwo(st, data, rest[..q]);
  }

  lemma CountedAhead(s: State)
    requires s.Valid() && Grained(s) && s.linesInBuffer > 0
    ensures exists p: nat :: CountedEnd(s.history, s.Contents(), p)
  {
    var cut, text := s.Cut(), s.Contents();
    hide Scan, Counted, Fine, AllFair, Counts;
    var o := FairTotal(s.StatusAt(cut), s.items);
    assert s.history[..cut + o] == s.history[..cut] + text[..o];
    ScanOfTwo(NoNewline, s.history[..cut], text[..o]);
    assert CountedEnd(s.history, text, cut + o);
  }

  // ---------- lines taken ----------

  /** Of `s`, the last bytes of `history`, nothing was taken, or as far as a counted line end or less. */
  ghost predicate TakesToCounted(history: string, s: string, s': string) {
    s' == s || exists p: nat :: CountedEnd(history, s, p) && |history| - p - 1 <= |s'|
  }

  /** From `s` to `t` lines may have been taken; a grained buffer stays so, and gives no line too much. */
  ghost predicate GrainStep(s: State, t: State) {
    Grained(s) ==>
      t.history == s.history && Grained(t) && TakesToCounted(s.history, s.Contents(), t.Contents())
  }

  lemma NoStep(s: State)
    ensures GrainStep(s, s)
  {
  }

  lemma LineStep(s: State, t: State, line: string)
    requires s.Valid() && t.Valid() && s.linesInBuffer > 0 && HasLine(s.Contents()) && line == FirstLine(s.Contents())
    requires t == s.Removed(|line| + 2) && t.Contents() == AfterLine(s.Contents()) && t.history == s.history
    ensures GrainStep(s, t)
  {
    hide State.Valid, State.Contents, Grained, Scan, State.Removed, CountedEnd, LineEnd;
    if Grained(s) {
      CountedAhead(s);
      AfterFirst(s.Contents());
      hide HasLine, FirstLine, AfterLine;
      RemovedGrained(s, |line| + 2);
      var p: nat :| CountedEnd(s.history, s.Contents(), p);
      BehindFirst(s.history, s.Contents(), p);
    }
  }

  lemma AfterFirst(s: string)
    requires HasLine(s)
    ensures var n := |FirstLine(s)| + 2; n <= |s| && AfterLine(s) == if n < |s| then s[n..] else ""
  {
  }

  lemma BehindFirst(history: string, s: string, p: nat)
    requires HasLine(s) && CountedEnd(history, s, p)
    ensures |history| - p - 1 <= |AfterLine(s)|
  {
    LineSplits(s);
    assert LineEnd(s, 0) <= p - (|history| - |s|);
    hide Scan;
  }

  lemma StepTwice(a: State, b: State, c: State)
    requires GrainStep(a, b) && GrainStep(b, c) && Shortens(a.Contents(), b.Contents()) && a.Cut() >= 0
    ensures GrainStep(a, c)
  {
    hide CountedEnd, State.Contents;
    if Grained(a) {
      TakenTwice(a.history, a.Contents(), b.Contents(), c.Contents());
    }
    hide Grained;
  }

  lemma TakenTwice(history: string, s: string, t: string, u: string)
    requires |t| <= |s| <= |history| && t == s[|s| - |t|..]
    requires TakesToCounted(history, s, t) && TakesToCounted(history, t, u)
    ensures TakesToCounted(history, s, u)
  {
    if u != t {
      var p: nat :| CountedEnd(history, t, p) && |history| - p - 1 <= |u|;
      CountedBefore(history, s, t, p);
    }
    hide CountedEnd;
  }

  /** The same with more bytes behind. */
  lemma TakenInFront(history: string, s: string, t: string, more: string)
    requires TakesToCounted(history, s, t)
    ensures TakesToCounted(history + more, s + more, t + more)
  {
    if t != s {
      var p: nat :| CountedEnd(history, s, p) && |history| - p - 1 <= |t|;
      assert (history + more)[..p] == history[..p];
      assert IsLineEnd(s + more, p - (|history| - |s|));
      assert CountedEnd(history + more, s + more, p);
    }
    hide Scan;
  }

  /** One more line, if there is one. */
  lemma OneMore(a: State, b: State, c: State, found: bool, line: string)
    requires GrainStep(a, b) && Shortens(a.Contents(), b.Contents()) && a.Valid() && b.Valid() && c.Valid()
    requires c == (if found then b.Removed(|line| + 2) else b) && c.history == b.history
    requires found ==> b.linesInBuffer > 0 && HasLine(b.Contents()) && line == FirstLine(b.Contents())
    requires found ==> c.Contents() == AfterLine(b.Contents())
    ensures GrainStep(a, c)
  {
    hide GrainStep, HasLine, FirstLine, AfterLine, State.CountersMatch, State.Contents, State.Removed, Scan, Counted;
    if found {
      LineStep(b, c, line);
      StepTwice(a, b, c);
    }
  }

  lemma CountedBefore(history: string, s: string, t: string, p: nat)
    requires |t| <= |s| <= |history| && t == s[|s| - |t|..] && CountedEnd(history, t, p)
    ensures CountedEnd(history, s, p)
  {
    hide Scan;
  }
}
