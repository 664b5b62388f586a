/** The segmented input buffer with its cached counters, and the flat byte string it stands for. */
module SegmentedBuffer {
  import opened Text
  import opened NewlineScan
  import opened BlankLines

  datatype BufferItem = BufferItem(data: string, size: nat, lines: nat)

  function Flatten(items: seq<BufferItem>): string {
    if items == [] then "" else items[0].data + Flatten(items[1..])
  }

  function SumLines(items: seq<BufferItem>): nat {
    if items == [] then 0 else items[0].lines + SumLines(items[1..])
  }

  predicate SizesMatch(items: seq<BufferItem>) {
    forall i :: 0 <= i < |items| ==> items[i].size == |items[i].data|
  }

  /** Every item counts the lines that the automaton counts in it, entered in status `st`. */
  predicate Scanned(st: NewLineStatus, items: seq<BufferItem>)
    decreases |items|
  {
    items == [] ||
    (items[0].lines == Scan(Start(st), items[0].data).lines &&
      Scanned(Scan(Start(st), items[0].data).status, items[1..]))
  }

  /** The same, behind a front item that may have been cut and counted again. */
  predicate Counted(st: NewLineStatus, items: seq<BufferItem>) {
    items == [] ||
    ((items[0].lines == Scan(Start(st), items[0].data).lines || items[0].lines == Pairs(false, items[0].data)) &&
     Scanned(Scan(Start(st), items[0].data).status, items[1..]))
  }

  lemma {:induction false} FlattenConcat(a: seq<BufferItem>, b: seq<BufferItem>)
    ensures Flatten(a + b) == Flatten(a) + Flatten(b)
    ensures SumLines(a + b) == SumLines(a) + SumLines(b)
    decreases |a|
  {
    if a == [] {
      assert a + b == b;
    } else {
      assert (a + b)[1..] == a[1..] + b;
      FlattenConcat(a[1..], b);
    }
  }

  lemma {:induction false} FlattenSnoc(items: seq<BufferItem>, item: BufferItem)
    ensures Flatten(items + [item]) == Flatten(items) + item.data
    ensures SumLines(items + [item]) == SumLines(items) + item.lines
  {
    FlattenConcat(items, [item]);
    assert Flatten([item]) == item.data + Flatten([]) == item.data;
    assert SumLines([item]) == item.lines + SumLines([]);
  }

  lemma {:induction false} FlattenAt(items: seq<BufferItem>, k: nat)
    requires k < |items|
    ensures Flatten(items) == Flatten(items[..k]) + items[k].data + Flatten(items[k + 1..])
    ensures Flatten(items[..k + 1]) == Flatten(items[..k]) + items[k].data
  {
    assert items == items[..k + 1] + items[k + 1..];
    FlattenConcat(items[..k + 1], items[k + 1..]);
    assert items[..k + 1] == items[..k] + [items[k]];
    FlattenSnoc(items[..k], items[k]);
  }

  lemma {:induction false} ScannedSnoc(st: NewLineStatus, items: seq<BufferItem>, item: BufferItem)
    requires Scanned(st, items) && item.lines == Scan(Start(Scan(Start(st), Flatten(items)).status), item.data).lines
    ensures Scanned(st, items + [item])
    decreases |items|
  {
    if items == [] {
      assert [item][1..] == [];
    } else {
      assert (items + [item])[1..] == items[1..] + [item];
      ScanOfTwo(st, items[0].data, Flatten(items[1..]));
      ScannedSnoc(Scan(Start(st), items[0].data).status, items[1..], item);
    }
  }

  lemma CountedSnoc(st: NewLineStatus, items: seq<BufferItem>, item: BufferItem)
    requires Counted(st, items) && item.lines == Scan(Start(Scan(Start(st), Flatten(items)).status), item.data).lines
    ensures Counted(st, items + [item])
  {
    if items == [] {
      assert [item][1..] == [];
    } else {
      assert (items + [item])[1..] == items[1..] + [item];
      ScanOfTwo(st, items[0].data, Flatten(items[1..]));
      ScannedSnoc(Scan(Start(st), items[0].data).status, items[1..], item);
    }
  }

  /** Where the automaton agrees with the text, the total is the number of CRLF pairs. */
  lemma {:induction false} ScannedTotal(st: NewLineStatus, afterCR: bool, items: seq<BufferItem>)
    requires Scanned(st, items) && Agrees(st, afterCR, Flatten(items))
    ensures SumLines(items) == Pairs(afterCR, Flatten(items))
    decreases |items|
  {
    if items != [] {
      var data, rest := items[0].data, Flatten(items[1..]);
      AgreesConcat(st, afterCR, data, rest);
      ScanExact(st, afterCR, data);
      PairsOfConcat(afterCR, data, rest);
      ScannedTotal(Scan(Start(st), data).status, EndsInCR(afterCR, data), items[1..]);
    }
  }

  lemma CountedTotal(st: NewLineStatus, items: seq<BufferItem>)
    requires Counted(st, items) && Agrees(st, false, Flatten(items))
    ensures SumLines(items) == Pairs(false, Flatten(items))
  {
    if items != [] {
      var data, rest := items[0].data, Flatten(items[1..]);
      AgreesConcat(st, false, data, rest);
      ScanExact(st, false, data);
      PairsOfConcat(false, data, rest);
      ScannedTotal(Scan(Start(st), data).status, EndsInCR(false, data), items[1..]);
    }
  }

  /** A line end at which the automaton counts keeps the total positive. */
  lemma {:induction false} ScannedSees(st: NewLineStatus, items: seq<BufferItem>, o: nat)
    requires Scanned(st, items) && o < |Flatten(items)| && Flatten(items)[o] == '\n'
    requires Counts(Scan(Start(st), Flatten(items)[..o]).status)
    ensures SumLines(items) > 0
    decreases |items|
  {
    var data, rest := items[0].data, Flatten(items[1..]);
    FrontOfTwo(data, rest, o);
    if o < |data| {
      CountedInside(st, data, o);
    } else {
      ScanOfTwo(st, data, rest[..o - |data|]);
      ScannedSees(Scan(Start(st), data).status, items[1..], o - |data|);
    }
  }

  lemma FrontOfTwo(a: string, b: string, o: nat)
    requires o < |a| + |b|
    ensures (a + b)[o] == if o < |a| then a[o] else b[o - |a|]
    ensures (a + b)[..o] == if o < |a| then a[..o] else a + b[..o - |a|]
  {
  }

  lemma CountedSees(st: NewLineStatus, items: seq<BufferItem>, o: nat)
    requires Counted(st, items) && IsLineEnd(Flatten(items), o)
    requires Counts(Scan(Start(st), Flatten(items)[..o]).status)
    ensures SumLines(items) > 0
  {
    var data, rest := items[0].data, Flatten(items[1..]);
    FrontOfTwo(data, rest, o);
    if o < |data| {
      CountedInside(st, data, o);
      assert IsLineEnd(data, o);
      PairsCountLines(false, data);
    } else {
      ScanOfTwo(st, data, rest[..o - |data|]);
      ScannedSees(Scan(Start(st), data).status, items[1..], o - |data|);
    }
  }

  /**
    The fields of a buffer, with the bytes it was ever given and how many of them had come when it was last emptied.
   */
  datatype State = State(
    items: seq<BufferItem>,
    sizeOfBuffer: nat,
    linesInBuffer: nat,
    emptyLines: nat,
    newLineStatus: NewLineStatus,
    history: string,
    epoch: nat)
  {
    function Contents(): string { Flatten(items) }

    /** How many bytes have been removed. */
    function Cut(): int { |history| - |Contents()| }

    function StatusAt(n: nat): NewLineStatus
      requires n <= |history|
    {
      Scan(Start(NoNewline), history[..n]).status
    }

    predicate CountersMatch() {
      SizesMatch(items) && sizeOfBuffer == |Contents()| && linesInBuffer == SumLines(items)
    }

    /** What holds in every reachable state, whatever bytes come in. */
    predicate Valid() {
      && CountersMatch()
      && epoch <= Cut() && history[Cut()..] == Contents() && (Contents() == "" ==> epoch == |history|)
      && newLineStatus == Scan(Start(NoNewline), history).status
      && emptyLines == Scan(Start(StatusAt(epoch)), history[epoch..]).blanks
      && Counted(StatusAt(Cut()), items)
    }

    /** In the contents the automaton counts right, which makes the line count exact. */
    predicate Synced() {
      |Contents()| <= |history| && AgreesBehind(history, Contents())
    }

    /** Position `p` of the history ends a head that begins with the contents, and the automaton counts there. */
    predicate HeadTo(p: nat) {
      && 0 <= Cut() <= p < |history|
      && IsHeadEnd(Contents(), p - Cut()) && Counts(StatusAt(p))
    }

    /** Nothing has been removed since the buffer was last empty. */
    predicate Untouched() { Cut() == epoch }

    predicate CanPop() {
      items != [] && items[0].size == |items[0].data| <= sizeOfBuffer && items[0].lines <= linesInBuffer
    }

    function Popped(): State
      requires CanPop()
    {
      this.(items := items[1..], sizeOfBuffer := sizeOfBuffer - items[0].size,
        linesInBuffer := linesInBuffer - items[0].lines)
    }

    /** The front item loses `k` bytes and gets its lines counted again. */
    function CutBy(k: nat): State
      requires CanPop() && k < items[0].size
    {
      var data := items[0].data[k..];
      this.(items := [BufferItem(data, items[0].size - k, Pairs(false, data))] + items[1..],
            sizeOfBuffer := sizeOfBuffer - k,
            linesInBuffer := linesInBuffer - items[0].lines + Pairs(false, data))
    }

    /** `length` bytes are taken off the front: whole items leave, and the last one is cut. */
    function Drained(length: nat): State
      decreases |items|
    {
      if length == 0 || !CanPop() then this
      else if items[0].size <= length then Popped().Drained(length - items[0].size)
      else CutBy(length)
    }

    function Removed(length: nat): State {
      if length < sizeOfBuffer then Drained(length)
      else this.(items := [], sizeOfBuffer := 0, linesInBuffer := 0, emptyLines := 0, epoch := |history|)
    }
  }

  /** The automaton, having read all of `history`, counted right in its last part `s`. */
  predicate AgreesBehind(history: string, s: string)
    requires |s| <= |history|
  {
    Agrees(Scan(Start(NoNewline), history[..|history| - |s|]).status, false, s)
  }

  /** Position `p` of `history` holds a line end that the automaton counts, within the last bytes `s`. */
  predicate CountedEnd(history: string, s: string, p: nat) {
    && |history| - |s| <= p < |history| && |s| <= |history|
    && IsLineEnd(s, p - (|history| - |s|)) && Counts(Scan(Start(NoNewline), history[..p]).status)
  }

  /** Position `o` ends a blank line, the line end in front of which may have been taken off already. */
  predicate IsHeadEnd(s: string, o: int) {
    IsLineEnd(s, o) && (o == 1 || IsLineEnd(s, o - 2))
  }

  const EMPTY := State([], 0, 0, 0, NoNewline, "", 0)

  /** Adding bytes keeps the status and the blank-line counter in step with the history. */
  lemma AddKeepsCounters(history: string, epoch: nat, data: string)
    requires epoch <= |history|
    ensures Scan(Start(NoNewline), history + data).status ==
            Scan(Start(Scan(Start(NoNewline), history).status), data).status
    ensures (history + data)[..epoch] == history[..epoch]
    ensures var start := Start(Scan(Start(NoNewline), history[..epoch]).status);
            Scan(start, (history + data)[epoch..]).blanks ==
            Scan(start, history[epoch..]).blanks + Scan(Start(Scan(Start(NoNewline), history).status), data).blanks
  {
    var start := Start(Scan(Start(NoNewline), history[..epoch]).status);
    assert (history + data)[epoch..] == history[epoch..] + data;
    assert history == history[..epoch] + history[epoch..];
    ScanConcat(Start(NoNewline), history, data);
    ScanShift(Scan(Start(NoNewline), history), data);
    ScanConcat(Start(NoNewline), history[..epoch], history[epoch..]);
    ScanShift(Scan(Start(NoNewline), history[..epoch]), history[epoch..]);
    ScanConcat(start, history[epoch..], data);
    ScanShift(Scan(start, history[epoch..]), data);
  }

  lemma SuffixGrows(history: string, cut: nat, data: string)
    requires cut <= |history|
    ensures (history + data)[cut..] == history[cut..] + data
    ensures (history + data)[..cut] == history[..cut]
  {
  }

  function WithItem(s: State, data: string): State {
    var tally := Scan(Start(s.newLineStatus), data);
    State(s.items + [BufferItem(data, |data|, tally.lines)], s.sizeOfBuffer + |data|, s.linesInBuffer + tally.lines,
          s.emptyLines + tally.blanks, tally.status, s.history + data, s.epoch)
  }

  lemma AddedContents(s: State, data: string)
    requires s.Valid()
    ensures WithItem(s, data).Contents() == s.Contents() + data
    ensures WithItem(s, data).CountersMatch()
    ensures WithItem(s, data).Cut() == s.Cut()
  {
    hide Scan, Flatten, SumLines;
    FlattenSnoc(s.items, WithItem(s, data).items[|s.items|]);
  }

  lemma AddedCounts(s: State, data: string)
    requires s.Valid()
    ensures Counted(WithItem(s, data).StatusAt(s.Cut()), WithItem(s, data).items)
  {
    var cut := s.Cut();
    SuffixGrows(s.history, cut, data);
    assert s.history == s.history[..cut] + s.history[cut..];
    ScanOfTwo(NoNewline, s.history[..cut], s.history[cut..]);
    hide Scan, Counted;
    CountedSnoc(s.StatusAt(cut), s.items, WithItem(s, data).items[|s.items|]);
  }

  lemma StatusStays(s: State, data: string, n: nat)
    requires n <= |s.history|
    ensures WithItem(s, data).StatusAt(n) == s.StatusAt(n) == Scan(Start(NoNewline), s.history[..n]).status
    ensures WithItem(s, data).newLineStatus == Scan(Start(s.newLineStatus), data).status
  {
    SuffixGrows(s.history, n, data);
    hide Scan;
  }

  lemma Added(s: State, data: string)
    requires s.Valid()
    ensures WithItem(s, data).Valid() && WithItem(s, data).Contents() == s.Contents() + data
  {
    AddedContents(s, data);
    AddedCounts(s, data);
    AddKeepsCounters(s.history, s.epoch, data);
    SuffixGrows(s.history, s.Cut(), data);
    StatusStays(s, data, s.epoch);
    hide Scan, Counted, State.CountersMatch, State.Contents, State.StatusAt;
  }

  /** Counts stay exact exactly when the automaton, where it stands, counts the new bytes right. */
  lemma AddedSync(s: State, data: string)
    requires s.Valid()
    ensures WithItem(s, data).Synced() <==> s.Synced() && Agrees(s.newLineStatus, EndsInCR(false, s.Contents()), data)
  {
    var st, text := s.StatusAt(s.Cut()), s.Contents();
    Added(s, data);
    AddedContents(s, data);
    StatusStays(s, data, s.Cut());
    StatusBehind(s);
    hide Scan, Agrees, Counted, State.Valid, State.Synced, State.CountersMatch, State.Contents, State.StatusAt;
    SyncedIs(s);
    SyncedIs(WithItem(s, data));
    AgreesConcat(st, false, text, data);
  }

  lemma SyncedIs(s: State)
    requires s.Valid()
    ensures s.Synced() <==> Agrees(s.StatusAt(s.Cut()), false, s.Contents())
  {
    hide Scan, Agrees, Counted, State.CountersMatch, State.Contents;
  }

  lemma StatusBehind(s: State)
    requires s.Valid()
    ensures s.newLineStatus == Scan(Start(s.StatusAt(s.Cut())), s.Contents()).status
  {
    assert s.history == s.history[..s.Cut()] + s.Contents();
    ScanOfTwo(NoNewline, s.history[..s.Cut()], s.Contents());
    hide Scan, Counted, State.CountersMatch, State.Contents;
  }

  predicate CutsAfterCR(s: string, length: nat) {
    var n := if length < |s| then length else |s|;
    n > 0 && s[n - 1] == '\r'
  }

  /** Midway through a removal: `t` still has to give up `left` of `length` bytes. */
  predicate Draining(s: State, t: State, length: nat, left: nat) {
    && left <= length < |s.Contents()| && 0 <= s.Cut()
    && t.CountersMatch() && t.Contents() == s.Contents()[length - left..]
    && Counted(s.StatusAt(s.Cut() + length - left), t.items)
  }

  lemma DrainStarts(s: State, length: nat)
    requires s.Valid() && length < s.sizeOfBuffer
    ensures Draining(s, s, length, length)
  {
    assert s.Contents()[0..] == s.Contents();
  }

  /** What is left behind a front of `k` bytes, and the status in which it was entered. */
  lemma BehindFront(s: State, done: nat, k: nat)
    requires 0 <= s.Cut() && s.history[s.Cut()..] == s.Contents() && done + k <= |s.Contents()|
    ensures s.Contents()[done..][k..] == s.Contents()[done + k..]
    ensures Scan(Start(s.StatusAt(s.Cut() + done)), s.Contents()[done..][..k]).status == s.StatusAt(s.Cut() + done + k)
  {
    var from := s.Cut() + done;
    assert s.Contents()[done..][..k] == s.history[from..from + k];
    assert s.history[..from + k] == s.history[..from] + s.history[from..from + k];
    ScanOfTwo(NoNewline, s.history[..from], s.history[from..from + k]);
  }

  lemma PopParts(t: State)
    requires t.CountersMatch() && t.Contents() != ""
    ensures t.CanPop() && t.items[0].size <= |t.Contents()|
    ensures t.Contents()[..t.items[0].size] == t.items[0].data
    ensures t.Popped().CountersMatch() && t.Popped().Contents() == t.Contents()[t.items[0].size..]
  {
  }

  lemma PopCounted(st: NewLineStatus, items: seq<BufferItem>)
    requires Counted(st, items) && items != []
    ensures Counted(Scan(Start(st), items[0].data).status, items[1..])
  {
  }

  /** An item that is used up leaves with its bytes and its lines. */
  lemma PopsFront(s: State, t: State, length: nat, left: nat)
    requires s.Valid() && Draining(s, t, length, left) && left > 0
    ensures left <= length && t.CanPop()
    ensures t.items[0].size <= left ==> Draining(s, t.Popped(), length, left - t.items[0].size)
  {
    hide State.CountersMatch, State.Contents, State.StatusAt, Scan, Counted;
    PopParts(t);
    if t.items[0].size <= left {
      BehindFront(s, length - left, t.items[0].size);
      PopCounted(s.StatusAt(s.Cut() + length - left), t.items);
    }
  }

  lemma CutParts(t: State, k: nat)
    requires t.CountersMatch() && t.CanPop() && k < t.items[0].size
    ensures k <= |t.Contents()| && t.Contents()[..k] == t.items[0].data[..k]
    ensures t.CutBy(k).CountersMatch() && t.CutBy(k).Contents() == t.Contents()[k..]
  {
    var item, rest := t.items[0], Flatten(t.items[1..]);
    var items := t.CutBy(k).items;
    assert items[1..] == t.items[1..];
    assert Flatten(items) == item.data[k..] + rest == (item.data + rest)[k..];
    hide Pairs;
  }

  lemma CutCounted(st: NewLineStatus, t: State, k: nat)
    requires Counted(st, t.items) && t.CanPop() && k < t.items[0].size
    ensures Counted(Scan(Start(st), t.items[0].data[..k]).status, t.CutBy(k).items)
  {
    var data := t.items[0].data;
    assert data == data[..k] + data[k..];
    ScanOfTwo(st, data[..k], data[k..]);
    assert t.CutBy(k).items[1..] == t.items[1..];
    hide Scan, Pairs, Scanned;
  }

  /** An item that is used in part keeps the pairs that lie wholly in its remaining bytes. */
  lemma CutsFront(s: State, t: State, length: nat, left: nat)
    requires s.Valid() && Draining(s, t, length, left) && left > 0
    requires t.CanPop() && left < t.items[0].size
    ensures Draining(s, t.CutBy(left), length, 0)
  {
    hide State.CountersMatch, State.Contents, State.StatusAt, State.CutBy, Scan, Counted;
    CutParts(t, left);
    CutCounted(s.StatusAt(s.Cut() + length - left), t, left);
    BehindFront(s, length - left, left);
  }

  lemma Drained(s: State, t: State, length: nat)
    requires s.Valid() && Draining(s, t, length, 0)
    requires t.history == s.history && t.epoch == s.epoch && t.emptyLines == s.emptyLines
    requires t.newLineStatus == s.newLineStatus
    ensures t.Valid() && t.Contents() == s.Contents()[length..]
  {
    hide Scan, Counted, State.CountersMatch, State.Contents;
    assert t.Cut() == s.Cut() + length;
    assert t.history[t.Cut()..] == s.history[s.Cut()..][length..];
  }

  lemma Cleared(s: State, t: State)
    requires s.Valid()
    requires t == s.(items := [], sizeOfBuffer := 0, linesInBuffer := 0, emptyLines := 0, epoch := |s.history|)
    ensures t.Valid() && t.Untouched()
  {
    assert t.history[..t.epoch] == t.history && t.history[t.epoch..] == "";
  }

  /** `after` is what is left of `before` when a front is taken off that does not end in CR. */
  predicate Shortens(before: string, after: string) {
    && |after| <= |before| && after == before[|before| - |after|..]
    && !CutsAfterCR(before, |before| - |after|)
  }

  lemma ShortensTwice(a: string, b: string, c: string)
    requires Shortens(a, b) && Shortens(b, c)
    ensures Shortens(a, c)
  {
    assert a[|a| - |b|..][|b| - |c|..] == a[|a| - |c|..];
    if |c| < |b| {
      assert a[|a| - |c| - 1] == b[|b| - |c| - 1];
    }
  }

  /** Taking off lines keeps the agreement behind them. */
  lemma ShortensKeepsAgreement(history: string, s: string, t: string)
    requires |s| <= |history| && history[|history| - |s|..] == s && Shortens(s, t) && AgreesBehind(history, s)
    ensures AgreesBehind(history, t)
  {
    var from, k := |history| - |s|, |s| - |t|;
    var st := Scan(Start(NoNewline), history[..from]).status;
    assert s == s[..k] + t;
    AgreesConcat(st, false, s[..k], t);
    assert history[..from + k] == history[..from] + s[..k];
    ScanOfTwo(NoNewline, history[..from], s[..k]);
  }

  lemma PairsSnoc(s: string, i: nat)
    requires i < |s|
    ensures Pairs(false, s[..i + 1]) == Pairs(false, s[..i]) + (if IsLineEnd(s, i) then 1 else 0)
  {
    assert s[..i + 1] == s[..i] + [s[i]];
    PairsOfConcat(false, s[..i], [s[i]]);
    assert [s[i]][1..] == "";
    assert Pairs(s[i] == '\r', "") == 0;
  }

  lemma FrontTaken(s: string, data: string, length: nat)
    requires data == if length == 0 || length >= |s| then s else s[..length]
    ensures |data| <= |s| && s == data + s[|data|..] && (|data| == |s| ==> s == data + "")
    ensures !EndsInCR(false, data) ==> !CutsAfterCR(s, |data|)
  {
  }

  lemma ItemSize(items: seq<BufferItem>, k: nat)
    requires SizesMatch(items) && k < |items|
    ensures items[k].size == |items[k].data|
  {
  }

  /** Item `k` of the list, found again in the flat contents. */
  lemma ItemAt(items: seq<BufferItem>, k: nat)
    requires k < |items|
    ensures |Flatten(items[..k + 1])| == |Flatten(items[..k])| + |items[k].data| <= |Flatten(items)|
    ensures Flatten(items)[|Flatten(items[..k])|..|Flatten(items[..k + 1])|] == items[k].data
  {
    FlattenAt(items, k);
  }

  lemma ByteInside(all: string, at: nat, data: string, i: nat)
    requires at + |data| <= |all| && all[at..at + |data|] == data && i < |data|
    ensures all[at + i] == data[i]
  {
    assert all[at..at + |data|][i] == all[at + i];
  }

  lemma PrefixGrows(s: string, n: nat)
    requires n < |s|
    ensures s[..n] + [s[n]] == s[..n + 1] && s[..|s|] == s
  {
  }

  /** One step of the search for the first line end, `line` being all bytes before position `at`. */
  lemma LineEndStep(all: string, at: nat, line: string)
    requires at < |all| && line == all[..at] && LineEnd(all, 0) >= at
    ensures if all[at] == '\n' && at > 0 && line[at - 1] == '\r' then LineEnd(all, 0) == at else LineEnd(all, 0) > at
  {
    assert IsLineEnd(all, at) <==> all[at] == '\n' && at > 0 && line[at - 1] == '\r';
  }

  lemma LineFound(all: string, at: nat)
    requires at < |all| && LineEnd(all, 0) == at
    ensures at > 0 && HasLine(all) && FirstLine(all) == all[..at][..at - 1]
    ensures AfterLine(all) == if at + 1 >= |all| then "" else all[at + 1..]
    ensures !CutsAfterCR(all, at + 1)
  {
  }

  lemma NoLineFound(all: string)
    requires LineEnd(all, 0) >= |all|
    ensures !HasLine(all)
  {
  }

  /**
    Line-counter exactness: where the automaton agrees, the cached total is the number of CRLF pairs in the contents.
   */
  lemma SyncedIsExact(s: State)
    requires s.Valid() && s.Synced()
    ensures s.linesInBuffer == Pairs(false, s.Contents())
    ensures s.linesInBuffer > 0 <==> HasLine(s.Contents())
  {
    CountedTotal(s.StatusAt(s.Cut()), s.items);
    PairsCountLines(false, s.Contents());
  }

  /** On a clean stream the automaton agrees behind every removal that does not end in CR. */
  lemma CleanIsSynced(s: State)
    requires s.Valid() && Clean(s.history) && (s.Cut() > 0 ==> s.history[s.Cut() - 1] != '\r')
    ensures s.Synced()
  {
    var cut := s.Cut();
    assert s.history == s.history[..cut] + s.Contents();
    AgreesIffClean(s.history);
    AgreesConcat(NoNewline, false, s.history[..cut], s.Contents());
  }

  /** As long as a counted blank line lies ahead the line count is positive, whatever stands in the lines before it. */
  lemma HeadIsSeen(s: State, p: nat)
    requires s.Valid() && s.HeadTo(p)
    ensures s.linesInBuffer > 0 && HasLine(s.Contents()) && LineEnd(s.Contents(), 0) <= p - s.Cut()
  {
    var cut, o := s.Cut(), p - s.Cut();
    var text := s.Contents();
    assert s.history[..p] == s.history[..cut] + text[..o];
    ScanOfTwo(NoNewline, s.history[..cut], text[..o]);
    CountedSees(s.StatusAt(cut), s.items, o);
  }

  /** As long as any counted line end lies ahead a line is found, whatever stands in front of it. */
  lemma EndIsSeen(s: State, p: nat)
    requires s.Valid() && CountedEnd(s.history, s.Contents(), p)
    ensures s.linesInBuffer > 0 && HasLine(s.Contents())
  {
    var cut, o := s.Cut(), p - s.Cut();
    var text := s.Contents();
    assert s.history[..p] == s.history[..cut] + text[..o];
    ScanOfTwo(NoNewline, s.history[..cut], text[..o]);
    CountedSees(s.StatusAt(cut), s.items, o);
  }

  /** A counted line end stays ahead until lines are taken through it. */
  lemma EndStaysAhead(history: string, s: string, t: string, p: nat)
    requires CountedEnd(history, s, p) && Shortens(s, t)
    ensures CountedEnd(history, t, p) || |t| < |history| - p
  {
    var k := |s| - |t|;
    var o := p - (|history| - |s|);
    if |t| >= |history| - p {
      assert t == s[k..];
      assert s[o] == '\n' && s[o - 1] == '\r';
      assert k <= o && (k > 0 ==> s[k - 1] != '\r');
    }
  }

  /** Somewhere in `s`, entered in status `st`, stands an LF at which the automaton counts. */
  ghost predicate CountsIn(st: NewLineStatus, s: string) {
    exists o :: 0 <= o < |s| && s[o] == '\n' && Counts(Scan(Start(st), s[..o]).status)
  }

  lemma {:induction false} LinesIffCountsIn(st: NewLineStatus, s: string)
    ensures Scan(Start(st), s).lines > 0 <==> CountsIn(st, s)
    decreases |s|
  {
    if s != "" {
      var m := |s| - 1;
      LinesIffCountsIn(st, s[..m]);
      assert forall o :: 0 <= o <= m ==> s[..m][..o] == s[..o];
    }
  }

  lemma CountsInTwo(st: NewLineStatus, a: string, b: string)
    ensures CountsIn(st, a + b) <==> CountsIn(st, a) || CountsIn(Scan(Start(st), a).status, b)
  {
    hide Scan, CountsIn;
    LinesIffCountsIn(st, a);
    LinesIffCountsIn(st, a + b);
    LinesIffCountsIn(Scan(Start(st), a).status, b);
    ScanConcat(Start(st), a, b);
    ScanShift(Scan(Start(st), a), b);
  }

  /** The count of a buffer that was never cut is positive exactly when a counted LF is in it. */
  lemma {:induction false} ScannedSeesIff(st: NewLineStatus, items: seq<BufferItem>)
    requires Scanned(st, items)
    ensures SumLines(items) > 0 <==> CountsIn(st, Flatten(items))
    decreases |items|
  {
    if items != [] {
      hide Scan, CountsIn;
      ScannedSeesIff(Scan(Start(st), items[0].data).status, items[1..]);
      CountsInTwo(st, items[0].data, Flatten(items[1..]));
      LinesIffCountsIn(st, items[0].data);
    }
  }

  /** Taking off a line in front of the blank one leaves the blank one ahead; the line in front of its LF is empty. */
  lemma HeadShortens(s: string, o: nat)
    requires IsHeadEnd(s, o) && HasLine(s)
    ensures LineEnd(s, 0) == o ==> FirstLine(s) == ""
    ensures LineEnd(s, 0) < o ==> LineEnd(s, 0) + 1 < o && IsHeadEnd(AfterLine(s), o - LineEnd(s, 0) - 1)
  {
    var q := LineEnd(s, 0);
    var t := AfterLine(s);
    assert q <= o && (o > 1 ==> q <= o - 2);
    if q < o {
      assert forall i :: 0 < i < |t| ==> (IsLineEnd(t, i) <==> IsLineEnd(s, i + q + 1));
    }
  }

  /** The text does not open with a line byte. */
  predicate StartsPlain(text: string) {
    text != "" ==> text[0] != '\r' && text[0] != '\n'
  }

  /** Before anything is removed the gate opens, on any stream, exactly when the contents hold an odd blank line. */
  lemma GateIsExact(s: State)
    requires s.Valid() && s.Untouched() && (s.epoch == 0 || StartsPlain(s.Contents()))
    ensures s.emptyLines > 0 <==> HasOddBlank(s.Contents())
    ensures HasOddBlank(s.Contents()) ==> s.HeadTo(s.epoch + OddBlankEnd(s.Contents(), 0))
  {
    var text := s.Contents();
    BlankCountExact(text);
    hide Scan, Flatten, State.CountersMatch, Counted, OddBlankEnd;
    if s.epoch == 0 {
      assert s.history == text && s.history[..0] == "";
      NothingScanned();
    } else if text != "" {
      RestartGate(s.StatusAt(s.epoch), text);
    } else {
      NothingScanned();
      assert s.history[s.epoch..] == "";
    }
    if HasOddBlank(text) {
      var e := OddBlankEnd(text, 0);
      OddBlankIsCounted(text);
      assert s.history[..s.epoch + e] == s.history[..s.epoch] + text[..e];
      ScanOfTwo(NoNewline, s.history[..s.epoch], text[..e]);
    }
  }

  /** Since the buffer was last empty a blank line has been counted, and its first bytes have been taken off. */
  predicate BlankTakenOff(text: string, cut: nat) {
    exists i :: 0 <= i < cut + 3 && IsOddBlankEnd(text, i)
  }

  /** Whatever has been removed: the counter tells of all bytes since the buffer was last empty. */
  lemma GateTellsOfEpoch(s: State)
    requires s.Valid() && (s.epoch == 0 || StartsPlain(s.history[s.epoch..]))
    ensures s.emptyLines > 0 <==> HasOddBlank(s.history[s.epoch..])
  {
    var text := s.history[s.epoch..];
    BlankCountExact(text);
    hide Scan, State.CountersMatch, Counted, OddBlankEnd, State.Contents;
    NothingScanned();
    if s.epoch == 0 {
      assert s.history == text && s.history[..0] == "";
    } else if text != "" {
      RestartGate(s.StatusAt(s.epoch), text);
    }
  }

  /** A front that does not end in CR takes blank lines off whole or in part; the others stay as they are. */
  lemma OddBlankBehind(text: string, cut: nat)
    requires cut <= |text| && !CutsAfterCR(text, cut)
    ensures HasOddBlank(text) <==> BlankTakenOff(text, cut) || HasOddBlank(text[cut..])
  {
    hide IsOddBlankEnd, OddBlankEnd, CutsAfterCR;
    if HasOddBlank(text) {
      var e := OddBlankEnd(text, 0);
      if e >= cut + 3 {
        OddBlankMoves(text, cut, e);
        OddBlankShows(text[cut..], e - cut);
      }
    }
    if HasOddBlank(text[cut..]) {
      var e := OddBlankEnd(text[cut..], 0);
      OddBlankShows(text[cut..], e);
      OddBlankMoves(text, cut, e + cut);
      OddBlankShows(text, e + cut);
    }
    if i :| 0 <= i < cut + 3 && IsOddBlankEnd(text, i) {
      OddBlankShows(text, i);
    }
  }

  lemma OddBlankShows(s: string, i: int)
    requires IsOddBlankEnd(s, i)
    ensures 3 <= i < |s| && HasOddBlank(s)
  {
  }

  lemma OddBlankMoves(text: string, cut: nat, i: int)
    requires cut <= |text| && !CutsAfterCR(text, cut) && i >= cut + 3
    ensures IsOddBlankEnd(text, i) <==> IsOddBlankEnd(text[cut..], i - cut)
  {
    var t := text[cut..];
    assert IsBlankEnd(text, i) <==> IsBlankEnd(t, i - cut);
    if IsBlankEnd(text, i) {
      assert t[..i - cut - 2] == text[cut..i - 2];
      assert text[..i - 2] == text[..cut] + t[..i - cut - 2];
      TrailingBehind(text[..cut], t[..i - cut - 2]);
    }
  }

  lemma {:induction false} TrailingBehind(a: string, b: string)
    requires a == "" || a[|a| - 1] != '\r'
    ensures TrailingCRs(a + b) == TrailingCRs(b)
    decreases |b|
  {
    if b == "" {
      assert a + b == a;
    } else {
      assert (a + b)[..|a + b| - 1] == a + b[..|b| - 1];
      TrailingBehind(a, b[..|b| - 1]);
    }
  }

  /**
    The gate, whatever has been removed: it tells of the contents exactly when no counted blank line has been taken off
    since the buffer was last empty, or another one is still ahead.
   */
  lemma GateTellsIff(s: State)
    requires s.Valid() && (s.epoch == 0 || StartsPlain(s.history[s.epoch..]))
    requires !CutsAfterCR(s.history[s.epoch..], s.Cut() - s.epoch)
    ensures (s.emptyLines > 0 <==> HasOddBlank(s.Contents())) <==>
            (!BlankTakenOff(s.history[s.epoch..], s.Cut() - s.epoch) || HasOddBlank(s.Contents()))
  {
    var text, cut := s.history[s.epoch..], s.Cut() - s.epoch;
    GateTellsOfEpoch(s);
    OddBlankBehind(text, cut);
    hide HasOddBlank, BlankTakenOff, Counted, State.Contents, State.StatusAt;
    assert text[cut..] == s.Contents();
  }

  lemma NothingScanned()
    ensures forall st :: Scan(Start(st), "") == Start(st)
  {
  }

  lemma RestartGate(st: NewLineStatus, text: string)
    requires text != "" && StartsPlain(text)
    ensures Scan(Start(st), text) == Scan(Start(NoNewline), text)
    ensures HasOddBlank(text) ==>
              var front := text[..OddBlankEnd(text, 0)];
              Scan(Start(st), front).status == Scan(Start(NoNewline), front).status
  {
    ScanRestart(st, false, text);
    if HasOddBlank(text) {
      ScanRestart(st, false, text[..OddBlankEnd(text, 0)]);
    }
  }

  /** Where the head ends once `line` has been taken off the state `s`. */
  predicate HeadBehindLine(s: State, t: State, line: string, p: nat) {
    && s.Cut() + |line| + 1 <= p
    && (s.Cut() + |line| + 1 == p ==> line == "")
    && (s.Cut() + |line| + 1 < p ==> t.HeadTo(p))
  }

  /** Which lines a search cannot miss. */
  lemma LinesSeen(s: State)
    requires s.Valid()
    ensures s.Synced() ==> (s.linesInBuffer > 0 <==> HasLine(s.Contents()))
    ensures forall p: nat :: s.HeadTo(p) ==> s.linesInBuffer > 0 && HasLine(s.Contents())
    ensures forall p: nat :: CountedEnd(s.history, s.Contents(), p) ==> s.linesInBuffer > 0 && HasLine(s.Contents())
  {
    if s.Synced() {
      SyncedIsExact(s);
    }
    forall p: nat | CountedEnd(s.history, s.Contents(), p) ensures s.linesInBuffer > 0 && HasLine(s.Contents()) {
      EndIsSeen(s, p);
    }
    forall p: nat | s.HeadTo(p) ensures s.linesInBuffer > 0 && HasLine(s.Contents()) {
      HeadIsSeen(s, p);
    }
  }

  lemma LineTaken(s: State, t: State, line: string)
    requires s.Valid() && t.Valid() && t.history == s.history
    requires HasLine(s.Contents()) && line == FirstLine(s.Contents()) && t.Contents() == AfterLine(s.Contents())
    ensures Shortens(s.Contents(), t.Contents())
    ensures s.Synced() ==> t.Synced()
    ensures forall p: nat :: s.HeadTo(p) ==> HeadBehindLine(s, t, line, p)
  {
    LineShortens(s.Contents());
    hide State.Valid, State.HeadTo, State.Contents, Shortens, HeadBehindLine;
    if s.Synced() {
      SyncedMoves(s, t);
    }
    forall p: nat | s.HeadTo(p) ensures HeadBehindLine(s, t, line, p) {
      HeadMoves(s, t, line, p);
    }
  }

  lemma LineShortens(text: string)
    requires HasLine(text)
    ensures Shortens(text, AfterLine(text)) && |text| == |FirstLine(text)| + 2 + |AfterLine(text)|
    ensures LineEnd(text, 0) == |FirstLine(text)| + 1
  {
    LineSplits(text);
    assert text[LineEnd(text, 0)] == '\n';
  }

  lemma SyncedMoves(s: State, t: State)
    requires s.Valid() && t.history == s.history && Shortens(s.Contents(), t.Contents()) && s.Synced()
    ensures t.Synced()
  {
    hide State.CountersMatch, State.Contents, State.StatusAt, Counted, Scan, Agrees;
    assert s.history[|s.history| - |s.Contents()|..] == s.Contents();
    ShortensKeepsAgreement(s.history, s.Contents(), t.Contents());
  }

  lemma SizeIsLength(s: State)
    requires s.Valid()
    ensures s.sizeOfBuffer == |s.Contents()|
  {
  }

  lemma NothingIsSynced(s: State)
    requires s.Contents() == ""
    ensures s.Synced()
  {
    hide State.Contents;
  }

  lemma CutKeepsSync(s: State, t: State, length: nat)
    requires s.Valid() && t.history == s.history && length <= |s.Contents()| && t.Contents() == s.Contents()[length..]
    ensures s.Synced() && !CutsAfterCR(s.Contents(), length) ==> t.Synced()
  {
    hide State.Valid, State.Contents, State.Synced;
    if s.Synced() && !CutsAfterCR(s.Contents(), length) {
      SyncedMoves(s, t);
    }
  }

  lemma HeadMoves(s: State, t: State, line: string, p: nat)
    requires s.Valid() && t.history == s.history
    requires HasLine(s.Contents()) && line == FirstLine(s.Contents()) && t.Contents() == AfterLine(s.Contents())
    requires s.HeadTo(p)
    ensures HeadBehindLine(s, t, line, p)
  {
    hide State.Valid, State.StatusAt, Counts, IsHeadEnd, Shortens, State.Contents, HasLine, FirstLine;
    hide AfterLine, LineEnd;
    LineShortens(s.Contents());
    HeadIsSeen(s, p);
    HeadShortens(s.Contents(), p - s.Cut());
    SameStatus(s, t, p);
  }

  lemma SameStatus(s: State, t: State, p: nat)
    requires t.history == s.history && p <= |s.history|
    ensures t.StatusAt(p) == s.StatusAt(p)
  {
  }

  class Buffer {
    var items: seq<BufferItem>
    var sizeOfBuffer: nat
    var linesInBuffer: nat
    var emptyLines: nat
    var newLineStatus: NewLineStatus
    ghost var history: string
    ghost var epoch: nat

    ghost function Now(): State
      reads this
    {
      State(items, sizeOfBuffer, linesInBuffer, emptyLines, newLineStatus, history, epoch)
    }

    ghost function Contents(): string
      reads this
    {
      Now().Contents()
    }

    ghost predicate Valid()
      reads this
    {
      Now().Valid()
    }

    ghost predicate Synced()
      reads this
    {
      Now().Synced()
    }

    constructor ()
      ensures Valid() && Now().Untouched() && Now() == EMPTY
      ensures Contents() == "" && history == ""
    {
      items, sizeOfBuffer, linesInBuffer, emptyLines, newLineStatus := [], 0, 0, 0, NoNewline;
      history, epoch := "", 0;
    }

    method Add(data: string)
      requires Valid()
      modifies this
      ensures Valid()
      ensures Contents() == old(Contents()) + data
      ensures history == old(history) + data && epoch == old(epoch) && Now().Untouched() == old(Now().Untouched())
      ensures Synced() <==> old(Synced()) && Agrees(old(newLineStatus), EndsInCR(false, old(Contents())), data)
      ensures Now() == WithItem(old(Now()), data)
    {
      hide State.Valid, State.Contents, State.Synced, Scan, Flatten, Agrees;
      var item := CountLines(data);
      sizeOfBuffer := sizeOfBuffer + |data|;
      items := items + [item];
      history := history + data;
      Added(old(Now()), data);
      AddedSync(old(Now()), data);
    }

    /** The loop of Add: fills the new item and drives the newline automaton over its bytes. */
    method CountLines(data: string) returns (item: BufferItem)
      modifies this`linesInBuffer, this`emptyLines, this`newLineStatus
      ensures var tally := Scan(Start(old(newLineStatus)), data);
              && item == BufferItem(data, |data|, tally.lines)
              && newLineStatus == tally.status
              && linesInBuffer == old(linesInBuffer) + tally.lines
              && emptyLines == old(emptyLines) + tally.blanks
    {
      item := BufferItem("", |data|, 0);
      ghost var start := Start(newLineStatus);
      for i := 0 to |data|
        invariant item.data == data[..i] && item.size == |data|
        invariant newLineStatus == Scan(start, data[..i]).status
        invariant item.lines == Scan(start, data[..i]).lines
        invariant linesInBuffer == old(linesInBuffer) + item.lines
        invariant emptyLines == old(emptyLines) + Scan(start, data[..i]).blanks
      {
        ScanSnoc(start, data, i);
        item := item.(data := item.data + [data[i]]);
        if data[i] == '\r' {
          match newLineStatus {
            case AfterCRLF => newLineStatus := AfterCRLFCR;
            case NoNewline => newLineStatus := AfterCR;
            case _ => newLineStatus := NoNewline;
          }
        } else if data[i] == '\n' {
          match newLineStatus {
            case AfterCR =>
              linesInBuffer := linesInBuffer + 1;
              item := item.(lines := item.lines + 1);
              newLineStatus := AfterCRLF;
            case AfterCRLFCR =>
              linesInBuffer := linesInBuffer + 1;
              item := item.(lines := item.lines + 1);
              emptyLines := emptyLines + 1;
            case _ => newLineStatus := NoNewline;
          }
        } else {
          newLineStatus := NoNewline;
        }
      }
      assert data[..|data|] == data;
    }

    /** Removes `length` bytes from the front; removing everything forgets the blank lines seen. */
    method Remove(length: nat)
      requires Valid()
      modifies this
      ensures Valid()
      ensures history == old(history)
      ensures length >= |old(Contents())| ==> Contents() == "" && epoch == |history| && emptyLines == 0
      ensures length < |old(Contents())| ==>
                Contents() == old(Contents())[length..] && epoch == old(epoch) && emptyLines == old(emptyLines)
      ensures old(Synced()) && !CutsAfterCR(old(Contents()), length) ==> Synced()
      ensures Now() == old(Now()).Removed(length)
    {
      SizeIsLength(Now());
      hide State.Valid, State.Contents, State.Synced, CutsAfterCR;
      if length >= sizeOfBuffer {
        Clear();
        NothingIsSynced(Now());
        return;
      }
      Drain(length);
      CutKeepsSync(old(Now()), Now(), length);
    }

    /** The loop of Remove: whole items are popped, the last one is cut and its lines counted again. */
    method Drain(length: nat)
      requires Valid() && length < sizeOfBuffer
      modifies this`items, this`sizeOfBuffer, this`linesInBuffer
      ensures Valid() && Contents() == old(Contents())[length..]
      ensures Now() == old(Now()).Drained(length)
    {
      hide State.Valid, State.Contents, State.CountersMatch, State.StatusAt, Draining, Pairs;
      DrainStarts(Now(), length);
      var left: nat := length;
      while left > 0
        invariant Draining(old(Now()), Now(), length, left)
        invariant Now().Drained(left) == old(Now()).Drained(length)
        decreases |items| + (if left > 0 then 1 else 0)
      {
        PopsFront(old(Now()), Now(), length, left);
        var item := items[0];
        if item.size <= left {
          left := left - item.size;
          sizeOfBuffer := sizeOfBuffer - item.size;
          linesInBuffer := linesInBuffer - item.lines;
          items := items[1..];
        } else {
          CutsFront(old(Now()), Now(), length, left);
          CutFront(left);
          left := 0;
        }
      }
      Drained(old(Now()), Now(), length);
    }

    method CutFront(k: nat)
      requires Now().CanPop() && k < items[0].size
      modifies this`items, this`sizeOfBuffer, this`linesInBuffer
      ensures Now() == old(Now()).CutBy(k)
    {
      var item := items[0];
      var data := item.data[k..];
      sizeOfBuffer := sizeOfBuffer - k;
      linesInBuffer := linesInBuffer - item.lines;
      var lines := Recount(data);
      linesInBuffer := linesInBuffer + lines;
      items := [BufferItem(data, item.size - k, lines)] + items[1..];
    }

    /** The recount of Remove: within the bytes that stay, a CR must stand before the LF. */
    static method Recount(data: string) returns (lines: nat)
      ensures lines == Pairs(false, data)
    {
      lines := 0;
      for i := 0 to |data|
        invariant lines == Pairs(false, data[..i])
      {
        PairsSnoc(data, i);
        if data[i] == '\n' && i > 0 && data[i - 1] == '\r' {
          lines := lines + 1;
        }
      }
      assert data[..|data|] == data;
    }

    method Clear()
      requires Valid()
      modifies this
      ensures Valid() && Now().Untouched()
      ensures Contents() == "" && history == old(history) && epoch == |history| && emptyLines == 0
      ensures Now() == old(Now()).Removed(old(sizeOfBuffer))
    {
      items, sizeOfBuffer, linesInBuffer, emptyLines := [], 0, 0, 0;
      epoch := |history|;
      Cleared(old(Now()), Now());
    }

    /** The first `length` bytes, or all of them when there are fewer; a `length` of 0 also gives all of them. */
    method Read(length: nat) returns (data: string)
      requires Valid()
      ensures data == if length == 0 || length >= |Contents()| then Contents() else Contents()[..length]
    {
      data := ReadItems(items, length, sizeOfBuffer);
    }

    static method ReadItems(items: seq<BufferItem>, length: nat, size: nat) returns (data: string)
      requires SizesMatch(items) && size == |Flatten(items)|
      ensures data == if length == 0 || length >= size then Flatten(items) else Flatten(items)[..length]
    {
      assert Flatten(items[..0]) == "";
      hide Flatten, SizesMatch;
      data := "";
      var left: int := length;  // an unsigned counter in the source: below zero it never meets 0 again
      var bytesRead: nat := 0;
      ghost var all := Flatten(items);
      for k := 0 to |items|
        invariant bytesRead == |Flatten(items[..k])| <= |all| && data == all[..bytesRead]
        invariant left == length - bytesRead && (length == 0 || bytesRead < length)
      {
        ItemSize(items, k);
        ItemAt(items, k);
        ghost var start := bytesRead;
        for i := 0 to items[k].size
          invariant bytesRead == start + i <= |all| && data == all[..bytesRead]
          invariant left == length - bytesRead && (length == 0 || bytesRead < length)
        {
          ByteInside(all, start, items[k].data, i);
          PrefixGrows(all, bytesRead);
          data := data + [items[k].data[i]];
          left := left - 1;
          bytesRead := bytesRead + 1;
          if left == 0 || bytesRead == size {
            return;
          }
        }
      }
      assert items[..|items|] == items;
    }

    method Size() returns (n: nat)
      requires Valid()
      ensures n == |Contents()|
    {
      n := sizeOfBuffer;
    }

    method Lines() returns (n: nat)
      requires Valid()
      ensures n == linesInBuffer
      ensures Synced() ==> n == Pairs(false, Contents()) && (n > 0 <==> HasLine(Contents()))
    {
      if Synced() {
        SyncedIsExact(Now());
      }
      n := linesInBuffer;
    }

    method EmptyLines() returns (n: nat)
      requires Valid()
      ensures n == emptyLines
      ensures Now().Untouched() && (epoch == 0 || StartsPlain(Contents())) ==> (n > 0 <==> HasOddBlank(Contents()))
      ensures epoch == 0 || StartsPlain(history[epoch..]) ==> (n > 0 <==> HasOddBlank(history[epoch..]))
    {
      if epoch == 0 || StartsPlain(history[epoch..]) {
        GateTellsOfEpoch(Now());
      }
      if Now().Untouched() && (epoch == 0 || StartsPlain(Contents())) {
        GateIsExact(Now());
      }
      n := emptyLines;
    }

    /** Replaces `data`; a `length` of 0 takes everything. */
    method ReadAndRemove(length: nat) returns (data: string)
      requires Valid()
      modifies this
      ensures Valid() && history == old(history)
      ensures data == if length == 0 || length >= |old(Contents())| then old(Contents()) else old(Contents())[..length]
      ensures old(Contents()) == data + Contents()
      ensures old(Synced()) && !EndsInCR(false, data) ==> Synced()
      ensures Now() == old(Now()).Removed(|data|)
    {
      hide Buffer.Valid, Buffer.Synced, Buffer.Contents, Buffer.Now, CutsAfterCR, EndsInCR;
      data := Read(length);
      FrontTaken(Contents(), data, length);
      Remove(|data|);
    }

    /** The byte at `index`, or 0 beyond the end. */
    method At(index: nat) returns (c: char)
      requires Valid()
      ensures c == if index < |Contents()| then Contents()[index] else '\0'
    {
      assert Flatten(items[..0]) == "";
      hide Flatten, SizesMatch;
      var currentLength: nat := 0;
      for k := 0 to |items|
        invariant currentLength == |Flatten(items[..k])| <= index
      {
        ItemSize(items, k);
        ItemAt(items, k);
        if index < currentLength + items[k].size {
          ByteInside(Contents(), currentLength, items[k].data, index - currentLength);
          return items[k].data[index - currentLength];
        }
        currentLength := currentLength + items[k].size;
      }
      assert items[..|items|] == items;
      return '\0';
    }

    /**
      Takes the first line off the buffer. Called with an empty line by every caller of the server.
      With a zero line count nothing happens; with a count that is wrong the whole contents may be read in vain.
     */
    method GetCRLFLine() returns (found: bool, line: string)
      requires Valid()
      modifies this
      ensures Valid() && history == old(history)
      ensures found <==> old(linesInBuffer) > 0 && HasLine(old(Contents()))
      ensures found ==> line == FirstLine(old(Contents())) && Contents() == AfterLine(old(Contents()))
      ensures !found ==> line == if old(linesInBuffer) == 0 then "" else old(Contents())
      ensures found ==> Now() == old(Now()).Removed(|line| + 2)
      ensures !found ==> Now() == old(Now()) && Contents() == old(Contents())
      ensures Shortens(old(Contents()), Contents())
      ensures old(Synced()) ==> Synced() && (found <==> HasLine(old(Contents())))
      ensures forall p: nat :: old(Now().HeadTo(p)) ==> found && HeadBehindLine(old(Now()), Now(), line, p)
      ensures !found ==> forall p: nat :: !CountedEnd(history, Contents(), p)
    {
      LinesSeen(Now());
      if linesInBuffer == 0 {
        return false, "";
      }
      found, line := ScanItems(items);
      if found {
        Remove(|line| + 2);
        LineTaken(old(Now()), Now(), line);
      }
    }

    /** The loops of GetCRLFLine: bytes are collected until an LF follows a CR, which is then taken off again. */
    static method ScanItems(items: seq<BufferItem>) returns (found: bool, line: string)
      requires SizesMatch(items)
      ensures found <==> HasLine(Flatten(items))
      ensures !found ==> line == Flatten(items)
      ensures found ==>
                && line == FirstLine(Flatten(items)) && !CutsAfterCR(Flatten(items), |line| + 2)
                && AfterLine(Flatten(items)) == if |line| + 2 >= |Flatten(items)| then ""
                  else Flatten(items)[|line| + 2..]
    {
      found, line := false, "";
      ghost var all := Flatten(items);
      assert |Flatten(items[..0])| == 0;
      hide Flatten, HasLine, FirstLine, AfterLine, CutsAfterCR, IsLineEnd, LineEnd, SizesMatch;
      for k := 0 to |items|
        invariant |line| == |Flatten(items[..k])| <= |all| && line == all[..|line|]
        invariant LineEnd(all, 0) >= |line|
      {
        ItemSize(items, k);
        ItemAt(items, k);
        found, line := ScanItem(items[k], line, all);
        if found {
          LineFound(all, |line| + 1);
          return;
        }
      }
      assert items[..|items|] == items;
      NoLineFound(all);
    }

    /** The inner loop of GetCRLFLine, with the bytes of the earlier items in `before`. */
    static method ScanItem(item: BufferItem, before: string, ghost all: string) returns (found: bool, line: string)
      requires item.size == |item.data| && |before| + item.size <= |all| && before == all[..|before|]
      requires all[|before|..|before| + item.size] == item.data
      requires LineEnd(all, 0) >= |before|
      ensures |line| <= |all| && line == all[..|line|]
      ensures if found then LineEnd(all, 0) == |line| + 1 < |all|
              else |line| == |before| + item.size && LineEnd(all, 0) >= |line|
    {
      hide IsLineEnd, LineEnd;
      found, line := false, before;
      for i := 0 to item.size
        invariant |line| == |before| + i <= |all| && line == all[..|line|] && LineEnd(all, 0) >= |line|
      {
        ByteInside(all, |before|, item.data, i);
        LineEndStep(all, |line|, line);
        if item.data[i] == '\n' && |line| > 0 && line[|line| - 1] == '\r' {
          found, line := true, line[..|line| - 1];
          return;
        }
        line := line + [item.data[i]];
      }
    }
  }

  lemma LineBehindTwoCRs()
    ensures HasLine("\r\r\n") && WithItem(EMPTY, "\r\r\n").linesInBuffer == 0
  {
    var s := "\r\r\n";
    assert IsLineEnd(s, 2);
    assert s[..2] == "\r\r" && "\r\r"[..1] == "\r" && "\r"[..0] == "";
  }

  /** A wrong count, and what it does: the buffer holds a line and does not give it. */
  method MissesLine() returns (buffer: Buffer, found: bool)
    ensures fresh(buffer) && buffer.Valid() && HasLine(buffer.Contents()) && !found
  {
    buffer := new Buffer();
    LineBehindTwoCRs();
    hide State.Valid, State.Contents, State.HeadTo, WithItem, CountedEnd, HeadBehindLine, HasLine;
    buffer.Add("\r\r\n");
    assert "" + "\r\r\n" == "\r\r\n";
    var line;
    found, line := buffer.GetCRLFLine();
  }

  lemma BlankLineInFront()
    ensures HasOddBlank("a\r\n\r\nb") && !HasOddBlank("b")
  {
    var s := "a\r\n\r\nb";
    assert s[..2] == "a\r" && "a\r"[..1] == "a" && TrailingCRs("a\r") == 1;
    assert IsOddBlankEnd(s, 4);
  }

  /** A stale gate: the blank line is gone with the head it ended, and the counter still tells of it. */
  method LeavesGateOpen() returns (buffer: Buffer)
    ensures fresh(buffer) && buffer.Valid() && buffer.Contents() == "b"
    ensures buffer.emptyLines > 0 && !HasOddBlank(buffer.Contents())
  {
    buffer := new Buffer();
    BlankLineInFront();
    hide State.Valid, State.Contents, Scan, HasOddBlank;
    var text := "a\r\n\r\nb";
    buffer.Add(text);
    assert "" + text == text;
    var blanks := buffer.EmptyLines();
    buffer.Remove(5);
  }
}
