/** Header fields: the ordered multimap, its printed form, and the line parser. */
module Headers {
  import opened Text
  import opened Wrappers
  import opened Numbers

  datatype Field = Field(key: string, value: string)

  /** Fields in the order of a std::multimap: by key, equal keys in order of insertion. */
  type Fields = seq<Field>

  /** Byte-wise string order. */
  predicate Less(a: string, b: string) {
    b != "" && (a == "" || a[0] < b[0] || (a[0] == b[0] && Less(a[1..], b[1..])))
  }

  predicate Sorted(m: Fields) {
    forall i, j :: 0 <= i < j < |m| ==> !Less(m[j].key, m[i].key)
  }

  /** setHeader: behind every field whose key is not greater. */
  function Insert(m: Fields, f: Field): Fields {
    if m == [] || Less(f.key, m[0].key) then [f] + m else [m[0]] + Insert(m[1..], f)
  }

  function InsertAll(m: Fields, more: Fields): Fields
    decreases |more|
  {
    if more == [] then m else InsertAll(Insert(m, more[0]), more[1..])
  }

  /** deleteHeader: every field with the key goes. */
  function Delete(m: Fields, key: string): Fields {
    if m == [] then [] else if m[0].key == key then Delete(m[1..], key) else [m[0]] + Delete(m[1..], key)
  }

  /** getHeaderList: the values stored under a key, oldest first. */
  function Values(m: Fields, key: string): seq<string> {
    if m == [] then [] else if m[0].key == key then [m[0].value] + Values(m[1..], key) else Values(m[1..], key)
  }

  /** getHeader: the first value, or the empty string. */
  function Get(m: Fields, key: string): string {
    var values := Values(m, key);
    if values == [] then "" else values[0]
  }

  function PrintField(f: Field): string {
    f.key + ": " + f.value
  }

  function PrintFields(m: Fields): string {
    if m == [] then "" else PrintField(m[0]) + "\r\n" + PrintFields(m[1..])
  }

  // ---------- the multimap ----------

  lemma {:induction false} LessTrans(a: string, b: string, c: string)
    requires !Less(b, a) && !Less(c, b)
    ensures !Less(c, a)
    decreases |a|
  {
    if a != "" && b != "" && c != "" && a[0] == b[0] == c[0] {
      LessTrans(a[1..], b[1..], c[1..]);
    }
  }

  lemma {:induction false} LessTotal(a: string, b: string)
    ensures Less(a, b) ==> !Less(b, a)
    decreases |a|
  {
    if a != "" && b != "" {
      LessTotal(a[1..], b[1..]);
    }
  }

  /** Insertion keeps the order and adds one field. */
  lemma {:induction false} InsertIsOrdered(m: Fields, f: Field)
    requires Sorted(m)
    ensures Sorted(Insert(m, f))
    ensures multiset(Insert(m, f)) == multiset(m) + multiset{f}
    decreases |m|
  {
    if m == [] {
    } else if Less(f.key, m[0].key) {
      FrontIsOrdered(m, f);
    } else {
      InsertIsOrdered(m[1..], f);
      assert m == [m[0]] + m[1..];
      FrontStays(m, f);
    }
  }

  /** Insertion puts the value last among the values of its key and leaves other keys alone. */
  lemma {:induction false} InsertAppends(m: Fields, f: Field, key: string)
    requires Sorted(m)
    ensures Values(Insert(m, f), key) == Values(m, key) + ValueUnder(f, key)
    decreases |m|
  {
    if m == [] || Less(f.key, m[0].key) {
      NoneWithSmallerKey(m, f.key);
      assert ([f] + m)[1..] == m;
    } else {
      InsertAppends(m[1..], f, key);
      assert ([m[0]] + Insert(m[1..], f))[1..] == Insert(m[1..], f);
    }
  }

  lemma FrontIsOrdered(m: Fields, f: Field)
    requires Sorted(m) && m != [] && Less(f.key, m[0].key)
    ensures Sorted([f] + m)
  {
    LessTotal(f.key, m[0].key);
    forall i, j | 0 <= i < j < |[f] + m| ensures !Less(([f] + m)[j].key, ([f] + m)[i].key) {
      if i == 0 && j > 1 {
        LessTrans(f.key, m[0].key, m[j - 1].key);
      }
    }
  }

  lemma {:induction false} NoneWithSmallerKey(m: Fields, key: string)
    requires Sorted(m) && (m != [] ==> Less(key, m[0].key))
    ensures Values(m, key) == []
    decreases |m|
  {
    if m != [] {
      LessTotal(key, m[0].key);
      if |m| > 1 {
        assert !Less(m[1].key, m[0].key);
        if !Less(key, m[1].key) {
          LessTrans(m[0].key, m[1].key, key);
        }
      }
      NoneWithSmallerKey(m[1..], key);
    }
  }

  lemma FrontStays(m: Fields, f: Field)
    requires Sorted(m) && m != [] && !Less(f.key, m[0].key) && Sorted(Insert(m[1..], f))
    requires multiset(Insert(m[1..], f)) == multiset(m[1..]) + multiset{f}
    ensures Sorted([m[0]] + Insert(m[1..], f))
  {
    var tail := Insert(m[1..], f);
    forall j | 0 <= j < |tail| ensures !Less(tail[j].key, m[0].key) {
      assert tail[j] in multiset(tail);
      if tail[j] != f {
        assert tail[j] in multiset(m[1..]);
        var k :| 0 <= k < |m[1..]| && m[1..][k] == tail[j];
        assert m[k + 1] == tail[j];
      }
    }
  }

  /** Deletion empties one key and leaves the others alone. */
  lemma {:induction false} DeleteRemovesKey(m: Fields, key: string, other: string)
    ensures Values(Delete(m, key), other) == if other == key then [] else Values(m, other)
    decreases |m|
  {
    if m != [] {
      DeleteRemovesKey(m[1..], key, other);
      assert ([m[0]] + Delete(m[1..], key))[1..] == Delete(m[1..], key);
    }
  }

  lemma {:induction false} DeleteIsSubsequence(m: Fields, key: string)
    ensures forall f :: f in Delete(m, key) ==> f in m
    decreases |m|
  {
    if m != [] {
      DeleteIsSubsequence(m[1..], key);
    }
  }

  lemma {:induction false} DeleteIsOrdered(m: Fields, key: string)
    requires Sorted(m)
    ensures Sorted(Delete(m, key))
    decreases |m|
  {
    if m != [] {
      DeleteIsOrdered(m[1..], key);
      var rest := Delete(m[1..], key);
      DeleteIsSubsequence(m[1..], key);
      forall j | 0 <= j < |rest| ensures !Less(rest[j].key, m[0].key) {
        assert rest[j] in m[1..];
        var k :| 0 <= k < |m[1..]| && m[1..][k] == rest[j];
        assert m[k + 1] == rest[j];
      }
    }
  }

  lemma {:induction false} InsertLast(m: Fields, f: Field)
    requires Sorted(m + [f])
    ensures Insert(m, f) == m + [f]
    decreases |m|
  {
    if m != [] {
      assert (m + [f])[|m|] == f && (m + [f])[0] == m[0];
      assert (m + [f])[1..] == m[1..] + [f];
      assert Sorted(m[1..] + [f]) by {
        assert forall i :: 0 <= i < |m[1..] + [f]| ==> (m[1..] + [f])[i] == (m + [f])[i + 1];
      }
      InsertLast(m[1..], f);
    }
  }

  /** Fields inserted in their own order come back as they were. */
  lemma {:induction false} InsertAllSorted(m: Fields, more: Fields)
    requires Sorted(m + more)
    ensures InsertAll(m, more) == m + more
    decreases |more|
  {
    if more == [] {
      assert m + more == m;
    } else {
      assert Sorted(m + [more[0]]) by {
        assert forall i :: 0 <= i <= |m| ==> (m + [more[0]])[i] == (m + more)[i];
      }
      InsertLast(m, more[0]);
      assert m + [more[0]] + more[1..] == m + more;
      InsertAllSorted(m + [more[0]], more[1..]);
    }
  }

  /** However fields arrive, the values of each key are stored in their order of arrival. */
  lemma {:induction false} ArrivalOrder(m: Fields, more: Fields, key: string)
    requires Sorted(m)
    ensures Sorted(InsertAll(m, more))
    ensures Values(InsertAll(m, more), key) == Values(m, key) + Values(more, key)
    decreases |more|
  {
    hide Insert, Values, Sorted;
    ValuesFirst(more, key);
    if more == [] {
      assert Values(m, key) + [] == Values(m, key);
    } else {
      InsertIsOrdered(m, more[0]);
      InsertAppends(m, more[0], key);
      ArrivalOrder(Insert(m, more[0]), more[1..], key);
      Associate(Values(m, key), ValueUnder(more[0], key), Values(more[1..], key));
    }
  }

  function ValueUnder(f: Field, key: string): seq<string> {
    if f.key == key then [f.value] else []
  }

  lemma ValuesFirst(m: Fields, key: string)
    ensures Values(m, key) == if m == [] then [] else ValueUnder(m[0], key) + Values(m[1..], key)
  {
  }

  // ---------- one line ----------

  predicate IsKeyByte(c: char) {
    !IsSpace(c) && c != ':'
  }

  function KeyLength(line: string): (k: nat)
    ensures k <= |line|
    ensures forall i :: 0 <= i < k ==> IsKeyByte(line[i])
    ensures k < |line| ==> !IsKeyByte(line[k])
  {
    if line == "" || !IsKeyByte(line[0]) then 0 else 1 + KeyLength(line[1..])
  }

  predicate NoLineBytes(s: string) {
    forall i :: 0 <= i < |s| ==> s[i] != '\r' && s[i] != '\n'
  }

  /** The pattern `^([^\s:]+):\s*(.*)`, whose dot matches neither CR nor LF. */
  function ParseLine(line: string): (r: Option<Field>)
  {
    var k := KeyLength(line);
    if k == 0 || k == |line| || line[k] != ':' then None
    else
      var value := SkipSpace(line[k + 1..]);
      if NoLineBytes(value) then Some(Field(line[..k], value)) else None
  }

  predicate IsToken(key: string) {
    key != "" && forall i :: 0 <= i < |key| ==> IsKeyByte(key[i])
  }

  predicate IsFieldValue(value: string) {
    NoLineBytes(value) && (value != "" ==> !IsSpace(value[0]))
  }

  predicate Printable(f: Field) {
    IsToken(f.key) && IsFieldValue(f.value)
  }

  /** Every accepted line gives a token and a value without leading blanks or line bytes. */
  lemma ParseLineAccepts(line: string)
    ensures ParseLine(line).Some? ==> Printable(ParseLine(line).value)
  {
    hide KeyLength, SkipSpace;
    var k := KeyLength(line);
    assert forall i :: 0 <= i < k ==> line[..k][i] == line[i];
  }

  lemma KeyOfPrintedLine(f: Field)
    requires IsToken(f.key)
    ensures var line := PrintField(f);
            KeyLength(line) == |f.key| < |line| && line[|f.key|] == ':' && line[..|f.key|] == f.key &&
              line[|f.key| + 1..] == " " + f.value
  {
    var line := PrintField(f);
    var k := |f.key|;
    assert forall i :: 0 <= i < k ==> line[i] == f.key[i];
    assert line[k] == ':';
    assert KeyLength(line) == k;
  }

  lemma ValueOfPrintedLine(value: string)
    requires IsFieldValue(value)
    ensures SkipSpace(" " + value) == value
  {
    assert (" " + value)[1..] == value;
    assert SkipSpace(value) == value;
  }

  lemma ParseOfPrintedLine(f: Field)
    requires Printable(f)
    ensures ParseLine(PrintField(f)) == Some(f)
  {
    hide PrintField, KeyLength, SkipSpace;
    KeyOfPrintedLine(f);
    ValueOfPrintedLine(f.value);
  }

  predicate IsLineFor(line: string, f: Field, blanks: string) {
    line == f.key + ":" + blanks + f.value && Blanks(blanks)
  }

  lemma {:induction false} SkippedAreBlanks(s: string) returns (blanks: string)
    ensures s == blanks + SkipSpace(s) && Blanks(blanks)
    decreases |s|
  {
    if s != "" && IsSpace(s[0]) {
      var more := SkippedAreBlanks(s[1..]);
      blanks := [s[0]] + more;
    } else {
      blanks := "";
    }
  }

  /** Exactly which lines are header lines, and for which field: a token, a colon, any blanks, a value. */
  lemma ParseLineIff(line: string, f: Field)
    ensures ParseLine(line) == Some(f) <==>
            IsToken(f.key) && IsFieldValue(f.value) && exists blanks :: IsLineFor(line, f, blanks)
  {
    if ParseLine(line) == Some(f) {
      ParseLineAccepts(line);
      var k := KeyLength(line);
      var blanks := SkippedAreBlanks(line[k + 1..]);
      LineInParts(line, k, blanks, f);
    }
    if IsToken(f.key) && IsFieldValue(f.value) {
      forall blanks | IsLineFor(line, f, blanks) ensures ParseLine(line) == Some(f) {
        LineParsed(line, f, blanks);
      }
    }
  }

  lemma LineInParts(line: string, k: nat, blanks: string, f: Field)
    requires k < |line| && line[k] == ':' && line[k + 1..] == blanks + f.value && line[..k] == f.key && Blanks(blanks)
    ensures IsLineFor(line, f, blanks)
  {
    assert line == line[..k] + ":" + line[k + 1..];
  }

  lemma LineParsed(line: string, f: Field, blanks: string)
    requires IsToken(f.key) && IsFieldValue(f.value) && IsLineFor(line, f, blanks)
    ensures ParseLine(line) == Some(f)
  {
    hide SkipSpace, KeyLength, Blanks, IsToken, NoLineBytes;
    Associate(f.key + ":", blanks, f.value);
    SkipsBlanks(blanks, f.value);
    KeyOfLine(line, f.key, blanks + f.value);
  }

  lemma KeyOfLine(line: string, key: string, rest: string)
    requires IsToken(key) && line == key + ":" + rest
    ensures KeyLength(line) == |key| < |line| && |key| > 0 && line[|key|] == ':' && line[..|key|] == key
    ensures line[|key| + 1..] == rest
  {
    assert forall i :: 0 <= i < |key| ==> line[i] == key[i];
    assert line[|key|] == ':';
    assert KeyLength(line) == |key|;
  }

  lemma PrintedLineIsOneLine(f: Field)
    requires Printable(f)
    ensures NoLineBytes(PrintField(f)) && PrintField(f) != "" && !HasLine(PrintField(f))
  {
    var line := PrintField(f);
    forall i | 0 <= i < |line| ensures line[i] != '\r' && line[i] != '\n' {
      if i < |f.key| {
        assert IsKeyByte(f.key[i]) && line[i] == f.key[i];
      } else if i >= |f.key| + 2 {
        assert line[i] == f.value[i - |f.key| - 2];
      }
    }
  }
}
