/** The head of a request: start line, header fields up to the blank line, and the gate that waits for it. */
module RequestHead {
  import opened Text
  import opened BlankLines
  import opened Headers
  import Cookies

  datatype Head = Head(fields: Fields, cookies: map<string, string>)

  /** How the header loop ends: at the empty line, for lack of lines, or at a line that is no header. */
  datatype HeadEnd = AtBlank | NoLine | BadLine

  datatype HeadRead = HeadRead(unread: string, head: Head, end: HeadEnd)

  function AddField(h: Head, f: Field): Head {
    Head(Insert(h.fields, f), if f.key == "Cookie" then Cookies.Parse(f.value, 0, h.cookies) else h.cookies)
  }

  /** The loop of _parseHttpHeaders. */
  function ReadFields(s: string, h: Head): HeadRead
    decreases |s|
  {
    if !HasLine(s) then HeadRead(s, h, NoLine)
    else if FirstLine(s) == "" then HeadRead(AfterLine(s), h, AtBlank)
    else
      match ParseLine(FirstLine(s))
      case None => HeadRead(AfterLine(s), h, BadLine)
      case Some(f) => ReadFields(AfterLine(s), AddField(h, f))
  }

  /** The loop of _parseHttpStartLine: the first line that is not empty, or the bytes left when there is none. */
  datatype StartRead = StartRead(unread: string, line: string)

  function ReadStart(s: string): StartRead
    decreases |s|
  {
    if !HasLine(s) then StartRead(s, "")
    else if FirstLine(s) == "" then ReadStart(AfterLine(s))
    else StartRead(AfterLine(s), FirstLine(s))
  }

  // ---------- later bytes do not matter ----------

  lemma {:induction false} FieldsMore(s: string, t: string, h: Head)
    requires !ReadFields(s, h).end.NoLine?
    ensures ReadFields(s + t, h) == ReadFields(s, h).(unread := ReadFields(s, h).unread + t)
    decreases |s|
  {
    LineOfPrefix(s, t);
    hide HasLine, FirstLine, AfterLine, ParseLine, AddField;
    if FirstLine(s) != "" && ParseLine(FirstLine(s)).Some? {
      FieldsMore(AfterLine(s), t, AddField(h, ParseLine(FirstLine(s)).value));
    }
  }

  lemma {:induction false} StartMore(s: string, t: string)
    requires ReadStart(s).line != ""
    ensures ReadStart(s + t) == ReadStart(s).(unread := ReadStart(s).unread + t)
    decreases |s|
  {
    LineOfPrefix(s, t);
    hide HasLine, FirstLine, AfterLine;
    if FirstLine(s) == "" {
      StartMore(AfterLine(s), t);
    }
  }

  // ---------- where the first blank line is ----------

  /** A CRLF in front moves the first blank line by two, unless it makes one itself. */
  lemma BlankBehindLineEnd(z: string)
    ensures BlankEnd("\r\n" + z, 0) == if |z| >= 2 && z[0] == '\r' && z[1] == '\n' then 3 else 2 + BlankEnd(z, 0)
    ensures HasBlank("\r\n" + z) <==> (|z| >= 2 && z[0] == '\r' && z[1] == '\n') || HasBlank(z)
  {
    var s := "\r\n" + z;
    assert forall i :: 0 < i < |z| ==> (IsLineEnd(s, i + 2) <==> IsLineEnd(z, i));
    assert IsLineEnd(s, 1) && !IsLineEnd(s, 2);
    assert IsBlankEnd(s, 3) <==> |z| >= 2 && z[0] == '\r' && z[1] == '\n';
    assert forall i :: 3 < i < |s| ==> (IsBlankEnd(s, i) <==> IsBlankEnd(z, i - 2));
    if !IsBlankEnd(s, 3) {
      var e := BlankEnd(z, 0);
      assert e < |z| ==> IsBlankEnd(s, e + 2);
      assert forall j :: 0 <= j < e + 2 ==> !IsBlankEnd(s, j);
      var e' := BlankEnd(s, 0);
      assert e' < |s| ==> IsBlankEnd(z, e' - 2);
    }
  }

  lemma LineEndBehindText(l: string, z: string, i: int)
    requires !HasLine(l)
    ensures IsLineEnd(l + ("\r\n" + z), i) <==> i > |l| && IsLineEnd("\r\n" + z, i - |l|)
  {
    var s := l + ("\r\n" + z);
    if 0 <= i < |l| {
      assert !IsLineEnd(l, i) && s[i] == l[i];
    }
  }

  lemma FirstBlankMoves(s: string, y: string, n: nat)
    requires |s| == n + |y|
    requires forall i: int :: IsBlankEnd(s, i) <==> i > n && IsBlankEnd(y, i - n)
    ensures BlankEnd(s, 0) == n + BlankEnd(y, 0)
  {
    var e := BlankEnd(y, 0);
    assert e < |y| ==> e > 0;
    hide IsBlankEnd;
    FirstBlankIs(s, n + e);
  }

  /** Bytes without a line end in front of a CRLF move the first blank line by their number. */
  lemma BlankBehindText(l: string, z: string)
    requires !HasLine(l)
    ensures BlankEnd(l + ("\r\n" + z), 0) == |l| + BlankEnd("\r\n" + z, 0)
    ensures HasBlank(l + ("\r\n" + z)) <==> HasBlank("\r\n" + z)
  {
    hide IsBlankEnd, HasLine, BlankEnd;
    forall i: int ensures IsBlankEnd(l + ("\r\n" + z), i) <==> i > |l| && IsBlankEnd("\r\n" + z, i - |l|) {
      BlankEndBehindText(l, z, i);
    }
    FirstBlankMoves(l + ("\r\n" + z), "\r\n" + z, |l|);
  }

  lemma BlankEndBehindText(l: string, z: string, i: int)
    requires !HasLine(l)
    ensures IsBlankEnd(l + ("\r\n" + z), i) <==> i > |l| && IsBlankEnd("\r\n" + z, i - |l|)
  {
    LineEndBehindText(l, z, i);
    LineEndBehindText(l, z, i - 2);
    hide IsLineEnd, HasLine;
    assert !IsLineEnd("\r\n" + z, 0 - 1) && !IsLineEnd("\r\n" + z, 0) by { BeforeAnyLineEnd("\r\n" + z); }
  }

  lemma BeforeAnyLineEnd(s: string)
    ensures forall i: int {:trigger IsLineEnd(s, i)} :: i <= 0 ==> !IsLineEnd(s, i)
  {
  }

  lemma FirstBlankIs(s: string, e: nat)
    requires e <= |s| && (e < |s| ==> IsBlankEnd(s, e))
    requires forall j :: 0 <= j < e ==> !IsBlankEnd(s, j)
    ensures BlankEnd(s, 0) == e
  {
  }

  /** The bytes behind the first blank line. */
  function AfterBlank(s: string): string
    requires HasBlank(s)
  {
    s[BlankEnd(s, 0) + 1..]
  }

  lemma AfterBlankBehindText(l: string, z: string)
    requires !HasLine(l) && HasBlank("\r\n" + z)
    ensures HasBlank(l + ("\r\n" + z)) && AfterBlank(l + ("\r\n" + z)) == AfterBlank("\r\n" + z)
  {
    BlankBehindText(l, z);
    DropInside(l, "\r\n" + z, BlankEnd("\r\n" + z, 0) + 1);
    hide BlankEnd;
  }

  lemma BlankBehindHeaderLine(line: string, rest: string)
    requires line != "" && !HasLine(line)
    ensures var x := line + "\r\n" + rest;
            && (HasBlank("\r\n" + x) <==> HasBlank("\r\n" + rest))
            && (HasBlank("\r\n" + rest) ==> AfterBlank("\r\n" + x) == AfterBlank("\r\n" + rest))
  {
    var x := line + ("\r\n" + rest);
    assert line + "\r\n" + rest == x;
    FirstTwo(line, rest);
    BlankBehindLineEnd(x);
    BlankBehindText(line, rest);
    hide BlankEnd, HasBlank;
    if HasBlank("\r\n" + rest) {
      DropInside("\r\n" + line, "\r\n" + rest, BlankEnd("\r\n" + rest, 0) + 1);
      assert "\r\n" + x == ("\r\n" + line) + ("\r\n" + rest);
    }
  }

  lemma DropInside(a: string, b: string, k: nat)
    requires k <= |b|
    ensures (a + b)[|a| + k..] == b[k..]
  {
  }

  lemma BlankAtOnce(rest: string)
    ensures HasBlank("\r\n" + ("" + "\r\n" + rest)) && AfterBlank("\r\n" + ("" + "\r\n" + rest)) == rest
  {
    var x := "" + "\r\n" + rest;
    assert x[0] == '\r' && x[1] == '\n';
    BlankBehindLineEnd(x);
    assert ("\r\n" + x)[4..] == rest;
  }

  /**
    The header loop, entered behind a line end, stops at the first blank line when there is one and leaves the bytes
    behind it.
   */
  lemma {:induction false} FieldsEndAtBlank(x: string, h: Head)
    ensures ReadFields(x, h).end.NoLine? ==> !HasBlank("\r\n" + x)
    ensures ReadFields(x, h).end.AtBlank? ==> HasBlank("\r\n" + x) && ReadFields(x, h).unread == AfterBlank("\r\n" + x)
    decreases |x|
  {
    if !HasLine(x) {
      NoLineNoBlank(x);
    } else {
      var line, rest := FirstLine(x), AfterLine(x);
      LineSplits(x);
      hide HasLine, FirstLine, AfterLine, HasBlank, AfterBlank, ParseLine, AddField;
      if line == "" {
        BlankAtOnce(rest);
      } else {
        BlankBehindHeaderLine(line, rest);
        if ParseLine(line).Some? {
          FieldsEndAtBlank(rest, AddField(h, ParseLine(line).value));
        }
      }
    }
  }

  lemma FirstTwo(line: string, rest: string)
    requires line != "" && !HasLine(line)
    ensures var x := line + ("\r\n" + rest); !(x[0] == '\r' && x[1] == '\n')
  {
    if |line| >= 2 { assert !IsLineEnd(line, 1); }
  }

  lemma NoLineNoBlank(x: string)
    requires !HasLine(x)
    ensures !HasBlank("\r\n" + x)
  {
    BlankBehindLineEnd(x);
    assert forall i :: 0 <= i < |x| ==> !IsLineEnd(x, i);
    assert |x| >= 2 ==> !IsLineEnd(x, 1);
  }

  /**
    Header delivery: in a stream that does not open with a blank line, the start line is found, and header reading
    that finds no bad line stops right behind the first blank line.
   */
  lemma HeadEndsAtBlank(s: string, h: Head)
    requires HasBlank(s) && BlankEnd(s, 0) > 3
    ensures ReadStart(s).line != ""
    ensures var r := ReadFields(ReadStart(s).unread, h);
            !r.end.NoLine? &&
            (r.end.AtBlank? ==> r.unread == AfterBlank(s))
  {
    assert IsLineEnd(s, BlankEnd(s, 0));
    LineSplits(s);
    var line, rest := FirstLine(s), AfterLine(s);
    if line == "" {
      assert s == "\r\n" + rest;
      BlankBehindLineEnd(rest);
      NotYetBlank(rest);
      assert AfterBlank(s) == AfterBlank(rest);
    } else {
      StartThenFields(s, h);
    }
    if line == "" {
      StartThenFields(rest, h);
    }
  }

  /** The start line ends before the blank line. */
  lemma StartBeforeBlank(s: string)
    requires HasBlank(s) && BlankEnd(s, 0) > 3
    ensures ReadStart(s).line != "" && |s| - |ReadStart(s).unread| < BlankEnd(s, 0)
  {
    var e := BlankEnd(s, 0);
    assert IsLineEnd(s, e - 2) && !IsBlankEnd(s, 3);
    hide BlankEnd;
    FirstLineBefore(s, e - 2);
    if FirstLine(s) == "" {
      var rest := AfterLine(s);
      EmptyFront(s);
      assert e - 4 > 1 ==> IsLineEnd(rest, e - 4);
      FirstLineBefore(rest, e - 4);
      hide FirstLine, AfterLine, HasLine;
    }
  }

  lemma FirstLineBefore(s: string, e: int)
    requires IsLineEnd(s, e)
    ensures HasLine(s) && |FirstLine(s)| < e && |AfterLine(s)| >= |s| - e - 1
  {
  }

  lemma EmptyFront(s: string)
    requires HasLine(s) && FirstLine(s) == "" && !IsBlankEnd(s, 3)
    ensures |AfterLine(s)| == |s| - 2
    ensures forall i: int {:trigger IsLineEnd(AfterLine(s), i)} :: 1 < i ==>
            (IsLineEnd(AfterLine(s), i) <==> IsLineEnd(s, i + 2))
    ensures HasLine(AfterLine(s)) ==> FirstLine(AfterLine(s)) != ""
  {
    var t := AfterLine(s);
    assert LineEnd(s, 0) == 1 && t == s[2..];
    assert IsLineEnd(t, 1) ==> IsLineEnd(s, 3);
    assert HasLine(t) ==> LineEnd(t, 0) != 1;
  }

  lemma {:induction false} StartConsumes(s: string)
    ensures ReadStart(s).line != "" ==> |ReadStart(s).unread| + 2 < |s|
    decreases |s|
  {
    if HasLine(s) {
      LineSplits(s);
      StartConsumes(AfterLine(s));
    }
  }

  lemma NotYetBlank(rest: string)
    requires HasBlank(rest) && BlankEnd("\r\n" + rest, 0) > 3
    ensures HasLine(rest) && FirstLine(rest) != ""
  {
    assert IsLineEnd(rest, BlankEnd(rest, 0));
    BlankBehindLineEnd(rest);
    LineSplits(rest);
  }

  lemma StartThenFields(s: string, h: Head)
    requires HasLine(s) && FirstLine(s) != "" && HasBlank(s)
    ensures ReadStart(s) == StartRead(AfterLine(s), FirstLine(s))
    ensures var r := ReadFields(AfterLine(s), h); !r.end.NoLine? && (r.end.AtBlank? ==> r.unread == AfterBlank(s))
  {
    var line, rest := FirstLine(s), AfterLine(s);
    LineSplits(s);
    hide ReadFields, HasLine, FirstLine, AfterLine, BlankEnd, AfterBlank, HasBlank;
    assert s == line + ("\r\n" + rest);
    BlankBehindText(line, rest);
    AfterBlankBehindText(line, rest);
    FieldsEndAtBlank(rest, h);
  }

  // ---------- header print and parse ----------

  function AddAll(h: Head, m: Fields): Head
    decreases |m|
  {
    if m == [] then h else AddAll(AddField(h, m[0]), m[1..])
  }

  /** The cookies of a head are those of its Cookie lines, in their order of arrival. */
  lemma {:induction false} AddAllCookies(h: Head, m: Fields)
    ensures AddAll(h, m).cookies == Cookies.ParseAll(Values(m, "Cookie"), h.cookies)
    decreases |m|
  {
    if m != [] {
      AddAllCookies(AddField(h, m[0]), m[1..]);
      if m[0].key == "Cookie" {
        assert ([m[0].value] + Values(m[1..], "Cookie"))[1..] == Values(m[1..], "Cookie");
      }
      hide Cookies.Parse, Insert;
    }
  }

  /** A printed field list and an empty line, read by the header loop. */
  lemma {:induction false} FieldsOfPrinted(m: Fields, rest: string, h: Head)
    requires forall i :: 0 <= i < |m| ==> Printable(m[i])
    ensures ReadFields(PrintFields(m) + "\r\n" + rest, h) == HeadRead(rest, AddAll(h, m), AtBlank)
    decreases |m|
  {
    if m == [] {
      LineOf("", rest);
      assert PrintFields(m) + "\r\n" + rest == "" + "\r\n" + rest;
    } else {
      var f, tail := m[0], PrintFields(m[1..]) + "\r\n" + rest;
      assert PrintFields(m) + "\r\n" + rest == PrintField(f) + "\r\n" + tail;
      hide ReadFields, Printable, PrintField, PrintFields, AddField;
      FieldOfPrinted(f, tail, h);
      FieldsOfPrinted(m[1..], rest, AddField(h, f));
    }
  }

  lemma FieldOfPrinted(f: Field, tail: string, h: Head)
    requires Printable(f)
    ensures ReadFields(PrintField(f) + "\r\n" + tail, h) == ReadFields(tail, AddField(h, f))
  {
    PrintedLineIsOneLine(f);
    LineOf(PrintField(f), tail);
    ParseOfPrintedLine(f);
    assert PrintField(f) != "";
    hide HasLine, FirstLine, AfterLine, ParseLine, PrintField, Printable, AddField;
  }

  lemma {:induction false} AddAllFields(h: Head, m: Fields)
    ensures AddAll(h, m).fields == InsertAll(h.fields, m)
    decreases |m|
  {
    if m != [] {
      AddAllFields(AddField(h, m[0]), m[1..]);
    }
  }

  /** Header round trip: a multimap printed by getHeaderListAsString is rebuilt, order within equal keys included. */
  lemma HeaderRoundTrip(m: Fields, rest: string)
    requires Sorted(m) && forall i :: 0 <= i < |m| ==> Printable(m[i])
    ensures var r := ReadFields(PrintFields(m) + "\r\n" + rest, Head([], map[]));
            r.end.AtBlank? && r.unread == rest && r.head.fields == m
  {
    var empty := Head([], map[]);
    FieldsOfPrinted(m, rest, empty);
    AddAllFields(empty, m);
    assert [] + m == m;
    InsertAllSorted([], m);
  }
}
