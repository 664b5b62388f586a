/** The Cookie header, cut into names and values. */
module Cookies {
  import opened Text

  predicate IsBlank(c: char) {
    c == ' ' || c == '\t' || c == '\r' || c == '\n'
  }

  function TrimLeft(s: string): string {
    if s != "" && IsBlank(s[0]) then TrimLeft(s[1..]) else s
  }

  function TrimRight(s: string): string {
    if s != "" && IsBlank(s[|s| - 1]) then TrimRight(s[..|s| - 1]) else s
  }

  function Trim(s: string): string {
    TrimRight(TrimLeft(s))
  }

  predicate Trimmed(s: string) {
    s != "" ==> !IsBlank(s[0]) && !IsBlank(s[|s| - 1])
  }

  /** A piece without '=' is dropped; a later value replaces an earlier one of the same name. */
  function Store(piece: string, jar: map<string, string>): map<string, string> {
    var e := Find(piece, '=', 0);
    if e == |piece| then jar else jar[Trim(piece[..e]) := Trim(piece[e + 1..])]
  }

  /** What the text from `pos` on adds to `jar`: the pieces between semicolons, from left to right. */
  function Parse(text: string, pos: nat, jar: map<string, string>): map<string, string>
    decreases |text| - pos
  {
    if pos >= |text| then jar
    else
      var k := Find(text, ';', pos);
      Parse(text, k + 1, Store(text[pos..k], jar))
  }

  /** Several Cookie lines, one after the other. */
  function ParseAll(texts: seq<string>, jar: map<string, string>): map<string, string> {
    if texts == [] then jar else ParseAll(texts[1..], Parse(texts[0], 0, jar))
  }

  datatype Cookie = Cookie(name: string, value: string)

  predicate Printable(c: Cookie) {
    && Trimmed(c.name) && Lacks(c.name, ';') && Lacks(c.name, '=')
    && Trimmed(c.value) && Lacks(c.value, ';')
  }

  function Pair(c: Cookie): string {
    c.name + "=" + c.value
  }

  /** The cookie-string of section 4.2.1 of RFC 6265; `lead` goes before the first pair, "; " before the others. */
  function Print(lead: string, cookies: seq<Cookie>): string
    decreases |cookies|
  {
    if cookies == [] then ""
    else if |cookies| == 1 then lead + Pair(cookies[0])
    else (lead + Pair(cookies[0])) + (";" + Print(" ", cookies[1..]))
  }

  function Fill(cookies: seq<Cookie>, jar: map<string, string>): map<string, string> {
    if cookies == [] then jar else Fill(cookies[1..], jar[cookies[0].name := cookies[0].value])
  }

  lemma TrimOfTrimmed(lead: string, s: string)
    requires Trimmed(s) && (lead == "" || lead == " ")
    ensures Trim(lead + s) == s
  {
    assert lead == " " ==> (lead + s)[1..] == s;
    assert lead == "" ==> lead + s == s;
    assert TrimLeft(lead + s) == s;
  }

  lemma PairParts(lead: string, c: Cookie)
    requires Printable(c) && (lead == "" || lead == " ")
    ensures var piece := lead + Pair(c);
            var e := Find(piece, '=', 0);
            e < |piece| && piece[..e] == lead + c.name && piece[e + 1..] == c.value
    ensures Lacks(lead + Pair(c), ';')
  {
    var piece := lead + Pair(c);
    var e := |lead| + |c.name|;
    assert piece[e] == '=';
    assert forall j :: 0 <= j < e ==> piece[j] == (lead + c.name)[j];
    assert Find(piece, '=', 0) == e;
  }

  lemma StoreOfPair(lead: string, c: Cookie, jar: map<string, string>)
    requires Printable(c) && (lead == "" || lead == " ")
    ensures Store(lead + Pair(c), jar) == jar[c.name := c.value]
  {
    hide Pair, Trim, Find;
    PairParts(lead, c);
    TrimOfTrimmed(lead, c.name);
    TrimOfTrimmed("", c.value);
    assert "" + c.value == c.value;
  }

  /** A piece without a semicolon, at the end of the text or closed by one. */
  lemma ParsePiece(text: string, pos: nat, piece: string, jar: map<string, string>)
    requires Lacks(piece, ';') && piece != ""
    requires pos + |piece| <= |text| && text[pos..pos + |piece|] == piece
    requires pos + |piece| == |text| || text[pos + |piece|] == ';'
    ensures Parse(text, pos, jar) == Parse(text, pos + |piece| + 1, Store(piece, jar))
  {
    assert forall j :: pos <= j < pos + |piece| ==> text[j] == piece[j - pos];
    assert Find(text, ';', pos) == pos + |piece|;
    hide Store;
  }

  lemma SplitAt(text: string, pos: nat, front: string, back: string)
    requires pos <= |text| && text[pos..] == front + back
    ensures pos + |front| <= |text| && text[pos..pos + |front|] == front
    ensures text[pos + |front|..] == back
  {
    assert text[pos..][..|front|] == front && text[pos..][|front|..] == back;
  }

  /** The first of several printed cookies is stored and the rest stays to be read. */
  lemma ParseFirst(text: string, pos: nat, lead: string, cookies: seq<Cookie>, jar: map<string, string>)
    requires cookies != [] && Printable(cookies[0])
    requires lead == "" || lead == " "
    requires pos <= |text| && text[pos..] == Print(lead, cookies)
    ensures var next := pos + |lead + Pair(cookies[0])| + 1;
            && Parse(text, pos, jar) == Parse(text, next, jar[cookies[0].name := cookies[0].value])
            && (if |cookies| == 1 then next > |text| else next <= |text| && text[next..] == Print(" ", cookies[1..]))
  {
    hide Store, Pair, Printable, Find, Parse;
    var piece := lead + Pair(cookies[0]);
    var after := if |cookies| == 1 then "" else ";" + Print(" ", cookies[1..]);
    PairParts(lead, cookies[0]);
    StoreOfPair(lead, cookies[0], jar);
    assert Print(lead, cookies) == piece + after;
    SplitAt(text, pos, piece, after);
    assert |cookies| > 1 ==> text[pos + |piece|] == after[0];
    ParsePiece(text, pos, piece, jar);
    if |cookies| > 1 {
      SplitAt(text, pos + |piece|, ";", Print(" ", cookies[1..]));
    }
  }

  lemma {:induction false} ParseOfPrint(text: string, pos: nat, lead: string, cookies: seq<Cookie>,
                                        jar: map<string, string>)
    requires forall i :: 0 <= i < |cookies| ==> Printable(cookies[i])
    requires lead == "" || lead == " "
    requires pos <= |text| && text[pos..] == Print(lead, cookies)
    ensures Parse(text, pos, jar) == Fill(cookies, jar)
    decreases |cookies|
  {
    hide *;
    if cookies == [] {
      NothingPrinted(text, pos, lead, jar);
    } else {
      var next, jar' := pos + |lead + Pair(cookies[0])| + 1, jar[cookies[0].name := cookies[0].value];
      ParseFirst(text, pos, lead, cookies, jar);
      FillFirst(cookies, jar);
      if |cookies| > 1 {
        ParseOfPrint(text, next, " ", cookies[1..], jar');
      } else {
        ParseEnd(text, next, jar');
      }
    }
  }

  lemma NothingPrinted(text: string, pos: nat, lead: string, jar: map<string, string>)
    requires pos <= |text| && text[pos..] == Print(lead, [])
    ensures Parse(text, pos, jar) == Fill([], jar)
  {
  }

  lemma ParseEnd(text: string, pos: nat, jar: map<string, string>)
    requires pos >= |text|
    ensures Parse(text, pos, jar) == jar
  {
  }

  lemma FillFirst(cookies: seq<Cookie>, jar: map<string, string>)
    requires cookies != []
    ensures Fill(cookies, jar) == Fill(cookies[1..], jar[cookies[0].name := cookies[0].value])
    ensures |cookies| == 1 ==> Fill(cookies, jar) == jar[cookies[0].name := cookies[0].value]
  {
  }

  /** Later duplicates win: the jar holds the last value printed for a name, and keeps the names not printed. */
  lemma {:induction false} FillKeepsLast(cookies: seq<Cookie>, jar: map<string, string>, name: string)
    ensures (exists i :: 0 <= i < |cookies| && cookies[i].name == name) ==>
              name in Fill(cookies, jar) &&
              exists i :: 0 <= i < |cookies| && cookies[i].name == name &&
                cookies[i].value == Fill(cookies, jar)[name] &&
                          forall j :: i < j < |cookies| ==> cookies[j].name != name
    ensures (forall i :: 0 <= i < |cookies| ==> cookies[i].name != name) ==>
              (name in Fill(cookies, jar) <==> name in jar) && (name in jar ==> Fill(cookies, jar)[name] == jar[name])
    decreases |cookies|
  {
    if cookies != [] {
      var rest, jar' := cookies[1..], jar[cookies[0].name := cookies[0].value];
      FillKeepsLast(rest, jar', name);
      if i :| 0 <= i < |cookies| && cookies[i].name == name {
        if exists j :: 0 <= j < |rest| && rest[j].name == name {
          var j :| 0 <= j < |rest| && rest[j].name == name && rest[j].value == Fill(rest, jar')[name] &&
                   forall l :: j < l < |rest| ==> rest[l].name != name;
          assert cookies[j + 1] == rest[j];
          assert forall l :: j + 1 < l < |cookies| ==> cookies[l] == rest[l - 1];
        } else {
          assert forall l :: 0 < l < |cookies| ==> cookies[l] == rest[l - 1];
          assert i == 0;
        }
      } else {
        assert forall l :: 0 <= l < |rest| ==> rest[l] == cookies[l + 1];
      }
    }
  }

  predicate DistinctNames(cookies: seq<Cookie>) {
    forall i, j :: 0 <= i < j < |cookies| ==> cookies[i].name != cookies[j].name
  }

  /** `jar` holds exactly the cookies of the list. */
  predicate Holds(jar: map<string, string>, cookies: seq<Cookie>) {
    && (forall i :: 0 <= i < |cookies| ==> cookies[i].name in jar && jar[cookies[i].name] == cookies[i].value)
    && (forall name :: name in jar ==> exists i :: 0 <= i < |cookies| && cookies[i].name == name)
  }

  lemma FillIsMap(cookies: seq<Cookie>, jar: map<string, string>)
    requires DistinctNames(cookies) && Holds(jar, cookies)
    ensures Fill(cookies, map[]) == jar
  {
    var filled := Fill(cookies, map[]);
    hide Fill;
    forall name
      ensures name in filled <==> name in jar
      ensures name in jar ==> filled[name] == jar[name]
    {
      FillKeepsLast(cookies, map[], name);
    }
  }

  /** Cookie round trip: a map of trimmed names and values, printed in any order, is read back as it was. */
  lemma CookieRoundTrip(cookies: seq<Cookie>, jar: map<string, string>)
    requires forall i :: 0 <= i < |cookies| ==> Printable(cookies[i])
    requires DistinctNames(cookies) && Holds(jar, cookies)
    ensures Parse(Print("", cookies), 0, map[]) == jar
  {
    hide *;
    var text := Print("", cookies);
    assert text[0..] == text;
    ParseOfPrint(text, 0, "", cookies, map[]);
    FillIsMap(cookies, jar);
  }

  // ---------- any header, piece by piece ----------

  predicate Blanks(s: string) {
    forall i :: 0 <= i < |s| ==> s[i] in [' ', '\t', '\r', '\n']
  }

  lemma {:induction false} TrimsLeft(a: string, s: string)
    requires Blanks(a) && (s != "" ==> !IsBlank(s[0]))
    ensures TrimLeft(a + s) == s
    decreases |a|
  {
    if a == "" {
      assert "" + s == s;
    } else {
      assert (a + s)[1..] == a[1..] + s;
      TrimsLeft(a[1..], s);
    }
  }

  lemma {:induction false} TrimsRight(s: string, b: string)
    requires Blanks(b) && (s != "" ==> !IsBlank(s[|s| - 1]))
    ensures TrimRight(s + b) == s
    decreases |b|
  {
    if b == "" {
      assert s + "" == s;
    } else {
      var t := s + b;
      assert t[..|t| - 1] == s + b[..|b| - 1] && t[|t| - 1] == b[|b| - 1];
      TrimsRight(s, b[..|b| - 1]);
    }
  }

  /** Trimming takes off the blanks around a text that neither begins nor ends with one. */
  lemma TrimsBoth(a: string, s: string, b: string)
    requires Blanks(a) && Blanks(b) && Trimmed(s)
    ensures Trim(a + s + b) == s
  {
    if s == "" {
      assert a + s + b == (a + b) + "";
      assert Blanks(a + b);
      TrimsLeft(a + b, "");
    } else {
      assert a + s + b == a + (s + b) && (s + b)[0] == s[0];
      TrimsLeft(a, s + b);
      TrimsRight(s, b);
    }
  }

  /** A piece with '=' stores what stands around the first one, trimmed; any other piece stores nothing. */
  lemma StoresPair(a: string, name: string, b: string, c: string, value: string, d: string, jar: map<string, string>)
    requires Blanks(a) && Blanks(b) && Blanks(c) && Blanks(d) && Trimmed(name) && Trimmed(value) && Lacks(name, '=')
    ensures Store(a + name + b + "=" + (c + value + d), jar) == jar[name := value]
  {
    var front, back := a + name + b, c + value + d;
    var piece := front + "=" + back;
    BlanksLack(a, name, b);
    assert piece[|front|] == '=';
    assert forall j :: 0 <= j < |front| ==> piece[j] == front[j];
    assert Find(piece, '=', 0) == |front|;
    assert piece[..|front|] == front && piece[|front| + 1..] == back;
    TrimsBoth(a, name, b);
    TrimsBoth(c, value, d);
    hide Trim, Find;
  }

  lemma BlanksLack(a: string, name: string, b: string)
    requires Blanks(a) && Blanks(b) && Lacks(name, '=')
    ensures Lacks(a + name + b, '=')
  {
    var s := a + name + b;
    forall j | 0 <= j < |s| ensures s[j] != '=' {
      assert s[j] == if j < |a| then a[j] else if j < |a| + |name| then name[j - |a|] else b[j - |a| - |name|];
    }
  }

  lemma StoresNothing(piece: string, jar: map<string, string>)
    requires Lacks(piece, '=')
    ensures Store(piece, jar) == jar
  {
  }

  function StoreAll(pieces: seq<string>, jar: map<string, string>): map<string, string> {
    if pieces == [] then jar else StoreAll(pieces[1..], Store(pieces[0], jar))
  }

  /** Pieces with a semicolon between each two. */
  function Semicolons(pieces: seq<string>): string {
    if pieces == [] then "" else if |pieces| == 1 then pieces[0] else pieces[0] + ";" + Semicolons(pieces[1..])
  }

  /** Any header is read piece by piece, from left to right, the pieces being what stands between the semicolons. */
  lemma {:induction false} PiecesAreStored(text: string, pos: nat, pieces: seq<string>, jar: map<string, string>)
    requires forall i :: 0 <= i < |pieces| ==> Lacks(pieces[i], ';')
    requires pos <= |text| && text[pos..] == Semicolons(pieces)
    ensures Parse(text, pos, jar) == StoreAll(pieces, jar)
    decreases |pieces|
  {
    hide Store, Parse, Lacks;
    if pieces == [] {
      ParseEnd(text, pos, jar);
    } else {
      var piece := pieces[0];
      var after := if |pieces| == 1 then "" else ";" + Semicolons(pieces[1..]);
      assert Semicolons(pieces) == piece + after;
      SplitAt(text, pos, piece, after);
      assert |pieces| > 1 ==> text[pos + |piece|] == after[0];
      OnePiece(text, pos, piece, jar);
      if |pieces| > 1 {
        SplitAt(text, pos + |piece|, ";", Semicolons(pieces[1..]));
        PiecesAreStored(text, pos + |piece| + 1, pieces[1..], Store(piece, jar));
      } else {
        ParseEnd(text, pos + |piece| + 1, Store(piece, jar));
        assert StoreAll(pieces, jar) == StoreAll([], Store(piece, jar));
      }
    }
  }

  lemma OnePiece(text: string, pos: nat, piece: string, jar: map<string, string>)
    requires Lacks(piece, ';') && pos + |piece| <= |text| && text[pos..pos + |piece|] == piece
    requires pos + |piece| == |text| || text[pos + |piece|] == ';'
    ensures Parse(text, pos, jar) == Parse(text, pos + |piece| + 1, Store(piece, jar))
  {
    if piece == "" {
      StoresNothing("", jar);
      hide Store;
    } else {
      ParsePiece(text, pos, piece, jar);
    }
  }
}
