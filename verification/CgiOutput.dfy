/** The output of a CGI program: header lines first, then the body, within a size limit. */
module CgiOutput {
  import opened Text
  import opened Wrappers
  import opened Headers

  const MAX_BODY_SIZE: nat := 100_000_000

  datatype Output = Output(
    readBuffer: string,
    httpBody: string,
    headers: Fields,
    headersComplete: bool,
    hasHeaders: bool,
    tooLarge: bool,
    bodyComplete: bool)

  const START := Output("", "", [], false, false, false, false)

  datatype Line = Line(line: string, rest: string)

  /** _getLineWithCRLF: up to the first LF, without a CR before it; nothing when there is no LF. */
  function TakeLine(s: string): Line {
    var pos := Find(s, '\n', 0);
    if pos == |s| then Line("", s)
    else Line(if pos > 0 && s[pos - 1] == '\r' then s[..pos - 1] else s[..pos], s[pos + 1..])
  }

  /** The header loop: it ends at an empty line, at a bad one, or when no LF is left. */
  function HeaderLoop(c: Output): Output
    decreases |c.readBuffer|
  {
    var l := TakeLine(c.readBuffer);
    if l.line == "" || ParseLine(l.line).None? then c.(readBuffer := l.rest, headersComplete := true)
    else HeaderLoop(c.(readBuffer := l.rest, headers := Insert(c.headers, ParseLine(l.line).value)))
  }

  /** The first line decides whether there are headers; when it is none it is put back, without its line end. */
  function FirstRead(c: Output): Output {
    if c.hasHeaders || Lacks(c.readBuffer, '\n') then HeaderLoop(c)
    else
      var l := TakeLine(c.readBuffer);
      match ParseLine(l.line)
      case None => c.(readBuffer := l.line + l.rest, headersComplete := true)
      case Some(f) => HeaderLoop(c.(readBuffer := l.rest, headers := Insert(c.headers, f), hasHeaders := true))
  }

  function Limited(c: Output, data: string): Output {
    if |c.readBuffer + data| + |c.httpBody| > MAX_BODY_SIZE then c.(readBuffer := "", httpBody := "", tooLarge := true)
    else c.(readBuffer := c.readBuffer + data)
  }

  /** _cgiReadCb with the bytes of one read; None is the callback after the end of the pipe was seen. */
  function OnRead(c: Output, data: Option<string>): Output {
    if data.None? then c.(bodyComplete := true)
    else
      var c1 := Limited(c, data.value);
      if c1.headersComplete then c1.(httpBody := c1.httpBody + c1.readBuffer, readBuffer := "") else FirstRead(c1)
  }

  function AfterReads(c: Output, pieces: seq<string>): Output
    decreases |pieces|
  {
    if pieces == [] then c else AfterReads(OnRead(c, Some(pieces[0])), pieces[1..])
  }

  // ---------- the limit ----------

  lemma {:induction false} HeaderLoopShrinks(c: Output)
    ensures |HeaderLoop(c).readBuffer| <= |c.readBuffer| && HeaderLoop(c).httpBody == c.httpBody
    ensures HeaderLoop(c).tooLarge == c.tooLarge && HeaderLoop(c).headersComplete
    decreases |c.readBuffer|
  {
    var l := TakeLine(c.readBuffer);
    if l.line != "" && ParseLine(l.line).Some? {
      HeaderLoopShrinks(c.(readBuffer := l.rest, headers := Insert(c.headers, ParseLine(l.line).value)));
    }
  }

  lemma FirstReadShrinks(c: Output)
    ensures |FirstRead(c).readBuffer| <= |c.readBuffer| && FirstRead(c).httpBody == c.httpBody
    ensures FirstRead(c).tooLarge == c.tooLarge && FirstRead(c).headersComplete
  {
    var l := TakeLine(c.readBuffer);
    HeaderLoopShrinks(c);
    if ParseLine(l.line).Some? {
      HeaderLoopShrinks(c.(readBuffer := l.rest, headers := Insert(c.headers, ParseLine(l.line).value),
        hasHeaders := true));
    }
    hide HeaderLoop, ParseLine, Insert;
  }

  /** Both buffers together stay within the limit, whatever the program prints. */
  lemma OutputStaysWithin(c: Output, data: Option<string>)
    requires |c.readBuffer| + |c.httpBody| <= MAX_BODY_SIZE
    ensures |OnRead(c, data).readBuffer| + |OnRead(c, data).httpBody| <= MAX_BODY_SIZE
  {
    hide FirstRead;
    if data.Some? {
      FirstReadShrinks(Limited(c, data.value));
    }
  }

  /** A read that would exceed the limit gives up all that was there, itself included; no other read does. */
  lemma ExceededIsGivenUp(c: Output, data: string)
    requires |c.readBuffer| + |c.httpBody| <= MAX_BODY_SIZE && !c.tooLarge
    ensures var r, exceeds := OnRead(c, Some(data)), |c.readBuffer| + |data| + |c.httpBody| > MAX_BODY_SIZE;
            (r.tooLarge <==> exceeds) && (exceeds ==> r.readBuffer == "" && r.httpBody == "")
  {
    FirstReadShrinks(Limited(c, data));
    hide FirstRead;
  }

  // ---------- a first read that holds all header lines ----------

  lemma TakePrintedLine(line: string, rest: string)
    requires NoLineBytes(line)
    ensures TakeLine(line + "\r\n" + rest) == Line(line, rest)
  {
    var s := line + "\r\n" + rest;
    assert forall i :: 0 <= i < |line| ==> s[i] == line[i];
    assert s[|line|] == '\r' && s[|line| + 1] == '\n';
    assert Find(s, '\n', 0) == |line| + 1;
  }

  lemma {:induction false} LoopOfPrinted(m: Fields, rest: string, c: Output)
    requires forall i :: 0 <= i < |m| ==> Printable(m[i])
    requires c.readBuffer == PrintFields(m) + "\r\n" + rest
    ensures HeaderLoop(c) == c.(readBuffer := rest, headersComplete := true, headers := InsertAll(c.headers, m))
    decreases |m|
  {
    if m == [] {
      TakePrintedLine("", rest);
      assert c.readBuffer == "" + "\r\n" + rest;
    } else {
      var tail := PrintFields(m[1..]) + "\r\n" + rest;
      FirstPrintedLine(m, rest);
      hide TakeLine, ParseLine, PrintFields, PrintField, Printable;
      LoopOfPrinted(m[1..], rest, c.(readBuffer := tail, headers := Insert(c.headers, m[0])));
    }
  }

  lemma FirstPrintedLine(m: Fields, rest: string)
    requires m != [] && Printable(m[0])
    ensures var s := PrintFields(m) + "\r\n" + rest;
            && TakeLine(s) == Line(PrintField(m[0]), PrintFields(m[1..]) + "\r\n" + rest)
            && ParseLine(PrintField(m[0])) == Some(m[0]) && PrintField(m[0]) != "" && !Lacks(s, '\n')
  {
    PrintedLineIsOneLine(m[0]);
    ParseOfPrintedLine(m[0]);
    assert PrintFields(m) == PrintField(m[0]) + "\r\n" + PrintFields(m[1..]);
    assert PrintField(m[0]) != "";
    hide PrintField, PrintFields, TakeLine, ParseLine, Printable, Lacks;
    Front(PrintField(m[0]), PrintFields(m[1..]), rest);
    TakePrintedLine(PrintField(m[0]), PrintFields(m[1..]) + "\r\n" + rest);
    HasALine(PrintField(m[0]), PrintFields(m[1..]) + "\r\n" + rest);
  }

  lemma Front(line: string, more: string, rest: string)
    ensures line + "\r\n" + more + "\r\n" + rest == line + "\r\n" + (more + "\r\n" + rest)
  {
  }

  lemma HasALine(line: string, rest: string)
    ensures !Lacks(line + "\r\n" + rest, '\n')
  {
    assert (line + "\r\n" + rest)[|line| + 1] == '\n';
  }

  /** Later reads go to the body, byte for byte, exactly as long as the limit is kept. */
  lemma {:induction false} BodyReads(c: Output, pieces: seq<string>)
    requires c.headersComplete && !c.tooLarge && |c.readBuffer| + |c.httpBody| <= MAX_BODY_SIZE && pieces != []
    ensures var total := |c.readBuffer| + |c.httpBody| + |Join(pieces)|;
            && (AfterReads(c, pieces).tooLarge <==> total > MAX_BODY_SIZE)
            && (total <= MAX_BODY_SIZE ==>
              AfterReads(c, pieces) == c.(httpBody := c.httpBody + c.readBuffer + Join(pieces), readBuffer := ""))
    decreases |pieces|
  {
    var c1 := OnRead(c, Some(pieces[0]));
    assert AfterReads(c, pieces) == AfterReads(c1, pieces[1..]);
    assert Join(pieces) == pieces[0] + Join(pieces[1..]);
    if c1.tooLarge {
      TooLargeStays(c1, pieces[1..]);
    } else {
      assert c1 == c.(httpBody := c.httpBody + (c.readBuffer + pieces[0]), readBuffer := "");
      ThreeParts(c.httpBody, c.readBuffer, pieces[0], Join(pieces[1..]));
      hide OnRead;
      if pieces[1..] == [] {
        assert Join(pieces[1..]) == "";
      } else {
        BodyReads(c1, pieces[1..]);
      }
    }
  }

  lemma ThreeParts(a: string, b: string, c: string, d: string)
    ensures a + (b + c) + "" + d == a + b + (c + d) && a + (b + c) + d == a + b + (c + d)
  {
  }

  lemma {:induction false} TooLargeStays(c: Output, pieces: seq<string>)
    requires c.tooLarge
    ensures AfterReads(c, pieces).tooLarge
    decreases |pieces|
  {
    if pieces != [] {
      FirstReadShrinks(Limited(c, pieces[0]));
      hide FirstRead;
      TooLargeStays(OnRead(c, Some(pieces[0])), pieces[1..]);
    }
  }

  /**
    A program that prints header lines, an empty line and a body, the head arriving in the first read: after the other
    reads, the empty one at the end of the pipe among them, headers and body are what was printed, exactly when the
    limit allows.
   */
  lemma OutputReadBack(m: Fields, rest: string, pieces: seq<string>)
    requires m != [] && Sorted(m) && (forall i :: 0 <= i < |m| ==> Printable(m[i])) && pieces != []
    requires |PrintFields(m) + "\r\n" + rest| <= MAX_BODY_SIZE
    ensures var c := AfterReads(START, [PrintFields(m) + "\r\n" + rest] + pieces);
            && (c.tooLarge <==> |rest| + |Join(pieces)| > MAX_BODY_SIZE)
            && (!c.tooLarge ==> c.headers == m && c.httpBody == rest + Join(pieces) && c.readBuffer == "")
  {
    var first := PrintFields(m) + "\r\n" + rest;
    var c1 := OnRead(START, Some(first));
    FirstReadOfPrinted(m, rest);
    hide OnRead, PrintFields;
    assert ([first] + pieces)[1..] == pieces;
    BodyReads(c1, pieces);
    assert "" + rest == rest;
  }

  lemma FirstReadOfPrinted(m: Fields, rest: string)
    requires m != [] && Sorted(m) && (forall i :: 0 <= i < |m| ==> Printable(m[i]))
    requires |PrintFields(m) + "\r\n" + rest| <= MAX_BODY_SIZE
    ensures OnRead(START, Some(PrintFields(m) + "\r\n" + rest)) ==
            START.(readBuffer := rest, headers := m, hasHeaders := true, headersComplete := true)
  {
    var first := PrintFields(m) + "\r\n" + rest;
    assert "" + first == first;
    var c := START.(readBuffer := PrintFields(m[1..]) + "\r\n" + rest, headers := Insert([], m[0]), hasHeaders := true);
    FirstHeaderTaken(m, rest);
    hide HeaderLoop, PrintFields, PrintField, TakeLine, ParseLine, Insert, FirstRead, Printable;
    assert forall i :: 0 <= i < |m[1..]| ==> m[1..][i] == m[i + 1];
    LoopOfPrinted(m[1..], rest, c);
    InsertedInTurn(m);
  }

  lemma FirstHeaderTaken(m: Fields, rest: string)
    requires m != [] && Printable(m[0])
    ensures FirstRead(START.(readBuffer := PrintFields(m) + "\r\n" + rest))
         == HeaderLoop(START.(readBuffer := PrintFields(m[1..]) + "\r\n" + rest, headers := Insert([], m[0]),
           hasHeaders := true))
  {
    FirstPrintedLine(m, rest);
    hide HeaderLoop, PrintFields, PrintField, TakeLine, ParseLine, Insert, Printable;
  }

  lemma InsertedInTurn(m: Fields)
    requires m != [] && Sorted(m)
    ensures InsertAll(Insert([], m[0]), m[1..]) == m
  {
    assert [] + m == m;
    InsertAllSorted([], m);
    hide Insert;
  }

  // ---------- a first read that cuts the head ----------

  lemma NoLineTaken(part: string)
    requires Lacks(part, '\n')
    ensures TakeLine(part) == Line("", part)
  {
  }

  lemma {:induction false} LoopOfFront(m: Fields, part: string, c: Output)
    requires (forall i :: 0 <= i < |m| ==> Printable(m[i])) && Lacks(part, '\n')
    requires c.readBuffer == PrintFields(m) + part
    ensures HeaderLoop(c) == c.(readBuffer := part, headersComplete := true, headers := InsertAll(c.headers, m))
    decreases |m|
  {
    if m == [] {
      NoLineTaken(part);
      assert c.readBuffer == part;
    } else {
      FirstFrontLine(m, part);
      hide TakeLine, ParseLine, PrintFields, PrintField, Printable;
      LoopOfFront(m[1..], part, c.(readBuffer := PrintFields(m[1..]) + part, headers := Insert(c.headers, m[0])));
    }
  }

  lemma FirstFrontLine(m: Fields, part: string)
    requires m != [] && Printable(m[0])
    ensures var s := PrintFields(m) + part;
            && TakeLine(s) == Line(PrintField(m[0]), PrintFields(m[1..]) + part)
            && ParseLine(PrintField(m[0])) == Some(m[0]) && PrintField(m[0]) != "" && !Lacks(s, '\n')
  {
    var line, rest := PrintField(m[0]), PrintFields(m[1..]) + part;
    assert PrintFields(m) == line + "\r\n" + PrintFields(m[1..]);
    hide PrintField, PrintFields, TakeLine, ParseLine, Printable, Lacks;
    Associate(line + "\r\n", PrintFields(m[1..]), part);
    PrintedLineIsOneLine(m[0]);
    ParseOfPrintedLine(m[0]);
    TakePrintedLine(line, rest);
    HasALine(line, rest);
  }

  /** The header lines that the first read holds in full are the headers; what it holds behind them is body. */
  lemma FirstReadOfFront(m: Fields, part: string)
    requires (forall i :: 0 <= i < |m| ==> Printable(m[i])) && Lacks(part, '\n')
    requires |PrintFields(m) + part| <= MAX_BODY_SIZE
    ensures var c := OnRead(START, Some(PrintFields(m) + part));
            && c.readBuffer == part && c.headers == InsertAll([], m) && c.headersComplete && !c.tooLarge
            && c.httpBody == "" && !c.bodyComplete
  {
    hide HeaderLoop, PrintFields, PrintField, TakeLine, ParseLine, Insert, Printable, Lacks, OnRead;
    var first := PrintFields(m) + part;
    OpeningRead(first);
    var c := START.(readBuffer := first);
    if m == [] {
      assert first == part by { NothingPrinted(part); }
      LoopOfFront(m, part, c);
    } else {
      FirstFrontLine(m, part);
      LoopOfFront(m[1..], part, c.(readBuffer := PrintFields(m[1..]) + part, headers := Insert([], m[0]),
        hasHeaders := true));
    }
  }

  lemma NothingPrinted(part: string)
    ensures PrintFields([]) + part == part
  {
  }

  lemma OpeningRead(first: string)
    requires |first| <= MAX_BODY_SIZE
    ensures OnRead(START, Some(first)) == FirstRead(START.(readBuffer := first))
  {
    assert "" + first == first;
    hide FirstRead;
  }

  /** A front of printed lines: some lines in full, and a part without LF. */
  lemma {:induction false} FrontOfPrinted(m: Fields, first: string, n: nat) returns (k: nat, part: string)
    requires forall i :: 0 <= i < |m| ==> Printable(m[i])
    requires n < |PrintFields(m)| + 2 && first == (PrintFields(m) + "\r\n")[..n]
    ensures k <= |m| && Lacks(part, '\n') && first == PrintFields(m[..k]) + part
    ensures |PrintFields(m[..k])| <= |PrintFields(m)|
    decreases |m|
  {
    if m == [] {
      k, part := 0, first;
      assert PrintFields(m) + "\r\n" == "\r\n" && PrintFields(m[..0]) == "";
    } else {
      var line := PrintField(m[0]) + "\r\n";
      PrintedLineIsOneLine(m[0]);
      assert PrintFields(m) + "\r\n" == line + (PrintFields(m[1..]) + "\r\n");
      if n < |line| {
        k, part := 0, first;
        assert m[..0] == [] && first == line[..n] && PrintFields(m[..0]) == "";
        NoFeedInside(PrintField(m[0]), n);
      } else {
        var k', part' := FrontOfPrinted(m[1..], (PrintFields(m[1..]) + "\r\n")[..n - |line|], n - |line|);
        k, part := k' + 1, part';
        assert m[..k][0] == m[0] && m[..k][1..] == m[1..][..k'];
        assert PrintFields(m[..k]) == line + PrintFields(m[1..][..k']);
      }
    }
  }

  lemma NoFeedInside(line: string, n: nat)
    requires NoLineBytes(line) && n < |line| + 2
    ensures Lacks((line + "\r\n")[..n], '\n')
  {
  }

  /**
    Exactly when the output of a program with header lines comes out right: when the first read holds all of them and
    the empty line behind them. Otherwise what is left of the head is taken for body.
   */
  lemma OutputReadBackIff(m: Fields, rest: string, first: string, pieces: seq<string>)
    requires m != [] && Sorted(m) && (forall i :: 0 <= i < |m| ==> Printable(m[i])) && pieces != []
    requires first + Join(pieces) == PrintFields(m) + "\r\n" + rest
    requires |PrintFields(m) + "\r\n" + rest| <= MAX_BODY_SIZE
    ensures var c := AfterReads(START, [first] + pieces);
            c.headers == m && c.httpBody == rest && c.readBuffer == "" <==> |first| >= |PrintFields(m)| + 2
  {
    hide PrintFields, AfterReads, Printable, Sorted, Join;
    var head := PrintFields(m) + "\r\n";
    if |first| >= |head| {
      BehindTwo(head, rest, first, Join(pieces));
      OutputReadBack(m, first[|head|..], pieces);
    } else {
      CutHeadIsBody(m, rest, first, pieces);
    }
  }

  lemma BehindTwo(a: string, b: string, c: string, d: string)
    requires a + b == c + d && |c| >= |a|
    ensures c == a + c[|a|..] && b == c[|a|..] + d
  {
    assert c[..|a|] == (c + d)[..|a|] == a;
    assert b == (c + d)[|a|..];
  }

  lemma CutHeadIsBody(m: Fields, rest: string, first: string, pieces: seq<string>)
    requires (forall i :: 0 <= i < |m| ==> Printable(m[i])) && pieces != []
    requires first + Join(pieces) == PrintFields(m) + "\r\n" + rest && |first| < |PrintFields(m)| + 2
    requires |PrintFields(m) + "\r\n" + rest| <= MAX_BODY_SIZE
    ensures var c := AfterReads(START, [first] + pieces); |c.httpBody| > |rest| && c.readBuffer == ""
  {
    hide PrintFields, Lacks, Printable, OnRead, Join;
    FrontOfTwo(PrintFields(m) + "\r\n", rest, first, Join(pieces));
    var k, part := FrontOfPrinted(m, first, |first|);
    FirstReadOfFront(m[..k], part);
    var c1 := OnRead(START, Some(first));
    assert ([first] + pieces)[1..] == pieces;
    BodyReads(c1, pieces);
    assert AfterReads(START, [first] + pieces) == AfterReads(c1, pieces);
  }

  lemma FrontOfTwo(a: string, b: string, c: string, d: string)
    requires a + b == c + d && |c| <= |a|
    ensures c == a[..|c|]
  {
    assert c == (c + d)[..|c|];
  }

  /** A line that is no header, behind header lines, ends them and is lost. */
  lemma {:induction false} BadLineIsLost(m: Fields, bad: string, rest: string, c: Output)
    requires forall i :: 0 <= i < |m| ==> Printable(m[i])
    requires NoLineBytes(bad) && ParseLine(bad).None? && c.readBuffer == PrintFields(m) + (bad + "\r\n" + rest)
    ensures HeaderLoop(c) == c.(readBuffer := rest, headersComplete := true, headers := InsertAll(c.headers, m))
    decreases |m|
  {
    var end := bad + "\r\n" + rest;
    if m == [] {
      TakePrintedLine(bad, rest);
      assert c.readBuffer == end;
    } else {
      FirstFrontLine(m, end);
      hide TakeLine, ParseLine, PrintFields, PrintField, Printable;
      BadLineIsLost(m[1..], bad, rest, c.(readBuffer := PrintFields(m[1..]) + end, headers := Insert(c.headers, m[0])));
    }
  }

  /** A line may end in an LF alone. */
  lemma TakesUnixLine(line: string, rest: string)
    requires Lacks(line, '\n') && (line != "" ==> line[|line| - 1] != '\r')
    ensures TakeLine(line + "\n" + rest) == Line(line, rest)
  {
    var s := line + "\n" + rest;
    assert forall i :: 0 <= i < |line| ==> s[i] == line[i];
    assert s[|line|] == '\n';
    assert Find(s, '\n', 0) == |line|;
  }

  // ---------- the end of the output ----------

  /** All callbacks of a program: reads, and None for those behind the end of the pipe. */
  function AfterCallbacks(c: Output, data: seq<Option<string>>): Output
    decreases |data|
  {
    if data == [] then c else AfterCallbacks(OnRead(c, data[0]), data[1..])
  }

  function ReadsOf(data: seq<Option<string>>): seq<string> {
    if data == [] then [] else (if data[0].Some? then [data[0].value] else []) + ReadsOf(data[1..])
  }

  lemma ReadKeepsComplete(c: Output, data: string, complete: bool)
    ensures OnRead(c, Some(data)).bodyComplete == c.bodyComplete
    ensures OnRead(c.(bodyComplete := complete), Some(data)) == OnRead(c, Some(data)).(bodyComplete := complete)
  {
    FirstReadKeepsComplete(Limited(c, data), complete);
    hide FirstRead;
  }

  lemma FirstReadKeepsComplete(c: Output, complete: bool)
    ensures FirstRead(c).bodyComplete == c.bodyComplete
    ensures FirstRead(c.(bodyComplete := complete)) == FirstRead(c).(bodyComplete := complete)
  {
    LoopKeepsComplete(c, complete);
    var l := TakeLine(c.readBuffer);
    if ParseLine(l.line).Some? {
      LoopKeepsComplete(c.(readBuffer := l.rest, headers := Insert(c.headers, ParseLine(l.line).value),
        hasHeaders := true), complete);
    }
    hide HeaderLoop, TakeLine, ParseLine, Insert, Lacks;
  }

  lemma {:induction false} LoopKeepsComplete(c: Output, complete: bool)
    ensures HeaderLoop(c).bodyComplete == c.bodyComplete
    ensures HeaderLoop(c.(bodyComplete := complete)) == HeaderLoop(c).(bodyComplete := complete)
    decreases |c.readBuffer|
  {
    var l := TakeLine(c.readBuffer);
    if l.line != "" && ParseLine(l.line).Some? {
      TakeLineShrinks(c.readBuffer);
      hide TakeLine, ParseLine, Insert;
      LoopKeepsComplete(c.(readBuffer := l.rest, headers := Insert(c.headers, ParseLine(l.line).value)), complete);
    }
  }

  /** The output is complete exactly when the end of the pipe has been seen, which changes nothing else. */
  lemma {:induction false} CompleteIffEndSeen(c: Output, data: seq<Option<string>>)
    ensures AfterCallbacks(c, data) ==
            AfterReads(c, ReadsOf(data)).(bodyComplete := c.bodyComplete || None in data)
    decreases |data|
  {
    if data != [] {
      var more := data[1..];
      assert None in data <==> data[0] == None || None in more;
      hide OnRead;
      CompleteIffEndSeen(OnRead(c, data[0]), more);
      if data[0].Some? {
        ReadKeepsComplete(c, data[0].value, true);
        assert ([data[0].value] + ReadsOf(more))[1..] == ReadsOf(more);
      } else {
        EndSeen(c);
        ReadsKeepComplete(c, ReadsOf(more), true);
        assert [] + ReadsOf(more) == ReadsOf(more);
      }
    } else {
      ReadsKeepComplete(c, [], c.bodyComplete);
    }
  }

  lemma EndSeen(c: Output)
    ensures OnRead(c, None) == c.(bodyComplete := true)
  {
  }

  lemma {:induction false} ReadsKeepComplete(c: Output, pieces: seq<string>, complete: bool)
    ensures AfterReads(c, pieces).bodyComplete == c.bodyComplete
    ensures AfterReads(c.(bodyComplete := complete), pieces) == AfterReads(c, pieces).(bodyComplete := complete)
    decreases |pieces|
  {
    if pieces != [] {
      ReadKeepsComplete(c, pieces[0], complete);
      hide OnRead;
      ReadsKeepComplete(OnRead(c, Some(pieces[0])), pieces[1..], complete);
    }
  }

  /** Output whose first line is no header keeps all its bytes exactly when its first read holds no line end. */
  lemma KeptIffNoLineEnd(c: Output, data: string)
    requires c.readBuffer == "" && !c.headersComplete && !c.hasHeaders && |data| + |c.httpBody| <= MAX_BODY_SIZE
    requires ParseLine(TakeLine(data).line).None?
    ensures OnRead(c, Some(data)).readBuffer == data <==> Lacks(data, '\n')
  {
    assert "" + data == data;
    var c1 := c.(readBuffer := data);
    assert OnRead(c, Some(data)) == FirstRead(c1);
    var l := TakeLine(data);
    LineTaken(data);
    hide TakeLine, ParseLine, OnRead;
    if Lacks(data, '\n') {
      assert HeaderLoop(c1).readBuffer == l.rest;
    } else {
      assert |FirstRead(c1).readBuffer| == |l.line| + |l.rest|;
    }
  }

  /** The input: two lines come out as one. */
  lemma LosesLineEnd()
    ensures OnRead(START, Some("a\nb")).readBuffer == "ab"
  {
    var text := "a\nb";
    assert "" + text == text && "a" + "b" == "ab";
    assert Find(text, '\n', 0) == 1 && text[..1] == "a" && text[2..] == "b";
    assert TakeLine(text) == Line("a", "b");
    assert KeyLength("a") == 1;
  }

  lemma LineTaken(s: string)
    ensures if Lacks(s, '\n') then TakeLine(s) == Line("", s) else |TakeLine(s).line| + |TakeLine(s).rest| < |s|
  {
    var pos := Find(s, '\n', 0);
    if !Lacks(s, '\n') {
      assert pos < |s|;
    }
  }

  class CgiMessage {
    var output: Output

    constructor ()
      ensures output == START
    {
      output := START;
    }

    method ReadCb(data: Option<string>)
      modifies this
      ensures output == OnRead(old(output), data)
    {
      if data.None? {
        output := output.(bodyComplete := true);
        return;
      }
      output := output.(readBuffer := output.readBuffer + data.value);
      if |output.readBuffer| + |output.httpBody| > MAX_BODY_SIZE {
        output := output.(readBuffer := "", httpBody := "", tooLarge := true);
      }
      if output.headersComplete {
        output := output.(httpBody := output.httpBody + output.readBuffer, readBuffer := "");
        return;
      }
      if !output.hasHeaders && !Lacks(output.readBuffer, '\n') {
        var l := TakeLine(output.readBuffer);
        var field := ParseLine(l.line);
        if field.None? {
          output := output.(readBuffer := l.line + l.rest, headersComplete := true);
          return;
        }
        output := output.(readBuffer := l.rest, headers := Insert(output.headers, field.value), hasHeaders := true);
      }
      ReadHeaders();
    }

    method ReadHeaders()
      modifies this
      ensures output == HeaderLoop(old(output))
    {
      hide TakeLine, ParseLine, Insert;
      ghost var goal := HeaderLoop(output);
      var l := TakeLine(output.readBuffer);
      while l.line != ""
        invariant l == TakeLine(output.readBuffer) && HeaderLoop(output) == goal
        decreases |output.readBuffer|
      {
        TakeLineShrinks(output.readBuffer);
        var field := ParseLine(l.line);
        if field.None? {
          output := output.(readBuffer := l.rest, headersComplete := true);
          return;
        }
        output := output.(readBuffer := l.rest, headers := Insert(output.headers, field.value));
        l := TakeLine(output.readBuffer);
      }
      output := output.(readBuffer := l.rest, headersComplete := true);
    }
  }

  lemma TakeLineShrinks(s: string)
    ensures TakeLine(s).line != "" ==> |TakeLine(s).rest| < |s|
  {
  }
}
