/** Encoded chunk streams seen from outside: the decoder of the standard, and the newline automaton reading them. */
module ChunkedStreams {
  import opened Text
  import opened Wrappers
  import opened Numbers
  import opened NewlineScan
  import opened ChunkedCoding

  datatype Decoded = Decoded(body: string, rest: string)

  /** The decoding of section 7.1.3 of RFC 9112, by counting bytes. As in the server, a size ends at its first
    non-digit, so that a chunk extension is passed over; trailer fields are not accepted. */
  function CountingDecode(s: string): Option<Decoded>
    decreases |s|
  {
    if !HasLine(s) || Stoi(FirstLine(s), 16).None? || Stoi(FirstLine(s), 16).value < 0 then None
    else
      var n: nat := Stoi(FirstLine(s), 16).value;
      var t := AfterLine(s);
      if n + 2 > |t| || t[n..n + 2] != "\r\n" then None
      else if n == 0 then Some(Decoded("", t[2..]))
      else
        match CountingDecode(t[n + 2..])
        case None => None
        case Some(more) => Some(Decoded(t[..n] + more.body, more.rest))
  }

  lemma ChunkFront(data: string, rest: string)
    requires |data| < INT_LIMIT
    ensures var s := Chunk(data) + rest;
            && HasLine(s) && Stoi(FirstLine(s), 16) == Some(|data|) && AfterLine(s) == data + "\r\n" + rest
  {
    var hex := Print(|data|, 16);
    PrintIsOneLine(|data|);
    StoiOfPrint(|data|, 16);
    LineOf(hex, data + "\r\n" + rest);
    assert Chunk(data) + rest == hex + "\r\n" + (data + "\r\n" + rest);
    hide HasLine, FirstLine, AfterLine, Print, Stoi, Chunk;
  }

  lemma DataFront(data: string, rest: string)
    ensures var t := data + "\r\n" + rest;
            |data| + 2 <= |t| && t[..|data|] == data && t[|data|..|data| + 2] == "\r\n" && t[|data| + 2..] == rest
  {
  }

  lemma CountStep(s: string, t: string, n: nat)
    requires HasLine(s) && Stoi(FirstLine(s), 16) == Some(n) && AfterLine(s) == t
    requires n + 2 <= |t| && t[n..n + 2] == "\r\n"
    ensures n == 0 ==> CountingDecode(s) == Some(Decoded("", t[2..]))
    ensures n > 0 && CountingDecode(t[n + 2..]).None? ==> CountingDecode(s).None?
    ensures n > 0 && CountingDecode(t[n + 2..]).Some? ==>
              var more := CountingDecode(t[n + 2..]).value;
              CountingDecode(s) == Some(Decoded(t[..n] + more.body, more.rest))
  {
    hide HasLine, FirstLine, AfterLine, Stoi;
  }

  /** One chunk, counted. */
  lemma CountChunk(data: string, rest: string)
    requires |data| < INT_LIMIT
    ensures CountingDecode(Chunk(data) + rest) ==
            if data == "" then Some(Decoded("", rest))
            else if CountingDecode(rest).None? then None
            else Some(Decoded(data + CountingDecode(rest).value.body, CountingDecode(rest).value.rest))
  {
    hide CountingDecode, HasLine, FirstLine, AfterLine, Chunk, Stoi;
    ChunkFront(data, rest);
    DataFront(data, rest);
    CountStep(Chunk(data) + rest, data + "\r\n" + rest, |data|);
  }

  /**
    Whatever the chunks hold, CRLF included, a decoder that counts bytes gets their concatenation and every later
    byte.
   */
  lemma {:induction false} CountingRoundTrip(chunks: seq<string>, rest: string)
    requires forall i :: 0 <= i < |chunks| ==> chunks[i] != "" && |chunks[i]| < INT_LIMIT
    ensures CountingDecode(Encode(chunks) + Chunk("") + rest) == Some(Decoded(Join(chunks), rest))
    decreases |chunks|
  {
    if chunks == [] {
      assert Encode(chunks) + Chunk("") + rest == Chunk("") + rest;
      CountChunk("", rest);
    } else {
      var c, tail := chunks[0], Encode(chunks[1..]) + Chunk("") + rest;
      assert Encode(chunks) + Chunk("") + rest == Chunk(c) + tail;
      CountingRoundTrip(chunks[1..], rest);
      CountChunk(c, tail);
      hide CountingDecode, Chunk, Encode;
    }
  }

  /** The data of the complete chunks at the front of a stream that is still under way. */
  function DecodedSoFar(s: string): string
    decreases |s|
  {
    if !HasLine(s) || Stoi(FirstLine(s), 16).None? || Stoi(FirstLine(s), 16).value <= 0 then ""
    else
      var n: nat := Stoi(FirstLine(s), 16).value;
      var t := AfterLine(s);
      if n + 2 > |t| || t[n..n + 2] != "\r\n" then "" else t[..n] + DecodedSoFar(t[n + 2..])
  }

  lemma SoFarStep(s: string, t: string, n: nat)
    requires HasLine(s) && Stoi(FirstLine(s), 16) == Some(n) && AfterLine(s) == t
    requires 0 < n && n + 2 <= |t| && t[n..n + 2] == "\r\n"
    ensures DecodedSoFar(s) == t[..n] + DecodedSoFar(t[n + 2..])
  {
    hide HasLine, FirstLine, AfterLine, Stoi;
  }

  /** Of whole chunks, all data has been decoded. */
  lemma {:induction false} SoFarOfEncoded(chunks: seq<string>)
    requires forall i :: 0 <= i < |chunks| ==> chunks[i] != "" && |chunks[i]| < INT_LIMIT
    ensures DecodedSoFar(Encode(chunks)) == Join(chunks)
    decreases |chunks|
  {
    if chunks == [] {
      assert !HasLine("");
    } else {
      var c, tail := chunks[0], Encode(chunks[1..]);
      SoFarOfEncoded(chunks[1..]);
      assert Encode(chunks) == Chunk(c) + tail && Join(chunks) == c + Join(chunks[1..]);
      hide HasLine, FirstLine, AfterLine, Stoi, Chunk, Encode, DecodedSoFar, Join;
      ChunkFront(c, tail);
      DataFront(c, tail);
      SoFarStep(Chunk(c) + tail, c + "\r\n" + tail, |c|);
    }
  }

  // ---------- the automaton over an encoded stream ----------

  predicate PlainBytes(s: string) {
    forall i :: 0 <= i < |s| ==> s[i] != '\r' && s[i] != '\n'
  }

  lemma {:induction false} PlainBytesAgree(st: NewLineStatus, afterCR: bool, s: string)
    requires PlainBytes(s) && s != ""
    ensures Agrees(st, afterCR, s) && Scan(Start(st), s).status.NoNewline? && !EndsInCR(afterCR, s)
    decreases |s|
  {
    var n := |s| - 1;
    AgreesSnoc(st, afterCR, s);
    if n > 0 {
      PlainBytesAgree(st, afterCR, s[..n]);
    } else {
      assert s[..n] == "";
    }
  }

  /**
    Data behind a CRLF: every lone LF is passed over, and an odd run of CR bytes at the end upsets the next line end.
   */
  lemma {:induction false} DataAgrees(data: string)
    requires !HasLine(data)
    ensures Agrees(AfterCRLF, false, data)
    ensures Counts(Scan(Start(AfterCRLF), data).status) <==> TrailingCRs(data) % 2 == 1
    ensures TrailingCRs(data) % 2 == 0 && data != "" ==> Scan(Start(AfterCRLF), data).status.NoNewline?
    ensures TrailingCRs(data) > 0 <==> EndsInCR(false, data)
    ensures data != "" ==> !Scan(Start(AfterCRLF), data).status.AfterCRLF?
    decreases |data|
  {
    if data != "" {
      var n := |data| - 1;
      var t := data[..n];
      NoLineInPrefix(data, n);
      DataAgrees(t);
      AgreesSnoc(AfterCRLF, false, data);
      assert data[n] == '\n' ==> !IsLineEnd(data, n);
      assert TrailingCRs(data) == if data[n] == '\r' then TrailingCRs(t) + 1 else 0;
    }
  }

  lemma NoLineInPrefix(s: string, n: nat)
    requires !HasLine(s) && n <= |s|
    ensures !HasLine(s[..n])
  {
    if HasLine(s[..n]) {
      assert s[..n] + s[n..] == s;
      LineOfPrefix(s[..n], s[n..]);
    }
  }

  lemma LineEndAgrees(st: NewLineStatus, afterCR: bool)
    requires st.NoNewline? && !afterCR
    ensures Agrees(st, afterCR, "\r\n") && Scan(Start(st), "\r\n") == Tally(AfterCRLF, 1, 0)
  {
    assert "\r\n"[..1] == "\r" && "\r"[..0] == "" && "\r\n"[1..] == "\n" && "\n"[1..] == "";
  }

  /** The automaton counts an encoded chunk right exactly when the data ends in an even number of CR bytes. */
  lemma ChunkAgrees(st: NewLineStatus, afterCR: bool, data: string)
    requires data != "" && !HasLine(data)
    ensures Agrees(st, afterCR, Chunk(data)) <==> TrailingCRs(data) % 2 == 0
    ensures Agrees(st, afterCR, Chunk(data)) ==> Scan(Start(st), Chunk(data)).status.AfterCRLF?
    ensures EndsInCR(afterCR, Chunk(data)) == false
  {
    var hex := Print(|data|, 16);
    PrintHasNoLineBytes(|data|, 16);
    SizeLineAgrees(st, afterCR, hex);
    var front := hex + "\r\n";
    DataAgrees(data);
    DataEndAgrees(data);
    assert Chunk(data) == front + (data + "\r\n");
    AgreesConcat(st, afterCR, front, data + "\r\n");
    ScanConcat(Start(st), front, data + "\r\n");
    ScanShift(Scan(Start(st), front), data + "\r\n");
    assert Chunk(data)[|Chunk(data)| - 1] == '\n';
    hide Scan, Agrees, Print, TrailingCRs;
  }

  lemma SizeLineAgrees(st: NewLineStatus, afterCR: bool, hex: string)
    requires hex != "" && PlainBytes(hex)
    ensures Agrees(st, afterCR, hex + "\r\n") && Scan(Start(st), hex + "\r\n").status.AfterCRLF? &&
            !EndsInCR(afterCR, hex + "\r\n")
  {
    PlainBytesAgree(st, afterCR, hex);
    LineEndAgrees(NoNewline, false);
    AgreesConcat(st, afterCR, hex, "\r\n");
    ScanConcat(Start(st), hex, "\r\n");
    ScanShift(Scan(Start(st), hex), "\r\n");
    assert (hex + "\r\n")[|hex| + 1] == '\n';
    hide Scan, Agrees;
  }

  /** The CRLF behind the data. */
  lemma DataEndAgrees(data: string)
    requires data != "" && !HasLine(data)
    ensures Agrees(AfterCRLF, false, data + "\r\n") <==> TrailingCRs(data) % 2 == 0
    ensures TrailingCRs(data) % 2 == 0 ==> Scan(Start(AfterCRLF), data + "\r\n").status.AfterCRLF?
  {
    DataAgrees(data);
    var t := data + "\r\n";
    assert t[..|t| - 1] == data + "\r" && (data + "\r")[..|data|] == data;
    AgreesSnoc(AfterCRLF, false, t);
    AgreesSnoc(AfterCRLF, false, data + "\r");
  }

  lemma BlankLineAgrees()
    ensures Agrees(AfterCRLF, false, "\r\n") && Scan(Start(AfterCRLF), "\r\n").status.AfterCRLFCR?
  {
    assert "\r\n"[..1] == "\r" && "\r"[..0] == "" && "\r\n"[1..] == "\n" && "\n"[1..] == "";
  }

  lemma TerminatorAgrees(st: NewLineStatus, afterCR: bool)
    ensures Agrees(st, afterCR, Chunk("")) && Scan(Start(st), Chunk("")).status.AfterCRLFCR?
    ensures !EndsInCR(afterCR, Chunk(""))
  {
    ChunkOfNothing();
    var t := "0\r\n";
    SizeLineAgrees(st, afterCR, "0");
    BlankLineAgrees();
    assert Chunk("") == t + "\r\n" && t == "0" + "\r\n";
    hide Scan, Agrees;
    AgreesConcat(st, afterCR, t, "\r\n");
    ScanConcat(Start(st), t, "\r\n");
    ScanShift(Scan(Start(st), t), "\r\n");
  }

  predicate EndsEven(chunks: seq<string>) {
    forall i :: 0 <= i < |chunks| ==> TrailingCRs(chunks[i]) % 2 == 0
  }

  lemma EndsEvenTail(chunks: seq<string>)
    requires chunks != []
    ensures EndsEven(chunks) <==> TrailingCRs(chunks[0]) % 2 == 0 && EndsEven(chunks[1..])
  {
    hide TrailingCRs;
    assert forall i :: 0 <= i < |chunks[1..]| ==> chunks[1..][i] == chunks[i + 1];
    assert forall i :: 1 <= i < |chunks| ==> chunks[i] == chunks[1..][i - 1];
  }

  /**
    An encoded stream is counted right, whatever came before it, exactly when every chunk ends in an even number of CR
    bytes.
   */
  lemma {:induction false} EncodedAgrees(st: NewLineStatus, afterCR: bool, chunks: seq<string>)
    requires forall i :: 0 <= i < |chunks| ==> chunks[i] != "" && !HasLine(chunks[i])
    ensures Agrees(st, afterCR, Encode(chunks) + Chunk("")) <==> EndsEven(chunks)
    decreases |chunks|
  {
    if chunks == [] {
      assert Encode(chunks) + Chunk("") == Chunk("");
      TerminatorAgrees(st, afterCR);
    } else {
      var c, tail := chunks[0], Encode(chunks[1..]) + Chunk("");
      assert Encode(chunks) + Chunk("") == Chunk(c) + tail;
      hide Agrees, Chunk, Encode, TrailingCRs, Scan, EndsEven;
      ChunkAgrees(st, afterCR, c);
      AgreesConcat(st, afterCR, Chunk(c), tail);
      EncodedAgrees(Scan(Start(st), Chunk(c)).status, false, chunks[1..]);
      EndsEvenTail(chunks);
    }
  }
}
