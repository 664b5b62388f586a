/** What arrives: the chunks of a file, and completion under fair polling. */
module StreamingDelivery {
  import opened Text
  import opened Wrappers
  import opened Headers
  import opened ChunkedCoding
  import opened ChunkedStreams
  import opened ResponseModel
  import opened StreamingModel
  import opened StreamingRuns

  // ---------- the chunks of a file ----------

  /** The file in pieces of exactly the capacity, as far as whole pieces go. */
  function FullPieces(cap: Capacity, file: string): seq<string>
    decreases |file|
  {
    if |file| >= cap then [file[..cap]] + FullPieces(cap, file[cap..]) else []
  }

  function LastPiece(cap: Capacity, file: string): string
    decreases |file|
  {
    if |file| >= cap then LastPiece(cap, file[cap..]) else file
  }

  lemma {:induction false} PiecesShape(cap: Capacity, file: string)
    ensures forall i :: 0 <= i < |FullPieces(cap, file)| ==> |FullPieces(cap, file)[i]| == cap
    ensures |LastPiece(cap, file)| < cap
    ensures Join(FullPieces(cap, file)) + LastPiece(cap, file) == file
    ensures Chunks(cap, file) == Encode(FullPieces(cap, file)) + (Chunk(LastPiece(cap, file)) + Chunk(""))
    decreases |file|
  {
    if |file| >= cap {
      var rest := file[cap..];
      PiecesShape(cap, rest);
      assert file == file[..cap] + rest;
      var tail := FullPieces(cap, rest);
      assert ([file[..cap]] + tail)[1..] == tail;
      assert FullPieces(cap, file) == [file[..cap]] + tail;
      hide Chunk;
    } else {
      hide Chunk;
      assert Encode([]) + (Chunk(file) + Chunk("")) == Chunk(file) + Chunk("");
      assert Join([]) + file == file;
    }
  }

  /** A whole number of buffers leaves an empty last piece. */
  lemma {:induction false} LastPieceEmpty(cap: Capacity, file: string)
    ensures LastPiece(cap, file) == "" <==> |file| % cap == 0
    decreases |file|
  {
    if |file| >= cap {
      LastPieceEmpty(cap, file[cap..]);
      ModShift(|file|, cap);
    } else if file == "" {
    } else {
      SmallMod(|file|, cap);
    }
  }

  lemma ModShift(n: nat, cap: Capacity)
    requires n >= cap
    ensures (n - cap) % cap == n % cap
  {
    assert n - cap == cap * (n / cap - 1) + n % cap;
    DivisionIsUnique(n - cap, cap, n / cap - 1, n % cap);
  }

  lemma SmallMod(n: nat, cap: Capacity)
    requires n < cap
    ensures n % cap == n
  {
  }

  lemma DivisionIsUnique(n: int, d: int, q: int, r: int)
    requires d > 0 && 0 <= r < d && n == d * q + r
    ensures n % d == r
  {
    var q', r' := n / d, n % d;
    assert n == d * q' + r';
    assert d * (q - q') == r' - r;
    MultiplesAreFar(d, q - q');
  }

  lemma MultiplesAreFar(d: int, x: int)
    requires d > 0
    ensures x >= 1 ==> d * x >= d
    ensures x <= -1 ==> d * x <= -d
  {
  }

  /**
    A reader that counts bytes gets the whole file back, whatever it holds. Behind the message it finds nothing, except
    when the file is a whole number of buffers: then the terminating chunk is sent twice and the second is left over.
   */
  lemma ChunksDecodeToFile(cap: Capacity, file: string)
    requires |file| >= cap
    ensures CountingDecode(Chunks(cap, file)) == Some(Decoded(file, if |file| % cap == 0 then Chunk("") else ""))
  {
    var full, last := FullPieces(cap, file), LastPiece(cap, file);
    PiecesShape(cap, file);
    LastPieceEmpty(cap, file);
    hide Chunk, Chunks, CountingDecode, FullPieces, LastPiece;
    if last == "" {
      CountingRoundTrip(full, Chunk(""));
      assert Encode(full) + Chunk("") + Chunk("") == Encode(full) + (Chunk("") + Chunk(""));
      assert Join(full) + "" == Join(full);
    } else {
      EncodeSnoc(full, last);
      assert (full + [last])[|full|] == last;
      CountingRoundTrip(full + [last], "");
      assert Encode(full) + Chunk(last) + Chunk("") + "" == Encode(full) + (Chunk(last) + Chunk(""));
    }
  }

  lemma {:induction false} EncodeSnoc(pieces: seq<string>, last: string)
    ensures Encode(pieces + [last]) == Encode(pieces) + Chunk(last)
    ensures Join(pieces + [last]) == Join(pieces) + last
    decreases |pieces|
  {
    hide Chunk;
    if pieces == [] {
      assert [last][1..] == [];
      assert Encode([last]) == Chunk(last) + "" == Chunk(last);
      JoinSingle(last);
    } else {
      assert (pieces + [last])[1..] == pieces[1..] + [last];
      EncodeSnoc(pieces[1..], last);
    }
  }

  // ---------- completion ----------

  /** What is left to do: bytes to send, bytes to read, and the end of the file to notice. */
  function Pending(e: Setup, c: Conn): nat {
    |c.writeBuffer| + |Owed(e, c)| +
      (if c.inputFile.None? then 0 else |c.inputFile.value.unread| + (if c.inputFile.value.eof then 0 else 1))
  }

  /** After the socket had its turn, the file buffer has room. */
  lemma SocketTurn(e: Setup, c: Conn, n: nat)
    requires Inv(e, c) && n > 0
    ensures var c1 := Step(e, c, SocketReady(n));
            && (c1.inputFile.Some? ==> c.inputFile.Some? && |c1.inputFile.value.readBuffer| < e.cap &&
                                       c1.inputFile.value.unread == c.inputFile.value.unread &&
                                         c1.inputFile.value.eof == c.inputFile.value.eof)
            && |c1.sent| >= |c.sent|
            && (!c.state.Ready? && FileClosed(c) ==> |c1.sent| > |c.sent|)
            && (c.inputFile.Some? && c.inputFile.value.eof ==> c1.inputFile.None?)
  {
    ChunkNotEmpty("");
    if c.inputFile.Some? {
      FramingKeepsInv(e, c);
    }
    hide Chunk, HeadText, ForChunked, ForFixed, SetFixedSizeBody;
  }

  lemma LengthOfTotal(e: Setup, c: Conn)
    ensures |Total(e, c)| == |c.sent| + |c.writeBuffer| + |Owed(e, c)|
  {
  }

  /** A poll round in which the socket, which comes first in the list, and then the file are ready. */
  lemma RoundProgress(e: Setup, c: Conn, n: nat, m: nat)
    requires Inv(e, c) && n > 0
    ensures var c1 := Step(e, c, SocketReady(n));
            var c2 := Step(e, c1, FileReady(m));
            && Inv(e, c1) && Inv(e, c2) && !Truncates(e, c, SocketReady(n)) && !Truncates(e, c1, FileReady(m))
            && (c.state.Ready? ==> c2 == c)
            && (!c.state.Ready? ==> Pending(e, c2) < Pending(e, c))
  {
    var c1 := Step(e, c, SocketReady(n));
    var c2 := Step(e, c1, FileReady(m));
    StepKeepsInv(e, c, SocketReady(n));
    StepKeepsInv(e, c1, FileReady(m));
    SocketTurn(e, c, n);
    StepKeepsTotal(e, c, SocketReady(n));
    StepKeepsTotal(e, c1, FileReady(m));
    LengthOfTotal(e, c);
    LengthOfTotal(e, c1);
    LengthOfTotal(e, c2);
    FileTurn(e, c1, m);
    if c.state.Ready? {
      assert c1 == c;
    }
    hide WriteCb, ReadFile, Owed, Total, Inv;
  }

  /** With room in the buffer, an open file gives bytes or shows its end. */
  lemma FileTurn(e: Setup, c: Conn, m: nat)
    requires c.inputFile.Some? ==> |c.inputFile.value.readBuffer| < e.cap
    ensures var c2 := Step(e, c, FileReady(m));
            && c2.sent == c.sent && c2.state == c.state && (c.inputFile.None? ==> c2 == c)
            && (c.inputFile.Some? ==>
                  var f, f2 := c.inputFile.value, c2.inputFile.value;
                  c2.inputFile.Some? &&
                  if f.eof then f2 == f
                  else (f2.eof && f2.unread == f.unread) || (!f2.eof && |f2.unread| < |f.unread|))
  {
  }

  /** How much the socket takes, and how much the file gives, in one round. */
  datatype Turn = Turn(taken: nat, given: nat)

  predicate AllTake(turns: seq<Turn>) {
    turns == [] || (turns[0].taken > 0 && AllTake(turns[1..]))
  }

  function Rounds(turns: seq<Turn>): seq<Event> {
    if turns == [] then [] else [SocketReady(turns[0].taken), FileReady(turns[0].given)] + Rounds(turns[1..])
  }

  lemma TwoSteps(e: Setup, c: Conn, a: Event, b: Event, rest: seq<Event>)
    ensures Run(e, c, [a, b] + rest) == Run(e, Step(e, Step(e, c, a), b), rest)
    ensures NoTruncation(e, c, [a, b] + rest) <==>
            !Truncates(e, c, a) && !Truncates(e, Step(e, c, a), b) && NoTruncation(e, Step(e, Step(e, c, a), b), rest)
  {
    assert ([a, b] + rest)[1..] == [b] + rest && ([b] + rest)[1..] == rest;
    hide Step, Truncates;
  }

  /** Completion: rounds in which both descriptors are ready never truncate, and enough of them finish the response. */
  lemma {:induction false} PollingCompletes(e: Setup, c: Conn, turns: seq<Turn>)
    requires Inv(e, c) && |turns| >= Pending(e, c) && AllTake(turns)
    ensures Run(e, c, Rounds(turns)).state.Ready? && NoTruncation(e, c, Rounds(turns))
    decreases |turns|
  {
    hide Step, Inv, Pending, Truncates, Run, NoTruncation;
    if turns == [] {
      NothingPending(e, c);
      RunOfNothing(e, c);
    } else {
      var a, b := SocketReady(turns[0].taken), FileReady(turns[0].given);
      RoundProgress(e, c, turns[0].taken, turns[0].given);
      TwoSteps(e, c, a, b, Rounds(turns[1..]));
      if c.state.Ready? {
        ReadyPendsNothing(e, c);
      }
      PollingCompletes(e, Step(e, Step(e, c, a), b), turns[1..]);
    }
  }

  lemma RunOfNothing(e: Setup, c: Conn)
    ensures Run(e, c, []) == c && NoTruncation(e, c, [])
  {
  }

  lemma NothingPending(e: Setup, c: Conn)
    requires Inv(e, c) && Pending(e, c) == 0
    ensures c.state.Ready?
  {
    if c.inputFile.Some? {
      ChunksAndStreamNotEmpty(e, c.response, Rest(c.inputFile.value));
    }
    hide Stream, Chunks;
  }

  lemma ChunksAndStreamNotEmpty(e: Setup, r: Response, file: string)
    ensures Chunks(e.cap, file) != "" && Stream(e, r, file) != ""
  {
    ChunkNotEmpty("");
    if |file| >= e.cap { ChunkNotEmpty(file[..e.cap]); }
    hide Chunk, PrintFields;
  }

  lemma ReadyPendsNothing(e: Setup, c: Conn)
    requires Inv(e, c) && c.state.Ready?
    ensures Pending(e, c) == 0
  {
  }
}
