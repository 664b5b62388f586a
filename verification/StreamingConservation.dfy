/** Conservation of the file in every state of a GET. */
module StreamingConservation {
  import opened Text
  import opened Wrappers
  import opened Numbers
  import opened Headers
  import opened ChunkedCoding
  import opened ChunkedStreams
  import opened ResponseModel
  import opened StreamingModel
  import opened StreamingRuns
  import opened StreamingDelivery

  /**
    A GET for `file` on a connection that had sent `before`. While the file is open, the chunks framed so far, then the
    read buffer, then the bytes still in the file, are the file. Afterwards, what was sent and is buffered is the stream
    of a front of the file, `kept`: all of it, or, after a truncation, at least one buffer.
   */
  predicate Conserved(e: Setup, c: Conn, before: string, r: Response, file: string, framed: seq<string>, kept: string) {
    match c.inputFile
    case Some(f) =>
      && Join(framed) + (f.readBuffer + f.unread) == file
      && (forall i :: 0 <= i < |framed| ==> |framed[i]| == e.cap)
      && (f.eof && f.unread != "" ==> |Join(framed) + f.readBuffer| >= e.cap)
      && (if c.response.chunked then
            framed != [] && c.sent + c.writeBuffer == before + (HeadText(ChunkedResponse(e, r)) + Encode(framed)) &&
              c.response == ChunkedResponse(e, r)
          else framed == [] && c.sent + c.writeBuffer == before && c.response == r)
    case None =>
      && kept <= file && (kept != file ==> |kept| >= e.cap)
      && c.sent + c.writeBuffer == before + Stream(e, r, kept)
  }

  lemma ReadKeepsBytes(cap: Capacity, f: File, n: nat)
    ensures var f' := ReadFile(cap, f, n);
            && f'.readBuffer + f'.unread == f.readBuffer + f.unread
            && (f'.eof && f'.unread != "" ==> (f.eof || |f.readBuffer| >= cap) && f' == f.(eof := true))
  {
    if !f.eof && |f.readBuffer| <= cap {
      var k := ReadCount(f.unread, cap - |f.readBuffer|, n);
      assert f.unread == f.unread[..k] + f.unread[k..];
    }
  }

  lemma ConservedByRead(e: Setup, c: Conn, n: nat, before: string, r: Response, file: string, framed: seq<string>,
                        kept: string)
    requires Inv(e, c) && c.inputFile.Some? && Conserved(e, c, before, r, file, framed, kept)
    ensures Conserved(e, Step(e, c, FileReady(n)), before, r, file, framed, kept)
  {
    ReadKeepsBytes(e.cap, c.inputFile.value, n);
    hide ReadFile, Encode, Join, HeadText, ChunkedResponse;
  }

  lemma FramedFull(e: Setup, c: Conn, before: string, r: Response, file: string, framed: seq<string>, kept: string)
    requires Inv(e, c) && c.inputFile.Some? && r.code == -1 && !r.chunked && !r.bodyComplete
    requires Conserved(e, c, before, r, file, framed, kept)
    requires |c.inputFile.value.readBuffer| >= e.cap && !c.inputFile.value.eof
    ensures Conserved(e, ReadFromFile(e, c, c.inputFile.value), before, r, file,
            framed + [c.inputFile.value.readBuffer], kept)
  {
    var f := c.inputFile.value;
    assert |f.readBuffer| == e.cap;
    hide ReadFromFile, Inv, Encode, Join, Chunk, HeadText, ForChunked, ChunkedResponse;
    EncodeSnoc(framed, f.readBuffer);
    MoveToDecoded(Join(framed), f.readBuffer, f.unread);
    FramedText(e, c, before, r, framed, f);
  }

  lemma MoveToDecoded(decoded: string, buffer: string, unread: string)
    ensures decoded + (buffer + unread) == (decoded + buffer) + ("" + unread)
  {
  }

  lemma AppendInside(before: string, h: string, x: string, y: string)
    ensures before + (h + x) + y == before + (h + (x + y))
    ensures before + ("" + h) + y == before + (h + y)
  {
  }

  lemma FramedText(e: Setup, c: Conn, before: string, r: Response, decoded: seq<string>, f: File)
    requires Inv(e, c) && c.inputFile == Some(f) && r.code == -1 && !r.chunked && !r.bodyComplete &&
             |f.readBuffer| == e.cap && !f.eof
    requires if c.response.chunked then
               c.sent + c.writeBuffer == before + (HeadText(ChunkedResponse(e, r)) + Encode(decoded)) &&
                 c.response == ChunkedResponse(e, r)
             else decoded == [] && c.sent + c.writeBuffer == before && c.response == r
    ensures var c1 := ReadFromFile(e, c, f);
            && c1.response == ChunkedResponse(e, r) && c1.response.chunked && c1.inputFile == Some(f.(readBuffer := ""))
            && c1.sent + c1.writeBuffer ==
              before + (HeadText(ChunkedResponse(e, r)) + (Encode(decoded) + Chunk(f.readBuffer)))
  {
    hide HeadText, Chunk, Insert, Delete;
    var h, x := HeadText(ChunkedResponse(e, r)), Chunk(f.readBuffer);
    if c.response.chunked {
      assert c.sent + (c.writeBuffer + x) == (c.sent + c.writeBuffer) + x;
      AppendInside(before, h, Encode(decoded), x);
    } else {
      assert c.sent + "" == c.sent && "" + x == x;
    }
    hide Encode, ChunkedResponse;
  }

  /** The last framing: the stream is that of the chunks framed so far and the read buffer. */
  lemma FramedLast(e: Setup, c: Conn, before: string, r: Response, file: string, framed: seq<string>, kept: string)
    requires Inv(e, c) && c.inputFile.Some? && r.code == -1 && !r.chunked && !r.bodyComplete
    requires Conserved(e, c, before, r, file, framed, kept) && c.inputFile.value.eof
    ensures var c1 := ReadFromFile(e, c, c.inputFile.value);
            c1.inputFile.None? && Conserved(e, c1, before, r, file, framed, Join(framed) + c.inputFile.value.readBuffer)
  {
    var f := c.inputFile.value;
    hide ReadFromFile, HeadText, Chunk, Chunks, Stream, ChunkedResponse, Encode, Join, Owed, Inv;
    LastTotal(e, c);
    OwedLast(e, c, before, r, file, framed, kept);
    Regroup(Join(framed), f.readBuffer, f.unread);
  }

  /** What is owed completes the stream of the chunks framed so far and the read buffer. */
  lemma OwedLast(e: Setup, c: Conn, before: string, r: Response, file: string, framed: seq<string>, kept: string)
    requires c.inputFile.Some? && Conserved(e, c, before, r, file, framed, kept) && c.inputFile.value.eof
    ensures c.sent + c.writeBuffer + Owed(e, c) == before + Stream(e, r, Join(framed) + c.inputFile.value.readBuffer)
  {
    var f := c.inputFile.value;
    hide HeadText, Chunk, Chunks, Stream, ChunkedResponse, Encode;
    if c.response.chunked {
      ChunksOfMore(e.cap, framed, f.readBuffer);
      hide Join;
      StreamOfFramed(e, r, framed, f.readBuffer, before);
    } else {
      assert Join(framed) + f.readBuffer == f.readBuffer;
    }
  }

  /** The last framing pays what was owed. */
  lemma LastTotal(e: Setup, c: Conn)
    requires Inv(e, c) && c.inputFile.Some? && c.inputFile.value.eof
    ensures var c1 := ReadFromFile(e, c, c.inputFile.value);
            c1.inputFile.None? && c1.sent + c1.writeBuffer == c.sent + c.writeBuffer + Owed(e, c)
  {
    var c1 := ReadFromFile(e, c, c.inputFile.value);
    FramingKeepsTotal(e, c);
    ClosedByFraming(e, c);
    hide ReadFromFile, Chunks, Stream;
    assert c1.writeBuffer + "" == c1.writeBuffer;
    Associate(c.sent, c.writeBuffer, Owed(e, c));
  }

  lemma ClosedByFraming(e: Setup, c: Conn)
    requires c.inputFile.Some? && c.inputFile.value.eof
    ensures ReadFromFile(e, c, c.inputFile.value).inputFile.None?
  {
    hide Chunk, HeadText, ForChunked, ForFixed, SetFixedSizeBody;
  }

  lemma Regroup(a: string, b: string, c: string)
    ensures a + (b + c) == (a + b) + c && a + b <= a + (b + c) && (c == "" ==> a + b == a + (b + c))
    ensures a + b != a + (b + c) ==> c != ""
  {
  }

  /** Chunks of whole buffers, followed by those of the remaining bytes, are those of all bytes. */
  lemma {:induction false} ChunksOfMore(cap: Capacity, framed: seq<string>, rest: string)
    requires forall i :: 0 <= i < |framed| ==> |framed[i]| == cap
    ensures Chunks(cap, Join(framed) + rest) == Encode(framed) + Chunks(cap, rest)
    ensures framed != [] ==> |Join(framed)| >= cap
    decreases |framed|
  {
    hide Chunk, Chunks;
    if framed == [] {
      assert "" + rest == rest && "" + Chunks(cap, rest) == Chunks(cap, rest);
    } else {
      FirstOfFramed(framed);
      hide Encode, Join;
      ChunksOfMore(cap, framed[1..], rest);
      FullChunk(cap, framed[0], Join(framed[1..]) + rest);
      Associate(framed[0], Join(framed[1..]), rest);
      Associate(Chunk(framed[0]), Encode(framed[1..]), Chunks(cap, rest));
    }
  }

  lemma FirstOfFramed(framed: seq<string>)
    requires framed != []
    ensures Join(framed) == framed[0] + Join(framed[1..]) && Encode(framed) == Chunk(framed[0]) + Encode(framed[1..])
  {
    hide Chunk;
  }

  lemma StreamOfFramed(e: Setup, r: Response, framed: seq<string>, rest: string, before: string)
    requires framed != [] && |Join(framed)| >= e.cap
    requires Chunks(e.cap, Join(framed) + rest) == Encode(framed) + Chunks(e.cap, rest)
    ensures before + (HeadText(ChunkedResponse(e, r)) + Encode(framed)) + Chunks(e.cap, rest) ==
            before + Stream(e, r, Join(framed) + rest)
  {
    var h := HeadText(ChunkedResponse(e, r));
    hide HeadText, ChunkedResponse, Chunks, Encode, Join, FixedResponse;
    AppendInside(before, h, Encode(framed), Chunks(e.cap, rest));
  }

  lemma ConservedByWrite(e: Setup, c: Conn, k: nat, before: string, r: Response, file: string, framed: seq<string>,
                         kept: string)
    requires Conserved(e, c, before, r, file, framed, kept) && k <= |c.writeBuffer|
    requires c.inputFile.Some? ==> !c.response.bodyComplete
    ensures Conserved(e, Write(c, k), before, r, file, framed, kept)
  {
    assert c.sent + c.writeBuffer[..k] + c.writeBuffer[k..] == c.sent + c.writeBuffer;
    hide Encode, Join, HeadText, ChunkedResponse, Stream;
    if c.inputFile.Some? && !c.response.chunked {
      assert c.sent + c.writeBuffer == before;
    }
  }

  lemma ConservedBySocket(e: Setup, c: Conn, n: nat, before: string, r: Response, file: string, framed: seq<string>,
                          kept: string)
    returns (framed': seq<string>, kept': string)
    requires Inv(e, c) && r.code == -1 && !r.chunked && !r.bodyComplete
    requires Conserved(e, c, before, r, file, framed, kept)
    ensures Conserved(e, WriteCb(e, c, n), before, r, file, framed', kept')
  {
    framed', kept' := framed, kept;
    var c1 := c;
    if c.inputFile.Some? {
      var f := c.inputFile.value;
      c1 := ReadFromFile(e, c, f);
      FramingKeepsInv(e, c);
      if f.eof {
        kept' := Join(framed) + f.readBuffer;
        FramedLast(e, c, before, r, file, framed, kept);
      } else if |f.readBuffer| >= e.cap {
        framed' := framed + [f.readBuffer];
        FramedFull(e, c, before, r, file, framed, kept);
      }
    }
    assert c1.inputFile.Some? ==> !c1.response.bodyComplete;
    hide Conserved, ReadFromFile, Inv, Write, Join;
    if c1.writeBuffer != "" {
      ConservedByWrite(e, c1, Min(n, Min(WRITE_SIZE, |c1.writeBuffer|)), before, r, file, framed', kept');
    }
  }

  /** Conservation over whole runs, in every state a GET goes through. */
  lemma {:induction false} Conservation(e: Setup, c: Conn, events: seq<Event>, before: string, r: Response,
                                        file: string,
                                        framed: seq<string>, kept: string)
    returns (framed': seq<string>, kept': string)
    requires Inv(e, c) && r.code == -1 && !r.chunked && !r.bodyComplete
    requires Conserved(e, c, before, r, file, framed, kept) && NoGets(events)
    ensures Conserved(e, Run(e, c, events), before, r, file, framed', kept')
    decreases |events|
  {
    framed', kept' := framed, kept;
    if events != [] {
      var next := Step(e, c, events[0]);
      StepKeepsInv(e, c, events[0]);
      assert !events[0].GetFile?;
      if events[0].SocketReady? {
        framed', kept' := ConservedBySocket(e, c, events[0].n, before, r, file, framed, kept);
      } else if c.inputFile.Some? {
        ConservedByRead(e, c, events[0].n, before, r, file, framed, kept);
      }
      assert Conserved(e, next, before, r, file, framed', kept') by { hide Conserved, WriteCb, ReadFile, Inv; }
      hide Step, Inv, Conserved;
      framed', kept' := Conservation(e, next, events[1..], before, r, file, framed', kept');
    }
  }

  /** A GET starts out conserved. */
  lemma ConservedAtStart(e: Setup, c: Conn, contentType: string, file: string)
    requires Inv(e, c) && c.state.Ready?
    ensures Conserved(e, Step(e, c, GetFile(contentType, file)), c.sent, Started(contentType), file, [], "")
    ensures Inv(e, Step(e, c, GetFile(contentType, file)))
    ensures Started(contentType).code == -1 && !Started(contentType).chunked && !Started(contentType).bodyComplete
  {
    assert c.sent + "" == c.sent && "" + file == file && Join([]) + ("" + file) == file;
    StepKeepsInv(e, c, GetFile(contentType, file));
    hide Insert;
  }

  /**
    What a client has at any moment of a GET, in its own terms. While the file is open: nothing yet, or a chunked head
    and chunks that a decoder turns into the file up to the read buffer. Afterwards: the stream of the file, or, exactly
    when a read met a full buffer, of a proper front of it.
   */
  lemma FileIsConserved(e: Setup, c: Conn, contentType: string, file: string,
                        events: seq<Event>) returns (text: string, kept: string)
    requires Inv(e, c) && c.state.Ready? && NoGets(events)
    ensures var r, start := Started(contentType), Step(e, c, GetFile(contentType, file));
            var now := Run(e, start, events);
            && now.sent + now.writeBuffer == c.sent + text
            && match now.inputFile
               case Some(f) =>
                 if now.response.chunked then
                   var h := HeadText(ChunkedResponse(e, r));
                   h <= text && DecodedSoFar(text[|h|..]) + (f.readBuffer + f.unread) == file
                 else text == "" && f.readBuffer + f.unread == file
               case None =>
                 text == Stream(e, r, kept) && kept <= file && (kept == file <==> NoTruncation(e, start, events))
  {
    var r, start := Started(contentType), Step(e, c, GetFile(contentType, file));
    ConservedAtStart(e, c, contentType, file);
    var framed;
    framed, kept := Conservation(e, start, events, c.sent, r, file, [], "");
    var now := Run(e, start, events);
    hide Step, Run, NoTruncation, Started, ChunkedResponse, HeadText, Stream, Inv, DecodedSoFar, Encode, Join;
    var h := HeadText(ChunkedResponse(e, r));
    match now.inputFile
    case Some(f) =>
      if now.response.chunked {
        text := h + Encode(framed);
        SoFarOfEncoded(framed);
        assert text[|h|..] == Encode(framed);
      } else {
        text := "";
        NothingFramed(f.readBuffer + f.unread);
        assert c.sent + "" == c.sent;
      }
    case None =>
      text := Stream(e, r, kept);
      KeptIffWhole(e, c, contentType, file, events, kept);
  }

  lemma NothingFramed(s: string)
    ensures Join([]) + s == s
  {
  }

  lemma KeptIffWhole(e: Setup, c: Conn, contentType: string, file: string, events: seq<Event>, kept: string)
    requires Inv(e, c) && c.state.Ready? && NoGets(events) && kept <= file && (kept != file ==> |kept| >= e.cap)
    requires var now := Run(e, Step(e, c, GetFile(contentType, file)), events);
             now.inputFile.None? && now.sent + now.writeBuffer == c.sent + Stream(e, Started(contentType), kept)
    ensures kept == file <==> NoTruncation(e, Step(e, c, GetFile(contentType, file)), events)
  {
    var event := GetFile(contentType, file);
    var start, r := Step(e, c, event), Started(contentType);
    var now := Run(e, start, events);
    StepKeepsInv(e, c, event);
    StepKeepsTotal(e, c, event);
    ReadyOwesNothing(e, c);
    TotalIffNoTruncation(e, start, events);
    TotalWithoutFile(e, now);
    hide Step, Run, NoTruncation, Inv, Total, Stream, Started;
    assert Total(e, start) == c.sent + Stream(e, r, file);
    SameFront(c.sent, Stream(e, r, kept), Stream(e, r, file));
    if kept != file {
      StreamsDiffer(e, r, kept, file);
    }
  }

  lemma TotalWithoutFile(e: Setup, c: Conn)
    requires c.inputFile.None?
    ensures Total(e, c) == c.sent + c.writeBuffer
  {
    assert c.writeBuffer + "" == c.writeBuffer;
  }

  lemma SameFront(a: string, x: string, y: string)
    ensures a + x == a + y <==> x == y
  {
    if a + x == a + y {
      assert (a + x)[|a|..] == x && (a + y)[|a|..] == y;
    }
  }

  /** A decoder tells the chunked streams of two files apart. */
  lemma StreamsDiffer(e: Setup, r: Response, kept: string, file: string)
    requires kept <= file && kept != file && |kept| >= e.cap
    ensures Stream(e, r, kept) != Stream(e, r, file)
  {
    ChunksDecodeToFile(e.cap, kept);
    ChunksDecodeToFile(e.cap, file);
    SameFront(HeadText(ChunkedResponse(e, r)), Chunks(e.cap, kept), Chunks(e.cap, file));
    hide Chunks, CountingDecode, HeadText, ChunkedResponse;
  }

  /** The failing input: a file one byte larger than the buffer, read twice before the socket has its turn. */
  lemma ReadingAheadTruncates(e: Setup, contentType: string, file: string)
    requires |file| == e.cap + 1
    ensures var start := Step(e, IDLE, GetFile(contentType, file));
            var events := [FileReady(e.cap), FileReady(1)];
            && !NoTruncation(e, start, events)
            && Run(e, start, events).inputFile == Some(File(file[..e.cap], true, file[e.cap..]))
            && Total(e, Run(e, start, events)) == Stream(e, Started(contentType), file[..e.cap])
            && Stream(e, Started(contentType), file[..e.cap]) != Stream(e, Started(contentType), file)
  {
    var start := Step(e, IDLE, GetFile(contentType, file));
    var once := Step(e, start, FileReady(e.cap));
    var twice := Step(e, once, FileReady(1));
    assert ReadCount(file, e.cap, e.cap) == e.cap && "" + file[..e.cap] == file[..e.cap];
    assert once.inputFile == Some(File(file[..e.cap], false, file[e.cap..]));
    assert [FileReady(e.cap), FileReady(1)] == [FileReady(e.cap), FileReady(1)] + [];
    TwoSteps(e, start, FileReady(e.cap), FileReady(1), []);
    RunOfNothing(e, twice);
    StreamsDiffer(e, Started(contentType), file[..e.cap], file);
    assert "" + ("" + Stream(e, Started(contentType), file[..e.cap])) == Stream(e, Started(contentType), file[..e.cap]);
    hide Stream, Run, NoTruncation, Insert;
  }
}
