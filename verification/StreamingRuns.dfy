/** Whole runs of the streaming machine: schedule independence, truncation, keep-alive, conservation, completion. */
module StreamingRuns {
  import opened Text
  import opened Numbers
  import opened ChunkedCoding
  import opened ResponseModel
  import opened StreamingModel

  // ---------- every step ----------

  lemma StepKeepsInv(e: Setup, c: Conn, event: Event)
    requires Inv(e, c)
    ensures Inv(e, Step(e, c, event))
  {
    match event
    case GetFile(_, _) =>
    case FileReady(n) =>
      if c.inputFile.Some? {
        ReadKeepsRest(e.cap, c.inputFile.value, n);
        hide ReadFile;
      }
    case SocketReady(n) =>
      if c.inputFile.Some? {
        FramingKeepsInv(e, c);
        hide ReadFromFile;
      }
  }

  /**
    One event: what has been sent grows by at most the size of one write, and the counter by the same, unless the client
    has become ready, which puts it back to zero.
   */
  lemma SentAndCounted(e: Setup, c: Conn, event: Event)
    requires Inv(e, c)
    ensures var c1 := Step(e, c, event);
            && |c.sent| <= |c1.sent| <= |c.sent| + 6_000_000 && c1.sent[..|c.sent|] == c.sent
            && (if c1.state.Ready? then c1.bytesWritten == 0
                else |c1.sent| - c1.bytesWritten == |c.sent| - c.bytesWritten)
  {
    StepKeepsInv(e, c, event);
    match event
    case GetFile(_, _) =>
    case FileReady(n) => hide ReadFile;
    case SocketReady(n) =>
      if c.inputFile.Some? {
        FramingSendsNothing(e, c, c.inputFile.value);
        hide ReadFromFile;
      }
  }

  lemma FramingSendsNothing(e: Setup, c: Conn, f: File)
    ensures var c1 := ReadFromFile(e, c, f); c1.sent == c.sent && c1.bytesWritten == c.bytesWritten
  {
    hide Chunk, HeadText, ForChunked, ForFixed, SetFixedSizeBody, SetCode;
  }

  /** What one event adds to the bytes sent, buffered and owed: the stream of a GET that is accepted. */
  function Ordered(e: Setup, c: Conn, event: Event): string {
    if event.GetFile? && c.state.Ready? then Stream(e, Started(event.contentType), event.content) else ""
  }

  /** Unless it truncates the file, an event moves bytes along and neither loses nor invents any. */
  lemma StepKeepsTotal(e: Setup, c: Conn, event: Event)
    requires Inv(e, c)
    ensures !Truncates(e, c, event) ==> Total(e, Step(e, c, event)) == Total(e, c) + Ordered(e, c, event)
    ensures Truncates(e, c, event) ==> Total(e, Step(e, c, event)) != Total(e, c)
  {
    match event
    case GetFile(contentType, content) =>
      GetStepTotal(e, c, contentType, content);
    case FileReady(n) =>
      if c.inputFile.Some? {
        FileStepTotal(e, c, n);
      }
      hide Step, Total, Inv;
      assert Total(e, c) + "" == Total(e, c);
    case SocketReady(n) =>
      SocketStepTotal(e, c, n);
      hide WriteCb, Total, Inv;
      assert Total(e, c) + "" == Total(e, c);
  }

  lemma GetStepTotal(e: Setup, c: Conn, contentType: string, content: string)
    requires Inv(e, c)
    ensures var event := GetFile(contentType, content);
            Total(e, Step(e, c, event)) == Total(e, c) + Ordered(e, c, event)
  {
    var event := GetFile(contentType, content);
    if c.state.Ready? {
      var text := Stream(e, Started(contentType), content);
      assert "" + content == content && "" + text == text;
      hide Stream, Chunks;
      assert Owed(e, Step(e, c, event)) == text;
      assert c.sent + ("" + "") == c.sent;
      assert Total(e, c) == c.sent;
    } else {
      assert Total(e, c) + "" == Total(e, c);
    }
  }

  lemma SocketStepTotal(e: Setup, c: Conn, n: nat)
    requires Inv(e, c)
    ensures Total(e, WriteCb(e, c, n)) == Total(e, c)
  {
    var c1 := if c.inputFile.Some? then ReadFromFile(e, c, c.inputFile.value) else c;
    if c.inputFile.Some? {
      FramingKeepsTotal(e, c);
      FramingKeepsInv(e, c);
    }
    assert c1.inputFile.Some? ==> !c1.response.bodyComplete;
    hide ReadFromFile, Owed, Inv, Write;
    assert Total(e, c1) == Total(e, c);
    hide Total;
    if c1.writeBuffer != "" {
      WriteKeepsTotal(e, c1, Min(n, Min(WRITE_SIZE, |c1.writeBuffer|)));
    }
  }

  lemma Differ(a: string, b: string, x: string, y: string)
    ensures a + (b + x) == a + (b + y) ==> x == y
  {
    assert (a + (b + x))[|a| + |b|..] == x && (a + (b + y))[|a| + |b|..] == y;
  }

  lemma FileStepTotal(e: Setup, c: Conn, n: nat)
    requires Inv(e, c) && c.inputFile.Some?
    ensures var event := FileReady(n);
            if Truncates(e, c, event) then Total(e, Step(e, c, event)) != Total(e, c)
            else Total(e, Step(e, c, event)) == Total(e, c)
  {
    var f := c.inputFile.value;
    var c1 := Step(e, c, FileReady(n));
    ReadKeepsRest(e.cap, f, n);
    Differ(c.sent, c.writeBuffer, Owed(e, c), Owed(e, c1));
    if Truncates(e, c, FileReady(n)) {
      DroppedBytesShow(e, c.response, f.readBuffer, f.unread);
    }
    hide Stream, Chunks, ReadFile;
  }

  /** The stream of a file that lost its tail behind a full buffer is a different one. */
  lemma DroppedBytesShow(e: Setup, r: Response, buffer: string, lost: string)
    requires |buffer| == e.cap && lost != ""
    ensures Chunks(e.cap, buffer + lost) != Chunks(e.cap, buffer)
    ensures Stream(e, r, buffer + lost) != Stream(e, r, buffer)
  {
    FullChunk(e.cap, buffer, lost);
    FirstSize(e.cap, lost);
    ChunkOfNothing();
    var a, b := Chunks(e.cap, lost), Chunk("") + Chunk("");
    hide Chunk, Chunks, HeadText, ChunkedResponse;
    assert a[0] != b[0];
    assert (Chunk(buffer) + a)[|Chunk(buffer)|] == a[0] && (Chunk(buffer) + b)[|Chunk(buffer)|] == b[0];
    var h := HeadText(ChunkedResponse(e, r));
    assert (h + (Chunk(buffer) + a))[|h| + |Chunk(buffer)|] == a[0] &&
      (h + (Chunk(buffer) + b))[|h| + |Chunk(buffer)|] == b[0];
  }

  lemma FirstSize(cap: Capacity, file: string)
    requires file != ""
    ensures Chunks(cap, file) != "" && Chunks(cap, file)[0] != '0'
  {
    var n := if |file| >= cap then cap else |file|;
    var hex := Print(n, 16);
    assert Chunks(cap, file)[0] == hex[0];
  }

  // ---------- runs ----------

  /** No read callback of the run meets a full buffer while the file still has bytes. */
  predicate NoTruncation(e: Setup, c: Conn, events: seq<Event>)
    decreases |events|
  {
    events == [] || (!Truncates(e, c, events[0]) && NoTruncation(e, Step(e, c, events[0]), events[1..]))
  }

  /** The streams of the GETs a run accepts, one after the other. */
  function AllOrdered(e: Setup, c: Conn, events: seq<Event>): string
    decreases |events|
  {
    if events == [] then "" else Ordered(e, c, events[0]) + AllOrdered(e, Step(e, c, events[0]), events[1..])
  }

  lemma {:induction false} RunKeepsInv(e: Setup, c: Conn, events: seq<Event>)
    requires Inv(e, c)
    ensures Inv(e, Run(e, c, events))
    decreases |events|
  {
    if events != [] {
      StepKeepsInv(e, c, events[0]);
      hide Step, Inv;
      RunKeepsInv(e, Step(e, c, events[0]), events[1..]);
    }
  }

  lemma {:induction false} RunKeepsTotal(e: Setup, c: Conn, events: seq<Event>)
    requires Inv(e, c) && NoTruncation(e, c, events)
    ensures Total(e, Run(e, c, events)) == Total(e, c) + AllOrdered(e, c, events)
    decreases |events|
  {
    if events == [] {
      assert Total(e, c) + "" == Total(e, c);
    } else {
      var next := Step(e, c, events[0]);
      StepKeepsInv(e, c, events[0]);
      StepKeepsTotal(e, c, events[0]);
      hide Step, Inv, Total, Ordered, Truncates;
      RunKeepsTotal(e, next, events[1..]);
      Associate(Total(e, c), Ordered(e, c, events[0]), AllOrdered(e, next, events[1..]));
    }
  }

  /** A client that is ready for input owes nothing: all produced bytes, terminating chunk included, have been sent. */
  lemma ReadyOwesNothing(e: Setup, c: Conn)
    requires Inv(e, c) && c.state.Ready?
    ensures Total(e, c) == c.sent && c.response == NEW_RESPONSE && c.inputFile.None?
  {
    assert c.sent + ("" + "") == c.sent;
  }

  /**
    Keep-alive and schedule independence: whatever the interleaving of reads, writes and requests, once the client is
    ready again it has sent the streams of the accepted GETs, each one a fixed function of header fields and file.
   */
  lemma KeepAliveSendsStreams(e: Setup, c: Conn, events: seq<Event>)
    requires Inv(e, c) && c.state.Ready?
    requires NoTruncation(e, c, events) && Run(e, c, events).state.Ready?
    ensures Run(e, c, events).sent == c.sent + AllOrdered(e, c, events)
  {
    hide Run, Inv, Total, AllOrdered, NoTruncation;
    RunKeepsInv(e, c, events);
    RunKeepsTotal(e, c, events);
    ReadyOwesNothing(e, c);
    ReadyOwesNothing(e, Run(e, c, events));
  }

  // ---------- one GET, and exactly when it arrives whole ----------

  predicate NoGets(events: seq<Event>) {
    forall i :: 0 <= i < |events| ==> !events[i].GetFile?
  }

  /** Nothing more is read from the file. */
  predicate FileClosed(c: Conn) {
    c.inputFile.None? || c.inputFile.value.eof
  }

  lemma ClosedStaysClosed(e: Setup, c: Conn, event: Event)
    requires FileClosed(c) && !event.GetFile?
    ensures FileClosed(Step(e, c, event)) && !Truncates(e, c, event)
  {
    hide Chunk, HeadText, ForChunked, ForFixed, SetFixedSizeBody;
  }

  lemma {:induction false} ClosedRunKeepsTotal(e: Setup, c: Conn, events: seq<Event>)
    requires Inv(e, c) && FileClosed(c) && NoGets(events)
    ensures Total(e, Run(e, c, events)) == Total(e, c)
    decreases |events|
  {
    if events != [] {
      var next := Step(e, c, events[0]);
      ClosedStaysClosed(e, c, events[0]);
      StepKeepsInv(e, c, events[0]);
      StepKeepsTotal(e, c, events[0]);
      assert Ordered(e, c, events[0]) == "" && Total(e, c) + "" == Total(e, c);
      hide Step, Inv, Total, FileClosed;
      ClosedRunKeepsTotal(e, next, events[1..]);
    }
  }

  /** Without new requests the total survives a run exactly when no read met a full buffer. */
  lemma {:induction false} TotalIffNoTruncation(e: Setup, c: Conn, events: seq<Event>)
    requires Inv(e, c) && NoGets(events)
    ensures Total(e, Run(e, c, events)) == Total(e, c) <==> NoTruncation(e, c, events)
    decreases |events|
  {
    if events != [] {
      var next := Step(e, c, events[0]);
      StepKeepsInv(e, c, events[0]);
      StepKeepsTotal(e, c, events[0]);
      if Truncates(e, c, events[0]) {
        assert FileClosed(next);
        hide Step, Inv, Total, FileClosed;
        ClosedRunKeepsTotal(e, next, events[1..]);
      } else {
        assert Ordered(e, c, events[0]) == "" && Total(e, c) + "" == Total(e, c);
        hide Step, Inv, Total, Truncates;
        TotalIffNoTruncation(e, next, events[1..]);
      }
    }
  }

  /**
    A GET on a ready client: when it is ready again, the bytes sent for it are the stream of the whole file exactly
    when no read callback came while the file buffer was full and the file not at its end.
   */
  lemma WholeFileIffNoTruncation(e: Setup, c: Conn, contentType: string, file: string, events: seq<Event>)
    requires Inv(e, c) && c.state.Ready? && NoGets(events)
    requires Run(e, Step(e, c, GetFile(contentType, file)), events).state.Ready?
    ensures Run(e, Step(e, c, GetFile(contentType, file)), events).sent ==
            c.sent + Stream(e, Started(contentType), file) <==>
            NoTruncation(e, Step(e, c, GetFile(contentType, file)), events)
  {
    var event := GetFile(contentType, file);
    var c1 := Step(e, c, event);
    StepKeepsInv(e, c, event);
    StepKeepsTotal(e, c, event);
    ReadyOwesNothing(e, c);
    RunKeepsInv(e, c1, events);
    ReadyOwesNothing(e, Run(e, c1, events));
    TotalIffNoTruncation(e, c1, events);
    hide Step, Run, Inv, Total, NoTruncation, Stream;
  }
}
