/**
  A file on its way to a client, as a machine of three events: the file can be read, the socket can be written,
  and a new GET arrives once the previous response is out.
 */
module StreamingModel {
  import opened Wrappers
  import opened Numbers
  import opened Headers
  import opened ChunkedCoding
  import opened ResponseModel

  const WRITE_SIZE: nat := 6_000_000

  /** The capacity of the file buffer, 60'000 in the server. */
  type Capacity = n: nat | 0 < n < INT_LIMIT witness 60_000

  /** What stays the same during a run: the capacity and the text of the Date header. */
  datatype Setup = Setup(cap: Capacity, date: string)

  /** The file handler, with the bytes the descriptor still holds. */
  datatype File = File(readBuffer: string, eof: bool, unread: string)

  datatype State = Ready | Building | Writing | Error

  datatype Conn = Conn(response: Response, writeBuffer: string, inputFile: Option<File>, bytesWritten: nat,
    state: State, sent: string)

  const IDLE := Conn(NEW_RESPONSE, "", None, 0, Ready, "")

  datatype Event = FileReady(n: nat) | SocketReady(n: nat) | GetFile(contentType: string, content: string)

  /**
    How many bytes a read of `size` bytes gives: none at the end of the file or when none are asked for, else a
    positive number.
   */
  function ReadCount(unread: string, size: nat, n: nat): (k: nat)
    ensures k <= |unread| && k <= size
    ensures k == 0 <==> unread == "" || size == 0
  {
    var most := Min(size, |unread|);
    if most == 0 then 0 else if n == 0 then 1 else Min(n, most)
  }

  /** The read callback: the free space is asked for, and no bytes at all count as the end of the file. */
  function ReadFile(cap: Capacity, f: File, n: nat): File {
    if f.eof || |f.readBuffer| > cap then f
    else
      var k := ReadCount(f.unread, cap - |f.readBuffer|, n);
      if k == 0 then f.(eof := true) else File(f.readBuffer + f.unread[..k], false, f.unread[k..])
  }

  /** _readFromFile for a GET. */
  function ReadFromFile(e: Setup, c: Conn, f: File): Conn {
    var c1 :=
      if |f.readBuffer| >= e.cap then
        var coded := SetCode(c.response, 200, "OK", "");
        var r := if coded.chunked then coded else ForChunked(coded, e.date);
        var head := if coded.chunked then c.writeBuffer else HeadText(r);
        Conn(AfterLineSent(r, f.readBuffer), head + Chunk(f.readBuffer), Some(f.(readBuffer := "")), c.bytesWritten,
          Writing, c.sent)
      else c;
    if !f.eof then c1
    else
      var rest := if |f.readBuffer| >= e.cap then "" else f.readBuffer;
      if c1.response.chunked then
        Conn(AfterLineSent(AfterLineSent(c1.response, rest), ""), c1.writeBuffer + Chunk(rest) + Chunk(""), None,
          c1.bytesWritten, Writing, c1.sent)
      else
        var r := ForFixed(SetFixedSizeBody(SetCode(c1.response, 200, "OK", ""), rest), e.date);
        Conn(r, HeadText(r) + r.httpBody, None, c1.bytesWritten, Writing, c1.sent)
  }

  /** The socket takes `k` bytes; with everything out and the body complete the response is cleared. */
  function Write(c: Conn, k: nat): Conn
    requires k <= |c.writeBuffer|
  {
    var left := c.writeBuffer[k..];
    var sent := c.sent + c.writeBuffer[..k];
    if left == "" && c.response.bodyComplete then Conn(NEW_RESPONSE, "", None, 0, Ready, sent)
    else Conn(c.response, left, c.inputFile, c.bytesWritten + k, Writing, sent)
  }

  function WriteCb(e: Setup, c: Conn, n: nat): Conn {
    var c1 := if c.inputFile.Some? then ReadFromFile(e, c, c.inputFile.value) else c;
    if c1.writeBuffer == "" then c1 else Write(c1, Min(n, Min(WRITE_SIZE, |c1.writeBuffer|)))
  }

  /** The response a GET starts from: a fresh one with the content type of the file. */
  function Started(contentType: string): Response {
    NEW_RESPONSE.(headers := Insert(NEW_RESPONSE.headers, Field("Content-Type", contentType)))
  }

  /** A GET that arrives while a response is under way is not part of the model: it changes nothing. */
  function Step(e: Setup, c: Conn, event: Event): Conn {
    match event
    case FileReady(n) => if c.inputFile.None? then c else c.(inputFile := Some(ReadFile(e.cap, c.inputFile.value, n)))
    case SocketReady(n) => WriteCb(e, c, n)
    case GetFile(contentType, content) =>
      if !c.state.Ready? then c
      else c.(response := c.response.(headers := Insert(c.response.headers, Field("Content-Type", contentType))),
              inputFile := Some(File("", false, content)), state := Building)
  }

  function Run(e: Setup, c: Conn, events: seq<Event>): Conn
    decreases |events|
  {
    if events == [] then c else Run(e, Step(e, c, events[0]), events[1..])
  }

  /** An error is answered: whatever was to be written is given up for the answer. */
  function ReturnError(e: Setup, c: Conn, code: int, reason: string, message: string): Conn {
    var r := ForFixed(ErrorForm(c.response, code, reason, message), e.date);
    c.(response := r, writeBuffer := HeadText(r) + r.httpBody, state := Error)
  }

  // ---------- what is to be sent ----------

  /** The chunked body of a file: pieces of exactly the capacity, the rest, and the terminating chunk. */
  function Chunks(cap: Capacity, file: string): string
    decreases |file|
  {
    if |file| >= cap then Chunk(file[..cap]) + Chunks(cap, file[cap..]) else Chunk(file) + Chunk("")
  }

  function FixedResponse(e: Setup, r: Response, file: string): Response {
    ForFixed(SetFixedSizeBody(SetCode(r, 200, "OK", ""), file), e.date)
  }

  function ChunkedResponse(e: Setup, r: Response): Response {
    ForChunked(SetCode(r, 200, "OK", ""), e.date)
  }

  /** The whole byte stream of one response: it depends on the header fields and the file alone. */
  function Stream(e: Setup, r: Response, file: string): string {
    if |file| < e.cap then HeadText(FixedResponse(e, r, file)) + file
    else HeadText(ChunkedResponse(e, r)) + Chunks(e.cap, file)
  }

  /** The bytes of the file that have not been framed yet and will be: what was read, and what can still be read. */
  function Rest(f: File): string {
    if f.eof then f.readBuffer else f.readBuffer + f.unread
  }

  /** What the state still owes the socket beyond the write buffer. */
  function Owed(e: Setup, c: Conn): string {
    if c.inputFile.None? then ""
    else if c.response.chunked then Chunks(e.cap, Rest(c.inputFile.value))
    else Stream(e, c.response, Rest(c.inputFile.value))
  }

  /** Sent, buffered and owed bytes together. */
  function Total(e: Setup, c: Conn): string {
    c.sent + (c.writeBuffer + Owed(e, c))
  }

  /**
    Every reachable state: the read buffer never exceeds its capacity, so the free space is never negative; before
    the first framing the write buffer is empty, so the plain assignments to it lose nothing; the body is complete
    exactly when the file has been used up; a client that is ready has nothing left to send; and the state tells a
    response that is being built from one that is being written.
   */
  predicate Inv(e: Setup, c: Conn) {
    match c.inputFile
    case Some(f) =>
      && c.state == (if c.response.chunked then Writing else Building)
      && !c.response.bodyComplete && |f.readBuffer| <= e.cap
      && (c.response.code == -1 || c.response.code == 200)
      && (!c.response.chunked ==> c.writeBuffer == "" && c.response.code == -1)
    case None =>
      if c.state.Ready? then c.response == NEW_RESPONSE && c.writeBuffer == "" && c.bytesWritten == 0
      else c.response.bodyComplete && c.writeBuffer != "" && !c.state.Building?
  }

  /** A read callback on a full buffer asks for nothing, gets nothing, and drops the rest of the file. */
  predicate Truncates(e: Setup, c: Conn, event: Event) {
    event.FileReady? && c.inputFile.Some? && !c.inputFile.value.eof && |c.inputFile.value.readBuffer| >= e.cap &&
      c.inputFile.value.unread != ""
  }

  // ---------- one step ----------

  lemma ReadKeepsRest(cap: Capacity, f: File, n: nat)
    requires |f.readBuffer| <= cap
    ensures |ReadFile(cap, f, n).readBuffer| <= cap
    ensures f.eof || |f.readBuffer| < cap || f.unread == "" ==> Rest(ReadFile(cap, f, n)) == Rest(f)
    ensures !f.eof && |f.readBuffer| == cap ==> ReadFile(cap, f, n) == f.(eof := true)
  {
    if !f.eof {
      var k := ReadCount(f.unread, cap - |f.readBuffer|, n);
      assert f.readBuffer + f.unread == f.readBuffer + f.unread[..k] + f.unread[k..];
      if f.unread == "" {
        assert f.readBuffer + f.unread == f.readBuffer;
      }
    }
  }

  /** A full buffer leaves as one chunk of exactly the capacity. */
  lemma FullChunk(cap: Capacity, buffer: string, unread: string)
    requires |buffer| == cap
    ensures Chunks(cap, buffer + unread) == Chunk(buffer) + Chunks(cap, unread)
    ensures Chunks(cap, buffer) == Chunk(buffer) + (Chunk("") + Chunk(""))
  {
    assert (buffer + unread)[..cap] == buffer && (buffer + unread)[cap..] == unread;
    assert buffer[..cap] == buffer && buffer[cap..] == "";
  }

  lemma ChunkNotEmpty(data: string)
    ensures Chunk(data) != ""
  {
  }

  /** Framing moves bytes from what is owed to the write buffer and loses none that were there. */
  lemma FramingKeepsTotal(e: Setup, c: Conn)
    requires Inv(e, c) && c.inputFile.Some?
    ensures var c1 := ReadFromFile(e, c, c.inputFile.value);
            && c1.writeBuffer + Owed(e, c1) == c.writeBuffer + Owed(e, c)
            && c1.sent == c.sent
  {
    var f := c.inputFile.value;
    hide Chunk, HeadText, ForChunked, ForFixed, SetFixedSizeBody;
    if |f.readBuffer| >= e.cap {
      FullChunk(e.cap, f.readBuffer, f.unread);
      FullFraming(e, c, f);
    } else if f.eof {
      LastFraming(e, c, f);
    }
  }

  lemma FullFraming(e: Setup, c: Conn, f: File)
    requires Inv(e, c) && c.inputFile == Some(f) && |f.readBuffer| == e.cap
    requires Chunks(e.cap, f.readBuffer + f.unread) == Chunk(f.readBuffer) + Chunks(e.cap, f.unread)
    requires Chunks(e.cap, f.readBuffer) == Chunk(f.readBuffer) + (Chunk("") + Chunk(""))
    ensures var c1 := ReadFromFile(e, c, f); c1.writeBuffer + Owed(e, c1) == c.writeBuffer + Owed(e, c)
  {
    hide Chunk, Chunks, HeadText, SetFixedSizeBody;
    assert "" + f.unread == f.unread;
  }

  lemma LastFraming(e: Setup, c: Conn, f: File)
    requires Inv(e, c) && c.inputFile == Some(f) && |f.readBuffer| < e.cap && f.eof
    ensures var c1 := ReadFromFile(e, c, f); c1.writeBuffer + Owed(e, c1) == c.writeBuffer + Owed(e, c)
  {
    hide Chunk, HeadText, ForChunked;
  }

  lemma FramingKeepsInv(e: Setup, c: Conn)
    requires Inv(e, c) && c.inputFile.Some?
    ensures var c1 := ReadFromFile(e, c, c.inputFile.value);
            if c1.inputFile.None? then c1.response.bodyComplete && c1.writeBuffer != "" && c1.state.Writing?
            else Inv(e, c1)
  {
    ChunkNotEmpty("");
    hide Chunk, StartLineText, PrintFields;
  }

  lemma MoveFront(sent: string, buffer: string, k: nat, owed: string)
    requires k <= |buffer|
    ensures (sent + buffer[..k]) + (buffer[k..] + owed) == sent + (buffer + owed)
  {
  }

  lemma WriteKeepsTotal(e: Setup, c: Conn, k: nat)
    requires c.writeBuffer != "" && k <= |c.writeBuffer| && (c.inputFile.Some? ==> !c.response.bodyComplete)
    ensures Total(e, Write(c, k)) == Total(e, c)
  {
    MoveFront(c.sent, c.writeBuffer, k, Owed(e, c));
    hide Chunks, Stream;
  }
}
