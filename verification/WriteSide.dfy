/** The writing half of a client: the file handler, the write buffer and the socket. */
module WriteSide {
  import opened Wrappers
  import opened Numbers
  import opened Headers
  import opened ChunkedCoding
  import opened ResponseModel
  import opened ResponseBuilder
  import opened StreamingModel

  /** A descriptor that is read in short pieces; `unread` are the bytes it can still give. */
  class AsyncInput {
    var hasPendingRead: bool
    var eof: bool
    ghost var unread: string

    constructor (ghost content: string)
      ensures !hasPendingRead && !eof && unread == content
    {
      hasPendingRead, eof := false, false;
      unread := content;
    }

    /** What the system call may return: some of the next bytes, or none at the end or when none are asked for. */
    ghost predicate MayGive(size: nat, got: string)
      reads this
    {
      |got| <= size && got <= unread && (got == "" <==> unread == "" || size == 0)
    }

    method Read(size: nat, got: string) returns (ret: string)
      requires MayGive(size, got)
      modifies this
      ensures if old(hasPendingRead) && !old(eof)
              then ret == got && unread == old(unread)[|got|..] && !hasPendingRead && eof == (got == "")
              else ret == "" && unread == old(unread) && hasPendingRead == old(hasPendingRead) && eof == old(eof)
    {
      if !hasPendingRead {
        return "";
      }
      if eof {
        return "";
      }
      hasPendingRead := false;
      if |got| == 0 {
        eof := true;
        return "";
      }
      unread := unread[|got|..];
      return got;
    }
  }

  /** The bounded buffer between a file and a client. */
  class InFileHandler {
    const bufferSize: Capacity
    var fd: AsyncInput?
    var readBuffer: string
    var eof: bool
    /** What the descriptor still held when it was given up. */
    ghost var dropped: string

    ghost predicate Valid()
      reads this, fd
    {
      |readBuffer| <= bufferSize && (eof <==> fd == null) && (fd != null ==> !fd.eof)
    }

    ghost function Now(): File
      reads this, fd
    {
      File(readBuffer, eof, if fd == null then dropped else fd.unread)
    }

    constructor (cap: Capacity, ghost content: string)
      ensures Valid() && bufferSize == cap && fresh(fd)
      ensures Now() == File("", false, content)
    {
      bufferSize := cap;
      fd := new AsyncInput(content);
      readBuffer, eof := "", false;
      dropped := "";
    }

    method ReadBufferFull() returns (full: bool)
      ensures full == (|readBuffer| >= bufferSize)
    {
      full := |readBuffer| >= bufferSize;
    }

    /** Empties the read buffer, or takes `size` bytes of it. */
    method Read(size: nat) returns (ret: string)
      requires Valid()
      modifies this`readBuffer
      ensures Valid()
      ensures ret + readBuffer == old(readBuffer) && |ret| == Min(size, |old(readBuffer)|)
      ensures size >= bufferSize ==> ret == old(readBuffer) && readBuffer == ""
    {
      var n := if size > bufferSize then bufferSize else size;
      if n == 0 {
        return "";
      }
      if n > |readBuffer| {
        n := |readBuffer|;
      }
      ret := readBuffer[..n];
      readBuffer := readBuffer[n..];
    }

    /** The descriptor is readable: the free space is asked for, and the end of the file closes the descriptor. */
    method ReadCb(got: string)
      requires Valid() && fd != null && fd.MayGive(bufferSize - |readBuffer|, got)
      modifies this, fd
      ensures Valid() && (fd == null || fd == old(fd))
      ensures Now() == ReadFile(bufferSize, old(Now()), |got|)
    {
      fd.hasPendingRead := true;
      var bytes := fd.Read(bufferSize - |readBuffer|, got);
      readBuffer := readBuffer + bytes;
      if fd.eof {
        eof := true;
        dropped := fd.unread;
        fd := null;
      }
    }
  }

  class ClientWriter {
    const setup: Setup
    const response: HttpResponse
    var inputFile: InFileHandler?
    var writeBuffer: string
    var bytesWritten: nat
    var state: State
    /** Every byte the socket has taken. */
    ghost var sent: string

    ghost predicate Valid()
      reads this, inputFile, if inputFile == null then {} else {inputFile.fd}
    {
      inputFile != null ==> inputFile.Valid() && inputFile.bufferSize == setup.cap
    }

    ghost function Now(): Conn
      reads this, response, inputFile, if inputFile == null then {} else {inputFile.fd}
    {
      Conn(response.Now(), writeBuffer, if inputFile == null then None
        else Some(inputFile.Now()), bytesWritten, state, sent)
    }

    constructor (e: Setup)
      ensures Valid() && setup == e && Now() == IDLE && fresh(response)
    {
      setup := e;
      response := new HttpResponse();
      inputFile, writeBuffer, bytesWritten, state := null, "", 0, Ready;
      sent := "";
    }

    /** _buildResponse for a GET of a file. */
    method BuildResponse(contentType: string, ghost content: string)
      requires Valid() && state == Ready
      modifies this, response
      ensures Valid() && Now() == Step(setup, old(Now()), GetFile(contentType, content))
    {
      inputFile := new InFileHandler(setup.cap, content);
      response.SetHeader("Content-Type", contentType);
      state := Building;
    }

    /** _returnHttpErrorToClient without a page of the configuration; `reason` is the entry of the status table. */
    method ReturnHttpErrorToClient(code: int, reason: string, message: string)
      requires Valid()
      modifies this`writeBuffer, this`state, response
      ensures Valid() && Now() == ReturnError(setup, old(Now()), code, reason, message)
    {
      hide HeadText, ResponseModel.SetCode, ForFixed, Insert, Delete;
      writeBuffer := "";
      response.DeleteHeader("Content-Type");
      response.SetCode(code, reason, message);
      if code == 301 {
        response.SetHeader("Location", message);
        response.SetHeader("Content-Length", "0");
      }
      writeBuffer := response.GetFixedBodyResponseAsString(setup.date);
      state := Error;
    }

    /** The file can be read and gives `got`. */
    method FileCb(got: string)
      requires Valid() && inputFile != null && inputFile.fd != null
      requires inputFile.fd.MayGive(setup.cap - |inputFile.readBuffer|, got)
      modifies inputFile, inputFile.fd
      ensures Valid() && Now() == Step(setup, old(Now()), FileReady(|got|))
    {
      inputFile.ReadCb(got);
    }

    /** _readFromFile for a GET. */
    method ReadFromFile()
      requires Valid() && inputFile != null
      modifies this, response, inputFile
      ensures Valid() && (inputFile == null || inputFile == old(inputFile))
      ensures Now() == StreamingModel.ReadFromFile(setup, old(Now()), old(inputFile.Now()))
    {
      hide Chunk, HeadText, SetCode, SetFixedSizeBody, ForFixed, ForChunked, AfterLineSent;
      var full := inputFile.ReadBufferFull();
      if full {
        state := Writing;
        response.SetCode(200, "OK", "");
        if !response.chunked {
          writeBuffer := response.GetHeadersForChunkedResponse(setup.date);
        }
        var data := inputFile.Read(setup.cap);
        var text := response.TransformLineForChunkedResponse(data);
        writeBuffer := writeBuffer + text;
      }
      if inputFile.eof {
        state := Writing;
        var rest := inputFile.Read(setup.cap);
        inputFile := null;
        if !response.chunked {
          response.SetCode(200, "OK", "");
          response.SetFixedSizeBody(rest);
          writeBuffer := response.GetFixedBodyResponseAsString(setup.date);
        } else {
          var text := response.TransformLineForChunkedResponse(rest);
          writeBuffer := writeBuffer + text;
          text := response.TransformLineForChunkedResponse("");
          writeBuffer := writeBuffer + text;
        }
      }
    }

    /** The socket can be written and takes `n` of the bytes it is offered. */
    method WriteCb(n: nat)
      requires Valid()
      modifies this, response, inputFile
      ensures Valid() && Now() == StreamingModel.WriteCb(setup, old(Now()), n)
    {
      hide StreamingModel.ReadFromFile;
      if inputFile != null {
        ReadFromFile();
      }
      if writeBuffer == "" {
        return;
      }
      var offered := if |writeBuffer| > WRITE_SIZE then writeBuffer[..WRITE_SIZE] else writeBuffer;
      state := Writing;
      var written := Min(n, |offered|);
      sent := sent + writeBuffer[..written];
      writeBuffer := writeBuffer[written..];
      bytesWritten := bytesWritten + written;
      if writeBuffer == "" && response.bodyComplete {
        response.Clear();
        inputFile := null;
        bytesWritten := 0;
        state := Ready;
      }
    }
  }
}
