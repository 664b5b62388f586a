/** The byte stream of a response, read back by the server's own header loop and by both chunk decoders. */
module StreamReader {
  import opened Text
  import opened Wrappers
  import opened Numbers
  import opened Headers
  import opened RequestHead
  import opened ChunkedCoding
  import opened ChunkedStreams
  import opened ResponseModel
  import opened StreamingModel
  import opened StreamingDelivery

  const NOTHING := Head([], map[])

  predicate GoodFields(m: Fields) {
    Sorted(m) && forall i :: 0 <= i < |m| ==> Printable(m[i])
  }

  lemma InsertKeepsGood(m: Fields, f: Field)
    requires GoodFields(m) && Printable(f)
    ensures GoodFields(Insert(m, f))
  {
    InsertIsOrdered(m, f);
    var t := Insert(m, f);
    forall i | 0 <= i < |t| ensures Printable(t[i]) {
      assert t[i] in multiset(t);
      if t[i] != f {
        assert t[i] in multiset(m);
      }
    }
  }

  lemma DeleteKeepsGood(m: Fields, key: string)
    requires GoodFields(m)
    ensures GoodFields(Delete(m, key))
  {
    DeleteIsOrdered(m, key);
    DeleteIsSubsequence(m, key);
  }

  lemma TokensOfServer()
    ensures IsToken("Server") && IsToken("Date") && IsToken("Content-Type") && IsToken("Content-Length") &&
            IsToken("Transfer-Encoding")
    ensures IsFieldValue(SERVER_NAME) && IsFieldValue("chunked")
  {
  }

  /** The fields are those of the table and no others, each key with its values. */
  ghost predicate HasExactly(m: Fields, table: map<string, seq<string>>) {
    GoodFields(m) && forall key :: Values(m, key) == if key in table then table[key] else []
  }

  /** The fields a response starts from, and those of its two forms. */
  lemma StartedFields(contentType: string, key: string)
    requires IsFieldValue(contentType)
    ensures var m := Started(contentType).headers;
            && GoodFields(m)
            && Values(m, key) ==
                 if key == "Content-Type" then [contentType] else if key == "Server" then [SERVER_NAME] else []
  {
    TokensOfServer();
    var m := NEW_RESPONSE.headers;
    assert m[1..] == [];
    assert GoodFields(m);
    var f := Field("Content-Type", contentType);
    InsertKeepsGood(m, f);
    InsertAppends(m, f, key);
    assert Values(m, key) == (if key == "Server" then [SERVER_NAME] else []) + Values(m[1..], key);
  }

  lemma ReplaceFacts(m: Fields, key: string, value: string, other: string)
    requires GoodFields(m) && IsToken(key) && IsFieldValue(value)
    ensures GoodFields(Replace(m, key, value))
    ensures Values(Replace(m, key, value), other) == if other == key then [value] else Values(m, other)
  {
    DeleteKeepsGood(m, key);
    DeleteRemovesKey(m, key, other);
    InsertKeepsGood(Delete(m, key), Field(key, value));
    InsertAppends(Delete(m, key), Field(key, value), other);
  }

  function FixedTable(e: Setup, contentType: string, length: nat): map<string, seq<string>> {
    map["Content-Length" := [Print(length, 10)], "Content-Type" := [contentType], "Date" := [e.date],
        "Server" := [SERVER_NAME]]
  }

  function ChunkedTable(e: Setup, contentType: string): map<string, seq<string>> {
    map["Content-Type" := [contentType], "Date" := [e.date], "Server" := [SERVER_NAME],
        "Transfer-Encoding" := ["chunked"]]
  }

  lemma FixedField(e: Setup, contentType: string, file: string, key: string)
    requires IsFieldValue(contentType) && IsFieldValue(e.date)
    ensures var m := FixedResponse(e, Started(contentType), file).headers;
            var table := FixedTable(e, contentType, |file|);
            GoodFields(m) && Values(m, key) == if key in table then table[key] else []
  {
    var m := Started(contentType).headers;
    StartedHasNoCode(contentType);
    FixedHeaders(e, Started(contentType), file);
    hide Started, Replace, GoodFields, IsFieldValue, Print, Values, IsToken, FixedResponse;
    StartedFields(contentType, key);
    TokensOfServer();
    PrintIsValue(|file|);
    var m1 := Replace(m, "Content-Length", Print(|file|, 10));
    ReplaceFacts(m, "Content-Length", Print(|file|, 10), key);
    ReplaceFacts(m1, "Date", e.date, key);
  }

  /** The fixed form has the length of the file, and says nothing of chunks. */
  lemma FixedFields(e: Setup, contentType: string, file: string)
    requires IsFieldValue(contentType) && IsFieldValue(e.date)
    ensures HasExactly(FixedResponse(e, Started(contentType), file).headers, FixedTable(e, contentType, |file|))
  {
    hide FixedResponse, Started, GoodFields, Values, FixedTable;
    FixedField(e, contentType, file, "");
    forall key
      ensures var table := FixedTable(e, contentType, |file|);
              Values(FixedResponse(e, Started(contentType), file).headers, key) ==
                if key in table then table[key] else []
    {
      FixedField(e, contentType, file, key);
    }
  }

  lemma FixedHeaders(e: Setup, r: Response, file: string)
    requires r.code == -1
    ensures FixedResponse(e, r, file).headers ==
            Replace(Replace(r.headers, "Content-Length", Print(|file|, 10)), "Date", e.date)
    ensures FixedResponse(e, r, file).code == 200 && FixedResponse(e, r, file).reason == "OK"
  {
    SetCodeOk(r);
    hide Replace, Print, SetCode;
  }

  lemma SetCodeOk(r: Response)
    requires r.code == -1
    ensures SetCode(r, 200, "OK", "") == r.(code := 200, reason := "OK")
  {
    hide ErrorPage, SetFixedSizeBody, Insert;
  }

  lemma StartedHasNoCode(contentType: string)
    ensures Started(contentType).code == -1
  {
  }

  lemma PrintIsValue(n: nat)
    ensures IsFieldValue(Print(n, 10))
  {
    PrintHasNoLineBytes(n, 10);
  }

  lemma ChunkedField(e: Setup, contentType: string, key: string)
    requires IsFieldValue(contentType) && IsFieldValue(e.date)
    ensures var m := ChunkedResponse(e, Started(contentType)).headers;
            var table := ChunkedTable(e, contentType);
            GoodFields(m) && Values(m, key) == if key in table then table[key] else []
  {
    var m := Started(contentType).headers;
    hide Started, Replace, GoodFields, IsFieldValue, Values, IsToken;
    StartedFields(contentType, key);
    StartedHasNoCode(contentType);
    TokensOfServer();
    var m1 := Replace(m, "Date", e.date);
    ReplaceFacts(m, "Date", e.date, key);
    var m2 := Delete(m1, "Content-Length");
    DeleteKeepsGood(m1, "Content-Length");
    DeleteRemovesKey(m1, "Content-Length", key);
    var f := Field("Transfer-Encoding", "chunked");
    FieldIsPrintable(f);
    GoodIsSorted(m2);
    InsertKeepsGood(m2, f);
    InsertAppends(m2, f, key);
  }

  /** The chunked form says that it is, and has no length. */
  lemma ChunkedFields(e: Setup, contentType: string)
    requires IsFieldValue(contentType) && IsFieldValue(e.date)
    ensures HasExactly(ChunkedResponse(e, Started(contentType)).headers, ChunkedTable(e, contentType))
  {
    hide ChunkedResponse, Started, GoodFields, Values, ChunkedTable;
    ChunkedField(e, contentType, "");
    forall key
      ensures var table := ChunkedTable(e, contentType);
              Values(ChunkedResponse(e, Started(contentType)).headers, key) == if key in table then table[key] else []
    {
      ChunkedField(e, contentType, key);
    }
  }

  lemma FieldIsPrintable(f: Field)
    requires IsToken(f.key) && IsFieldValue(f.value)
    ensures Printable(f)
  {
  }

  lemma GoodIsSorted(m: Fields)
    requires GoodFields(m)
    ensures Sorted(m)
  {
  }

  /** A head that was printed is read back as its status and its fields. */
  lemma HeadReadBack(r: Response, body: string)
    requires GoodFields(r.headers) && r.code >= 0 && NoLineBytes(r.reason)
    ensures var s := HeadText(r) + body;
            && HasLine(s) && FirstLine(s) == "HTTP/1.1 " + Print(r.code, 10) + " " + r.reason
            && ReadFields(AfterLine(s), NOTHING).end.AtBlank?
            && ReadFields(AfterLine(s), NOTHING).unread == body
            && ReadFields(AfterLine(s), NOTHING).head.fields == r.headers
  {
    hide HasLine, FirstLine, AfterLine, ReadFields, PrintFields, Print, StartLineText, Printable, Sorted;
    var line := "HTTP/1.1 " + Print(r.code, 10) + " " + r.reason;
    var rest := PrintFields(r.headers) + "\r\n" + body;
    StatusIsOneLine(r.code, r.reason);
    StatusText(r);
    HeaderRoundTrip(r.headers, body);
    LineOf(line, rest);
    HeadIsLineAndRest(line, PrintFields(r.headers), body);
  }

  lemma StatusText(r: Response)
    requires r.code >= 0
    ensures StartLineText(r) == ("HTTP/1.1 " + Print(r.code, 10) + " " + r.reason) + "\r\n"
  {
    hide Print;
  }

  lemma HeadIsLineAndRest(line: string, fields: string, body: string)
    ensures ((line + "\r\n") + fields + "\r\n") + body == line + "\r\n" + (fields + "\r\n" + body)
  {
  }

  lemma StatusIsOneLine(code: nat, reason: string)
    requires NoLineBytes(reason)
    ensures !HasLine("HTTP/1.1 " + Print(code, 10) + " " + reason)
  {
    var digits := Print(code, 10);
    PrintHasNoLineBytes(code, 10);
    hide Print;
    var line := "HTTP/1.1 " + digits + " " + reason;
    forall i | 0 <= i < |line| ensures line[i] != '\n' {
      if 9 <= i < 9 + |digits| {
        assert line[i] == digits[i - 9];
      } else if i > 9 + |digits| {
        assert line[i] == reason[i - 10 - |digits|];
      }
    }
  }

  /**
    What a reader of the stream finds: the status, exactly these fields, which tell how long the body is, and the file
    as the body.
   */
  lemma StreamReadBack(e: Setup, contentType: string, file: string)
    requires IsFieldValue(contentType) && IsFieldValue(e.date)
    ensures var s := Stream(e, Started(contentType), file);
            HasLine(s) &&
            var read := ReadFields(AfterLine(s), NOTHING);
            && FirstLine(s) == "HTTP/1.1 200 OK" && read.end.AtBlank?
            && (if |file| < e.cap then
                  && HasExactly(read.head.fields, FixedTable(e, contentType, |file|))
                  && Stoi(Get(read.head.fields, "Content-Length"), 10) == Some(|file|)
                  && read.unread == file
                else
                  && HasExactly(read.head.fields, ChunkedTable(e, contentType))
                  && CountingDecode(read.unread) == Some(Decoded(file, if |file| % e.cap == 0 then Chunk("") else "")))
  {
    StartedHasNoCode(contentType);
    StatusLine();
    hide Started, Chunk, Chunks, CountingDecode, HeadText, ReadFields, HasLine, FirstLine, AfterLine, Values, Print;
    hide GoodFields, Replace, PrintInt, ChunkedTable, Stoi;
    if |file| < e.cap {
      FixedFields(e, contentType, file);
      HeadReadBack(FixedResponse(e, Started(contentType), file), file);
      StoiOfPrint(|file|, 10);
    } else {
      ChunkedFields(e, contentType);
      HeadReadBack(ChunkedResponse(e, Started(contentType)), Chunks(e.cap, file));
      ChunksDecodeToFile(e.cap, file);
    }
  }

  lemma StatusLine()
    ensures "HTTP/1.1 " + Print(200, 10) + " " + "OK" == "HTTP/1.1 200 OK"
  {
    assert Print(200, 10) == Print(20, 10) + "0" && Print(20, 10) == Print(2, 10) + "0";
    assert Print(200, 10) == "200";
  }

  /** The server's own decoder gets the file back as well when no piece holds a CRLF. */
  lemma OwnDecoderReadsBack(cap: Capacity, file: string, max: nat)
    requires |file| % cap != 0 && |file| <= max && max + INT_LIMIT <= SIZE_LIMIT
    requires forall i :: 0 <= i < |FullPieces(cap, file)| ==> !HasLine(FullPieces(cap, file)[i])
    requires !HasLine(LastPiece(cap, file))
    ensures Body(Chunks(cap, file), FRESH, max) == Fed("", Decoder(file, |file|, 0, true, true), None)
  {
    var full, last := FullPieces(cap, file), LastPiece(cap, file);
    PiecesShape(cap, file);
    LastPieceEmpty(cap, file);
    EncodeSnoc(full, last);
    AllPlain(cap, full, last);
    hide Chunk, Encode, HasLine, FullPieces, LastPiece, Chunks, Feed, Body, Join, Plain;
    ChunkedRoundTrip(full + [last], "", FRESH, max);
    assert "" + file == file;
    TwoChunksLast(Encode(full), Chunk(last), Chunk(""));
  }

  lemma AllPlain(cap: Capacity, full: seq<string>, last: string)
    requires forall i :: 0 <= i < |full| ==> |full[i]| == cap && !HasLine(full[i])
    requires !HasLine(last) && 0 < |last| < cap
    ensures forall i :: 0 <= i < |full + [last]| ==> Plain((full + [last])[i])
  {
    hide HasLine;
  }

  lemma TwoChunksLast(a: string, b: string, c: string)
    ensures (a + b) + c + "" == a + (b + c)
  {
  }
}
