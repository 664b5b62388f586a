# The byte-stream engine of a small HTTP/1.1 server, in Dafny

The server reads requests from sockets in pieces, keeps them in a segmented buffer with cached counters, and parses them
as far as they reach. It answers a GET by streaming a file through a bounded buffer, framed with a length or in chunks,
to a socket that takes whatever it likes. This project models that engine and proves what it keeps, and exactly when it
keeps it.

Every part is done twice. A class has the fields of the original object and methods that change them step by step;
functions on plain values say what a run amounts to. Each method is proved equal to its function, and the properties are
proved about the functions for all inputs, all cuts and all runs.

- **Flat text** (`Text`, `Numbers`): lines ended by CRLF, counting of CRLF pairs, decimal and hexadecimal text,
  `std::stoi` with its blanks, signs, prefixes and range.
- **Segmented input** (`NewlineScan`, `BlankLines`, `SegmentedBuffer`): the four-state automaton of `Buffer::add`, and
  the buffer as a refinement of one byte string. A ghost `history` holds all bytes ever added, `epoch` how many of them
  had come when the buffer was last emptied. In every reachable state, whatever the bytes, each item counts what the
  automaton counted in it, or, at the front, what the recount of `remove` found; everything else is a lemma about that.
- **Requests** (`StartLines`, `Headers`, `Cookies`, `RequestHead`, `ChunkedCoding`, `ChunkedStreams`, `ChunkedLimit`,
  `ChunkedEndings`, `FixedBody`, `RequestModel`, `RequestParser`, `LateLines`, `PrintedRequests`, `ReadRuns`,
  `PrintedRuns`, `Grains`, `GrainRuns`, `ReadSide`): header lines, cookies, the blank-line gate, chunked coding (section
  7.1 of RFC 9112), bodies of declared length (section 6 of RFC 9112), and the read callback. The central result is
  `ReceiveAll`: on the real buffer, however a stream is cut into reads, request and unread bytes come out as from one
  read, although the line counts it goes by may be wrong: a wrong count only delays lines, and a counted line end behind
  them brings them out. `ReceiveHeadThenGrains` shows what the line counts cost to be exact: there is a cut that arrives
  if and only if that line end is there. `ReceiveEncoded`, `ReceiveChunked`, `ReceiveHead` and `ReceiveSized` are the
  instances for requests as a client prints them, `ReceiveRefused` and `ReceiveBadLine` those that are refused,
  `ReceiveRequests` is a run of requests on one connection.
- **Responses** (`ResponseModel`, `ResponseBuilder`, `StreamingModel`, `StreamingRuns`, `StreamingDelivery`,
  `StreamingConservation`, `StreamReader`, `ErrorAnswers`, `WriteSide`): a machine with the events "file readable",
  "socket writable" and "GET arrives". `Total`, the bytes sent, buffered and still owed, is the quantity every event
  keeps. Errors and redirects are answered through the same response.
- **Configuration and routing** (`Config`, `Routing`), **dispatch** (`PollArray`), **CGI output** (`CgiOutput`).

## Where the code does not do what one would expect

Each of these is stated as a lemma with its exact condition, most with an input; the model follows the code.

- Line counters are right after every prefix of a stream exactly when the stream is `Clean`: the CR bytes in front of an
  LF are none or an odd number, or, directly behind a blank line, an even number and not none
  (`LineCountExactIffClean`). `\r\r\n` is not clean, and nothing shorter fails (`ShortestUnclean`). A buffer that holds
  nothing else has a line and does not give it (`MissesLine`); a buffer that was never cut counts some line exactly when
  an LF that the automaton counts is in it (`ScannedSeesIff`). In a chunked body the lines come late, and come out all
  the same for every cut exactly when a counted line end stands where a single delivery stops, or behind (`ReceiveAll`,
  `ReceiveHeadThenGrains`); `NotDue` is a body without one.
- The blank-line counter is positive exactly when some blank line ends behind a line whose run of CR bytes is odd
  (`BlankCountExact`), and tells of blank lines after every prefix exactly when the first one is of that kind
  (`GateExactIffFirstIsOdd`). On `\r\r\n\r\n` the gate stays shut (`HiddenBlankLine`).
- `remove` never lowers the blank-line counter. It tells of all bytes since the buffer was last empty
  (`GateTellsOfEpoch`), and so of the contents exactly when no counted blank line has been taken off since, or another
  is still ahead (`GateTellsIff`). `LeavesGateOpen` is a run that leaves the gate open. Through an open gate the front
  of the next head is taken for all of it, without Host check, length and coding (`OpenGateTakesFront`).
- A blank line in front opens the gate before the start line is there. The start line is there whenever the gate opens
  exactly when the stream does not open with a blank line, or holds none the gate sees (`StartLineIsThereIff`); behind
  `\r\n\r\n` a head counts as read of which nothing has been (`BlankLinePassesForHead`).
- All cuts of a chunked body agree exactly when no empty line stands where a chunk size should, with a line behind it
  (`SegmentationIndependence`); `\r\n\r\n` comes out differently in one delivery and in two (`EmptyLinesStall`).
- The decoder takes a line, not a number of bytes: a chunk survives exactly when it holds no CRLF (`SurvivesIffNoLine`,
  `LineEndDoesNotSurvive`). The body limit is checked against the announced size: it is exceeded exactly when, at a
  chunk that passes the check, the data lines themselves add up to more (`LimitExceededIff`); a sender who announces at
  least what it sends keeps it (`HonestSizesKeepLimit`), as encoded streams do (`EncodedIsHonest`). A negative size
  wraps around and passes exactly when the body already has that many bytes (`NegativeSizePassesIff`).
  `UnderstatedSizePasses` and `NegativeSizePasses` are inputs.
- A declared length of 0 swallows the first delivery (`ExactConsumption`); a later delivery replaces the body instead of
  extending it (`ContentIffFirstArrival`, and `ContentIffFirstRead` for whole requests). `ZeroTakesAByte` has an input
  for each.
- A head gets past the size check at every cut exactly when its blank line ends within the limit; the limit is checked
  only while the head is incomplete (`HeadPassesIffItFits`).
- A file-read callback on a full buffer asks for 0 bytes, gets none and takes that for the end of the file. The client
  gets the whole file exactly when no callback came at such a moment (`WholeFileIffNoTruncation`), and a proper front of
  it otherwise (`FileIsConserved`); a file one byte larger than the buffer, read twice before the socket has its turn,
  is such a run (`ReadingAheadTruncates`). Poll rounds in which the socket is served before the file never bring one
  about (`PollingCompletes`).
- A file whose size is a multiple of the buffer is followed by the terminating chunk twice (`ChunksDecodeToFile`).
- A CGI program without header lines loses the end of its first line (`KeptIffNoLineEnd`, `LosesLineEnd`). One with
  header lines comes out right exactly when the first read holds them all (`OutputReadBackIff`).
- Trailer fields (section 7.1.2 of RFC 9112) are refused (`TrailerIsRefused`).
- A redirect never completes its response: the client does not become ready again (`RedirectNeverReady`).

## Model

| member | source | states |
|---|---|---|
| NewlineScan.LineCountExactIffClean | src/buffer.cpp:34-74 | the automaton's line count equals the number of CRLF pairs after every prefix if and only if the stream is clean |
| NewlineScan.CountsExactIffAgrees | src/buffer.cpp:49-70 | the same from any starting status: counts are right after every prefix if and only if every LF is counted exactly when a CR precedes it |
| NewlineScan.AgreesIffClean | src/buffer.cpp:37-73 | that per-LF agreement, defined on automaton states, is the condition on runs of CR bytes read off the text, which also gives the automaton's status |
| NewlineScan.ShortestUnclean | src/buffer.cpp:37-70 | a line end behind two CR bytes is counted wrong; every shorter text is clean |
| BlankLines.BlankCountSound | src/buffer.cpp:60-64 | on any stream, clean or not, a counted blank line means that CR LF CR LF has been seen |
| BlankLines.BlankCountExact | src/buffer.cpp:37-73 | on any stream the blank-line counter is positive if and only if a blank line has been seen whose first line end stands behind an odd run of CR bytes |
| BlankLines.GateExactIffFirstIsOdd | src/httpMessage/httpRequest/parse.cpp:8-13 | the counter tells of a blank line after every prefix if and only if the first blank line stands behind an odd run of CR bytes |
| BlankLines.HiddenBlankLine | src/httpMessage/httpRequest/parse.cpp:8-13 | an input with a blank line on which the counter stays zero |
| BlankLines.OddBlankIsCounted | src/buffer.cpp:60-64 | the LF that ends the first blank line of that kind is counted, as a line and as a blank line |
| BlankLines.CleanFirstIsOdd | src/buffer.cpp:37-73 | on a clean stream the first blank line is of that kind |
| BlankLines.AgreesBehindBlank | src/buffer.cpp:60-73 | text behind a counted blank line is counted right if and only if it is clean there |
| NewlineScan.AgreesConcat | src/buffer.cpp:31-78 | the automaton's state carries over between two deliveries: a stream agrees if and only if both halves do, the second from where the first ended |
| NewlineScan.ScanRestart | src/buffer.cpp:71-73 | after a byte that is neither CR nor LF it makes no difference what came before |
| SegmentedBuffer.Buffer.constructor | include/buffer.hpp:21-27 | an empty buffer is valid, its counts exact, nothing removed |
| SegmentedBuffer.Buffer.Add | src/buffer.cpp:31-78 | appends to the flat contents and keeps all counters in step with the history, whatever the bytes; counts stay exact if and only if the automaton, where it stands, counts the new bytes right |
| SegmentedBuffer.Buffer.CountLines | src/buffer.cpp:31-78 | the byte loop drives the automaton and gives the new item its own line count |
| SegmentedBuffer.AddedSync | src/buffer.cpp:49-64 | exactness of the contents with the new bytes is exactness before and agreement on the new bytes, a CRLF split over two items included |
| SegmentedBuffer.Buffer.Remove | src/buffer.cpp:144-175 | drops a prefix of the flat contents, or everything; keeps the blank-line counter unless it empties the buffer; keeps counts exact unless it cuts directly behind a CR; all fields are those of `State.Removed` |
| SegmentedBuffer.Buffer.Drain | src/buffer.cpp:151-174 | the item loop ends, across empty items too, and no counter falls below zero |
| SegmentedBuffer.PopsFront | src/buffer.cpp:153-157 | an item used up leaves with its bytes and lines: the totals remain the sums, and every item behind it still counts what the automaton counted in it |
| SegmentedBuffer.CutsFront | src/buffer.cpp:158-173 | an item used in part keeps the pairs that lie wholly in what remains: the totals remain the sums, and the items behind it stay as counted |
| SegmentedBuffer.Buffer.Recount | src/buffer.cpp:165-170 | the recount equals the CRLF pairs lying inside the remaining bytes |
| SegmentedBuffer.Buffer.Clear | src/buffer.cpp:192-197 | empties contents and counters, while the automaton's status stays in step with the whole history |
| SegmentedBuffer.Buffer.Read | src/buffer.cpp:86-101 | the first bytes of the flat contents; a length of 0 gives all of them |
| SegmentedBuffer.Buffer.ReadItems | src/buffer.cpp:86-101 | the nested loop over items and bytes gives that prefix |
| SegmentedBuffer.Buffer.ReadAndRemove | src/buffer.cpp:121-124 | result and remaining contents together are the old contents; counts stay exact unless the result ends in CR |
| SegmentedBuffer.Buffer.At | src/buffer.cpp:177-186 | the byte of the flat contents at the index, or 0 beyond the end |
| SegmentedBuffer.Buffer.Size | include/buffer.hpp:42-42 | the cached size is the length of the flat contents |
| SegmentedBuffer.Buffer.Lines | include/buffer.hpp:41-41 | while counts are exact, the cached total is the number of CRLF pairs and positive if and only if there is a line |
| SegmentedBuffer.Buffer.EmptyLines | include/buffer.hpp:43-43 | positive if and only if the bytes since the buffer was last empty, removed or not, hold a blank line behind an odd run of CR bytes; before anything is removed those are the contents |
| SegmentedBuffer.SyncedIsExact | src/buffer.cpp:50-52 | where the automaton agrees with the text, the cached total is the number of CRLF pairs of the flat contents, over every sequence of operations |
| SegmentedBuffer.CleanIsSynced | src/buffer.cpp:37-73 | on a clean history it agrees behind every removal that does not end in CR |
| SegmentedBuffer.HeadIsSeen | src/buffer.cpp:208-209 | as long as a counted blank line lies ahead the line count is positive, whatever stands in the lines before it: no head line is missed |
| SegmentedBuffer.EndIsSeen | src/buffer.cpp:208-209 | so it is as long as any counted line end lies ahead |
| SegmentedBuffer.ScannedSeesIff | src/buffer.cpp:49-64 | in a buffer that was never cut the line count is positive if and only if an LF that the automaton counts is in it |
| SegmentedBuffer.MissesLine | src/buffer.cpp:208-209 | a run in which the buffer holds a line and does not give it |
| SegmentedBuffer.GateIsExact | src/httpMessage/httpRequest/parse.cpp:8-13 | the gate opens, on any stream, if and only if the contents hold a blank line behind an odd run of CR bytes, on a fresh buffer or on one emptied before and refilled with text that opens with no line byte |
| SegmentedBuffer.GateTellsOfEpoch | src/buffer.cpp:144-175 | whatever has been removed, the gate is open if and only if such a blank line was among the bytes since the buffer was last empty |
| SegmentedBuffer.GateTellsIff | src/buffer.cpp:144-175 | the gate tells of the contents if and only if no counted blank line has been taken off, in whole or in part, since the buffer was last empty, or one is still ahead |
| SegmentedBuffer.LeavesGateOpen | src/buffer.cpp:144-175 | a run that leaves the gate open in front of contents without blank line |
| SegmentedBuffer.Buffer.GetCRLFLine | src/buffer.cpp:205-222 | finds a line if and only if the count is positive and there is one, yields the bytes before the first CRLF and drops through it, else changes nothing; where counts are exact, or a counted line end is ahead, it finds every line; all fields are those of `State.Removed`, or unchanged |
| SegmentedBuffer.Buffer.ScanItems | src/buffer.cpp:210-221 | the nested loop finds the first CRLF of the flat contents, across items |
| Numbers.StoiOfPrint | src/httpMessage/httpRequest/parse_body.cpp:78-79 | a printed number, decimal or hexadecimal, is read back as itself if and only if it is below 2^31 |
| Numbers.StoiReads | src/httpMessage/httpRequest/parse_header.cpp:119-131 | behind any blanks and a sign a decimal number is read as far as its digits go, whatever follows; beyond the range of an int it is refused |
| Numbers.StoiReadsHex | src/httpMessage/httpRequest/parse_body.cpp:78-79 | the same in base 16, with or without 0x |
| Numbers.StoiRefuses | src/httpMessage/httpRequest/parse_body.cpp:78-83 | without a digit behind blanks and sign there is no number |
| ChunkedCoding.SegmentationIndependence | src/httpMessage/httpRequest/parse_body.cpp:64-113 | from any state of an incomplete body: all ways of cutting a stream give body, length, flags, error and unread bytes of the single delivery if and only if no empty line stands where a size should, with a line behind it |
| ChunkedCoding.StallsAtEmptySizeLine | src/httpMessage/httpRequest/parse_body.cpp:71-74 | a delivery leaves a complete line unread, without error or completion, if and only if it meets such an empty line |
| ChunkedCoding.EmptyLinesStall | src/httpMessage/httpRequest/parse_body.cpp:71-74 | an input with two cuts that differ |
| ChunkedCoding.CompleteTakesNothing | src/httpMessage/httpRequest/parse_body.cpp:23-24 | a complete body takes no byte of any delivery |
| ChunkedCoding.EveryCutAgrees | src/httpMessage/httpRequest/parse_body.cpp:64-113 | the same with bytes already waiting in the buffer |
| ChunkedCoding.FeedMore | src/httpMessage/httpRequest/parse_body.cpp:67-110 | bytes that arrive later stay unread behind a stop and otherwise continue where the lines ran out |
| ChunkedCoding.StalledCutDiffers | src/httpMessage/httpRequest/parse_body.cpp:71-74 | every stream that stalls has a cut with a different outcome |
| ChunkedCoding.ChunkedRoundTrip | src/httpMessage/http_response.cpp:114-123 | from any decoder between chunks, an encoded list of non-empty chunks without CRLF adds its concatenation to the body, leaving every later byte, if its size is within the limit, and fails with 413 and an incomplete body otherwise |
| ChunkedCoding.FeedOfEncoded | src/httpMessage/httpRequest/parse_body.cpp:85-108 | decoding stops with 413 at the first chunk that crosses the limit, with the chunks before it in the body and the ones behind it unread |
| ChunkedCoding.CrossingIsFirst | src/httpMessage/httpRequest/parse_body.cpp:86-90 | that chunk is the first whose addition exceeds the limit, and there is none if and only if the sum of sizes fits |
| ChunkedCoding.SurvivesIffNoLine | src/httpMessage/httpRequest/parse_body.cpp:102-108 | from any decoder between chunks, a chunk adds exactly its data to the body if and only if the data holds no CRLF |
| ChunkedCoding.LineEndDoesNotSurvive | src/httpMessage/httpRequest/parse_body.cpp:102-108 | an input: a chunk that is a line end |
| ChunkedCoding.EncodedStaysWithin | src/httpMessage/httpRequest/parse_body.cpp:86-106 | whatever front of an encoded stream has been fed, the body length is that of the body and within the limit |
| ChunkedCoding.EveryStateWithin | src/httpMessage/httpRequest/parse_body.cpp:86-106 | so it is after any number of deliveries of any cut |
| ChunkedLimit.BodyIsPassingData | src/httpMessage/httpRequest/parse_body.cpp:67-110 | on any stream, read as pairs of a size line and a data line: the body is extended by exactly the data of the pairs in front of the first whose announced size fails the check |
| ChunkedLimit.LimitExceededIff | src/httpMessage/httpRequest/parse_body.cpp:86-106 | the limit is exceeded if and only if, at some pair that passes, the data lines themselves add up to more |
| ChunkedLimit.HonestSizesKeepLimit | src/httpMessage/httpRequest/parse_body.cpp:86-106 | when no data line that passes is longer than announced, the limit is kept |
| ChunkedLimit.EncodedIsHonest | src/httpMessage/http_response.cpp:114-123 | the encoder announces each chunk with its own length |
| ChunkedLimit.NegativeSizePassesIff | src/httpMessage/httpRequest/parse_body.cpp:78-87 | a negative size wraps around and passes the check if and only if the body already has that many bytes |
| ChunkedLimit.NegativeSizePasses | src/httpMessage/httpRequest/parse_body.cpp:78-106 | a whole stream on which the limit is exceeded behind a negative size |
| ChunkedLimit.UnderstatedSizePasses | src/httpMessage/httpRequest/parse_body.cpp:86-106 | an input on which the limit is exceeded: one byte announced, three sent, limit one |
| ChunkedEndings.DecodingEnds | src/httpMessage/httpRequest/parse_body.cpp:67-110 | on any stream, with the pairs of a size line and a data line in front of the first that fails the checks taken: the body is complete if and only if a zero size within the limit and an empty line come next; 400 if and only if a size line comes that is neither empty nor a number, or the zero size has another line behind it; 413 if and only if the announced size exceeds the limit; and which bytes are left |
| ChunkedEndings.EmptySizeLineIff | src/httpMessage/httpRequest/parse_body.cpp:71-74 | the cuts of a stream disagree if and only if, behind those pairs, an empty line comes with a line behind it |
| ChunkedEndings.TrailerIsRefused | src/httpMessage/httpRequest/parse_body.cpp:93-99 | any chunks with a trailer field behind the zero size are refused with 400 |
| ChunkedStreams.CountingRoundTrip | src/httpMessage/http_response.cpp:114-123 | a decoder that counts bytes, as section 7.1.3 of RFC 9112 has it, recovers chunks of any content from the encoder's text |
| ChunkedStreams.EncodedAgrees | src/buffer.cpp:37-73 | the automaton counts an encoded stream right, after any history, if and only if every chunk's data ends in an even number of CR bytes |
| ChunkedStreams.SoFarOfEncoded | src/httpMessage/http_response.cpp:114-123 | a decoder under way has recovered the data of all chunks that are complete |
| FixedBody.ExactConsumption | src/httpMessage/httpRequest/parse_body.cpp:37-56 | exactly the declared number of bytes leaves the buffer, for every cut, if and only if that number is positive or nothing arrives; completion comes when the total is reached |
| FixedBody.TakesTheMissing | src/httpMessage/httpRequest/parse_body.cpp:41-54 | the same from a reader in the middle of a body |
| FixedBody.ContentIffFirstArrival | src/httpMessage/httpRequest/parse_body.cpp:43-53 | the body is the declared bytes if and only if the first delivery that brings anything holds them all |
| FixedBody.ZeroTakesAByte | src/httpMessage/httpRequest/parse_body.cpp:41-54 | inputs: a declared length of zero takes a byte, and of two deliveries only the second is kept |
| FixedBody.CompleteKeepsAll | src/httpMessage/httpRequest/parse_body.cpp:23-24 | a complete body touches no later byte |
| Headers.InsertIsOrdered | src/httpMessage/http_message.cpp:58-60 | insertion keeps key order and adds exactly one field |
| Headers.InsertAppends | src/httpMessage/http_message.cpp:58-60 | the new value comes last among those of its key; other keys keep their values |
| Headers.ArrivalOrder | src/httpMessage/http_message.cpp:58-60 | in whatever order fields arrive, the values of each key are stored in their order of arrival |
| Headers.DeleteRemovesKey | src/httpMessage/http_message.cpp:49-56 | all values of one key go, those of other keys stay |
| Headers.ParseLineAccepts | src/httpMessage/http_message.cpp:125-132 | every accepted line gives a key without blanks or colon and a value without line bytes or leading blanks |
| Headers.ParseOfPrintedLine | src/httpMessage/http_message.cpp:125-132 | a printed field is parsed back to itself |
| Headers.ParseLineIff | src/httpMessage/http_message.cpp:125-132 | a line is a header line for a field if and only if it is key, colon, any blanks, value, with a key without blanks or colon, and a value without line bytes or leading blanks |
| RequestHead.HeaderRoundTrip | src/httpMessage/http_message.cpp:81-86 | a printed multimap and an empty line, read by the header loop, give the same multimap, order within equal keys included, and leave exactly the bytes behind |
| RequestHead.HeadEndsAtBlank | src/httpMessage/httpRequest/parse_header.cpp:51-86 | in a stream that does not open with a blank line the start line is found, and a header loop without bad line stops right behind the first blank line |
| RequestHead.FieldsEndAtBlank | src/httpMessage/httpRequest/parse_header.cpp:57-83 | the header loop runs out of lines only when there is no blank line, and at a blank line it is the first |
| RequestHead.FieldsMore | src/httpMessage/httpRequest/parse_header.cpp:57-82 | bytes that arrive later do not change the fields read |
| RequestHead.AddAllCookies | src/httpMessage/httpRequest/parse_header.cpp:74-78 | the cookies of a head are those of its Cookie lines, in their order of arrival |
| Cookies.CookieRoundTrip | src/httpMessage/httpRequest/parse_header.cpp:282-313 | a map of trimmed names and values, printed in any order as in section 4.2.1 of RFC 6265, is read back exactly |
| Cookies.ParseOfPrint | src/httpMessage/httpRequest/parse_header.cpp:282-313 | printed cookies, duplicates included, are stored one after the other |
| Cookies.FillKeepsLast | src/httpMessage/httpRequest/parse_header.cpp:309-309 | of several cookies of one name the last wins; names not printed keep their value |
| Cookies.PiecesAreStored | src/httpMessage/httpRequest/parse_header.cpp:282-313 | any header is read as the pieces between its semicolons, from left to right |
| Cookies.StoresPair | src/httpMessage/httpRequest/parse_header.cpp:298-309 | a piece with an equals sign stores what stands around the first one, without the blanks around name and value |
| Cookies.StoresNothing | src/httpMessage/httpRequest/parse_header.cpp:298-299 | a piece without one stores nothing |
| StartLines.PassesIff | src/httpMessage/httpRequest/parse_header.cpp:31-36 | a start line passes if and only if it is a method of the list, a target without blanks that fits the pattern, and a version, with one blank between them |
| StartLines.StartLineReadBack | src/httpMessage/httpRequest/parse_header.cpp:37-46 | a printed start line is read back: method, path, what stands behind the first question mark, version |
| StartLines.NameReadBack | src/util.cpp:144-162 | each method is read from its name; the pattern names all but CONNECT and TRACE |
| PrintedRequests.FirstHostDecides | src/httpMessage/httpRequest/parse_header.cpp:98-102 | over printed heads, their fields in any order: the Host line that comes first decides by its value whether the head is refused with 400; without one it is refused if and only if the version is HTTP/1.1 |
| PrintedRequests.HeadIsChecked | src/httpMessage/httpRequest/parse_header.cpp:35-104 | a head whose start line does not fit is refused with 400; behind one that does, it is refused if and only if its first Host does not fit, or there is none and the protocol is HTTP/1.1 |
| PrintedRequests.BadLineIsRefused | src/httpMessage/httpRequest/parse_header.cpp:64-73 | a line that is no header line, behind any header lines, is refused with 400 |
| RequestModel.HostWithoutPort | src/httpMessage/httpRequest/parse_header.cpp:139-146 | of the first Host only what stands in front of the colon is kept, and it goes behind the other Hosts; every other key keeps its values in their order |
| RequestModel.NameIsKept | src/httpMessage/httpRequest/parse_header.cpp:139-146 | of name:port the name is kept; without a colon the Hosts stay as they are |
| RequestModel.HeaderWaits | src/httpMessage/httpRequest/parse.cpp:8-13 | before a blank line that the gate sees is complete, over any reads, request and bytes stay untouched; only their number is checked |
| RequestModel.HeadPassesIffItFits | src/client/client_callbacks.cpp:96-100 | an incomplete head passes the size check at every possible cut if and only if its blank line ends within the limit |
| RequestModel.HeaderMore | src/httpMessage/httpRequest/parse_header.cpp:10-16 | once the blank line is there, later bytes do not change the head and stay unread |
| RequestModel.BodyCuts | src/httpMessage/httpRequest/parse.cpp:27-32 | whether body bytes come with the head or later makes no difference, for absent, chunked and declared-length bodies; the content of the last is left to the next row |
| RequestModel.ContentIffFirstRead | src/httpMessage/httpRequest/parse_body.cpp:41-54 | the content of a declared-length body, over every cut, is the declared bytes if and only if the first read that brings any of them brings them all |
| RequestModel.RequestCuts | src/httpMessage/httpRequest/parse.cpp:7-33 | segmentation independence of whole requests with bytes already waiting |
| RequestModel.RequestSegmentation | src/httpMessage/httpRequest/parse.cpp:7-33 | every cut of a stream gives request, error and unread bytes of one read |
| RequestModel.StartLineIsThereIff | src/httpMessage/httpRequest/parse_header.cpp:18-27 | at every front of a stream on which the gate opens the start line is there, if and only if the stream does not open with a blank line or holds none the gate sees |
| RequestModel.BlankLinePassesForHead | src/httpMessage/httpRequest/parse_header.cpp:18-27 | an input on which a head counts as read of which nothing has been |
| PrintedRequests.OpenGateTakesFront | src/httpMessage/httpRequest/parse.cpp:8-16 | a front of a head waits at a shut gate, and passes for the whole head at an open one: no Host is asked for, no length and no coding is set |
| RequestModel.OpenGateHarmlessIff | src/httpMessage/httpRequest/parse.cpp:8-16 | with the gate open the outcome is that of the right gate if and only if the blank line is there |
| RequestModel.LinesEndBody | src/httpMessage/httpRequest/parse_body.cpp:120-141 | a body with neither length nor chunking, in one delivery: the first line is the body, a second line ends it |
| RequestModel.BytesAreReplaced | src/httpMessage/httpRequest/parse_body.cpp:120-126 | an input: without a line end, the second of two deliveries is kept alone and its length is not counted |
| RequestParser.HttpRequest.constructor | include/httpMessage/http_request.hpp:32-51 | a request starts with nothing read and nothing set |
| RequestParser.HttpRequest.AddChunkedContent | src/httpMessage/httpRequest/parse_body.cpp:64-113 | on any segmented buffer, whatever its counts: decoding the old contents and any bytes behind comes to what decoding goes on to from here, or to what it has ended with, and no counted line end is left ahead; with exact counts it is the decoder on the flat contents |
| LateLines.LineDelivered | src/httpMessage/httpRequest/parse_body.cpp:67-110 | one more line of the loop keeps that, for whatever bytes come behind |
| LateLines.BodyGoesOn | src/httpMessage/httpRequest/parse_body.cpp:64-113 | a delivery, however late its lines, ends the body as the single delivery ends it or leaves the run on its way there |
| LateLines.BodyArrived | src/httpMessage/httpRequest/parse_body.cpp:64-113 | when all has been delivered and a counted line end stood where decoding stops, or behind, the outcome is that of the single delivery |
| LateLines.BodyIsWithinTarget | src/httpMessage/httpRequest/parse_body.cpp:102-106 | on the way the body is never larger than at the end |
| LateLines.NotDue | src/buffer.cpp:49-59 | a body whose line end no count tells of, with nothing behind it |
| Grains.RemovedGrained | src/buffer.cpp:151-174 | in a buffer filled with pieces of one byte and the LFs behind it, removals and their recounts leave no item a count without a counted line end in it |
| Grains.LineStep | src/buffer.cpp:205-222 | such a buffer gives a line only when a counted line end stands where the line ends, or behind |
| GrainRuns.GrainRead | src/client/client_callbacks.cpp:81-88 | one read of such a piece keeps a due body on its way, and takes of any body only what a counted line end stands behind |
| RequestParser.HttpRequest.TakeChunkLine | src/httpMessage/httpRequest/parse_body.cpp:68-109 | one line on the fields of the object, as the decoder has it that `DecodingEnds` is about |
| RequestParser.HttpRequest.AddToFixedContentSize | src/httpMessage/httpRequest/parse_body.cpp:37-56 | on any valid buffer, exact counts or not, consumption and replaced body are those of the flat reader |
| RequestParser.HttpRequest.ParseBody | src/httpMessage/httpRequest/parse_body.cpp:12-30 | picks the reader and refines it on the flat contents, a chunked one on any buffer in the sense of `AddChunkedContent` |
| RequestParser.HttpRequest.ReadHeaderLines | src/httpMessage/httpRequest/parse_header.cpp:51-82 | in front of a counted blank line the header loop on the buffer reads what it reads on the flat contents, whatever the line counts of the head are |
| RequestParser.HttpRequest.SkipToStartLine | src/httpMessage/httpRequest/parse_header.cpp:18-27 | skips empty lines and stops at the first other one, with the counted blank line still ahead |
| RequestParser.HttpRequest.SetVars | src/httpMessage/httpRequest/parse_header.cpp:113-147 | declared length, chunked flag, and Host without its port, as the fields that `HostWithoutPort`, `SizedHead` and `ChunkedHead` are about |
| RequestParser.HttpRequest.ParseHeader | src/httpMessage/httpRequest/parse_header.cpp:10-16 | start line, then the header loop and the checks, on the buffer as on the flat contents |
| RequestParser.HttpRequest.ParseStartLine | src/httpMessage/httpRequest/parse_header.cpp:31-49 | the line behind the pattern, cut with find and substr, is what `StartLineReadBack` is about |
| RequestParser.HttpRequest.ParseHttpHeaders | src/httpMessage/httpRequest/parse_header.cpp:51-86 | the header loop on the buffer, and checks and settings only behind an empty line |
| RequestParser.HttpRequest.TakeHead | src/httpMessage/httpRequest/parse.cpp:8-16 | once the gate is open the head is read as on the flat contents, and the bytes behind it are as the body needs them |
| RequestParser.HttpRequest.Clear | src/httpMessage/httpRequest/http_request.cpp:65-70 | back to the state of a new request |
| RequestParser.HttpRequest.ParseCookieHeader | src/httpMessage/httpRequest/parse_header.cpp:282-313 | the loop over positions ends and stores what the recursive reading stores |
| RequestParser.HttpRequest.Parse | src/httpMessage/httpRequest/parse.cpp:7-33 | the phases in order. With exact counts: on the buffer as on the flat contents, for every gate, stale or not, and every stream. With any counts: the gate is open if and only if the contents hold a blank line it sees, the head is read as on the flat contents, and the body goes on as `AddChunkedContent` or the other readers do |
| PrintedRequests.BlankEndsHead | src/httpMessage/http_message.cpp:81-86 | the first blank line of a printed request is the one that ends its head, and no blank line opens it |
| PrintedRequests.PrintedHeadIsSeen | src/httpMessage/httpRequest/parse.cpp:8-13 | the gate sees that blank line, and none before it |
| PrintedRequests.PrintedHeadIsClean | src/buffer.cpp:37-73 | a printed head is clean, and a stream that begins with it is clean if and only if what follows is clean behind a blank line |
| PrintedRequests.EncodedIsClean | src/buffer.cpp:37-73 | a stream is clean with an encoded body behind it if and only if it is clean itself and every chunk ends in an even number of CR bytes |
| PrintedRequests.BehindEncoded | src/buffer.cpp:37-73 | an encoded body and later bytes are clean behind a blank line if and only if the chunks end so and the later bytes are clean behind one |
| PrintedRequests.PrintedHeadIsRead | src/httpMessage/httpRequest/parse_header.cpp:10-16 | header round trip for whole heads, their fields in any order: the request has the start line, every key with its values in their order of arrival, the first Host without its port, the cookies, and the bytes behind stay |
| PrintedRequests.CookiesOfHead | src/httpMessage/httpRequest/parse_header.cpp:75-78 | a map of cookies printed as the one Cookie line of a head is the cookies of the request |
| PrintedRequests.PrintedRequest | src/httpMessage/httpRequest/parse.cpp:7-33 | every cut of a printed request comes out as its head followed by its body |
| PrintedRequests.EncodedRequest | src/httpMessage/httpRequest/parse_body.cpp:64-113 | however a printed head, its encoded body and later bytes are cut into reads: the body is the concatenation of the chunks, complete, and the later bytes stay, or the request fails with 413 when the chunks exceed the limit |
| ReadRuns.HeadOfFront | src/client/client_callbacks.cpp:81-88 | every front of a stream that holds the head has the head of the stream, and reads as head and then body |
| ReadRuns.HeadRead | src/client/client_callbacks.cpp:81-88 | a read while the head is awaited leaves everything in place or gets past the head with the location resolved |
| ReadRuns.ChunksGoOn | src/client/client_callbacks.cpp:81-88 | a read in a chunked body ends the request as the single read ends it, or keeps the run on its way there |
| ReadRuns.NextRead | src/client/client_callbacks.cpp:63-100 | each read keeps the run on its way; outside chunked bodies it is the read of the flat model |
| ReadSide.ClientReader.ReadCb | src/client/client_callbacks.cpp:63-100 | one read on the segmented buffer, whatever its line counts: it waits for the head, reads it as on the flat contents, and takes the body on; where counts can be relied on it is the read of the flat model; in any case buffer and request stay sound |
| ReadSide.ClientReader.ReceiveAll | src/client/client_callbacks.cpp:63-100 | a whole run of reads on the real buffer: request and unread bytes are those of a single read, however the stream is cut; heads and bodies may hold anything, a chunked body only needs a counted line end where it stops or behind; no state on the way has a larger body; the buffer stays sound for what follows |
| ReadSide.ClientReader.ReceiveGrains | src/client/client_callbacks.cpp:63-100 | a chunked body in pieces of one byte and the LFs behind it ends as a single delivery if and only if a counted line end stands where that stops, or behind |
| ReadSide.ClientReader.ReceiveHeadThenGrains | src/client/client_callbacks.cpp:63-100 | a head in one piece, then its body cut like that, comes out as one read of the stream if and only if the condition of `ReceiveAll` on the body holds |
| ReadSide.ClientReader.ReceiveRequests | src/client/client_callbacks.cpp:47-60 | a run of requests on one connection, each cut in any way: each comes out as from one read on a fresh connection |
| ReadSide.ClientReader.ReceiveEncoded | src/httpMessage/httpRequest/parse_body.cpp:64-113 | chunked round trip through the segmented buffer, for every cut of head, encoded body and any later bytes, whatever the line counts, the 413 case included; no state on the way has a body above the limit |
| ReadSide.ClientReader.ReceiveChunked | src/httpMessage/httpRequest/parse_body.cpp:64-113 | a chunked body of any kind through the segmented buffer: completion, 400, 413, content and unread bytes as `DecodingEnds` tells them |
| ReadSide.ClientReader.ReceiveRefused | src/httpMessage/httpRequest/parse_header.cpp:35-104 | for every cut and any bytes behind, a printed head is refused with 400 for its start line or its Host, or with the code its location is refused with |
| ReadSide.ClientReader.ReceiveBadLine | src/httpMessage/httpRequest/parse_header.cpp:64-73 | for every cut, a head with a line that is no header line is refused with 400 |
| ReadSide.ClientReader.ReceiveHead | src/httpMessage/httpRequest/parse_header.cpp:51-86 | header round trip through the segmented buffer, for every cut and any bytes behind: a GET, HEAD, DELETE, OPTIONS, TRACE or CONNECT is complete with its head, and has start line, fields and cookies as they were printed, the Host without its port |
| ReadSide.ClientReader.ReceiveSized | src/httpMessage/httpRequest/parse_body.cpp:37-56 | for a POST, PUT or PATCH with a declared length within the limit that number of bytes, or as many as have come, leaves the segmented buffer, for every cut, and the body is complete if and only if all have come; a length beyond the limit, as a negative one is, is refused with 413 when the first byte of the body is there |
| PrintedRuns.EncodedIsDue | src/httpMessage/http_response.cpp:114-123 | the LF that ends an encoded body is counted whatever came before, and decoding stops there or earlier |
| PrintedRuns.EncodedIsOneRequest | src/httpMessage/httpRequest/parse_body.cpp:64-113 | encoded requests within the limit are what a run of requests is made of |
| PrintedRuns.SizedIsOneRequest | src/httpMessage/httpRequest/parse_body.cpp:37-56 | so are requests of declared length |
| PrintedRuns.UnreadableLengthSwallows | src/httpMessage/httpRequest/parse_header.cpp:119-131 | a declared length that is no number counts as zero, which takes all that comes with the head for the body |
| PrintedRuns.HeadIsOneRequest | src/httpMessage/httpRequest/parse.cpp:28-29 | and requests without body |
| ResponseBuilder.HttpResponse.constructor | src/httpMessage/http_response.cpp:9-13 | a response starts with the Server field alone |
| ResponseBuilder.HttpResponse.Clear | src/httpMessage/http_response.cpp:147-155 | back to the state of a fresh response |
| ResponseBuilder.HttpResponse.SetCode | src/httpMessage/http_response.cpp:48-83 | the first code stays; error codes bring their page |
| ResponseBuilder.HttpResponse.SetFixedSizeBody | src/httpMessage/http_response.cpp:85-92 | body, its length in the one Content-Length field, and completion |
| ResponseBuilder.HttpResponse.GetHeadersForChunkedResponse | src/httpMessage/http_response.cpp:99-112 | head of a chunked response on the fields of the object; `ChunkedFields` says which fields that leaves |
| ResponseBuilder.HttpResponse.TransformLineForChunkedResponse | src/httpMessage/http_response.cpp:114-123 | one chunk, the text the decoder lemmas are about; an empty one completes the body |
| ResponseBuilder.HttpResponse.GetFixedBodyResponseAsString | src/httpMessage/http_response.cpp:125-135 | head and body of a response with a length |
| StreamingModel.ReadKeepsRest | src/file_handler.cpp:67-82 | a read never overfills the buffer and keeps what will be framed, except on a full buffer, where it only marks the end |
| StreamingModel.FramingKeepsTotal | src/client/client_file_handling.cpp:21-55 | framing moves bytes from owed to buffered; the assignments to the write buffer lose nothing |
| StreamingModel.WriteKeepsTotal | src/client/client_callbacks.cpp:40-60 | a partial write moves a prefix from buffered to sent; the reset discards nothing |
| StreamingRuns.StepKeepsInv | src/client/client_callbacks.cpp:10-61 | in every reachable state: read buffer within capacity, write buffer empty before the first framing, body complete only when the file is used up, a ready client has a fresh response and nothing to send |
| StreamingRuns.StepKeepsTotal | src/client/client_file_handling.cpp:21-55 | an event adds the stream of an accepted GET to the total and nothing else, and changes it otherwise exactly when it truncates |
| StreamingRuns.SentAndCounted | src/client/client_callbacks.cpp:24-43 | an event sends at most the size of one write, behind what was sent before, and the counter of written bytes grows by the same until the client is ready |
| StreamingRuns.ReadyOwesNothing | src/client/client_callbacks.cpp:47-60 | a client ready for input has sent every byte, terminating chunk included, and is back in its fresh state |
| StreamingRuns.KeepAliveSendsStreams | src/client/client_callbacks.cpp:47-60 | over any run without truncation, from ready to ready, the bytes sent are the streams of the accepted GETs one after the other, whatever the interleaving |
| StreamingRuns.TotalIffNoTruncation | src/async/input.cpp:63-74 | over any run the total survives if and only if no read met a full buffer with file left |
| StreamingRuns.WholeFileIffNoTruncation | src/async/input.cpp:63-74 | a GET sends the stream of the whole file if and only if no read met a full buffer with file left |
| StreamingDelivery.PiecesShape | src/client/client_file_handling.cpp:21-55 | the chunks are the file cut into pieces of exactly the buffer size and a shorter last one |
| StreamingDelivery.LastPieceEmpty | src/client/client_file_handling.cpp:51-54 | the last piece is empty if and only if the file is a multiple of the buffer |
| StreamingDelivery.ChunksDecodeToFile | src/client/client_file_handling.cpp:51-54 | the chunked body is decoded to the file; a second terminating chunk is left over if and only if the file is a multiple of the buffer |
| StreamingConservation.Conservation | src/file_handler.cpp:67-82 | in every state of a GET, also after truncation: framed chunks, read buffer and unread file are the file; once the file is used up, what was sent and is buffered is the stream of it, or of a front of at least one buffer |
| StreamingConservation.FileIsConserved | src/client/client_file_handling.cpp:21-55 | from a ready client, at any moment of a GET: what a decoder recovers from the bytes sent and buffered, then the read buffer, then the unread file, are the file; at the end the stream is that of the whole file if and only if no read met a full buffer with file left |
| StreamingConservation.StreamsDiffer | src/httpMessage/http_response.cpp:114-123 | the streams of a file and of a proper front of at least one buffer differ |
| StreamingConservation.ReadingAheadTruncates | src/async/input.cpp:63-74 | a run that truncates: a file one byte larger than the buffer, read twice before the socket has its turn |
| StreamingDelivery.RoundProgress | src/async/pollarray.cpp:68-82 | a round in which socket, then file are ready truncates nothing and leaves strictly less to do |
| StreamingDelivery.PollingCompletes | src/async/pollarray.cpp:36-83 | enough such rounds bring any state to ready without truncation |
| StreamReader.StreamReadBack | src/client/client_file_handling.cpp:21-55 | a reader finds the status line, exactly the fields Content-Type, Date, Server and either the length of the file or the chunked coding, each with its value, and the file as the body, in both forms |
| StreamReader.HeadReadBack | src/httpMessage/http_message.cpp:81-86 | the printed head of a response, whatever its code, is read back as its status and its fields |
| StreamReader.FixedFields | src/httpMessage/http_response.cpp:85-92 | the fixed form has exactly its content type, date, server and the length of the file |
| StreamReader.ChunkedFields | src/httpMessage/http_response.cpp:99-112 | the chunked form has exactly its content type, date, server and the coding, and no length |
| StreamReader.OwnDecoderReadsBack | src/httpMessage/httpRequest/parse_body.cpp:64-113 | the server's own decoder recovers the file when no piece holds a CRLF and the last is not empty |
| ErrorAnswers.ErrorReadBack | src/client/client_util.cpp:14-51 | the answer to an error replaces what was to be written and is read back: its code as the status, exactly the fields content type, date, server and the length of the page, and the page |
| ErrorAnswers.PageTells | src/httpMessage/http_response.cpp:58-83 | the page has code and reason for a title, and shows the message if there is one |
| ErrorAnswers.FirstCodeStays | src/httpMessage/http_response.cpp:48-51 | an answer behind a code that was set before has that code and the body that was there |
| ErrorAnswers.ErrorIsSent | src/client/client_callbacks.cpp:40-60 | however the socket takes it, an answered error goes out as it is, and then the response is fresh |
| ErrorAnswers.RedirectReadBack | src/client/client_util.cpp:23-27 | a redirect is read back as its code, the place to go to and no body |
| ErrorAnswers.RedirectNeverReady | src/client/client_callbacks.cpp:47-60 | behind a redirect no event of file or socket makes the client ready again |
| WriteSide.AsyncInput.constructor | src/async/input.cpp:26-34 | no read pending, not at the end |
| WriteSide.AsyncInput.Read | src/async/input.cpp:46-77 | gives what the system call gave, once per event, and takes no bytes for the end |
| WriteSide.InFileHandler.constructor | src/file_handler.cpp:11-20 | an empty buffer in front of the whole file |
| WriteSide.InFileHandler.Read | src/file_handler.cpp:30-44 | takes a prefix of the buffer, or all of it |
| WriteSide.InFileHandler.ReadCb | src/file_handler.cpp:67-82 | the read step of the machine; the space left is never negative, the end closes the descriptor |
| WriteSide.ClientWriter.constructor | src/client/client.cpp:18-23 | an idle connection |
| WriteSide.ClientWriter.BuildResponse | src/client/client_build_response.cpp:44-50 | the step of the machine in which a GET arrives |
| WriteSide.ClientWriter.ReturnHttpErrorToClient | src/client/client_util.cpp:14-51 | the answer to an error, as `ErrorReadBack` and `RedirectReadBack` are about |
| WriteSide.ClientWriter.FileCb | src/file_handler.cpp:67-82 | the step of the machine in which the file is readable |
| WriteSide.ClientWriter.ReadFromFile | src/client/client_file_handling.cpp:21-55 | choice of framing and draining of the file buffer, as the machine has them |
| WriteSide.ClientWriter.WriteCb | src/client/client_callbacks.cpp:10-61 | the step of the machine in which the socket is writable, for every number of bytes it takes |
| Config.MainConfig.OverrideDefaults | src/config/config.cpp:13-47 | every server and location has the explicit value nearest to it, else its built-in one; CGIs are its own or the server's; nothing else changes |
| Config.MainConfig.ResolveServer | src/config/config.cpp:15-45 | the same for one server, although its locations see the server's new values |
| Config.InheritResolves | src/config/config.cpp:28-31 | inheriting level by level gives the nearest explicit value of all levels |
| Config.CascadeIsIdempotent | src/config/config.cpp:13-47 | applying the cascade twice changes nothing more |
| Config.LocationGets | src/config/config.cpp:28-44 | each location has its own explicit value, else the explicit one of its server, else that of the main block, else its built-in one, for body limit, methods and autoindex; its CGIs are its own or the server's |
| Config.ServerGets | src/config/config.cpp:15-27 | each server has its own explicit value, else that of the main block, else its built-in one |
| Config.NearestExplicitWins | src/config/config.cpp:28-31 | over any levels the nearest explicit value wins |
| Config.MainConfig.SetServerNameAndPortArrays | src/config/config.cpp:49-62 | maps and port list agree with linear scans over all servers |
| Config.MainConfig.EnterPorts | src/config/config.cpp:51-60 | entries of an earlier server are never replaced |
| Config.PortsIndexGrows | src/config/config.cpp:53-53 | entering one more server keeps the port map equal to the scan |
| Config.NamesIndexGrows | src/config/config.cpp:58-58 | entering one more server keeps the name map equal to the scan |
| Config.MainConfig.GetServer | src/config/config.cpp:101-111 | the lowest-numbered server on the port with the name, if a name is given and there is one; else the lowest-numbered on the port; none if and only if no server has the port |
| Config.MainConfig.PortsAreThoseInUse | src/config/config.cpp:54-55 | the port list has no duplicates and is exactly the ports in use |
| Routing.MatchLocation | src/httpMessage/httpRequest/parse_header.cpp:178-193 | the first location whose reference begins the address, or is the address of a directory with its slash added, with its path; none exactly when there is none |
| Routing.ServesLongest | src/config/config.cpp:146-148 | on a sorted list that location's reference is at least as long as that of every other that would serve |
| Routing.FirstMatchIsLongest | src/config/config.cpp:146-148 | on a sorted list the first match is at least as long as every other match |
| Routing.ChoiceIsUnique | src/config/config.cpp:146-148 | the chosen reference is the same for every order of references of equal length |
| Routing.NoMatchIffNoPrefix | src/httpMessage/httpRequest/parse_header.cpp:279-280 | no match exactly when no configured reference is a prefix |
| PollArray.RoundIsExact | src/async/pollarray.cpp:36-83 | every delivery goes to the registration its result was built from, in order and once, never to one added in the round; delivered are exactly the reported events whose descriptor and handler are there when their turn comes; and the world is that of these callbacks |
| PollArray.Aligned | src/async/pollarray.cpp:68-82 | slots and results stay paired while callbacks append, close and drop |
| PollArray.DeliveredInOrder | src/async/pollarray.cpp:70-82 | deliveries are in slot and bit order, none twice |
| PollArray.DeliveredIffDue | src/async/pollarray.cpp:71-80 | whatever callbacks do, an event is delivered if and only if it was reported and, at its turn, its descriptor is there with a handler |
| PollArray.DeliveredIfLive | src/async/pollarray.cpp:72-79 | while callbacks only append to the list, that descriptor is the one the result was built from |
| PollArray.WorldFollowsLog | src/async/pollarray.cpp:71-81 | the world after a round is that of the delivered callbacks called one after the other, and nothing else changes it |
| PollArray.CleanedKeepsTheLiving | src/async/pollarray.cpp:29-34 | the clean-up keeps every registration whose descriptor is there and open, as often as it stood, and no other |
| PollArray.AsyncPollArray.constructor | include/async/pollarray.hpp:11-25 | no registrations |
| PollArray.AsyncPollArray.DoCleanup | src/async/pollarray.cpp:29-34 | the loop over the list keeps the registrations of open descriptors, each as often as it stood and in their order, and drops all others |
| PollArray.AsyncPollArray.Poll | src/async/pollarray.cpp:36-83 | the double walk is the walk over all turns that the lemmas are about |
| PollArray.AsyncPollArray.DispatchSlot | src/async/pollarray.cpp:71-81 | the bits of one result, in the order of the table |
| CgiOutput.OutputStaysWithin | src/httpMessage/cgi_message.cpp:77-83 | both buffers together stay within the limit, whatever the program prints |
| CgiOutput.ExceededIsGivenUp | src/httpMessage/cgi_message.cpp:77-83 | a read that would exceed the limit is noted and gives up all that was there, itself included, and no other read does |
| CgiOutput.OutputReadBack | src/httpMessage/cgi_message.cpp:70-125 | when the first read holds all printed header lines, headers and body are what was printed, and the size limit is reported if and only if the output exceeds it |
| CgiOutput.OutputReadBackIff | src/httpMessage/cgi_message.cpp:70-125 | headers and body come out right if and only if the first read holds all header lines and the empty line behind them |
| CgiOutput.CutHeadIsBody | src/httpMessage/cgi_message.cpp:109-124 | otherwise bytes of the head are in the body |
| CgiOutput.BadLineIsLost | src/httpMessage/cgi_message.cpp:109-118 | a line that is no header line, behind header lines, ends them and is lost |
| CgiOutput.TakesUnixLine | src/httpMessage/http_message.cpp:109-123 | a line of the output may end in an LF alone |
| CgiOutput.CompleteIffEndSeen | src/httpMessage/cgi_message.cpp:71-75 | over any callbacks the output is complete if and only if the end of the pipe has been seen, which changes nothing else |
| CgiOutput.BodyReads | src/httpMessage/cgi_message.cpp:121-124 | after the headers every read goes to the body byte for byte if and only if the limit allows |
| CgiOutput.KeptIffNoLineEnd | src/httpMessage/cgi_message.cpp:90-106 | a first read that opens with no header line keeps all its bytes if and only if it holds no line end |
| CgiOutput.LosesLineEnd | src/httpMessage/cgi_message.cpp:90-106 | an input: two lines come out as one |
| CgiOutput.CgiMessage.ReadCb | src/httpMessage/cgi_message.cpp:70-125 | the callback does what the flat reader does |
| CgiOutput.CgiMessage.ReadHeaders | src/httpMessage/cgi_message.cpp:109-119 | the header loop ends at an empty line, a bad line or for lack of an LF |

## Left out

Parameters of the model:

- The patterns for the target of a start line and for the host, and the choice of server, location and file together
  with its permission checks, are functions in `Env`. `Resolve` only says that the choice is made once, after the head,
  and what limit or error it gives. `HeadIsChecked` says which Host line the pattern is asked about. `Config` and
  `Routing` model server and location separately.
- System calls: reads and writes give any number of bytes they may give, `poll` any results. A callback is any function
  of the registrations, the owned descriptors and its memory that only appends to the list. Exceptions of `read`,
  `write` and `poll`, and files that cannot be opened, are not modelled.
- The text of the Date header, the content type of a file, and the status table (reason phrases) are inputs.
- `std::sort` is any sort by length; a `std::multimap` is a list in key order.

Weaker than the source, or with a condition of their own:

- SegmentedBuffer.Buffer.GetCRLFLine: is modelled for calls with an empty line, as all callers make them; with a non-empty one the source mixes old and new bytes.
- ReadSide.ClientReader.ReceiveAll: needs a buffer emptied before, a stream that does not open with a blank line, a head within the size limit, and a body that is absent, of positive declared length, or chunked without empty size line and with a counted line end where it stops or behind. The last condition is exact for all cuts together (`ReceiveHeadThenGrains`, for bodies that do not begin with an LF), and for a single cut a recount can make up for it. For declared lengths the content is not compared, since it differs (`ContentIffFirstRead`). It ends at the first error; `ErrorAnswers` models the answer, not that it empties the read buffer and stops reading until it is out.
- ReadSide.ClientReader.ReceiveRequests: the next request is sent after the one before has been taken in whole; what a pipelined one meets is `GateTellsIff`, `OpenGateTakesFront` and `OpenGateHarmlessIff`, no run of them is claimed.
- RequestModel.RequestSegmentation: the same conditions on the stream as for `ReceiveAll`, except the counted line end, which only the counters of the buffer need.
- ChunkedCoding.ChunkedRoundTrip: assumes a body limit of at most 2^64 - 2^31; the addition of sizes is modelled with its wrap-around, other counters are unbounded.
- RequestParser.HttpRequest.AddUntilNewline: of bodies with neither length nor chunking only what one delivery leaves is claimed (`LinesEndBody`); deliveries replace each other (`BytesAreReplaced`).
- RequestParser.HttpRequest.SetVars: the port number in the Host field is not kept, only cut off.
- RequestParser.HttpRequest.Parse: in text the automaton counts wrong nothing is claimed of a body with neither length nor chunking, of a stale gate, or of a stream that opens with a blank line; there the source reads a method that was never set, the model takes it for a method with a body.
- StreamingRuns.KeepAliveSendsStreams: a GET that arrives while a response is under way changes nothing in the model; the source starts over in the middle of it.
- WriteSide.ClientWriter.ReadFromFile: GET only; HEAD, and files that turn bad, are not modelled.
- WriteSide.ClientWriter.WriteCb: `Connection: close`, closing after errors, and write errors are not modelled.
- WriteSide.ClientWriter.ReturnHttpErrorToClient: without the error pages of the configuration, which are streamed from a file.
- PollArray.AsyncPollArray.Poll: callbacks that remove registrations from the list while it is walked are excluded; no callback of the server does.
- CgiOutput.OutputReadBack: for an empty line the source looks for its CR outside the line; the model takes it as not a CR. Killing the program is not modelled.

Not modelled: file system, clock and process control, finite tables, and bookkeeping around the byte streams.

- Directory listings, custom error pages, DELETE and PUT, MIME types.
- Reading and printing the configuration file; `getErrorPage`, `getCgiFromPath`.
- CGI environment, writing to the program, exit status and timeouts.
- Sessions, logging, copying and ownership of clients, activity timeouts.
