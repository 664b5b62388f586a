/** The response object of a client. */
module ResponseBuilder {
  import opened Numbers
  import opened Headers
  import opened ChunkedCoding
  import opened ResponseModel

  class HttpResponse {
    var code: int
    var reason: string
    var headers: Fields
    var httpBody: string
    var bodyLength: nat
    var bodyComplete: bool
    var chunked: bool

    ghost function Now(): Response
      reads this
    {
      Response(code, reason, headers, httpBody, bodyLength, bodyComplete, chunked)
    }

    constructor ()
      ensures Now() == NEW_RESPONSE
    {
      code, reason, headers := -1, "", [Field("Server", SERVER_NAME)];
      httpBody, bodyLength, bodyComplete, chunked := "", 0, false, false;
    }

    method Clear()
      modifies this
      ensures Now() == NEW_RESPONSE
    {
      code, reason, headers := -1, "", [Field("Server", SERVER_NAME)];
      httpBody, bodyLength, bodyComplete, chunked := "", 0, false, false;
    }

    method DeleteHeader(key: string)
      modifies this`headers
      ensures headers == Delete(old(headers), key)
    {
      headers := Delete(headers, key);
    }

    method SetHeader(key: string, value: string)
      modifies this`headers
      ensures headers == Insert(old(headers), Field(key, value))
    {
      headers := Insert(headers, Field(key, value));
    }

    method SetCode(newCode: int, newReason: string, message: string)
      modifies this
      ensures Now() == ResponseModel.SetCode(old(Now()), newCode, newReason, message)
    {
      if code > -1 {
        return;
      }
      reason := newReason;
      code := newCode;
      if IsErrorCode(code) {
        SetHeader("Content-Type", "text/html; charset=UTF-8");
        SetFixedSizeBody(ErrorPage(code, reason, message));
      }
    }

    method SetFixedSizeBody(body: string)
      modifies this
      ensures Now() == ResponseModel.SetFixedSizeBody(old(Now()), body)
    {
      httpBody := body;
      bodyLength := |httpBody|;
      DeleteHeader("Content-Length");
      SetHeader("Content-Length", Print(bodyLength, 10));
      bodyComplete := true;
    }

    method GetHeadersForChunkedResponse(date: string) returns (text: string)
      modifies this
      ensures Now() == ForChunked(old(Now()), date)
      ensures text == HeadText(Now())
    {
      hide Insert, Delete, PrintFields, StartLineText;
      chunked := true;
      DeleteHeader("Date");
      SetHeader("Date", date);
      DeleteHeader("Content-Length");
      SetHeader("Transfer-Encoding", "chunked");
      text := StartLineText(Response(code, reason, headers, httpBody, bodyLength, bodyComplete, chunked));
      text := text + PrintFields(headers);
      text := text + "\r\n";
    }

    method TransformLineForChunkedResponse(line: string) returns (text: string)
      modifies this`bodyComplete
      ensures Now() == AfterLineSent(old(Now()), line)
      ensures text == Chunk(line)
    {
      if line == "" {
        bodyComplete := true;
      }
      text := Print(|line|, 16) + "\r\n" + line + "\r\n";
    }

    method GetFixedBodyResponseAsString(date: string) returns (text: string)
      modifies this`headers
      ensures Now() == ForFixed(old(Now()), date)
      ensures text == HeadText(Now()) + httpBody
    {
      hide Insert, Delete, PrintFields, StartLineText;
      DeleteHeader("Date");
      SetHeader("Date", date);
      text := StartLineText(Response(code, reason, headers, httpBody, bodyLength, bodyComplete, chunked));
      text := text + PrintFields(headers);
      text := text + "\r\n" + httpBody;
    }
  }
}
