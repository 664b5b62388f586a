/** The response: its headers, its flags, and the text it becomes. */
module ResponseModel {
  import opened Numbers
  import opened Headers

  datatype Response = Response(
    code: int,
    reason: string,
    headers: Fields,
    httpBody: string,
    bodyLength: nat,
    bodyComplete: bool,
    chunked: bool)

  const PROTOCOL := "HTTP/1.1"
  const SERVER_NAME := "Jelle en Alberts webserv 1.0"

  /** What the constructor and clear() leave. */
  const NEW_RESPONSE := Response(-1, "", [Field("Server", SERVER_NAME)], "", 0, false, false)

  function PrintInt(n: int): string {
    if n < 0 then "-" + Print(-n, 10) else Print(n, 10)
  }

  /** deleteHeader, then setHeader. */
  function Replace(m: Fields, key: string, value: string): Fields {
    Insert(Delete(m, key), Field(key, value))
  }

  predicate IsErrorCode(code: int) {
    400 <= code <= 599 || code == 999
  }

  function Tag(name: string, text: string): string {
    "<" + name + ">" + text + "</" + name + ">"
  }

  /** _setErrorBody. */
  function ErrorPage(code: int, reason: string, message: string): string {
    var status := PrintInt(code) + " " + reason;
    Tag("html", Tag("head", Tag("title", status)) +
      Tag("body", Tag("center", Tag("h1", status)) +
        (if message == "" then "" else Tag("center", Tag("p", message))) + "<hr>" + Tag("center", SERVER_NAME)))
  }

  function SetFixedSizeBody(r: Response, body: string): Response {
    r.(httpBody := body, bodyLength := |body|, headers := Replace(r.headers, "Content-Length", Print(|body|, 10)),
      bodyComplete := true)
  }

  /** setCode: the first code stays; error codes bring their own page. `reason` is the entry of the status table. */
  function SetCode(r: Response, code: int, reason: string, message: string): Response {
    if r.code > -1 then r
    else
      var r' := r.(code := code, reason := reason);
      if IsErrorCode(code) then
        SetFixedSizeBody(r'.(headers := Insert(r'.headers, Field("Content-Type", "text/html; charset=UTF-8"))),
          ErrorPage(code, reason, message))
      else r'
  }

  /**
    What _returnHttpErrorToClient makes of the response: the code, unless there is one already, with its page, or for
    301 with the place to go to.
   */
  function ErrorForm(r: Response, code: int, reason: string, message: string): Response {
    var coded := SetCode(r.(headers := Delete(r.headers, "Content-Type")), code, reason, message);
    if code == 301 then
      coded.(headers := Insert(Insert(coded.headers, Field("Location", message)), Field("Content-Length", "0")))
    else coded
  }

  function StartLineText(r: Response): string {
    PROTOCOL + " " + PrintInt(r.code) + " " + r.reason + "\r\n"
  }

  function HeadText(r: Response): string {
    StartLineText(r) + PrintFields(r.headers) + "\r\n"
  }

  /** getHeadersForChunkedResponse: the new state, whose HeadText is the result. */
  function ForChunked(r: Response, date: string): Response {
    r.(chunked := true,
       headers := Insert(Delete(Replace(r.headers, "Date", date), "Content-Length"),
         Field("Transfer-Encoding", "chunked")))
  }

  /** getFixedBodyResponseAsString: the new state, whose HeadText and body are the result. */
  function ForFixed(r: Response, date: string): Response {
    r.(headers := Replace(r.headers, "Date", date))
  }

  /** transformLineForChunkedResponse: an empty line marks the body complete. */
  function AfterLineSent(r: Response, line: string): Response {
    if line == "" then r.(bodyComplete := true) else r
  }
}
