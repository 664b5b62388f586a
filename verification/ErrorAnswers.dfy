/** The answer to an error: what a client reads in it, and what becomes of the connection. */
module ErrorAnswers {
  import opened Text
  import opened Numbers
  import opened Headers
  import opened RequestHead
  import opened ResponseModel
  import opened StreamingModel
  import opened StreamingRuns
  import opened StreamReader

  /** A response without a code whose fields, but for the content type, are the Server field alone. */
  ghost predicate Uncoded(r: Response) {
    && r.code == -1 && GoodFields(r.headers)
    && forall key :: key != "Content-Type" ==>
         Values(r.headers, key) == if key == "Server" then [SERVER_NAME] else []
  }

  lemma NewIsUncoded(contentType: string)
    requires IsFieldValue(contentType)
    ensures Uncoded(NEW_RESPONSE) && Uncoded(Started(contentType))
  {
    var m := NEW_RESPONSE.headers;
    TokensOfServer();
    StartedHasNoCode(contentType);
    assert m[1..] == [] && GoodFields(m);
    hide Started, GoodFields;
    forall key ensures Values(m, key) == if key == "Server" then [SERVER_NAME] else [] {
      assert Values(m, key) == (if key == "Server" then [SERVER_NAME] else []) + Values(m[1..], key);
    }
    StartedFields(contentType, "");
    forall key | key != "Content-Type"
      ensures Values(Started(contentType).headers, key) == if key == "Server" then [SERVER_NAME] else []
    {
      StartedFields(contentType, key);
    }
  }

  const HTML := "text/html; charset=UTF-8"

  function ErrorTable(e: Setup, page: string): map<string, seq<string>> {
    map["Content-Length" := [Print(|page|, 10)], "Content-Type" := [HTML], "Date" := [e.date],
        "Server" := [SERVER_NAME]]
  }

  lemma HtmlIsValue()
    ensures IsFieldValue(HTML)
  {
  }

  /** The fields of an answer: each is replaced. */
  function AnswerFields(m: Fields, length: nat, date: string): Fields {
    Replace(Replace(Replace(m, "Content-Type", HTML), "Content-Length", Print(length, 10)), "Date", date)
  }

  lemma ErrorIs(e: Setup, r: Response, code: int, reason: string, message: string)
    requires r.code == -1 && (400 <= code <= 599 || code == 999)
    ensures var page := ErrorPage(code, reason, message);
            ForFixed(ErrorForm(r, code, reason, message), e.date) ==
            r.(code := code, reason := reason, httpBody := page, bodyLength := |page|, bodyComplete := true,
               headers := AnswerFields(r.headers, |page|, e.date))
  {
    hide ErrorPage, Insert, Delete, Print;
  }

  lemma AnswerField(e: Setup, m: Fields, length: nat, key: string)
    requires GoodFields(m) && IsFieldValue(e.date)
    ensures GoodFields(AnswerFields(m, length, e.date))
    ensures Values(AnswerFields(m, length, e.date), key) ==
            if key == "Date" then [e.date] else if key == "Content-Length" then [Print(length, 10)]
            else if key == "Content-Type" then [HTML] else Values(m, key)
  {
    hide Replace, GoodFields, IsFieldValue, Print, Values, IsToken;
    TokensOfServer();
    HtmlIsValue();
    PrintIsValue(length);
    var m1 := Replace(m, "Content-Type", HTML);
    var m2 := Replace(m1, "Content-Length", Print(length, 10));
    ReplaceFacts(m, "Content-Type", HTML, key);
    ReplaceFacts(m1, "Content-Length", Print(length, 10), key);
    ReplaceFacts(m2, "Date", e.date, key);
  }

  ghost predicate Contains(text: string, part: string) {
    exists front, back :: text == front + part + back
  }

  lemma Within(text: string, front: string, part: string, back: string, inner: string)
    requires text == front + part + back && Contains(part, inner)
    ensures Contains(text, inner)
  {
    var a, b :| part == a + inner + b;
    assert text == (front + a) + inner + (b + back);
  }

  lemma InTag(name: string, text: string, part: string)
    requires Contains(text, part)
    ensures Contains(Tag(name, text), part)
  {
    Within(Tag(name, text), "<" + name + ">", text, "</" + name + ">", part);
  }

  lemma Itself(text: string)
    ensures Contains(text, text)
  {
    assert text == "" + text + "";
  }

  /** The page of an error has code and reason for a title, and shows the message if there is one. */
  lemma PageTells(code: nat, reason: string, message: string)
    ensures Contains(ErrorPage(code, reason, message), Tag("title", Print(code, 10) + " " + reason))
    ensures message != "" ==> Contains(ErrorPage(code, reason, message), Tag("p", message))
  {
    hide Tag, Print, Contains;
    var status := Print(code, 10) + " " + reason;
    var shown := if message == "" then "" else Tag("center", Tag("p", message));
    var title, heading, name := Tag("title", status), Tag("center", Tag("h1", status)), Tag("center", SERVER_NAME);
    var inside := heading + shown + "<hr>" + name;
    var head, body := Tag("head", title), Tag("body", inside);
    Itself(title);
    InTag("head", title, title);
    Within(head + body, "", head, body, title);
    InTag("html", head + body, title);
    if message != "" {
      var p := Tag("p", message);
      Itself(p);
      InTag("center", p, p);
      Associate(heading + shown, "<hr>", name);
      Within(inside, heading, shown, "<hr>" + name, p);
      InTag("body", inside, p);
      Within(head + body, head, body, "", p);
      InTag("html", head + body, p);
    }
  }

  /**
    The answer to an error, read back: the status is its code, exactly these fields come with it, and the page follows,
    as long as the fields say.
   */
  lemma ErrorReadBack(e: Setup, c: Conn, code: int, reason: string, message: string)
    requires Uncoded(c.response) && (400 <= code <= 599 || code == 999)
    requires IsFieldValue(e.date) && NoLineBytes(reason)
    ensures var answer, page := ReturnError(e, c, code, reason, message), ErrorPage(code, reason, message);
            var s := answer.writeBuffer;
            HasLine(s) &&
            var read := ReadFields(AfterLine(s), NOTHING);
            && FirstLine(s) == "HTTP/1.1 " + Print(code, 10) + " " + reason
            && read.end.AtBlank? && HasExactly(read.head.fields, ErrorTable(e, page)) && read.unread == page
            && answer.response.bodyComplete && answer.sent == c.sent && answer.state == Error
  {
    hide ErrorPage, AnswerFields, GoodFields, Uncoded, HasLine, FirstLine, AfterLine, ReadFields, HeadText, Print;
    hide ErrorForm, ErrorTable, HasExactly, IsFieldValue, NoLineBytes, ForFixed;
    var page := ErrorPage(code, reason, message);
    AnswerTable(e, c.response, page);
    ErrorIs(e, c.response, code, reason, message);
    HeadReadBack(ReturnError(e, c, code, reason, message).response, page);
  }

  lemma AnswerTable(e: Setup, r: Response, page: string)
    requires Uncoded(r) && IsFieldValue(e.date)
    ensures GoodFields(AnswerFields(r.headers, |page|, e.date)) && r.code == -1
    ensures HasExactly(AnswerFields(r.headers, |page|, e.date), ErrorTable(e, page))
  {
    hide GoodFields, AnswerFields, IsFieldValue, Values, Print;
    var m := AnswerFields(r.headers, |page|, e.date);
    AnswerField(e, r.headers, |page|, "");
    forall key ensures Values(m, key) == if key in ErrorTable(e, page) then ErrorTable(e, page)[key] else [] {
      AnswerField(e, r.headers, |page|, key);
    }
  }

  /** The first code stays: an answer behind it has that code, and the body that was there. */
  lemma FirstCodeStays(e: Setup, c: Conn, code: int, reason: string, message: string)
    requires c.response.code >= 0 && code != 301
    ensures var answer := ReturnError(e, c, code, reason, message).response;
            && answer.code == c.response.code && answer.reason == c.response.reason
            && answer.httpBody == c.response.httpBody && answer.bodyComplete == c.response.bodyComplete
  {
    hide Delete, Insert;
  }

  lemma AnswerIsReachable(e: Setup, c: Conn, code: int, reason: string, message: string)
    requires c.response.code == -1 && c.inputFile.None? && (400 <= code <= 599 || code == 999)
    ensures var answer := ReturnError(e, c, code, reason, message);
            Inv(e, answer) && FileClosed(answer) && Total(e, answer) == c.sent + answer.writeBuffer
  {
    ErrorIs(e, c.response, code, reason, message);
    hide ErrorPage, AnswerFields, ErrorForm, PrintFields, StartLineText;
    var answer := ReturnError(e, c, code, reason, message);
    assert answer.writeBuffer != "" by { hide *; AnswerIsSome(answer.response); }
    assert answer.writeBuffer + "" == answer.writeBuffer;
  }

  lemma AnswerIsSome(r: Response)
    ensures HeadText(r) + r.httpBody != ""
  {
    hide StartLineText, PrintFields;
  }

  /** An answered error goes out as it is, however the socket takes it, and then the client is fresh again. */
  lemma ErrorIsSent(e: Setup, c: Conn, code: int, reason: string, message: string, events: seq<Event>)
    requires c.response.code == -1 && c.inputFile.None? && (400 <= code <= 599 || code == 999) && NoGets(events)
    requires Run(e, ReturnError(e, c, code, reason, message), events).state.Ready?
    ensures var answer := ReturnError(e, c, code, reason, message);
            var after := Run(e, answer, events);
            after.sent == c.sent + answer.writeBuffer && after.response == NEW_RESPONSE
  {
    hide Inv, Run, Total, FileClosed, ReturnError;
    var answer := ReturnError(e, c, code, reason, message);
    AnswerIsReachable(e, c, code, reason, message);
    RunKeepsInv(e, answer, events);
    ClosedRunKeepsTotal(e, answer, events);
    ReadyOwesNothing(e, Run(e, answer, events));
  }

  // ---------- redirects ----------

  lemma RedirectIs(e: Setup, r: Response, reason: string, place: string)
    requires r.code == -1
    ensures var m := Insert(Insert(Delete(r.headers, "Content-Type"), Field("Location", place)),
                            Field("Content-Length", "0"));
            ForFixed(ErrorForm(r, 301, reason, place), e.date) ==
            r.(code := 301, reason := reason, headers := Replace(m, "Date", e.date))
  {
    hide Insert, Delete;
  }

  function RedirectTable(e: Setup, place: string): map<string, seq<string>> {
    map["Content-Length" := ["0"], "Date" := [e.date], "Location" := [place], "Server" := [SERVER_NAME]]
  }

  lemma RedirectField(e: Setup, r: Response, place: string, key: string)
    requires Uncoded(r) && IsFieldValue(e.date) && IsFieldValue(place)
    ensures var m := Insert(Insert(Delete(r.headers, "Content-Type"), Field("Location", place)),
                            Field("Content-Length", "0"));
            var fields, table := Replace(m, "Date", e.date), RedirectTable(e, place);
            GoodFields(fields) && Values(fields, key) == if key in table then table[key] else []
  {
    hide Replace, GoodFields, IsFieldValue, Values, IsToken, Insert, Delete;
    TokensOfServer();
    RedirectTokens();
    var m0 := Delete(r.headers, "Content-Type");
    var location, length := Field("Location", place), Field("Content-Length", "0");
    FieldIsPrintable(location);
    FieldIsPrintable(length);
    DeleteKeepsGood(r.headers, "Content-Type");
    DeleteRemovesKey(r.headers, "Content-Type", key);
    var m1 := Insert(m0, location);
    GoodIsSorted(m0);
    InsertKeepsGood(m0, location);
    InsertAppends(m0, location, key);
    GoodIsSorted(m1);
    InsertKeepsGood(m1, length);
    InsertAppends(m1, length, key);
    ReplaceFacts(Insert(m1, length), "Date", e.date, key);
  }

  lemma RedirectTokens()
    ensures IsToken("Location") && IsFieldValue("0")
  {
  }

  /** A redirect, read back: its status, the place to go to, and no body. */
  lemma RedirectReadBack(e: Setup, c: Conn, reason: string, place: string)
    requires Uncoded(c.response) && c.response.httpBody == "" && !c.response.bodyComplete
    requires IsFieldValue(e.date) && IsFieldValue(place) && NoLineBytes(reason)
    ensures var answer := ReturnError(e, c, 301, reason, place);
            var s := answer.writeBuffer;
            HasLine(s) &&
            var read := ReadFields(AfterLine(s), NOTHING);
            && FirstLine(s) == "HTTP/1.1 " + Print(301, 10) + " " + reason
            && read.end.AtBlank? && HasExactly(read.head.fields, RedirectTable(e, place)) && read.unread == ""
            && !answer.response.bodyComplete
  {
    RedirectIs(e, c.response, reason, place);
    RedirectFields(e, c.response, place);
    hide GoodFields, Uncoded, HasLine, FirstLine, AfterLine, ReadFields, HeadText, Print, Insert, Delete, Replace;
    hide ErrorForm, RedirectTable, HasExactly, IsFieldValue, NoLineBytes, ForFixed;
    HeadReadBack(ReturnError(e, c, 301, reason, place).response, "");
  }

  lemma RedirectFields(e: Setup, r: Response, place: string)
    requires Uncoded(r) && IsFieldValue(e.date) && IsFieldValue(place)
    ensures var m := Insert(Insert(Delete(r.headers, "Content-Type"), Field("Location", place)),
                            Field("Content-Length", "0"));
            var fields := Replace(m, "Date", e.date);
            r.code == -1 && GoodFields(fields) && HasExactly(fields, RedirectTable(e, place))
  {
    hide GoodFields, IsFieldValue, Values, Insert, Delete, Replace, RedirectTable;
    var m := Insert(Insert(Delete(r.headers, "Content-Type"), Field("Location", place)), Field("Content-Length", "0"));
    var fields, table := Replace(m, "Date", e.date), RedirectTable(e, place);
    RedirectField(e, r, place, "");
    forall key ensures Values(fields, key) == if key in table then table[key] else [] {
      RedirectField(e, r, place, key);
    }
  }

  /** Behind a redirect no event of file or socket makes the client ready again, since its body never is complete. */
  lemma {:induction false} RedirectNeverReady(e: Setup, c: Conn, events: seq<Event>)
    requires c.inputFile.None? && !c.state.Ready? && !c.response.bodyComplete && NoGets(events)
    ensures var after := Run(e, c, events); !after.state.Ready? && after.response == c.response
    decreases |events|
  {
    if events != [] {
      hide ReadFromFile;
      RedirectNeverReady(e, Step(e, c, events[0]), events[1..]);
    }
  }
}
