/** The HTTP server's handler error and the response it writes. */
module Server {
  import opened Options
  import opened Strconv
  import opened Strings
  import opened Response
  import opened MapWalk

  /**
   * What HandlerError.Write leaves on a writer whose next write is number
   * `call`, when the header map `fields` is walked in `order`: the status line
   * if its write got through, what WriteHeaders wrote, and the message if its
   * write got through. Paired with the number of writes made.
   */
  function ErrorResponse(statusCode: int, fields: map<string, string>, message: string, order: seq<string>, failing: set<nat>, call: nat): (string, nat)
    requires forall i :: 0 <= i < |order| ==> order[i] in fields
  {
    var headers := HeadersEffect(fields, order, failing, call + 1);
    var bodyCall := call + 1 + headers.1;
    ((if call in failing then "" else StatusLine(statusCode))
      + headers.0
      + (if bodyCall in failing then "" else message),
     headers.1 + 2)
  }

  /** A handler's failure: the status code to answer with and a plain-text message. */
  datatype HandlerError = HandlerError(statusCode: int, message: string)
  {
    /**
     * Write: the status line, the default headers for the message's length,
     * then the message. Errors from the writer are ignored; every part is
     * attempted whatever happened to the one before.
     */
    method Write(w: Writer) returns (ghost order: seq<string>)
      modifies w
      ensures |order| == 3
      ensures forall i :: 0 <= i < |order| ==> order[i] in DefaultFields(|message|)
      ensures forall i, j :: 0 <= i < j < |order| ==> order[i] != order[j]
      ensures var r := ErrorResponse(statusCode, DefaultFields(|message|), message, order, w.failing, old(w.calls));
        w.written == old(w.written) + r.0 && w.calls == old(w.calls) + r.1
    {
      ghost var before, call := w.written, w.calls;
      var statusErr := WriteStatusLine(w, statusCode);
      ghost var status := if call in w.failing then "" else StatusLine(statusCode);
      ghost var afterStatus := w.written;
      assert afterStatus == before + status;
      var headers := GetDefaultHeaders(|message|);
      var fields := headers.entries;
      ghost var e, bodyCall, body;
      order, e, bodyCall, body := WriteHeadersThenBody(w, fields, message);
      ErrorResponseParts(statusCode, fields, message, order, w.failing, call, before, status, e, bodyCall, body);
    }
  }

  /**
   * The second half of HandlerError.Write: the header block, then the
   * message, each written whatever happened before. `e` is what the header
   * block left, `bodyCall` the number of the message's write and `body` what
   * that write left.
   */
  method WriteHeadersThenBody(w: Writer, fields: map<string, string>, message: string)
    returns (ghost order: seq<string>, ghost e: (string, nat, bool), ghost bodyCall: nat, ghost body: string)
    modifies w
    ensures |order| == |fields|
    ensures forall i :: 0 <= i < |order| ==> order[i] in fields
    ensures forall i, j :: 0 <= i < j < |order| ==> order[i] != order[j]
    ensures e == HeadersEffect(fields, order, w.failing, old(w.calls))
    ensures bodyCall == old(w.calls) + e.1
    ensures body == if bodyCall in w.failing then "" else message
    ensures w.written == old(w.written) + e.0 + body && w.calls == bodyCall + 1
  {
    var headersErr;
    headersErr, order := WriteHeaders(w, fields);
    e := HeadersEffect(fields, order, w.failing, old(w.calls));
    bodyCall := w.calls;
    body := if bodyCall in w.failing then "" else message;
    var _, bodyErr := WriteBody(w, message);
  }

  /**
   * ErrorResponse is the three parts in order, whatever the header map, and
   * appending them one by one to what was written before appends it.
   */
  lemma {:induction false} ErrorResponseParts(statusCode: int, fields: map<string, string>, message: string, order: seq<string>,
                                              failing: set<nat>, call: nat, before: string, status: string,
                                              headers: (string, nat, bool), bodyCall: nat, body: string)
    requires forall i :: 0 <= i < |order| ==> order[i] in fields
    requires status == if call in failing then "" else StatusLine(statusCode)
    requires headers == HeadersEffect(fields, order, failing, call + 1)
    requires bodyCall == call + 1 + headers.1
    requires body == if bodyCall in failing then "" else message
    ensures var r := ErrorResponse(statusCode, fields, message, order, failing, call);
      r.1 == headers.1 + 2 && before + r.0 == ((before + status) + headers.0) + body
  {
    ConcatAssoc(before, status, headers.0);
    ConcatAssoc(before, status + headers.0, body);
  }

  /**
   * When no write fails, the response is the status line, one line per
   * header, the blank line, then the message; with the three default
   * headers that is six writes.
   */
  lemma {:induction false} ErrorResponseComplete(statusCode: int, fields: map<string, string>, message: string, order: seq<string>, failing: set<nat>, call: nat)
    requires forall i :: 0 <= i < |order| ==> order[i] in fields
    requires forall j :: call <= j < call + |order| + 3 ==> j !in failing
    ensures ErrorResponse(statusCode, fields, message, order, failing, call)
         == (StatusLine(statusCode) + FieldLines(fields, order) + "\r\n" + message, |order| + 3)
  {
    EffectStopsAt(fields, order, failing, call + 1, |order|);
    var e := HeadersEffect(fields, order, failing, call + 1);
    assert e == (FieldLines(fields, order) + "\r\n", |order| + 1, false);
    assert call + |order| + 2 !in failing;
    ConcatAssoc(StatusLine(statusCode), FieldLines(fields, order), "\r\n");
  }

  /**
   * Whenever the status line's write goes through, the response starts with
   * that line, and it reads back as the code and its reason phrase.
   */
  lemma {:induction false} ErrorResponseStatusFirst(statusCode: int, fields: map<string, string>, message: string, order: seq<string>, failing: set<nat>, call: nat)
    requires forall i :: 0 <= i < |order| ==> order[i] in fields
    requires call !in failing
    ensures var r := ErrorResponse(statusCode, fields, message, order, failing, call).0;
      var line := StatusLine(statusCode);
      |line| <= |r| && r[..|line|] == line && ReadStatusLine(r[..|line|]) == Some((statusCode, ReasonPhrase(statusCode)))
  {
    var line := StatusLine(statusCode);
    var headers := HeadersEffect(fields, order, failing, call + 1);
    var body := if call + 1 + headers.1 in failing then "" else message;
    var r := ErrorResponse(statusCode, fields, message, order, failing, call).0;
    assert r == line + headers.0 + body;
    ConcatAssoc(line, headers.0, body);
    assert r[..|line|] == line;
    StatusLineRoundTrip(statusCode);
  }

  /**
   * The header block of a complete response announces the message's length:
   * the content-length line is one of the three written, and its value reads
   * back as that length.
   */
  lemma {:induction false} ErrorResponseLength(message: string, order: seq<string>)
    requires |order| == 3
    requires forall i :: 0 <= i < |order| ==> order[i] in DefaultFields(|message|)
    requires forall i, j :: 0 <= i < j < |order| ==> order[i] != order[j]
    ensures exists i :: 0 <= i < 3 && order[i] == "content-length"
    ensures var v := DefaultFields(|message|)["content-length"]; Atoi(v) == Some(|message|)
  {
    var keys := DefaultFields(|message|).Keys;
    DefaultFieldsRead(|message|);
    Covers(order, keys);
    assert "content-length" in keys;
    AtoiItoa(|message|);
  }
}
