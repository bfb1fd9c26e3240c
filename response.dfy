/**
 * The response writers of the HTTP server: the status line, the default header
 * map, the header block and the body, each written to an io.Writer.
 */
module Response {
  import opened Options
  import opened Strings
  import opened Strconv
  import Headers
  import opened MapWalk

  /** The error an io.Writer returns. */
  datatype WriteError = WriteFailed

  /**
   * An io.Writer. Writes are numbered from 0 in the order they are made; write
   * number i fails when i is in `failing`, and then takes none of its bytes.
   * Every other write takes all of them.
   */
  class Writer {
    var written: seq<char>
    var calls: nat
    const failing: set<nat>

    constructor (failing: set<nat>)
      ensures written == [] && calls == 0 && this.failing == failing
    {
      written := [];
      calls := 0;
      this.failing := failing;
    }

    method Write(data: seq<char>) returns (n: nat, err: Option<WriteError>)
      modifies this
      ensures calls == old(calls) + 1
      ensures old(calls) in failing ==> n == 0 && err == Some(WriteFailed) && written == old(written)
      ensures old(calls) !in failing ==> n == |data| && err == None && written == old(written) + data
    {
      if calls in failing {
        n, err := 0, Some(WriteFailed);
      } else {
        written := written + data;
        n, err := |data|, None;
      }
      calls := calls + 1;
    }
  }

  const StatusOK := 200
  const StatusBadRequest := 400
  const StatusInternalError := 500

  /** The reason phrase WriteStatusLine's switch picks; empty for a code it does not know. */
  function ReasonPhrase(statusCode: int): (r: string)
    ensures statusCode == StatusOK ==> r == "OK"
    ensures statusCode == StatusBadRequest ==> r == "Bad Request"
    ensures statusCode == StatusInternalError ==> r == "Internal Server Error"
    ensures r == "" <==> statusCode !in {StatusOK, StatusBadRequest, StatusInternalError}
  {
    if statusCode == StatusOK then "OK"
    else if statusCode == StatusBadRequest then "Bad Request"
    else if statusCode == StatusInternalError then "Internal Server Error"
    else ""
  }

  /** The status line as fmt.Sprintf("HTTP/1.1 %d %s\r\n", ...) formats it. */
  function StatusLine(statusCode: int): (r: string)
    ensures |r| == 12 + |Itoa(statusCode)| + |ReasonPhrase(statusCode)|
    ensures r[..9] == "HTTP/1.1 " && r[|r| - 2..] == "\r\n"
    ensures r[9..|r| - 2] == Itoa(statusCode) + [' '] + ReasonPhrase(statusCode)
  {
    StatusLineShape(Itoa(statusCode), ReasonPhrase(statusCode));
    "HTTP/1.1 " + Itoa(statusCode) + " " + ReasonPhrase(statusCode) + "\r\n"
  }

  /**
   * Reading a status line: "HTTP/1.1 ", a decimal code, a space, the reason
   * phrase (anything up to the final CRLF).
   */
  function ReadStatusLine(s: string): Option<(int, string)> {
    if |s| < 11 || s[..9] != "HTTP/1.1 " || s[|s| - 2..] != "\r\n" then None
    else
      var rest := s[9..|s| - 2];
      var i := IndexOf(rest, ' ');
      if i == -1 then None
      else
        match Atoi(rest[..i])
        case None => None
        case Some(code) => Some((code, rest[i + 1..]))
  }

  /** The decimal text of a code holds no space. */
  lemma {:induction false} NoSpaceInItoa(n: int)
    ensures ' ' !in Itoa(n)
  {
    var d := Itoa(n);
    if n < 0 {
      assert forall i :: 1 <= i < |d| ==> d[i] == d[1..][i - 1];
    }
  }

  /**
   * The status line reads back as the code it was written for and that code's
   * reason phrase.
   */
  lemma {:induction false} StatusLineRoundTrip(statusCode: int)
    ensures ReadStatusLine(StatusLine(statusCode)) == Some((statusCode, ReasonPhrase(statusCode)))
  {
    var d, reason := Itoa(statusCode), ReasonPhrase(statusCode);
    StatusLineShape(d, reason);
    var rest := d + [' '] + reason;
    NoSpaceInItoa(statusCode);
    IndexOfAfterPiece(d, ' ', reason);
    assert rest[..|d|] == d;
    assert rest[|d| + 1..] == reason;
    AtoiItoa(statusCode);
  }

  /** Where the pieces of "HTTP/1.1 <code> <reason>\r\n" sit. */
  lemma {:induction false} StatusLineShape(d: string, reason: string)
    ensures var s := "HTTP/1.1 " + d + " " + reason + "\r\n";
      && |s| == 12 + |d| + |reason| && s[..9] == "HTTP/1.1 " && s[|s| - 2..] == "\r\n"
      && s[9..|s| - 2] == d + [' '] + reason
  {
    var s := "HTTP/1.1 " + d + " " + reason + "\r\n";
    assert s == "HTTP/1.1 " + (d + [' '] + reason) + "\r\n";
  }

  /** A code the switch does not know still gets its space before the CRLF. */
  lemma {:induction false} UnknownStatusLine(statusCode: int)
    requires statusCode != StatusOK && statusCode != StatusBadRequest && statusCode != StatusInternalError
    ensures ReadStatusLine(StatusLine(statusCode)) == Some((statusCode, ""))
    ensures StatusLine(statusCode) == "HTTP/1.1 " + Itoa(statusCode) + " \r\n"
  {
    StatusLineRoundTrip(statusCode);
  }

  /** WriteStatusLine: one write of the status line. */
  method WriteStatusLine(w: Writer, statusCode: int) returns (err: Option<WriteError>)
    modifies w
    ensures w.calls == old(w.calls) + 1
    ensures err.None? <==> old(w.calls) !in w.failing
    ensures w.written == old(w.written) + (if err.None? then StatusLine(statusCode) else [])
  {
    var reasonPhrase := "";
    if statusCode == StatusOK {
      reasonPhrase := "OK";
    } else if statusCode == StatusBadRequest {
      reasonPhrase := "Bad Request";
    } else if statusCode == StatusInternalError {
      reasonPhrase := "Internal Server Error";
    }
    var statusLine := "HTTP/1.1 " + Itoa(statusCode) + " " + reasonPhrase + "\r\n";
    var _, e := w.Write(statusLine);
    err := e;
  }

  /** The map GetDefaultHeaders builds, under the lower-cased names Set stores. */
  function DefaultFields(contentLen: int): map<string, string> {
    map["content-length" := Itoa(contentLen), "connection" := "close", "content-type" := "text/plain"]
  }

  /** The names GetDefaultHeaders sets, as Set stores them. */
  lemma {:induction false} LowerNames()
    ensures ToLower("Content-Length") == "content-length"
    ensures ToLower("Connection") == "connection"
    ensures ToLower("Content-Type") == "content-type"
  {
    assert ToLower("Content-Length") == "content-length";
    assert ToLower("Connection") == "connection";
  }

  /** GetDefaultHeaders: three Set calls on a new header map. */
  method GetDefaultHeaders(contentLen: int) returns (headers: Headers.Headers)
    ensures fresh(headers) && headers.entries == DefaultFields(contentLen)
    ensures |headers.entries| == 3
  {
    headers := new Headers.Headers();
    LowerNames();
    headers.Set("Content-Length", Itoa(contentLen));
    headers.Set("Connection", "close");
    headers.Set("Content-Type", "text/plain");
    assert headers.entries.Keys == {"content-length", "connection", "content-type"};
  }

  /**
   * Whoever reads the default headers back finds the content length they were
   * made for: Get("Content-Length") gives its decimal text, which Atoi turns
   * back into the number; the other two are found under any casing too.
   */
  lemma {:induction false} DefaultFieldsRead(contentLen: int)
    ensures var cl := Headers.GetField(DefaultFields(contentLen), "Content-Length");
      cl.1 && Atoi(cl.0) == Some(contentLen)
    ensures Headers.GetField(DefaultFields(contentLen), "Connection") == ("close", true)
    ensures Headers.GetField(DefaultFields(contentLen), "Content-Type") == ("text/plain", true)
    ensures |DefaultFields(contentLen).Keys| == 3
  {
    LowerNames();
    AtoiItoa(contentLen);
    var keys := DefaultFields(contentLen).Keys;
    assert keys == {"content-length", "connection", "content-type"};
  }

  /** The field lines for the names in `order`, in that order. */
  function FieldLines(fields: map<string, string>, order: seq<string>): string
    requires forall i :: 0 <= i < |order| ==> order[i] in fields
  {
    if |order| == 0 then ""
    else Headers.FieldLineText(order[0], fields[order[0]]) + FieldLines(fields, order[1..])
  }

  lemma {:induction false} FieldLinesPrefix(fields: map<string, string>, order: seq<string>, k: nat)
    requires forall i :: 0 <= i < |order| ==> order[i] in fields
    requires k < |order|
    ensures FieldLines(fields, order[..k + 1]) == FieldLines(fields, order[..k]) + Headers.FieldLineText(order[k], fields[order[k]])
    decreases k
  {
    if k > 0 {
      FieldLinesPrefix(fields, order[1..], k - 1);
      assert order[1..][..k] == order[..k + 1][1..];
      assert order[1..][..k - 1] == order[..k][1..];
    } else {
      assert order[..1][1..] == [];
    }
  }

  /**
   * What WriteHeaders leaves behind when it writes the lines of `order` from
   * write number `call` on: the bytes that got through, how many writes it
   * made, and whether it stopped on a failed one. It stops at the first
   * failure, so that write is the last it makes and the closing CRLF is only
   * written after every line got through.
   */
  function HeadersEffect(fields: map<string, string>, order: seq<string>, failing: set<nat>, call: nat): (r: (string, nat, bool))
    requires forall i :: 0 <= i < |order| ==> order[i] in fields
    ensures 1 <= r.1 <= |order| + 1
    ensures forall j :: call <= j < call + r.1 - 1 ==> j !in failing
    ensures r.2 <==> call + r.1 - 1 in failing
    ensures !r.2 ==> r.1 == |order| + 1 && r.0 == FieldLines(fields, order) + "\r\n"
    ensures r.2 ==> r.0 == FieldLines(fields, order[..r.1 - 1])
    decreases |order|
  {
    if call in failing then ("", 1, true)
    else if |order| == 0 then ("\r\n", 1, false)
    else
      var r := HeadersEffect(fields, order[1..], failing, call + 1);
      var line := Headers.FieldLineText(order[0], fields[order[0]]);
      assert r.2 ==> order[..r.1][1..] == order[1..][..r.1 - 1];
      (line + r.0, r.1 + 1, r.2)
  }

  /**
   * WriteHeaders' loop: one write per entry, in the map's iteration order (any
   * order; `order` names the one taken). The first failed write ends it:
   * `lines` writes got through and the next one failed.
   */
  method WriteFieldLines(w: Writer, headers: map<string, string>)
    returns (err: Option<WriteError>, ghost order: seq<string>, ghost lines: nat)
    modifies w
    ensures |order| == |headers|
    ensures forall i :: 0 <= i < |order| ==> order[i] in headers
    ensures forall i, j :: 0 <= i < j < |order| ==> order[i] != order[j]
    ensures lines <= |order| && w.written == old(w.written) + FieldLines(headers, order[..lines])
    ensures forall j :: old(w.calls) <= j < old(w.calls) + lines ==> j !in w.failing
    ensures err.None? ==> lines == |order| && w.calls == old(w.calls) + lines
    ensures err.Some? ==> lines < |order| && w.calls == old(w.calls) + lines + 1 && old(w.calls) + lines in w.failing
  {
    ghost var start := w.calls;
    ghost var done: seq<string> := [];
    var remaining := headers.Keys;
    err := None;
    while remaining != {}
      invariant Walk(headers.Keys, done, remaining)
      invariant w.calls == start + |done|
      invariant forall j :: start <= j < start + |done| ==> j !in w.failing
      invariant w.written == old(w.written) + FieldLines(headers, done)
      decreases remaining
    {
      var k :| k in remaining;
      var fieldLine := Headers.FieldLineText(k, headers[k]);
      var _, e := w.Write(fieldLine);
      if e.Some? {
        err := e;
        break;
      }
      ghost var next := done + [k];
      WalkStep(headers.Keys, done, remaining, k);
      FieldLinesPrefix(headers, next, |done|);
      assert next[..|done|] == done && next[..|done| + 1] == next;
      done := next;
      remaining := remaining - {k};
    }
    order := CompleteOrder(headers.Keys, done, remaining);
    lines := |done|;
  }

  /**
   * WriteHeaders: the field lines, then a write of the closing CRLF; the first
   * failed write ends it and its error is returned. What it writes is
   * HeadersEffect of the order the map was walked in.
   */
  method WriteHeaders(w: Writer, headers: map<string, string>) returns (err: Option<WriteError>, ghost order: seq<string>)
    modifies w
    ensures |order| == |headers|
    ensures forall i :: 0 <= i < |order| ==> order[i] in headers
    ensures forall i, j :: 0 <= i < j < |order| ==> order[i] != order[j]
    ensures var e := HeadersEffect(headers, order, w.failing, old(w.calls));
      && w.written == old(w.written) + e.0
      && w.calls == old(w.calls) + e.1
      && (err.Some? <==> e.2)
  {
    ghost var lines;
    err, order, lines := WriteFieldLines(w, headers);
    EffectStopsAt(headers, order, w.failing, old(w.calls), lines);
    if err.Some? {
      return;
    }
    assert order[..lines] == order;
    var _, e := w.Write("\r\n");
    err := e;
    if e.None? {
      ConcatAssoc(old(w.written), FieldLines(headers, order), "\r\n");
    }
  }

  /** When write number call + i is the first to fail, the effect ends there. */
  lemma {:induction false} EffectStopsAt(fields: map<string, string>, order: seq<string>, failing: set<nat>, call: nat, i: nat)
    requires forall j :: 0 <= j < |order| ==> order[j] in fields
    requires i <= |order|
    requires forall j :: call <= j < call + i ==> j !in failing
    requires i < |order| ==> call + i in failing
    ensures var e := HeadersEffect(fields, order, failing, call);
      && (call + i in failing ==> e == (FieldLines(fields, order[..i]), i + 1, true))
      && (call + i !in failing ==> e == (FieldLines(fields, order) + "\r\n", i + 1, false))
  {
  }

  /** WriteBody: one write of the body bytes as they are. */
  method WriteBody(w: Writer, body: seq<char>) returns (n: nat, err: Option<WriteError>)
    modifies w
    ensures w.calls == old(w.calls) + 1
    ensures err.None? <==> old(w.calls) !in w.failing
    ensures w.written == old(w.written) + (if err.None? then body else [])
    ensures n == (if err.None? then |body| else 0)
  {
    n, err := w.Write(body);
  }
}
