/**
 * httpfromtcp/internal/request as the Go code runs it: a `Request` object
 * whose fields parse and parseSingle update in place, and RequestFromReader,
 * which feeds it from a reader through a growable byte buffer. Every method is
 * proved to follow the functions of RequestParse, and RequestFromReader is
 * proved to agree with parsing the whole stream at once.
 */
module Request {
  import opened Options
  import opened Strconv
  import opened RequestParse
  import Headers
  import opened Strings

  /** bufferSize: the initial capacity of RequestFromReader's buffer. */
  const BufferSize: nat := 8

  /** The Request struct; Headers is a Go map, so it is a separate object updated in place. */
  class Request {
    var requestLine: RequestLine
    var state: State
    const headers: Headers.Headers
    var body: seq<char>

    /** The request as a parser value. */
    function Snapshot(): Parser
      reads this, headers
    {
      Parser(state, requestLine, headers.entries, body)
    }

    /** The request RequestFromReader starts from. */
    constructor ()
      ensures Snapshot() == Initial && fresh(headers)
    {
      requestLine := RequestLine("", "", "");
      state := Initialized;
      headers := new Headers.Headers();
      body := [];
    }

    /** parseSingle: one transition on the front of data. */
    method ParseSingle(data: seq<char>) returns (n: nat, err: Option<RequestError>)
      modifies this, headers
      ensures Step(Snapshot(), n, err) == RequestParse.ParseSingle(old(Snapshot()), data)
    {
      match state {
        case Initialized =>
          var start := ParseRequestLine(data);
          match start {
            case BadLine(e) =>
              return 0, Some(e);
            case NoLineYet =>
              return 0, None;
            case Line(line, consumed) =>
              requestLine := line;
              state := ParsingHeaders;
              return consumed, None;
          }
        case ParsingHeaders =>
          var consumed, done, e := headers.Parse(data);
          if e.Some? {
            return 0, Some(FieldLine(e.value));
          }
          if done {
            state := ParsingBody;
          }
          return consumed, None;
        case ParsingBody =>
          var (contentLength, present) := headers.Get("Content-Length");
          if !present {
            state := Done;
            return 0, None;
          }
          body := body + data;
          var length := Atoi(contentLength);
          if length.None? {
            return |body|, Some(NonIntegerContentLength);
          }
          if |body| > length.value {
            return |body|, Some(ExcessBodyData);
          }
          if |body| == length.value {
            state := Done;
          }
          return |data|, None;
        case Done =>
          return 0, Some(ParseAfterDone);
      }
    }

    /** parse: parseSingle over the unconsumed rest until Done, an error or no progress. */
    method Parse(data: seq<char>) returns (n: nat, err: Option<RequestError>)
      modifies this, headers
      ensures Snapshot() == RequestParse.Parse(old(Snapshot()), data).next
      ensures n == RequestParse.Parse(old(Snapshot()), data).n
      ensures err == RequestParse.Parse(old(Snapshot()), data).err
    {
      var total := 0;
      ghost var whole := RequestParse.Parse(Snapshot(), data);
      assert data[total..] == data;
      assert Shift(whole, 0) == whole;
      while state != Done
        invariant total <= |data|
        invariant whole == Shift(RequestParse.Parse(Snapshot(), data[total..]), total)
        decreases |data| - total
      {
        ghost var before := Snapshot();
        var rest := data[total..];
        var consumed, e := ParseSingle(rest);
        ParseUnfold(before, rest);
        if e.Some? {
          return 0, e;
        }
        if consumed == 0 {
          break;
        }
        DropDrop(data, total, consumed);
        ghost var after := RequestParse.Parse(Snapshot(), data[total + consumed..]);
        assert RequestParse.Parse(before, rest) == Shift(after, consumed);
        ShiftShift(after, consumed, total);
        assert whole == Shift(after, total + consumed);
        ghost var next := Snapshot();
        ghost var previous := total;
        total := total + consumed;
        assert next == Snapshot();
        assert data[total..] == data[previous + consumed..];
      }
      if state == Done {
        assert RequestParse.Stalls(Snapshot(), data[total..]);
      }
      return total, None;
    }
  }

  /** The bytes of all chunks, in order. */
  function Concat(chunks: seq<seq<char>>): seq<char> {
    if chunks == [] then [] else chunks[0] + Concat(chunks[1..])
  }

  /** What Read reports besides the byte count: more data, io.EOF, or another error. */
  datatype ReadStatus = ReadOk | EndOfStream | ReadFailure

  /**
   * An io.Reader over a fixed stream: each Read returns the front of the next
   * chunk (as much as fits), then io.EOF (with `final`, bytes a reader may hand
   * over together with EOF) or, when `failure` is set, a transport error.
   */
  class ChunkReader {
    var chunks: seq<seq<char>>
    const final: seq<char>
    const failure: bool

    /** The bytes still to come before the end of the stream. */
    function Rest(): seq<char>
      reads this
    {
      Concat(chunks)
    }

    /** Drops with every successful Read, so a reading loop terminates. */
    function Pending(): nat
      reads this
    {
      |Rest()| + |chunks|
    }

    constructor (chunks: seq<seq<char>>, final: seq<char>, failure: bool)
      ensures this.chunks == chunks && this.final == final && this.failure == failure
    {
      this.chunks := chunks;
      this.final := final;
      this.failure := failure;
    }

    /** Read(buf[from:]): copies the next bytes into buf from index from on. */
    method Read(buf: array<char>, from: nat) returns (n: nat, status: ReadStatus)
      requires from < buf.Length
      modifies this, buf
      ensures n <= buf.Length - from
      ensures buf[..from] == old(buf[..from])
      ensures status == ReadOk ==>
        old(chunks) != [] && old(Rest()) == buf[from..from + n] + Rest() && Pending() < old(Pending())
      ensures status != ReadOk ==> old(chunks) == [] && chunks == []
      ensures status == ReadFailure <==> old(chunks) == [] && failure
      ensures status == EndOfStream ==> n <= |final| && buf[from..from + n] == final[..n]
    {
      if chunks == [] {
        if failure {
          return 0, ReadFailure;
        }
        n := if |final| < buf.Length - from then |final| else buf.Length - from;
        CopyInto(buf, from, final[..n]);
        return n, EndOfStream;
      }
      var chunk := chunks[0];
      n := if |chunk| < buf.Length - from then |chunk| else buf.Length - from;
      CopyInto(buf, from, chunk[..n]);
      ConcatFront(chunks, n);
      if n == |chunk| {
        chunks := chunks[1..];
      } else {
        chunks := [chunk[n..]] + chunks[1..];
      }
      return n, ReadOk;
    }
  }

  /** Taking n bytes off the first chunk takes them off the stream. */
  lemma {:induction false} ConcatFront(chunks: seq<seq<char>>, n: nat)
    requires chunks != [] && n <= |chunks[0]|
    ensures n == |chunks[0]| ==> Concat(chunks[1..]) == Concat(chunks)[n..]
    ensures n < |chunks[0]| ==> Concat([chunks[0][n..]] + chunks[1..]) == Concat(chunks)[n..]
    ensures Concat(chunks)[..n] == chunks[0][..n]
  {
    var tail := [chunks[0][n..]] + chunks[1..];
    assert tail[0] == chunks[0][n..] && tail[1..] == chunks[1..];
  }

  /** Writes bytes into buf starting at from, leaving the rest of buf alone. */
  method CopyInto(buf: array<char>, from: nat, bytes: seq<char>)
    requires from + |bytes| <= buf.Length
    modifies buf
    ensures buf[..from] == old(buf[..from])
    ensures buf[from..from + |bytes|] == bytes
    ensures buf[from + |bytes|..] == old(buf[from + |bytes|..])
  {
    var i := 0;
    while i < |bytes|
      invariant 0 <= i <= |bytes|
      invariant buf[..from] == old(buf[..from])
      invariant buf[from..from + i] == bytes[..i]
      invariant buf[from + i..] == old(buf[from + i..])
    {
      buf[from + i] := bytes[i];
      i := i + 1;
    }
  }

  /** The new buffer when the old one is full: twice the size, the old bytes in front. */
  method Grow(buf: array<char>) returns (bigger: array<char>)
    ensures fresh(bigger) && bigger.Length == 2 * buf.Length
    ensures bigger[..buf.Length] == buf[..]
  {
    bigger := new char[2 * buf.Length];
    var i := 0;
    while i < buf.Length
      invariant 0 <= i <= buf.Length
      invariant bigger[..i] == buf[..i]
    {
      bigger[i] := buf[i];
      i := i + 1;
    }
  }

  /**
   * copy(buf, buf[k:]): the bytes from k on move to the front; the tail is left
   * as it was. Of the first `used` bytes, the ones after the first k end up in front.
   */
  method ShiftLeft(buf: array<char>, k: nat, ghost used: nat)
    requires k <= used <= buf.Length
    modifies buf
    ensures buf[..buf.Length - k] == old(buf[k..])
    ensures buf[buf.Length - k..] == old(buf[buf.Length - k..])
    ensures buf[..used - k] == old(buf[..used])[k..]
  {
    ghost var full := buf[..];
    var i := 0;
    while i < buf.Length - k
      invariant 0 <= i <= buf.Length - k
      invariant forall j :: 0 <= j < i ==> buf[j] == full[k + j]
      invariant forall j :: i <= j < buf.Length ==> buf[j] == full[j]
    {
      buf[i] := buf[i + k];
      i := i + 1;
    }
    assert buf[..buf.Length - k] == full[k..];
    assert buf[..used - k] == buf[..buf.Length - k][..used - k];
    DropTake(full, k, used - k);
  }

  /** After a Read of n bytes at index i, the buffer and the reader still hold the rest of the stream. */
  lemma {:induction false} BufferAfterRead(buf: array<char>, i: nat, j: nat, unparsed: seq<char>, unread: seq<char>, rest: seq<char>)
    requires i <= j <= buf.Length && buf[..i] == unparsed
    requires unread == buf[i..j] + rest
    ensures buf[..j] + rest == unparsed + unread
  {
    TakeSplit(buf[..], i, j - i);
    ConcatAssoc(unparsed, buf[i..j], rest);
  }

  /** What stays in the buffer after copy(buf, buf[k:]), followed by what is unread, is the stream from c + k on. */
  lemma {:induction false} BufferAfterShift(kept: seq<char>, pending: seq<char>, rest: seq<char>, stream: seq<char>, c: nat, k: nat)
    requires k <= |pending| && kept == pending[k..]
    requires c <= |stream| && pending + rest == stream[c..]
    ensures c + k <= |stream| && kept + rest == stream[c + k..]
  {
    DropConcat(pending, rest, k);
    DropDrop(stream, c, k);
  }

  /**
   * The top of RequestFromReader's loop: a full buffer is first replaced by
   * one twice its size, then the reader fills the space after readToIndex.
   */
  method ReadInto(reader: ChunkReader, buf: array<char>, readToIndex: nat) returns (out: array<char>, n: nat, status: ReadStatus)
    requires readToIndex <= buf.Length && buf.Length >= BufferSize
    modifies reader, buf
    ensures out == buf || fresh(out)
    ensures readToIndex < buf.Length ==> out == buf
    ensures readToIndex == buf.Length ==> out.Length == 2 * buf.Length
    ensures out.Length >= BufferSize && readToIndex + n <= out.Length
    ensures out[..readToIndex] == old(buf[..readToIndex])
    ensures status == ReadOk ==>
      out[..readToIndex + n] + reader.Rest() == old(buf[..readToIndex]) + old(reader.Rest()) && reader.Pending() < old(reader.Pending())
    ensures status != ReadOk ==> old(reader.chunks) == [] && reader.chunks == []
    ensures status == ReadFailure <==> old(reader.chunks) == [] && reader.failure
  {
    out := buf;
    if readToIndex >= buf.Length {
      out := Grow(buf);
      assert out[..readToIndex] == buf[..];
    }
    n, status := reader.Read(out, readToIndex);
    if status == ReadOk {
      BufferAfterRead(out, readToIndex, readToIndex + n, old(buf[..readToIndex]), old(reader.Rest()), reader.Rest());
    }
  }

  /** Why RequestFromReader gave up. */
  datatype ReadError =
    | ParseFailed(cause: RequestError)
    | IncompleteRequest(state: State, bytesOnEOF: nat)   // EOF before Done; the count is only reported
    | ReadFailed                                         // the reader's own error

  /**
   * One round of RequestFromReader, stated on the whole stream: when the
   * unparsed bytes so far are `pending`, followed in the stream by `rest`, and
   * `whole` is the result of parsing the whole stream at once, the parse of
   * `pending` tells what `whole` is.
   */
  lemma {:induction false} DriverStep(whole: Step, stream: seq<char>, c: nat, p: Parser, pending: seq<char>, rest: seq<char>, r: Step)
    requires c <= |stream| && pending + rest == stream[c..]
    requires p.state != Done
    requires whole == Shift(RequestParse.Parse(p, stream[c..]), c)
    requires r == RequestParse.Parse(p, pending)
    ensures r.err.Some? ==> whole.err == r.err
    ensures r.err.None? && r.next.state == Done ==> whole.err.Some? || whole.next == r.next
    ensures r.err.None? && r.next.state != Done ==>
      && c + r.n <= |stream|
      && whole == Shift(RequestParse.Parse(r.next, stream[c + r.n..]), c + r.n)
      && RequestParse.Stalls(r.next, pending[r.n..])
  {
    if r.err.None? && r.next.state != Done {
      DriverContinue(whole, stream, c, p, pending, rest, r);
      ParseStops(p, pending);
    } else {
      DriverStop(whole, stream, c, p, pending, rest, r);
    }
  }

  lemma {:induction false} DriverStop(whole: Step, stream: seq<char>, c: nat, p: Parser, pending: seq<char>, rest: seq<char>, r: Step)
    requires c <= |stream| && pending + rest == stream[c..]
    requires whole == Shift(RequestParse.Parse(p, stream[c..]), c)
    requires r == RequestParse.Parse(p, pending)
    ensures r.err.Some? ==> whole.err == r.err
    ensures r.err.None? && r.next.state == Done ==> whole.err.Some? || whole.next == r.next
  {
    ParseExtend(p, pending, rest);
    assert Extends(p, pending, rest);
  }

  lemma {:induction false} DriverContinue(whole: Step, stream: seq<char>, c: nat, p: Parser, pending: seq<char>, rest: seq<char>, r: Step)
    requires c <= |stream| && pending + rest == stream[c..]
    requires whole == Shift(RequestParse.Parse(p, stream[c..]), c)
    requires r == RequestParse.Parse(p, pending)
    requires r.err.None? && r.next.state != Done
    ensures c + r.n <= |stream|
    ensures whole == Shift(RequestParse.Parse(r.next, stream[c + r.n..]), c + r.n)
  {
    var r2 := RequestParse.Parse(p, pending + rest);
    assert whole == Shift(r2, c);
    ParseExtend(p, pending, rest);
    var cont := RequestParse.Parse(r.next, (pending + rest)[r.n..]);
    assert Related(r, r2, cont);
    assert r2 == Shift(cont, r.n);
    DropDrop(stream, c, r.n);
    assert (pending + rest)[r.n..] == stream[c + r.n..];
    ShiftShift(cont, r.n, c);
  }

  /**
   * The top of RequestFromReader's loop, with what a failed read means for the
   * whole stream: the request is still p, which has taken in everything
   * delivered so far without finishing, so the whole stream is an unfinished
   * request too.
   */
  method ReadMore(reader: ChunkReader, buf: array<char>, readToIndex: nat,
                  ghost whole: Step, ghost stream: seq<char>, ghost consumed: nat, ghost p: Parser)
    returns (out: array<char>, n: nat, status: ReadStatus)
    requires readToIndex <= buf.Length && buf.Length >= BufferSize
    requires consumed <= |stream| && buf[..readToIndex] + reader.Rest() == stream[consumed..]
    requires p.state != Done && whole == Shift(RequestParse.Parse(p, stream[consumed..]), consumed)
    requires RequestParse.Stalls(p, buf[..readToIndex])
    modifies reader, buf
    ensures out == buf || fresh(out)
    ensures out.Length >= BufferSize && readToIndex + n <= out.Length
    ensures status == ReadOk ==>
      out[..readToIndex + n] + reader.Rest() == stream[consumed..] && reader.Pending() < old(reader.Pending())
    ensures status != ReadOk ==> whole.err.None? && whole.next.state != Done
    ensures status == ReadFailure ==> reader.failure
    ensures status == EndOfStream ==> !reader.failure
  {
    ghost var unparsed := buf[..readToIndex];
    out, n, status := ReadInto(reader, buf, readToIndex);
    if status != ReadOk {
      assert unparsed == stream[consumed..];
      assert whole == Shift(Step(p, 0, None), consumed);
    }
  }

  /**
   * The parsing half of the bottom of RequestFromReader's loop: the bytes read
   * so far (`pending`) are handed to the request. `stream` is everything the
   * reader ever delivers, `consumed` how much of it earlier rounds parsed, and
   * `rest` what is still unread. Whatever the request does with `pending` is
   * what it does with the whole stream at that point.
   */
  method ParsePending(request: Request, pending: seq<char>,
                      ghost whole: Step, ghost stream: seq<char>, ghost consumed: nat, ghost rest: seq<char>)
    returns (n: nat, err: Option<RequestError>)
    requires consumed <= |stream| && pending + rest == stream[consumed..]
    requires request.state != Done
    requires whole == Shift(RequestParse.Parse(request.Snapshot(), stream[consumed..]), consumed)
    modifies request, request.headers
    ensures err.Some? ==> whole.err == err
    ensures err.None? ==> n <= |pending|
    ensures err.None? && request.state != Done ==>
      && consumed + n <= |stream|
      && whole == Shift(RequestParse.Parse(request.Snapshot(), stream[consumed + n..]), consumed + n)
      && RequestParse.Stalls(request.Snapshot(), pending[n..])
    ensures err.None? && request.state == Done ==> whole.err.Some? || whole.next == request.Snapshot()
  {
    ghost var p := request.Snapshot();
    ghost var parsed := RequestParse.Parse(p, pending);
    DriverStep(whole, stream, consumed, p, pending, rest, parsed);
    n, err := request.Parse(pending);
    if err.None? && request.state != Done {
      assert request.Snapshot() == parsed.next && n == parsed.n;
      assert whole == Shift(RequestParse.Parse(request.Snapshot(), stream[consumed + n..]), consumed + n);
    }
  }

  /**
   * The buffer half: `copy(buf, buf[numBytesParsed:readToIndex])` drops the
   * parsed bytes from the front of the buffer and readToIndex moves back by as
   * many, so the buffer and the unread input still make up the stream past
   * what has been parsed.
   */
  method Discard(buf: array<char>, readToIndex: nat, k: nat,
                 ghost pending: seq<char>, ghost rest: seq<char>, ghost stream: seq<char>, ghost consumed: nat)
    returns (left: nat)
    requires k <= readToIndex <= buf.Length && buf[..readToIndex] == pending
    requires consumed <= |stream| && pending + rest == stream[consumed..]
    modifies buf
    ensures left == readToIndex - k && buf[..left] == pending[k..]
    ensures consumed + k <= |stream| && buf[..left] + rest == stream[consumed + k..]
  {
    ShiftLeft(buf, k, readToIndex);
    left := readToIndex - k;
    BufferAfterShift(buf[..left], pending, rest, stream, consumed, k);
  }

  /** The bottom of RequestFromReader's loop: ParsePending, then Discard. */
  method ParseBuffered(request: Request, buf: array<char>, readToIndex: nat,
                       ghost whole: Step, ghost stream: seq<char>, ghost consumed: nat, ghost rest: seq<char>)
    returns (left: nat, ghost next: nat, err: Option<RequestError>)
    requires readToIndex <= buf.Length && consumed <= |stream| && buf[..readToIndex] + rest == stream[consumed..]
    requires request.state != Done
    requires whole == Shift(RequestParse.Parse(request.Snapshot(), stream[consumed..]), consumed)
    modifies request, request.headers, buf
    ensures err.Some? ==> whole.err == err
    ensures err.None? ==> left <= readToIndex && next <= |stream| && buf[..left] + rest == stream[next..]
    ensures err.None? && request.state != Done ==>
      && whole == Shift(RequestParse.Parse(request.Snapshot(), stream[next..]), next)
      && RequestParse.Stalls(request.Snapshot(), buf[..left])
    ensures err.None? && request.state == Done ==> whole.err.Some? || whole.next == request.Snapshot()
  {
    var pending := buf[..readToIndex];
    var numBytesParsed;
    numBytesParsed, err := ParsePending(request, pending, whole, stream, consumed, rest);
    if err.Some? {
      return readToIndex, consumed, err;
    }
    ghost var q := request.Snapshot();
    left := Discard(buf, readToIndex, numBytesParsed, pending, rest, stream, consumed);
    next := consumed + numBytesParsed;
    assert request.Snapshot() == q;
  }

  /**
   * One turn of RequestFromReader's loop: read more (growing the buffer when it
   * is full), then parse what is buffered and drop the parsed bytes. Either the
   * loop's invariant holds again with less left to read, or the loop ends with
   * the error RequestFromReader returns, which says the same as the whole stream.
   */
  method Round(reader: ChunkReader, request: Request, buf: array<char>, readToIndex: nat,
               ghost whole: Step, ghost stream: seq<char>, ghost consumed: nat)
    returns (out: array<char>, left: nat, ghost next: nat, failed: Option<ReadError>)
    requires buf.Length >= BufferSize && readToIndex <= buf.Length
    requires consumed <= |stream| && buf[..readToIndex] + reader.Rest() == stream[consumed..]
    requires request.state != Done
    requires whole == Shift(RequestParse.Parse(request.Snapshot(), stream[consumed..]), consumed)
    requires RequestParse.Stalls(request.Snapshot(), buf[..readToIndex])
    modifies reader, request, request.headers, buf
    ensures out == buf || fresh(out)
    ensures failed.None? ==>
      && out.Length >= BufferSize && left <= out.Length
      && next <= |stream| && out[..left] + reader.Rest() == stream[next..]
      && reader.Pending() < old(reader.Pending())
      && (request.state != Done ==>
            && whole == Shift(RequestParse.Parse(request.Snapshot(), stream[next..]), next)
            && RequestParse.Stalls(request.Snapshot(), out[..left]))
      && (request.state == Done ==> whole.err.Some? || whole.next == request.Snapshot())
    ensures failed.Some? && failed.value.ParseFailed? ==> whole.err == Some(failed.value.cause)
    ensures failed.Some? && !failed.value.ParseFailed? ==> whole.err.None? && whole.next.state != Done
    ensures failed.Some? && failed.value.ReadFailed? ==> reader.failure
    ensures failed.Some? && failed.value.IncompleteRequest? ==> !reader.failure
  {
    ghost var p := request.Snapshot();
    var numBytesRead, status;
    out, numBytesRead, status := ReadMore(reader, buf, readToIndex, whole, stream, consumed, p);
    assert request.Snapshot() == p;
    if status == EndOfStream {
      return out, readToIndex, consumed, Some(IncompleteRequest(request.state, numBytesRead));
    } else if status == ReadFailure {
      return out, readToIndex, consumed, Some(ReadFailed);
    }
    var err;
    left, next, err := ParseBuffered(request, out, readToIndex + numBytesRead, whole, stream, consumed, reader.Rest());
    if err.Some? {
      return out, left, next, Some(ParseFailed(err.value));
    }
    failed := None;
  }

  /**
   * RequestFromReader. A request is returned only once it is Done; it is the
   * request the whole stream parses to, unless that parse fails (excess body
   * bytes arriving in a later read than the completing ones go unseen). A
   * parse error is the whole stream's error, and running out of input means
   * the whole stream is an unfinished request. So whenever the whole stream
   * holds one complete request, the result is that request, however the bytes
   * were split across reads.
   */
  method RequestFromReader(reader: ChunkReader) returns (r: Result<Request, ReadError>)
    modifies reader
    ensures var whole := ParseWhole(old(reader.Rest()));
      && (r.Ok? ==> r.value.state == Done && (whole.err.Some? || r.value.Snapshot() == whole.next))
      && (r.Err? && r.error.ParseFailed? ==> whole.err == Some(r.error.cause))
      && (r.Err? && !r.error.ParseFailed? ==> whole.err.None? && whole.next.state != Done)
      && (r.Err? && r.error.ReadFailed? ==> reader.failure)
      && (r.Err? && r.error.IncompleteRequest? ==> !reader.failure)
      && (whole.err.None? && whole.next.state == Done ==> r.Ok? && r.value.Snapshot() == whole.next)
  {
    ghost var stream := reader.Rest();
    ghost var whole := ParseWhole(stream);
    ghost var consumed: nat := 0;
    var buf := new char[BufferSize];
    var readToIndex: nat := 0;
    var request := new Request();
    assert stream[consumed..] == stream && Shift(whole, 0) == whole;

    while request.state != Done
      invariant fresh(buf) && fresh(request) && fresh(request.headers)
      invariant buf.Length >= BufferSize && readToIndex <= buf.Length
      invariant consumed <= |stream| && buf[..readToIndex] + reader.Rest() == stream[consumed..]
      invariant request.state != Done ==>
        whole == Shift(RequestParse.Parse(request.Snapshot(), stream[consumed..]), consumed)
      invariant request.state != Done ==>
        RequestParse.Stalls(request.Snapshot(), buf[..readToIndex])
      invariant request.state == Done ==> whole.err.Some? || whole.next == request.Snapshot()
      decreases reader.Pending()
    {
      var failed;
      ghost var next;
      buf, readToIndex, next, failed := Round(reader, request, buf, readToIndex, whole, stream, consumed);
      if failed.Some? {
        return Err(failed.value);
      }
      consumed := next;
    }
    return Ok(request);
  }
}
