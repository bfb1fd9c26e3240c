/**
 * The pure core of httpfromtcp/internal/request: the request-line parser and the
 * state machine that `Request.parseSingle` and `Request.parse` drive, written as
 * functions of a parser value. The imperative `Request` class is proved to
 * follow these functions step for step.
 */
module RequestParse {
  import opened Options
  import opened Strings
  import opened Strconv
  import opened Headers

  /** requestState: the parser only ever moves down this list. */
  datatype State = Initialized | ParsingHeaders | ParsingBody | Done

  function Rank(s: State): nat {
    match s
    case Initialized => 0
    case ParsingHeaders => 1
    case ParsingBody => 2
    case Done => 3
  }

  datatype RequestLine = RequestLine(httpVersion: string, requestTarget: string, httpMethod: string)

  /** The errors the parser reports; each stands for one `fmt.Errorf` of request.go or headers.go. */
  datatype RequestError =
    | PoorlyFormattedRequestLine
    | InvalidMethod
    | MalformedStartLine
    | UnrecognizedHttpVersion
    | FieldLine(cause: HeaderError)
    | NonIntegerContentLength
    | ExcessBodyData
    | ParseAfterDone

  predicate AllUpper(s: seq<char>) {
    forall i :: 0 <= i < |s| ==> IsUpper(s[i])
  }

  /** The request-line as it appears on the wire, without its CRLF. */
  function RequestLineText(line: RequestLine): string {
    line.httpMethod + " " + line.requestTarget + " HTTP/" + line.httpVersion
  }

  /**
   * requestLineFromString: exactly three space-separated parts, a method of
   * upper-case letters only (possibly empty), and the version "HTTP/1.1".
   * Accepted lines are exactly the texts of their own result.
   */
  function RequestLineFromString(str: string): (r: Result<RequestLine, RequestError>)
    ensures r == Err(PoorlyFormattedRequestLine) <==> Count(str, ' ') != 2
    ensures r.Ok? ==> r.value.httpVersion == "1.1" && AllUpper(r.value.httpMethod) && ' ' !in r.value.requestTarget
    ensures r.Ok? ==> str == RequestLineText(r.value)
  {
    var parts := Split(str, ' ');
    SplitCount(str, ' ');
    if |parts| != 3 then Err(PoorlyFormattedRequestLine)
    else if !AllUpper(parts[0]) then Err(InvalidMethod)
    else
      var versionParts := Split(parts[2], '/');
      if |versionParts| != 2 then Err(MalformedStartLine)
      else if versionParts[0] != "HTTP" then Err(UnrecognizedHttpVersion)
      else if versionParts[1] != "1.1" then Err(UnrecognizedHttpVersion)
      else
        AcceptedLineText(str, parts, versionParts);
        Ok(RequestLine(versionParts[1], parts[1], parts[0]))
  }

  /** A line that passes every check is the text of the line it yields. */
  lemma {:induction false} AcceptedLineText(str: string, parts: seq<string>, versionParts: seq<string>)
    requires parts == Split(str, ' ') && |parts| == 3
    requires versionParts == Split(parts[2], '/') && |versionParts| == 2 && versionParts[0] == "HTTP"
    ensures str == RequestLineText(RequestLine(versionParts[1], parts[1], parts[0]))
  {
    JoinThree(parts, ' ');
    JoinTwo(versionParts, '/');
    VersionText(parts[0] + [' '] + parts[1], versionParts[0], versionParts[1]);
  }

  lemma {:induction false} VersionText(front: string, name: string, number: string)
    requires name == "HTTP"
    ensures front + [' '] + (name + ['/'] + number) == front + " HTTP/" + number
  {
    assert [' '] + (name + ['/']) == " HTTP/";
  }

  lemma {:induction false} UpperHasNoSpace(verb: string)
    requires AllUpper(verb)
    ensures ' ' !in verb
  {
    forall i | 0 <= i < |verb|
      ensures verb[i] != ' '
    {
      assert IsUpper(verb[i]);
    }
  }

  lemma {:induction false} SplitLineText(verb: string, target: string)
    requires ' ' !in verb && ' ' !in target
    ensures Split(RequestLineText(RequestLine("1.1", target, verb)), ' ') == [verb, target, "HTTP/1.1"]
  {
    var str := RequestLineText(RequestLine("1.1", target, verb));
    var version := "HTTP/1.1";
    assert str == verb + [' '] + (target + [' '] + version);
    SplitAfterPiece(verb, ' ', target + [' '] + version);
    SplitAfterPiece(target, ' ', version);
    SplitVersion();
  }

  /** The version field "HTTP/1.1" is one piece on ' ' and two on '/'. */
  lemma {:induction false} SplitVersion()
    ensures Split("HTTP/1.1", '/') == ["HTTP", "1.1"]
    ensures Split("HTTP/1.1", ' ') == ["HTTP/1.1"]
  {
    assert "HTTP/1.1" == "HTTP" + ['/'] + "1.1";
    SplitTwo("HTTP", '/', "1.1");
    SplitNoSep("HTTP/1.1", ' ');
  }

  /** Every well-formed line text is accepted and gives back its own parts. */
  lemma {:induction false} RequestLineFromText(verb: string, target: string)
    requires AllUpper(verb) && ' ' !in target
    ensures RequestLineFromString(RequestLineText(RequestLine("1.1", target, verb)))
         == Ok(RequestLine("1.1", target, verb))
  {
    UpperHasNoSpace(verb);
    SplitLineText(verb, target);
    SplitVersion();
  }

  /** What parseRequestLine returns: no line yet, a line and the bytes it used, or an error. */
  datatype StartLine = NoLineYet | Line(line: RequestLine, consumed: nat) | BadLine(error: RequestError)

  /**
   * parseRequestLine: nothing until a CRLF has arrived; then the text before
   * the first CRLF is the request-line, and a good one consumes it and the CRLF.
   */
  function ParseRequestLine(data: seq<char>): (r: StartLine)
    ensures r.NoLineYet? <==> NoCRLF(data)
    ensures r.Line? ==> r.consumed == IndexOfCRLF(data) + 2 && data[..r.consumed] == RequestLineText(r.line) + "\r\n"
    ensures r.Line? ==> r.line.httpVersion == "1.1" && AllUpper(r.line.httpMethod) && ' ' !in r.line.requestTarget
    ensures r.BadLine? ==> r.error in {PoorlyFormattedRequestLine, InvalidMethod, MalformedStartLine, UnrecognizedHttpVersion}
  {
    var idx := IndexOfCRLF(data);
    if idx == -1 then NoLineYet
    else
      match RequestLineFromString(data[..idx])
      case Err(e) => BadLine(e)
      case Ok(line) =>
        assert data[..idx + 2] == data[..idx] + "\r\n";
        Line(line, idx + 2)
  }

  /** A request-line written out with its CRLF is read back, whatever follows it. */
  lemma {:induction false} ParseRequestLineText(verb: string, target: string, rest: seq<char>)
    requires AllUpper(verb) && ' ' !in target && NoCRLF(target)
    ensures var line := RequestLine("1.1", target, verb);
      ParseRequestLine(RequestLineText(line) + "\r\n" + rest) == Line(line, |RequestLineText(line)| + 2)
  {
    var line := RequestLine("1.1", target, verb);
    var text := RequestLineText(line);
    forall i | 0 <= i < |text|
      ensures !CRLFAt(text, i)
    {
      if i < |verb| {
        assert text[i] == verb[i] && IsUpper(verb[i]);
      } else if |verb| < i < |verb| + 1 + |target| {
        assert text[i] == target[i - |verb| - 1];
        if i + 1 < |verb| + 1 + |target| {
          assert text[i + 1] == target[i + 1 - |verb| - 1];
          assert !CRLFAt(target, i - |verb| - 1);
        } else {
          assert text[i + 1] == ' ';
        }
      } else if i > |verb| + |target| + 1 {
        assert text[i] == "HTTP/1.1"[i - |verb| - |target| - 2];
      }
    }
    IndexOfCRLFAfterLine(text, rest);
    var data := text + "\r\n" + rest;
    assert data[..|text|] == text;
    RequestLineFromText(verb, target);
  }

  /** The parser's state: the Request struct minus its identity. */
  datatype Parser = Parser(state: State, line: RequestLine, fields: map<string, string>, body: seq<char>)

  /** A fresh Request: Initialized, zero request-line, no fields, empty body. */
  const Initial := Parser(Initialized, RequestLine("", "", ""), map[], [])

  /** The parser afterwards, the bytes consumed and the error, if any. */
  datatype Step = Step(next: Parser, n: nat, err: Option<RequestError>)

  /** The Content-Length field value, looked up case-insensitively as Get does. */
  function ContentLength(fields: map<string, string>): (string, bool) {
    GetField(fields, "Content-Length")
  }

  /** parseSingle in Initialized: the request-line, once its CRLF has arrived. */
  function StartStep(p: Parser, data: seq<char>): (r: Step)
    requires p.state == Initialized
    ensures r.err.None? ==> r.n <= |data|
    ensures r.err.None? && r.n == 0 ==> r.next == p
    ensures r.err.None? && r.n > 0 ==> r.next == p.(line := r.next.line, state := ParsingHeaders)
    ensures r.err.Some? ==> r.next == p && r.err.value != ParseAfterDone
  {
    match ParseRequestLine(data)
    case NoLineYet => Step(p, 0, None)
    case BadLine(e) => Step(p, 0, Some(e))
    case Line(line, n) => Step(p.(line := line, state := ParsingHeaders), n, None)
  }

  /** parseSingle in ParsingHeaders: one field line, or the empty line that ends the section. */
  function HeaderStep(p: Parser, data: seq<char>): (r: Step)
    requires p.state == ParsingHeaders
    ensures r.err.None? ==> r.n <= |data|
    ensures r.err.None? && r.n == 0 ==> r.next == p
    ensures r.next.state == ParsingHeaders || (r.next == p.(state := ParsingBody) && r.n == 2)
    ensures r.next.line == p.line && r.next.body == p.body
    ensures r.err.Some? ==> r.next == p && r.err.value.FieldLine?
  {
    match ParseFieldLine(data)
    case NeedMore => Step(p, 0, None)
    case EndOfFields => Step(p.(state := ParsingBody), 2, None)
    case Field(name, value, n) => Step(p.(fields := SetField(p.fields, name, value)), n, None)
    case Malformed(e) => Step(p, 0, Some(FieldLine(e)))
  }

  /**
   * What StartStep does with the outcome of parseRequestLine: waits for more
   * data, fails with its error, or stores the line it read, moves to
   * ParsingHeaders and reports the bytes it consumed.
   */
  lemma {:induction false} StartStepResult(p: Parser, data: seq<char>)
    requires p.state == Initialized
    ensures var s := ParseRequestLine(data);
      && (s.NoLineYet? ==> StartStep(p, data) == Step(p, 0, None))
      && (s.BadLine? ==> StartStep(p, data) == Step(p, 0, Some(s.error)))
      && (s.Line? ==> StartStep(p, data) == Step(p.(line := s.line, state := ParsingHeaders), s.consumed, None))
  {
  }

  /**
   * What HeaderStep does with the outcome of Headers.Parse: waits for more
   * data, ends the section on the empty line, fails with the line's error, or
   * Sets the field it read and reports the bytes of its line.
   */
  lemma {:induction false} HeaderStepResult(p: Parser, data: seq<char>)
    requires p.state == ParsingHeaders
    ensures var f := ParseFieldLine(data);
      && (f.NeedMore? ==> HeaderStep(p, data) == Step(p, 0, None))
      && (f.EndOfFields? ==> HeaderStep(p, data) == Step(p.(state := ParsingBody), 2, None))
      && (f.Malformed? ==> HeaderStep(p, data) == Step(p, 0, Some(FieldLine(f.error))))
      && (f.Field? ==> HeaderStep(p, data) == Step(p.(fields := SetField(p.fields, f.name, f.value)), f.consumed, None))
  {
  }

  /**
   * parseSingle in ParsingBody. With a Content-Length the data is appended to
   * the body before the value is checked, as in the source, so an error leaves
   * the longer body behind and reports its length.
   */
  function BodyStep(p: Parser, data: seq<char>): (r: Step)
    requires p.state == ParsingBody
    ensures r.err.None? ==> r.n <= |data|
    ensures r.err.None? && r.n == 0 && r.next.state != Done ==> r.next == p
    ensures r.next.state == ParsingBody || r.next.state == Done
    ensures r.next.line == p.line && r.next.fields == p.fields
    ensures r.next.body == p.body || r.next.body == p.body + data
    ensures r.err.Some? ==> r.err.value == NonIntegerContentLength || r.err.value == ExcessBodyData
  {
    var cl := ContentLength(p.fields);
    if !cl.1 then Step(p.(state := Done), 0, None)
    else
      var q := p.(body := p.body + data);
      var length := Atoi(cl.0);
      if length.None? then Step(q, |q.body|, Some(NonIntegerContentLength))
      else if |q.body| > length.value then Step(q, |q.body|, Some(ExcessBodyData))
      else if |q.body| == length.value then Step(q.(state := Done), |data|, None)
      else
        assert data == [] ==> q == p;
        Step(q, |data|, None)
  }

  /** parseSingle: one transition of the state machine; in Done it refuses to run. */
  function ParseSingle(p: Parser, data: seq<char>): (r: Step)
    ensures r.err.None? ==> r.n <= |data|
    ensures Rank(p.state) <= Rank(r.next.state) <= Rank(p.state) + 1
    ensures r.err == Some(ParseAfterDone) <==> p.state == Done
    ensures r.err.None? && r.n == 0 && r.next.state != Done ==> r.next == p
    ensures p.state != Initialized ==> r.next.line == p.line
    ensures p.state != ParsingHeaders ==> r.next.fields == p.fields
    ensures r.next.body == p.body || (p.state == ParsingBody && r.next.body == p.body + data)
  {
    match p.state
    case Initialized => StartStep(p, data)
    case ParsingHeaders => HeaderStep(p, data)
    case ParsingBody => BodyStep(p, data)
    case Done => Step(p, 0, Some(ParseAfterDone))
  }

  /** Adds bytes consumed earlier to a successful result; an error carries no count. */
  function Shift(r: Step, k: nat): Step {
    if r.err.Some? then r else r.(n := r.n + k)
  }

  /**
   * parse: parseSingle until Done, an error, or a step that consumes nothing.
   * The error result reports 0 bytes, as the source returns (0, err).
   */
  function Parse(p: Parser, data: seq<char>): (r: Step)
    ensures r.err.None? ==> r.n <= |data|
    ensures r.err.Some? ==> r.n == 0
    decreases |data|, 1
  {
    if p.state == Done then Step(p, 0, None) else Advance(p, data)
  }

  /** One pass of parse's loop body, then the rest of the loop. */
  function Advance(p: Parser, data: seq<char>): (r: Step)
    requires p.state != Done
    ensures r.err.None? ==> r.n <= |data|
    ensures r.err.Some? ==> r.n == 0
    decreases |data|, 0
  {
    var s := ParseSingle(p, data);
    if s.err.Some? then Step(s.next, 0, s.err)
    else if s.n == 0 then Step(s.next, 0, None)
    else Shift(Parse(s.next, data[s.n..]), s.n)
  }

  /** Parsing data from p gets nowhere: nothing consumed, no error, p unchanged. */
  predicate Stalls(p: Parser, data: seq<char>) {
    Parse(p, data) == Step(p, 0, None)
  }

  /** The whole stream parsed at once from a fresh request. */
  function ParseWhole(s: seq<char>): Step {
    Parse(Initial, s)
  }

  lemma {:induction false} ShiftShift(r: Step, j: nat, k: nat)
    ensures Shift(Shift(r, j), k) == Shift(r, j + k)
  {
  }

  /** The state never moves backwards, over any number of steps. */
  lemma {:induction false} ParseForward(p: Parser, data: seq<char>)
    ensures Rank(p.state) <= Rank(Parse(p, data).next.state)
    decreases |data|
  {
    if p.state != Done {
      var s := ParseSingle(p, data);
      if s.err.None? && s.n > 0 {
        ParseForward(s.next, data[s.n..]);
      }
    }
  }

  /** parse never calls parseSingle in Done, so it never reports that error. */
  lemma {:induction false} ParseNeverAfterDone(p: Parser, data: seq<char>)
    ensures Parse(p, data).err != Some(ParseAfterDone)
    decreases |data|
  {
    if p.state != Done {
      var s := ParseSingle(p, data);
      if s.err.None? && s.n > 0 {
        ParseNeverAfterDone(s.next, data[s.n..]);
      }
    }
  }

  /**
   * The body rules of parseSingle in ParsingBody: no Content-Length means Done
   * at once with nothing consumed; a value Atoi refuses is an error; a body
   * longer than the value is an error; and the state becomes Done exactly when
   * the body's length equals the value.
   */
  lemma {:induction false} BodyRules(p: Parser, data: seq<char>)
    requires p.state == ParsingBody
    ensures var r := ParseSingle(p, data);
      var (cl, present) := ContentLength(p.fields);
      (!present ==> r == Step(p.(state := Done), 0, None))
      && (present && Atoi(cl).None? ==> r.err == Some(NonIntegerContentLength))
      && (present && Atoi(cl).Some? && |p.body + data| > Atoi(cl).value ==> r.err == Some(ExcessBodyData))
      && (present && r.err.None? ==>
            r.n == |data| && r.next.body == p.body + data && (r.next.state == Done <==> Atoi(cl) == Some(|r.next.body|)))
  {
  }

  /** A negative Content-Length is always "more data than Content-Length", even with no body bytes. */
  lemma {:induction false} NegativeContentLength(p: Parser, data: seq<char>)
    requires p.state == ParsingBody
    requires ContentLength(p.fields).1 && Atoi(ContentLength(p.fields).0).Some? && Atoi(ContentLength(p.fields).0).value < 0
    ensures ParseSingle(p, data).err == Some(ExcessBodyData)
  {
  }

  /** The body is complete: it matches Content-Length, or it is empty when there is none. */
  predicate BodyComplete(p: Parser) {
    var (cl, present) := ContentLength(p.fields);
    if present then Atoi(cl) == Some(|p.body|) else p.body == []
  }

  /**
   * What holds of every parser reachable from Initial: no body before the
   * header section ends, a partial body shorter than Content-Length while
   * reading it, and a complete body once Done.
   */
  predicate Valid(p: Parser) {
    && (p.state == Initialized || p.state == ParsingHeaders ==> p.body == [])
    && (p.state == ParsingBody && p.body != [] ==>
          var (cl, present) := ContentLength(p.fields);
          present && Atoi(cl).Some? && |p.body| < Atoi(cl).value)
    && (p.state == Done ==> BodyComplete(p))
  }

  lemma {:induction false} InitialValid()
    ensures Valid(Initial)
  {
  }

  lemma {:induction false} ParseSingleValid(p: Parser, data: seq<char>)
    requires Valid(p)
    requires ParseSingle(p, data).err.None?
    ensures Valid(ParseSingle(p, data).next)
  {
  }

  /** Successful parsing keeps Valid, so a Done request's body always matches its Content-Length. */
  lemma {:induction false} ParseValid(p: Parser, data: seq<char>)
    requires Valid(p)
    requires Parse(p, data).err.None?
    ensures Valid(Parse(p, data).next)
    ensures Parse(p, data).next.state == Done ==> BodyComplete(Parse(p, data).next)
    decreases |data|
  {
    if p.state != Done {
      var s := ParseSingle(p, data);
      ParseSingleValid(p, data);
      if s.n > 0 {
        ParseValid(s.next, data[s.n..]);
      }
    }
  }

  /**
   * parse stops only when no further progress is possible: on what it left
   * unconsumed, a parse that neither errs nor finishes does nothing more.
   */
  lemma {:induction false} ParseStops(p: Parser, data: seq<char>)
    requires Parse(p, data).err.None? && Parse(p, data).next.state != Done
    ensures var r := Parse(p, data); Stalls(r.next, data[r.n..])
    decreases |data|
  {
    var s := ParseSingle(p, data);
    var r := Parse(p, data);
    assert p.state != Done && s.err.None?;
    if s.n == 0 {
      assert s.next == p && r == Step(p, 0, None);
      assert data[r.n..] == data;
    } else {
      var rest := data[s.n..];
      var r' := Parse(s.next, rest);
      assert r == Shift(r', s.n);
      assert r'.err.None? && r.next == r'.next && r.n == s.n + r'.n;
      ParseStops(s.next, rest);
      assert rest[r'.n..] == data[r.n..];
    }
  }

  /** One step over more bytes: an error stays the same error. */
  lemma {:induction false} StepExtendErr(p: Parser, x: seq<char>, y: seq<char>)
    requires ParseSingle(p, x).err.Some?
    ensures ParseSingle(p, x + y).err == ParseSingle(p, x).err
  {
    match p.state
    case Initialized =>
      IndexOfCRLFExtend(x, y);
      assert (x + y)[..IndexOfCRLF(x)] == x[..IndexOfCRLF(x)];
    case ParsingHeaders =>
      ParseFieldLineExtend(x, y);
    case ParsingBody =>
    case Done =>
  }

  /** Outside the body, a step that makes progress does not look past what it consumed. */
  lemma {:induction false} StepExtendProgress(p: Parser, x: seq<char>, y: seq<char>)
    requires p.state == Initialized || p.state == ParsingHeaders
    requires ParseSingle(p, x).err.None? && ParseSingle(p, x).n > 0
    ensures ParseSingle(p, x + y) == ParseSingle(p, x)
  {
    if p.state == Initialized {
      IndexOfCRLFExtend(x, y);
      assert (x + y)[..IndexOfCRLF(x)] == x[..IndexOfCRLF(x)];
    } else {
      ParseFieldLineExtend(x, y);
    }
  }

  /**
   * How a parse r1 of a prefix relates to the parse r2 of the longer input, given
   * cont, the parse resumed from where r1 stopped: errors persist, a finished
   * request stays finished unless the extra bytes are refused, and otherwise r2
   * is r1's bytes followed by cont.
   */
  predicate Related(r1: Step, r2: Step, cont: Step) {
    && (r1.err.Some? ==> r2.err == r1.err)
    && (r1.err.None? && r1.next.state == Done ==> r2.err.Some? || r2 == r1)
    && (r1.err.None? && r1.next.state != Done ==> r2 == Shift(cont, r1.n))
  }

  /** The claim of ParseExtend: parsing x and then the rest is parsing x + y. */
  predicate Extends(p: Parser, x: seq<char>, y: seq<char>) {
    var r1 := Parse(p, x);
    Related(r1, Parse(p, x + y), Parse(r1.next, (x + y)[r1.n..]))
  }

  /**
   * Bytes consumed before both parses do not change how they relate, and the
   * resumed parse is the same one.
   */
  lemma {:induction false} RelatedShift(r1: Step, r2: Step, cont: Step, cont': Step, k: nat)
    requires Related(r1, r2, cont)
    requires r1.err.None? ==> cont' == cont
    ensures Related(Shift(r1, k), Shift(r2, k), cont')
  {
    if r1.err.None? && r1.next.state != Done {
      ShiftShift(cont, r1.n, k);
    }
  }

  /**
   * Parsing x and then, from where it stopped, the rest of x + y is the same as
   * parsing x + y at once; if x already finished the request, x + y either
   * finishes it identically or errs (only through excess body bytes).
   */
  lemma {:induction false} ParseExtend(p: Parser, x: seq<char>, y: seq<char>)
    ensures Extends(p, x, y)
    decreases |x|, 1
  {
    if p.state == Done {
      return;
    }
    var s1 := ParseSingle(p, x);
    if s1.err.Some? {
      ExtendAfterError(p, x, y);
    } else if s1.n == 0 {
      ExtendAfterPause(p, x, y);
    } else if p.state == ParsingBody {
      BodyExtend(p, x, y);
    } else {
      ExtendAfterProgress(p, x, y);
    }
  }

  lemma {:induction false} ExtendAfterError(p: Parser, x: seq<char>, y: seq<char>)
    requires p.state != Done && ParseSingle(p, x).err.Some?
    ensures Extends(p, x, y)
  {
    StepExtendErr(p, x, y);
    assert Parse(p, x).err == ParseSingle(p, x).err;
    assert Parse(p, x + y).err == ParseSingle(p, x + y).err;
  }

  lemma {:induction false} ExtendAfterPause(p: Parser, x: seq<char>, y: seq<char>)
    requires p.state != Done && ParseSingle(p, x).err.None? && ParseSingle(p, x).n == 0
    ensures Extends(p, x, y)
  {
    var s1 := ParseSingle(p, x);
    assert Parse(p, x) == Step(s1.next, 0, None);
    if s1.next.state == Done {
      ExtendToDone(p, x, y);
    } else {
      assert s1.next == p && (x + y)[0..] == x + y;
    }
  }

  lemma {:induction false} ExtendAfterProgress(p: Parser, x: seq<char>, y: seq<char>)
    requires p.state == Initialized || p.state == ParsingHeaders
    requires ParseSingle(p, x).err.None? && ParseSingle(p, x).n > 0
    ensures Extends(p, x, y)
    decreases |x|, 0
  {
    var s1 := ParseSingle(p, x);
    StepExtendProgress(p, x, y);
    ParseUnfold(p, x);
    ParseUnfold(p, x + y);
    ParseExtend(s1.next, x[s1.n..], y);
    ExtendsShifted(p, s1.next, s1.n, x, x[s1.n..], y);
  }

  /** parse one step at a time: the first step, then the rest only if it made progress. */
  lemma {:induction false} ParseUnfold(p: Parser, data: seq<char>)
    requires p.state != Done
    ensures var s := ParseSingle(p, data);
      Parse(p, data) == if s.err.Some? || s.n == 0 then Step(s.next, 0, s.err) else Shift(Parse(s.next, data[s.n..]), s.n)
  {
  }

  /** Extends carries over from the parser after a first step to the parser before it. */
  lemma {:induction false} ExtendsShifted(p: Parser, q: Parser, k: nat, x: seq<char>, x': seq<char>, y: seq<char>)
    requires k <= |x| && x' == x[k..]
    requires Parse(p, x) == Shift(Parse(q, x'), k)
    requires Parse(p, x + y) == Shift(Parse(q, (x + y)[k..]), k)
    requires Extends(q, x', y)
    ensures Extends(p, x, y)
  {
    DropConcat(x, y, k);
    var r1' := Parse(q, x');
    var r2' := Parse(q, x' + y);
    var cont := Parse(r1'.next, (x' + y)[r1'.n..]);
    var r1 := Parse(p, x);
    var r2 := Parse(p, x + y);
    var cont' := Parse(r1.next, (x + y)[r1.n..]);
    if r1'.err.None? {
      assert r1.next == r1'.next && r1.n == k + r1'.n;
      assert (x + y)[r1.n..] == (x' + y)[r1'.n..];
      assert cont' == cont;
    }
    RelatedShift(r1', r2', cont, cont', k);
  }

  /** A step that reaches Done without consuming anything, seen over more bytes. */
  lemma {:induction false} ExtendToDone(p: Parser, x: seq<char>, y: seq<char>)
    requires p.state != Done
    requires ParseSingle(p, x).err.None? && ParseSingle(p, x).n == 0 && ParseSingle(p, x).next.state == Done
    ensures Parse(p, x + y).err.Some? || Parse(p, x + y) == Parse(p, x)
  {
    assert p.state == ParsingBody;
    if ContentLength(p.fields).1 {
      assert x == [];
      assert x + y == y;
    }
  }

  /** In the body, reading x and then y is reading x + y. */
  lemma {:induction false} BodyExtend(p: Parser, x: seq<char>, y: seq<char>)
    requires p.state == ParsingBody
    requires ParseSingle(p, x).err.None? && ParseSingle(p, x).n > 0
    ensures Extends(p, x, y)
  {
    var s1 := ParseSingle(p, x);
    assert s1.n == |x| && x[s1.n..] == [];
    var q := s1.next;
    if q.state == Done {
      assert Parse(q, []) == Step(q, 0, None);
      if y == [] {
        assert x + y == x;
      }
    } else {
      assert ParseSingle(q, []) == Step(q, 0, None);
      assert Parse(p, x) == Step(q, |x|, None);
      assert (x + y)[|x|..] == y;
      var s2 := ParseSingle(p, x + y);
      var t := ParseSingle(q, y);
      assert q.body + y == p.body + (x + y);
      assert s2.next == t.next && s2.err == t.err;
      if y != [] {
        var z := t.next;
        if t.err.None? && z.state != Done {
          assert ParseSingle(z, []) == Step(z, 0, None);
        }
        assert (x + y)[|x + y|..] == [] && y[|y|..] == [];
      }
    }
  }

  /** Bytes after an error do not change the error. */
  lemma {:induction false} ParseExtendErr(p: Parser, x: seq<char>, y: seq<char>)
    requires Parse(p, x).err.Some?
    ensures Parse(p, x + y).err == Parse(p, x).err
  {
    ParseExtend(p, x, y);
  }

  /**
   * A pipelined follow-up in the same read is taken for excess body bytes: the
   * body alone completes the request, the body and one more byte do not.
   */
  lemma {:induction false} ExcessInSameRead(p: Parser, body: seq<char>, extra: seq<char>)
    requires p.state == ParsingBody && p.body == []
    requires ContentLength(p.fields).1 && Atoi(ContentLength(p.fields).0) == Some(|body|)
    requires |body| > 0 && |extra| > 0
    ensures Parse(p, body).err.None? && Parse(p, body).next.state == Done
    ensures Parse(p, body + extra).err == Some(ExcessBodyData)
  {
    assert p.body + body == body;
    assert ParseSingle(p, body) == Step(p.(body := body).(state := Done), |body|, None);
    ParseUnfold(p, body);
    assert p.body + (body + extra) == body + extra;
    assert ParseSingle(p, body + extra) == Step(p.(body := body + extra), |body + extra|, Some(ExcessBodyData));
    ParseUnfold(p, body + extra);
  }
}
