# httpfromtcp and crawler core, modelled in Dafny

This project models two small Go programs from the bootdev repository.

**httpfromtcp** is a hand-written HTTP/1.1 server. Its core is:
- an incremental request parser. It is a state machine, Initialized → ParsingHeaders → ParsingBody → Done. It reads the request-line, then field lines, then a body framed only by Content-Length.
- `RequestFromReader`, which feeds the parser from a reader through a growable byte buffer. The buffer starts at 8 bytes, doubles when full, and shifts unparsed bytes to the front after each parse.
- a header map with lower-cased keys. `Set` joins repeated names with ", ". `Get` is case-insensitive. `Override` replaces the value. `Parse` reads one field line.
- response writers: the status line, the default headers, the header block, the body, and `HandlerError.Write`, which composes them.

**crawler** is a link crawler. Its core is:
- the `SortPages` comparator: more links first, then URL order;
- the part of `PrintReport` that builds one page per map entry, sorts the pages and prints one line each;
- `addPageVisit`, which counts visits per normalized URL.

Modules, one per file:
- `Options` (options.dfy): Option and Result.
- `Strconv` (strconv.dfy): `strconv.Itoa` and `strconv.Atoi`.
- `Strings` (strings.dfy): the `bytes`/`strings` functions the core calls. These are Index, Split, TrimSpace, TrimRight, ToLower and Compare.
- `Headers` (headers.dfy): the header map as the class `Headers.Headers`, and the field-line parser as a function with its round trip.
- `RequestParse` (request_parse.dfy): the request-line parser and parseSingle/parse as functions over a parser value, with what they preserve.
- `Request` (request.dfy):
  - the class `Request.Request`, whose methods are proved equal to those functions;
  - the reader `Request.ChunkReader`;
  - the buffer loop of `RequestFromReader` over an `array<char>`.
- `MapWalk` (map_walk.dfy): Go map iteration. Its order is unspecified, so a walk is stated by the order it took.
- `Response` (response.dfy): the writer `Response.Writer` and the response writers.
- `Server` (server.dfy): `HandlerError.Write`.
- `Report` (report.dfy): `SortPages`, the sort, and `PrintReport`.
- `Crawl` (crawl.dfy): the page tally and `Config.addPageVisit`.

Modelling choices:
- A byte and a Go string character are both a `char`. Data is `seq<char>`.
- An `io.Writer` is a `Response.Writer` object. It records the bytes written and numbers its writes. Write number i fails exactly when i is in the set `failing`. A write either goes through whole or leaves nothing.
- An `io.Reader` is a `Request.ChunkReader`. It delivers a finite list of chunks, each cut to the free space of the buffer. Then it ends with EOF, carrying some last bytes, or with a transport error.
- The main theorem for `RequestFromReader` ties its result to `RequestParse.ParseWhole`, the parse of the whole stream at once:
  - A parse error is the whole stream's error.
  - Running out of input means the whole stream is an unfinished request.
  - A returned request is the whole stream's request, unless that parse fails.
  - So a stream that holds one complete request gives that request, however the bytes are split across reads.

## Model

| member | source | states |
|---|---|---|
| Strconv.Itoa | httpfromtcp/internal/response/response.go:43 | the decimal text of n: non-empty, all digits after an optional '-', '-' exactly for negative n, and no leading zero unless the number is 0 |
| Strconv.Atoi | httpfromtcp/internal/request/request.go:176 | a result only for an optional sign followed by digits; a negative result only after '-'; plain digits read as their value |
| Strconv.AtoiSpec | httpfromtcp/internal/request/request.go:176 | Atoi succeeds exactly on one or more digits after an optional '+' or '-'; the value is the digits' decimal value, negated after '-' |
| Strconv.AtoiItoa | httpfromtcp/internal/request/request.go:176 | Atoi inverts Itoa for every integer, so a Content-Length written by Itoa is read back as the same number |
| Strings.IndexOfCRLF | httpfromtcp/internal/request/request.go:82 | bytes.Index(data, "\r\n"): -1 exactly when there is no CRLF, otherwise where the first CRLF starts |
| Strings.IndexOfCRLFExtend | httpfromtcp/internal/request/request.go:82 | once a CRLF has arrived, bytes appended later do not move the first one |
| Strings.Split | httpfromtcp/internal/request/request.go:97 | strings.Split: at least one piece, no piece holds the separator, and joining the pieces with it gives back the input |
| Strings.SplitCount | httpfromtcp/internal/request/request.go:97-98 | a string splits into one more piece than it holds separators, so three parts means exactly two spaces |
| Strings.SplitJoin | httpfromtcp/internal/request/request.go:97 | Split inverts Join for pieces that hold no separator |
| Strings.TrimSpace | httpfromtcp/internal/headers/headers.go:34-35 | strings.TrimSpace over ASCII white space: no longer than the input, and neither end is white space |
| Strings.TrimSpacePadded | httpfromtcp/internal/headers/headers.go:34-35 | TrimSpace removes exactly the white space around a trimmed core |
| Strings.TrimRightChar | httpfromtcp/internal/headers/headers.go:30 | strings.TrimRight(key, " ") leaves key unchanged exactly when key does not end in a space |
| Strings.ToLower | httpfromtcp/internal/headers/headers.go:46 | strings.ToLower over ASCII: same length, each byte lower-cased on its own |
| Strings.ToLowerIdempotent | httpfromtcp/internal/headers/headers.go:46 | lower-casing twice is lower-casing once |
| Strings.Compare | crawler/util/report.go:41 | strings.Compare: -1, 0 or 1, and 0 exactly for equal strings |
| Strings.CompareLess | crawler/util/report.go:41 | Compare is negative exactly when a is a proper prefix of b, or a has the smaller byte at the first difference |
| Strings.CompareAntisymmetric | crawler/util/report.go:41 | swapping the strings negates Compare |
| Strings.CompareTransitive | crawler/util/report.go:41 | Compare's order is transitive |
| Headers.ValidTokens | httpfromtcp/internal/headers/headers.go:70-80 | the scan answers true exactly when every byte is an ASCII letter, a digit or '-' |
| Headers.SetField | httpfromtcp/internal/headers/headers.go:45-52 | Set adds the lower-cased key; a repeated key gets ", " + value appended, a new one gets value; no other key changes |
| Headers.OverrideField | httpfromtcp/internal/headers/headers.go:60-63 | Override stores value under the lower-cased key whatever was there; no other key changes |
| Headers.GetFieldSpec | httpfromtcp/internal/headers/headers.go:54-58 | Get reports true exactly when the lower-cased key is in the map, then with the value stored there, and "" otherwise |
| Headers.GetAfterSet | httpfromtcp/internal/headers/headers.go:54-58 | Get finds what Set stored under any casing of the same name |
| Headers.GetAfterSetOther | httpfromtcp/internal/headers/headers.go:54-58 | setting one name does not change what Get reports for any other name |
| Headers.GetAfterOverride | httpfromtcp/internal/headers/headers.go:54-63 | Get after Override reports exactly the new value, under any casing |
| Headers.SetTwiceCombines | httpfromtcp/internal/headers/headers.go:45-52 | two Sets of a fresh name read back as "first, second" |
| Headers.NamePart | httpfromtcp/internal/headers/headers.go:27-28 | the bytes before the first ':', or the whole line when it has none |
| Headers.FieldOfLine | httpfromtcp/internal/headers/headers.go:27-38 | a name ending in a space is refused before a missing ':' is noticed; an accepted line has a ':', a token name and a trimmed value, shorter together than the line |
| Headers.FieldOfLineSpec | httpfromtcp/internal/headers/headers.go:27-38 | each verdict as an if-and-only-if: a name part ending in a blank is refused first; then no ':' gives the missing-colon error and a trimmed name with a non-token character gives the invalid-token error; any other line is accepted as (trimmed name part, trimmed text after the first ':') |
| Headers.FieldOfLinePadded | httpfromtcp/internal/headers/headers.go:27-38 | optional white space before the name and around the value, as in "  Host:   x  " or "Host:x", is dropped: the line gives back the bare name and value |
| Headers.ParseFieldLine | httpfromtcp/internal/headers/headers.go:17-43 | no CRLF: need more data; CRLF at 0: end of the section; otherwise exactly one line up to the first CRLF, with a token name and a trimmed value |
| Headers.ParseFieldLineLine | httpfromtcp/internal/headers/headers.go:17-43 | a parsed field, or an error, is exactly FieldOfLine's verdict on the text before the first CRLF, and a line FieldOfLine accepts is always parsed as a field |
| Headers.ParseFieldLineExtend | httpfromtcp/internal/headers/headers.go:18-42 | once a line's CRLF has arrived, later bytes do not change how it parses |
| Headers.FieldOfLineText | httpfromtcp/internal/headers/headers.go:27-38 | "name: value" with a token name and a trimmed value is accepted and gives back name and value |
| Headers.ParseFieldLineText | httpfromtcp/internal/headers/headers.go:17-43 | Parse inverts the "name: value\r\n" format WriteHeaders writes, whatever follows the line |
| Headers.Headers.constructor | httpfromtcp/internal/headers/headers.go:11-13 | NewHeaders is the empty map |
| Headers.Headers.Set | httpfromtcp/internal/headers/headers.go:45-52 | the map becomes SetField of the old map |
| Headers.Headers.Get | httpfromtcp/internal/headers/headers.go:54-58 | true exactly when the lower-cased key is stored, then with its value; "" and false otherwise |
| Headers.Headers.Override | httpfromtcp/internal/headers/headers.go:60-63 | the map becomes OverrideField of the old map |
| Headers.Headers.Parse | httpfromtcp/internal/headers/headers.go:17-43 | (0, false, nil) with the map unchanged before a CRLF; (2, true, nil) at an empty line; idx + 2 and Set(name, value) for a good line; an error, 0 bytes and the map unchanged otherwise |
| RequestParse.RequestLineFromString | httpfromtcp/internal/request/request.go:96-130 | exactly three space-separated parts, or an error; an accepted line has version "1.1", an upper-case method, a target with no space, and is the text of its own result |
| RequestParse.RequestLineFromText | httpfromtcp/internal/request/request.go:96-130 | every "METHOD target HTTP/1.1" with an upper-case (possibly empty) method and a target with no space is accepted and gives back its parts |
| RequestParse.ParseRequestLine | httpfromtcp/internal/request/request.go:81-94 | no line and no error exactly when there is no CRLF; a good line consumes through the first CRLF (idx + 2); a bad one is one of the four request-line errors |
| RequestParse.ParseRequestLineText | httpfromtcp/internal/request/request.go:81-94 | a written request-line with its CRLF is read back, whatever follows it |
| RequestParse.StartStep | httpfromtcp/internal/request/request.go:149-159 | nothing consumed leaves the parser as it was; a consumed line sets the request-line and moves to ParsingHeaders; an error changes nothing |
| RequestParse.HeaderStep | httpfromtcp/internal/request/request.go:160-168 | stays in ParsingHeaders, or moves to ParsingBody on the 2-byte empty line; only the headers change; an error is a field-line error and changes nothing |
| RequestParse.StartStepResult | httpfromtcp/internal/request/request.go:149-159 | the step is ParseRequestLine's verdict: no line yet consumes nothing, a bad line is its error, a good line is stored with the state set to ParsingHeaders and its bytes consumed |
| RequestParse.HeaderStepResult | httpfromtcp/internal/request/request.go:160-168 | the step is ParseFieldLine's verdict: need more consumes nothing, the empty line moves to ParsingBody after 2 bytes, a malformed line is a field-line error, a field is Set into the headers with its bytes consumed |
| RequestParse.BodyStep | httpfromtcp/internal/request/request.go:169-187 | stays in ParsingBody or reaches Done; the body is kept or has the data appended; the only errors are a non-integer Content-Length and excess body data |
| RequestParse.ParseSingle | httpfromtcp/internal/request/request.go:147-193 | the state moves forward by at most one; in Done it fails, and only there; each state changes only its own part of the request |
| RequestParse.Parse | httpfromtcp/internal/request/request.go:132-145 | never consumes more than it is given, and reports 0 bytes with an error |
| RequestParse.ShiftShift | httpfromtcp/internal/request/request.go:142 | adding consumed counts one after another adds their sum |
| RequestParse.ParseForward | httpfromtcp/internal/request/request.go:132-145 | over any number of steps the state never moves backwards |
| RequestParse.ParseNeverAfterDone | httpfromtcp/internal/request/request.go:134 | parse never calls parseSingle in Done, so it never reports that error |
| RequestParse.BodyRules | httpfromtcp/internal/request/request.go:169-187 | no Content-Length: Done, 0 bytes, body unchanged; a non-integer value fails; a body longer than the value fails; otherwise all data is consumed and the state is Done exactly when the body's length equals the value |
| RequestParse.NegativeContentLength | httpfromtcp/internal/request/request.go:176-181 | Atoi accepts a sign, so a negative Content-Length always fails as more data than Content-Length |
| RequestParse.InitialValid | httpfromtcp/internal/request/request.go:44-48 | the fresh request satisfies the parser invariant |
| RequestParse.ParseSingleValid | httpfromtcp/internal/request/request.go:147-193 | a successful step keeps the invariant: no body before the header section ends, a partial body shorter than Content-Length, a complete body once Done |
| RequestParse.ParseValid | httpfromtcp/internal/request/request.go:132-145 | successful parsing keeps the invariant, so a Done request's body always matches its Content-Length (or is empty when there is none) |
| RequestParse.ParseStops | httpfromtcp/internal/request/request.go:139-141 | parse stops early only when the next step over what is left would neither consume, fail nor finish |
| RequestParse.StepExtendErr | httpfromtcp/internal/request/request.go:147-193 | a step that fails fails the same way on more bytes |
| RequestParse.StepExtendProgress | httpfromtcp/internal/request/request.go:149-168 | before the body, a step that consumes something does not look past what it consumed |
| RequestParse.ParseExtend | httpfromtcp/internal/request/request.go:132-145 | parsing x and then, from where it stopped, the rest of x + y is parsing x + y at once; a request finished by x stays finished the same way or fails on the extra bytes |
| RequestParse.ParseExtendErr | httpfromtcp/internal/request/request.go:136-138 | bytes after an error do not change the error |
| RequestParse.ExcessInSameRead | httpfromtcp/internal/request/request.go:175-186 | a follow-up byte in the same read as the completing body bytes fails as excess body data, while the body alone completes the request |
| Request.Request.constructor | httpfromtcp/internal/request/request.go:44-48 | the request starts Initialized with an empty header map and an empty body |
| Request.Request.ParseSingle | httpfromtcp/internal/request/request.go:147-193 | the method's effect on the request's fields, its count and its error are RequestParse.ParseSingle |
| Request.Request.Parse | httpfromtcp/internal/request/request.go:132-145 | the loop's effect on the request's fields, its count and its error are RequestParse.Parse |
| Request.ChunkReader.Read | httpfromtcp/internal/request/request.go:57 | fills at most the free space and leaves the buffer before `from` alone; a good read takes the next bytes off the stream; EOF comes only once the chunks are exhausted and its bytes are a prefix of the final ones |
| Request.Grow | httpfromtcp/internal/request/request.go:51-55 | a fresh buffer of twice the size holding the old bytes in front |
| Request.ShiftLeft | httpfromtcp/internal/request/request.go:74 | copy(buf, buf[k:]): the bytes from k on move to the front and the tail stays as it was |
| Request.ReadInto | httpfromtcp/internal/request/request.go:51-57 | the buffer is replaced by a doubled one only when it is full; after a good read, the buffer up to readToIndex + n followed by the unread input is what it was before |
| Request.Discard | httpfromtcp/internal/request/request.go:74-75 | after dropping k parsed bytes, buf[:readToIndex] is the unparsed rest and, followed by the unread input, the stream past what was parsed |
| Request.ParsePending | httpfromtcp/internal/request/request.go:69-72 | the parse of the buffered bytes tells what the parse of the whole stream is: the same error, the same finished request, or the same parse continued from the new position |
| Request.ParseBuffered | httpfromtcp/internal/request/request.go:69-75 | parse then shift keeps the buffer invariant: the buffer followed by the unread input is the stream past what was parsed |
| Request.Round | httpfromtcp/internal/request/request.go:50-76 | one turn of the loop either keeps the loop invariant with less left to read, or ends with an error that says the same as the whole stream |
| Request.RequestFromReader | httpfromtcp/internal/request/request.go:41-79 | a request is returned only once Done, and it is the whole stream's request unless that parse fails; a parse error is the whole stream's error; EOF before Done means the whole stream is unfinished; a stream holding one complete request gives that request however it was split |
| Response.Writer.Write | httpfromtcp/internal/response/response.go:32 | a write appends all its bytes, or fails, appends nothing and reports the error |
| Response.ReasonPhrase | httpfromtcp/internal/response/response.go:20-29 | "OK" for 200, "Bad Request" for 400, "Internal Server Error" for 500, and empty exactly for any other code |
| Response.StatusLine | httpfromtcp/internal/response/response.go:31 | "HTTP/1.1 ", then the decimal code, a space and the reason phrase, then CRLF, with the length that adds up to |
| Response.StatusLineRoundTrip | httpfromtcp/internal/response/response.go:19-38 | the status line is "HTTP/1.1 " + decimal code + " " + reason + CRLF: it reads back as the code and its reason phrase |
| Response.UnknownStatusLine | httpfromtcp/internal/response/response.go:20-31 | a code other than 200, 400 and 500 gets an empty reason phrase and still the space before CRLF |
| Response.WriteStatusLine | httpfromtcp/internal/response/response.go:19-38 | one write of exactly the status line; the error is returned exactly when that write fails |
| Response.LowerNames | httpfromtcp/internal/response/response.go:43-45 | the three default names lower-case to content-length, connection and content-type |
| Response.GetDefaultHeaders | httpfromtcp/internal/response/response.go:40-48 | a new map with exactly three keys: content-length = decimal(n), connection = close, content-type = text/plain |
| Response.DefaultFieldsRead | httpfromtcp/internal/response/response.go:40-48 | Get("Content-Length") on the default headers gives text that Atoi reads as n; the other two are found under any casing |
| Response.FieldLinesPrefix | httpfromtcp/internal/response/response.go:51-53 | writing one more entry adds its "k: v\r\n" line at the end |
| Response.HeadersEffect | httpfromtcp/internal/response/response.go:50-60 | with no failed write: every line in walk order, then CRLF; otherwise the lines before the first failed write, which is the last write made |
| Response.EffectStopsAt | httpfromtcp/internal/response/response.go:53-58 | when write number i is the first to fail, the output is the first i lines; when none fails, every line and CRLF |
| Response.WriteFieldLines | httpfromtcp/internal/response/response.go:51-57 | the map's entries in some order, each once, one write per line, stopping at the first failed write |
| Response.WriteHeaders | httpfromtcp/internal/response/response.go:50-60 | the output is HeadersEffect of the walk order: each entry's line once, then CRLF, or a prefix ending at the first failure, whose error is returned |
| Response.WriteBody | httpfromtcp/internal/response/response.go:62-65 | one write of exactly the body bytes; the count is the body's length on success and 0 on failure |
| Server.HandlerError.Write | httpfromtcp/internal/server/handler.go:15-20 | all three parts are attempted whatever fails; the output is the status line (if written), the header block of the three default fields in some order, and the message (if written) |
| Server.ErrorResponseParts | httpfromtcp/internal/server/handler.go:15-20 | writing status line, header block and message one after another appends the whole response |
| Server.ErrorResponseComplete | httpfromtcp/internal/server/handler.go:15-20 | when no write fails the output is status line, one line per header, CRLF and then exactly the message, in six writes |
| Server.ErrorResponseStatusFirst | httpfromtcp/internal/server/handler.go:16 | when the first write goes through, the output begins with the status line of the handler's code |
| Server.ErrorResponseLength | httpfromtcp/internal/server/handler.go:17-18 | the content-length line is one of the three written, and its value reads back as the message's byte length |
| Report.SortPages | crawler/util/report.go:35-43 | -1, 0 or 1, and 0 exactly when count and URL are both equal |
| Report.SortPagesBefore | crawler/util/report.go:35-43 | negative exactly when a has more links, or as many and a URL that sorts first |
| Report.SortPagesAntisymmetric | crawler/util/report.go:35-43 | SortPages(b, a) == -SortPages(a, b) |
| Report.SortPagesTransitive | crawler/util/report.go:35-43 | the order SortPages defines is transitive |
| Report.Insert | crawler/util/report.go:28 | inserting into a sorted list keeps it sorted and adds exactly that page |
| Report.SortByPages | crawler/util/report.go:28 | slices.SortFunc(res, SortPages): a sorted permutation of the pages |
| Report.SortedUnique | crawler/util/report.go:28 | two sorted lists with the same pages are equal, so the sort's result does not depend on the algorithm |
| Report.SortKeepsSorted | crawler/util/report.go:28 | a list already sorted comes back unchanged |
| Report.SortShort | crawler/util/report_test.go:66-84 | the empty, nil and one-page inputs come back unchanged |
| Report.SortsTo | crawler/util/report.go:28 | the sort of a list is any list with the same pages whose neighbours are in order |
| Report.SortCountDescending | crawler/util/report_test.go:16-31 | the test's first case sorts to its expected order |
| Report.SortAlphabetize | crawler/util/report_test.go:33-48 | the test's second case sorts to its expected order |
| Report.SortCountThenAlphabetize | crawler/util/report_test.go:50-65 | the test's third case sorts to its expected order |
| Report.ReportHeader | crawler/util/report.go:15-21 | the banner: a blank line, a rule of 29 '=', "  REPORT for " and the base URL, another rule of 29 '=', then the empty line Println adds; 76 characters besides the URL |
| Report.ReportLine | crawler/util/report.go:31 | "Found ", the decimal count, " internal links to ", the URL and a newline, and nothing else |
| Report.ReportLinesStep | crawler/util/report.go:30-32 | printing one more page adds its "Found <count> internal links to <url>" line at the end |
| Report.PagesOf | crawler/util/report.go:23-26 | one Page{v, k} per name in walk order, with the count the map holds |
| Report.PagesOfAnyOrder | crawler/util/report.go:23-26 | any complete walk lists each entry's page exactly once and nothing else |
| Report.ReportOrderFree | crawler/util/report.go:23-28 | sorting the pages of any complete walk gives the same list, so the report does not depend on map order |
| Report.ReportPagesSpec | crawler/util/report.go:23-32 | the report lists one page per map entry, with the entry's count, in SortPages order |
| Report.CollectPages | crawler/util/report.go:23-26 | the loop builds one Page{v, k} per map entry, each URL once and every entry present, in the order the map is walked in |
| Report.AppendLines | crawler/util/report.go:30-32 | the loop prints the line of each page in turn |
| Report.PrintReport | crawler/util/report.go:14-33 | the printed text is the banner, then one line per map entry in SortPages order |
| Crawl.Config.AddPageVisit | crawler/util/get_html.go:78-89 | returns true exactly when the URL was not a key; the map becomes Visit of the old map |
| Crawl.Visit | crawler/util/get_html.go:82-88 | after a visit the URL is a key and no other key is added; its count is 1 if new, one more otherwise; every other count is unchanged |
| Crawl.VisitSize | crawler/util/get_html.go:82-88 | a visit adds one entry for a new URL and none for a known one |
| Crawl.VisitCommutes | crawler/util/get_html.go:78-89 | two visits give the same map in either order |
| Crawl.TallyCounts | crawler/util/get_html.go:78-89 | after visits from an empty map, the keys are exactly the URLs visited, each counted as often as it was visited |
| Crawl.FirstVisitOnce | crawler/util/get_html.go:82-88 | in a run of visits, addPageVisit answers true for a URL exactly at its first occurrence |

## Left out

- httpfromtcp/internal/server/server.go is not part of this model. It holds the TCP listener, the per-connection goroutines and the liveness flag.
- The cmd/ programs and crawler/main.go are not part of this model. They cover sockets, signals, routing, proxying, hashing and command-line handling.
- `CrawlPage`, `GetHTML`, `get_urls_from_html` and `NormalizeURL` are not part of this model. They are network, HTML parsing and concurrency.
- `Config` keeps only its `Pages` map. The mutex, the wait group, the semaphore channel and the other fields are left out. `addPageVisit` runs under the lock, so it is modelled as one sequential update.
- The `Handler` function type (handler.go:22) declares a signature and has no behaviour to model.
- Strconv.Atoi: does not model the range error `strconv.Atoi` gives for values outside 64 bits. Every digit string reads as its exact value.
- Strings.TrimSpace, Strings.ToLower: are ASCII-only. Unicode white space and Unicode case mapping are not modelled.
- Characters stand for bytes. `len(he.Message)` is the message's length in characters, which equals its byte length only for single-byte text.
- Headers.Headers.Parse: a non-empty line with no ':' makes the Go code panic at headers.go:34, when it indexes `parts[1]`. The model turns this into the error `MissingColon` instead. It keeps the check order: a name ending in a space is refused before the missing ':' is noticed.
- Request.ChunkReader.Read: the reader is a finite list of chunks, then EOF or a transport error. A reader that returns 0 bytes with no error forever is not modelled. Neither is an error that wraps io.EOF, which the `errors.Is(io.EOF, err)` test at request.go:59 would treat as a transport error.
- Request.RequestFromReader: the `break` at request.go:63 cannot be reached, because the loop runs only while the state is not Done. It has no counterpart in the model. Bytes returned together with EOF are dropped, as in the source.
- Request.Request.ParseSingle: the `default` branch at request.go:190-191 has no counterpart, because the state type has exactly four values.
- Response.Writer.Write: a write either goes through whole or fails with nothing written. A short write of part of the data is not modelled. Which writes fail is fixed in advance by the set `failing`.
- Response.WriteHeaders: Go's map iteration order is unspecified. The method returns, as a ghost value, the order it took, and its contract holds for every order. The model does not say which order a Go runtime picks.
- Report.SortByPages: `slices.SortFunc` is modelled by what it promises, a sorted permutation. The model sorts by a functional insertion sort and does not sort in place. `SortedUnique` shows that the result is the same whatever algorithm is used, because SortPages is 0 only for equal pages.
- Report.PrintReport: returns the text it would print instead of writing it to standard output. The banner includes the newline `fmt.Println` adds.
- The nil-slice test case in report_test.go is the empty list here, since Dafny has no nil slice.
