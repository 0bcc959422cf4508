/**
 * Request framing, request parsing, the status-line serialiser and the
 * per-connection loop of server/server.go.
 *
 * `ReadRequest` consumes one request (start line, header lines, blank line)
 * from a `Reader`; it is proved against `ReadRequestSpec`, which is written
 * over the remaining bytes with `ReadLineSpec`. `HandleConnection` runs the
 * source's loop of parse, classify and respond and is proved against `Serve`,
 * the sequence of status codes a connection receives.
 */
module Server {
  import opened Wrappers
  import opened Util

  const ResponseProto: string := "HTTP/1.1"
  const StatusOK: int := 200
  const StatusMethodNotAllowed: int := 405

  /** The reason phrase of each status code the server sends. */
  const StatusText: map<int, string> := map[StatusOK := "OK", StatusMethodNotAllowed := "Method Not Allowed"]

  /** A parsed request; `verb` is the method token of its start line. */
  datatype Request = Request(verb: string)

  /** Why ReadRequest returned no request. */
  datatype ParseError =
    | ReadErr(cause: StreamError)        // the stream's own error, passed on unchanged
    | MalformedStartLine(line: string)   // the start line holds no space
    | InvalidMethod(verb: string)        // the method token is not "GET"

  // ---------------------------------------------------------------------------
  // The start line

  /** strings.SplitN(s, sep, 2) for a one-character separator. */
  function SplitN2(s: string, sep: char): (fields: seq<string>)
    ensures |fields| == 1 <==> sep !in s
    ensures |fields| == 1 ==> fields[0] == s
    ensures |fields| != 1 ==> |fields| == 2 && s == fields[0] + [sep] + fields[1] && sep !in fields[0]
  {
    match IndexOf(s, sep)
    case None => [s]
    case Some(i) =>
      assert s == s[..i] + [sep] + s[i + 1..];
      [s[..i], s[i + 1..]]
  }

  /** parseRequestLine: the method token is the text before the first space. */
  function ParseRequestLine(line: string): (r: Option<string>)
    ensures r.None? <==> ' ' !in line
    ensures r.Some? ==> ' ' !in r.value && |r.value| < |line| && line[..|r.value| + 1] == r.value + " "
  {
    var fields := SplitN2(line, ' ');
    if |fields| != 2 then None
    else
      assert line[..|fields[0]| + 1] == fields[0] + " ";
      Some(fields[0])
  }

  /** validMethod: an allow-list holding only "GET"; the comparison is exact,
      so neither "get" nor a token with trailing text is allowed. */
  predicate ValidMethod(verb: string): (ok: bool)
    ensures ok <==> verb == "GET"
    ensures ok ==> |verb| == 3 && ' ' !in verb
  {
    verb == "GET"
  }

  // ---------------------------------------------------------------------------
  // Specification of one request read

  /** The header lines read, the error (None once the blank line is read) and the bytes consumed. */
  datatype HeadersRead = HeadersRead(lines: seq<string>, err: Option<StreamError>, used: nat)

  /** Lines of arbitrary content, each with its terminator. */
  function HeaderBlock(lines: seq<string>): string {
    if lines == [] then "" else lines[0] + CRLF + HeaderBlock(lines[1..])
  }

  /** Header lines as they can appear before the blank line: non-empty and free of "\r\n". */
  predicate HeaderLines(lines: seq<string>) {
    forall i :: 0 <= i < |lines| ==> lines[i] != "" && NoCrlf(lines[i])
  }

  /** The header loop of ReadRequest on the remaining bytes `s`: read lines until an empty one. */
  function SkipHeadersSpec(s: string, end: StreamError): (r: HeadersRead)
    ensures r.used <= |s| && HeaderLines(r.lines)
    ensures r.err.Some? ==> r.err == Some(end) && r.used == |s|
    ensures r.err.None? ==> s[..r.used] == HeaderBlock(r.lines) + CRLF
    decreases |s|
  {
    var l := ReadLineSpec(s, end);
    if l.err.Some? then HeadersRead([], l.err, l.used)
    else if l.line == "" then HeadersRead([], None, l.used)
    else
      var h := SkipHeadersSpec(s[l.used..], end);
      PrefixConcat(s, l.used, h.used);
      HeaderBlockCons(l.line, h.lines);
      HeadersRead([l.line] + h.lines, h.err, l.used + h.used)
  }

  lemma HeaderBlockCons(line: string, lines: seq<string>)
    ensures HeaderBlock([line] + lines) + CRLF == (line + CRLF) + (HeaderBlock(lines) + CRLF)
  {
    assert ([line] + lines)[1..] == lines;
  }

  /** One round of the header loop, read off the line it starts with. */
  lemma SkipHeadersStep(s: string, end: StreamError, l: LineRead)
    requires ReadLineSpec(s, end) == l
    ensures l.err.Some? ==> SkipHeadersSpec(s, end).err == l.err && SkipHeadersSpec(s, end).used == l.used
    ensures l.err.None? && l.line == "" ==> SkipHeadersSpec(s, end).err == None && SkipHeadersSpec(s, end).used == l.used
    ensures l.err.None? && l.line != "" ==>
      SkipHeadersSpec(s, end).err == SkipHeadersSpec(s[l.used..], end).err &&
      SkipHeadersSpec(s, end).used == l.used + SkipHeadersSpec(s[l.used..], end).used
  {
  }

  /** What ReadRequest returns and how many bytes it consumes. */
  datatype RequestRead = RequestRead(result: Result<Request, ParseError>, used: nat)

  /** The checks ReadRequest makes on its start line: a space must split off a
      method token, and that token must be "GET". */
  function CheckStartLine(line: string): (r: Result<string, ParseError>)
    ensures r.Ok? <==> line[..Min(4, |line|)] == "GET "
    ensures r.Ok? ==> r.value == "GET"
    ensures r.Err? && r.error.MalformedStartLine? ==> r.error.line == line && ' ' !in line
    ensures r.Err? && r.error.InvalidMethod? ==>
      r.error.verb != "GET" && ' ' !in r.error.verb && |r.error.verb| < |line| && line[..|r.error.verb| + 1] == r.error.verb + " "
    ensures r.Err? ==> r.error.MalformedStartLine? || r.error.InvalidMethod?
  {
    match ParseRequestLine(line)
    case None =>
      assert |line| >= 4 ==> line[..4][3] == line[3];
      Err(MalformedStartLine(line))
    case Some(verb) =>
      FirstTokenIsGet(line, verb);
      if !ValidMethod(verb) then Err(InvalidMethod(verb)) else Ok(verb)
  }

  /** The token before the first space is "GET" exactly when the line starts with "GET ". */
  lemma FirstTokenIsGet(line: string, verb: string)
    requires ' ' !in verb && |verb| < |line| && line[..|verb| + 1] == verb + " "
    ensures verb == "GET" <==> line[..Min(4, |line|)] == "GET "
  {
    assert forall j :: 0 <= j < |verb| ==> line[j] == verb[j] by {
      forall j | 0 <= j < |verb| ensures line[j] == verb[j] {
        assert line[j] == line[..|verb| + 1][j];
      }
    }
    assert line[|verb|] == line[..|verb| + 1][|verb|];
    if |line| >= 4 && line[..4] == "GET " {
      assert line[0] == 'G' && line[1] == 'E' && line[2] == 'T' && line[3] == ' ';
      assert |verb| == 3;
      assert verb == line[..3];
    }
  }

  /** The verdict on a start line depends only on the token before its first space. */
  lemma CheckStartLineOf(verb: string, tail: string)
    requires ' ' !in verb
    ensures CheckStartLine(verb + " " + tail) == if verb == "GET" then Ok("GET") else Err(InvalidMethod(verb))
  {
    SplitAtFirstSpace(verb, tail);
  }

  function Min(a: int, b: int): int {
    if a < b then a else b
  }

  /** ReadRequest on the remaining bytes `s` of a stream that ends with `end`. */
  function ReadRequestSpec(s: string, end: StreamError): (r: RequestRead)
    ensures r.used <= |s|
    ensures r.result.Ok? ==> r.result.value.verb == "GET" && 4 <= r.used
    ensures r.result.Err? && r.result.error.ReadErr? ==> r.result.error.cause == end && r.used == |s|
  {
    var first := ReadLineSpec(s, end);
    if first.err.Some? then RequestRead(Err(ReadErr(first.err.value)), first.used)
    else match CheckStartLine(first.line)
      case Err(e) => RequestRead(Err(e), first.used)
      case Ok(verb) =>
        var h := SkipHeadersSpec(s[first.used..], end);
        if h.err.Some? then RequestRead(Err(ReadErr(h.err.value)), first.used + h.used)
        else RequestRead(Ok(Request(verb)), first.used + h.used)
  }

  /** ReadRequestSpec read off the outcome of its first line read. */
  lemma ReadRequestStep(s: string, end: StreamError, first: LineRead)
    requires ReadLineSpec(s, end) == first
    ensures first.err.Some? ==> ReadRequestSpec(s, end) == RequestRead(Err(ReadErr(first.err.value)), first.used)
    ensures first.err.None? && CheckStartLine(first.line).Err? ==>
      ReadRequestSpec(s, end) == RequestRead(Err(CheckStartLine(first.line).error), first.used)
    ensures first.err.None? && CheckStartLine(first.line).Ok? ==>
      var h := SkipHeadersSpec(s[first.used..], end);
      ReadRequestSpec(s, end)
      == RequestRead(if h.err.Some? then Err(ReadErr(end)) else Ok(Request("GET")), first.used + h.used)
  {
  }

  /** After a start line that passes the checks, the outcome is that of the header loop. */
  lemma ReadRequestAfterStartLine(startLine: string, rest: string, end: StreamError)
    requires NoCrlf(startLine) && CheckStartLine(startLine).Ok?
    ensures var h := SkipHeadersSpec(rest, end);
      ReadRequestSpec(startLine + CRLF + rest, end)
      == RequestRead(if h.err.Some? then Err(ReadErr(end)) else Ok(Request("GET")), |startLine| + 2 + h.used)
  {
    var s := startLine + CRLF + rest;
    ReadLineSpecOfLine(startLine, rest, end);
    assert s[|startLine| + 2..] == rest;
  }

  /** The bytes of one request: a start line, header lines and the blank line. */
  function RequestText(startLine: string, headers: seq<string>): string {
    startLine + CRLF + HeaderBlock(headers) + CRLF
  }

  lemma {:induction false} SkipHeadersOfBlock(lines: seq<string>, rest: string, end: StreamError)
    requires HeaderLines(lines)
    ensures SkipHeadersSpec(HeaderBlock(lines) + CRLF + rest, end)
         == HeadersRead(lines, None, |HeaderBlock(lines)| + 2)
  {
    var s := HeaderBlock(lines) + CRLF + rest;
    if lines == [] {
      ReadLineSpecOfLine("", rest, end);
      assert s == "" + CRLF + rest;
    } else {
      var tail := HeaderBlock(lines[1..]) + CRLF + rest;
      assert s == lines[0] + CRLF + tail;
      ReadLineSpecOfLine(lines[0], tail, end);
      assert s[|lines[0]| + 2..] == tail;
      SkipHeadersOfBlock(lines[1..], rest, end);
      assert [lines[0]] + lines[1..] == lines;
    }
  }

  /** A GET start line and any header lines followed by the blank line parse as one
      GET request that consumes exactly those bytes, whatever follows them. */
  lemma ReadRequestOfText(startLine: string, headers: seq<string>, rest: string, end: StreamError)
    requires NoCrlf(startLine) && CheckStartLine(startLine).Ok?
    requires HeaderLines(headers)
    ensures ReadRequestSpec(RequestText(startLine, headers) + rest, end)
         == RequestRead(Ok(Request("GET")), |RequestText(startLine, headers)|)
  {
    var tail := HeaderBlock(headers) + CRLF + rest;
    assert RequestText(startLine, headers) + rest == startLine + CRLF + tail;
    ReadRequestAfterStartLine(startLine, tail, end);
    SkipHeadersOfBlock(headers, rest, end);
  }

  /** Conversely, whatever ReadRequest accepts is one GET start line, header lines and the blank line. */
  lemma ParsedRequestIsText(s: string, end: StreamError) returns (startLine: string, headers: seq<string>)
    requires ReadRequestSpec(s, end).result.Ok?
    ensures NoCrlf(startLine) && CheckStartLine(startLine).Ok? && HeaderLines(headers)
    ensures s[..ReadRequestSpec(s, end).used] == RequestText(startLine, headers)
  {
    var first := ReadLineSpec(s, end);
    var h := SkipHeadersSpec(s[first.used..], end);
    assert first.err.None? && CheckStartLine(first.line).Ok? && h.err.None?;
    assert ReadRequestSpec(s, end).used == first.used + h.used;
    startLine, headers := first.line, h.lines;
    RequestTextPrefix(s, first.used, h.used, startLine, headers);
  }

  /** A start line with its terminator followed by a header block with the blank line is a request text. */
  lemma RequestTextPrefix(s: string, a: nat, b: nat, startLine: string, headers: seq<string>)
    requires a + b <= |s|
    requires s[..a] == startLine + CRLF && s[a..][..b] == HeaderBlock(headers) + CRLF
    ensures s[..a + b] == RequestText(startLine, headers)
  {
    PrefixConcat(s, a, b);
    ConcatAssoc(startLine + CRLF, HeaderBlock(headers), CRLF);
  }

  lemma ConcatAssoc<T>(x: seq<T>, y: seq<T>, z: seq<T>)
    ensures (x + y) + z == x + (y + z)
  {
  }

  /** Dropping a elements and then b more drops a + b. */
  lemma DropDrop<T>(s: seq<T>, a: nat, b: nat)
    requires a + b <= |s|
    ensures s[a..][b..] == s[a + b..]
  {
  }

  /** The first a + b elements of s are its first a followed by the b after them. */
  lemma PrefixConcat<T>(s: seq<T>, a: nat, b: nat)
    requires a + b <= |s|
    ensures s[..a + b] == s[..a] + s[a..][..b]
  {
  }

  /** A start line that is malformed or names another method ends the read after that one line:
      no header line is consumed. */
  lemma RejectedStartLineConsumesOneLine(s: string, end: StreamError)
    requires var r := ReadRequestSpec(s, end).result;
      r.Err? && !r.error.ReadErr?
    ensures var r := ReadRequestSpec(s, end);
      2 <= r.used && s[r.used - 2..r.used] == CRLF && NoCrlf(s[..r.used - 2])
  {
    var first := ReadLineSpec(s, end);
    ReadRequestStep(s, end, first);
    assert s[..first.used - 2] == s[..first.used][..first.used - 2];
  }

  /** A GET start line followed by header lines but no blank line before the stream stops
      yields the stream's error, with every byte consumed: header content never fails a read. */
  lemma TruncatedHeaders(startLine: string, headers: seq<string>, tail: string, end: StreamError)
    requires NoCrlf(startLine) && CheckStartLine(startLine).Ok?
    requires HeaderLines(headers) && NoCrlf(tail)
    ensures var s := startLine + CRLF + HeaderBlock(headers) + tail;
      ReadRequestSpec(s, end) == RequestRead(Err(ReadErr(end)), |s|)
  {
    assert startLine + CRLF + HeaderBlock(headers) + tail == startLine + CRLF + (HeaderBlock(headers) + tail);
    ReadRequestAfterStartLine(startLine, HeaderBlock(headers) + tail, end);
    SkipHeadersTruncated(headers, tail, end);
  }

  lemma {:induction false} SkipHeadersTruncated(lines: seq<string>, tail: string, end: StreamError)
    requires HeaderLines(lines) && NoCrlf(tail)
    ensures SkipHeadersSpec(HeaderBlock(lines) + tail, end).err == Some(end)
  {
    var s := HeaderBlock(lines) + tail;
    if lines == [] {
      assert s == tail;
      UnterminatedTail(tail, end);
    } else {
      var rest := HeaderBlock(lines[1..]) + tail;
      assert s == lines[0] + CRLF + rest;
      ReadLineSpecOfLine(lines[0], rest, end);
      assert s[|lines[0]| + 2..] == rest;
      SkipHeadersTruncated(lines[1..], tail, end);
    }
  }

  // ---------------------------------------------------------------------------
  // ReadRequest over the stream

  /** ReadRequest: read the start line, take its method token, accept only GET,
      then discard header lines up to and including the blank line. */
  method ReadRequest(br: Reader) returns (r: Result<Request, ParseError>)
    requires br.Valid()
    modifies br
    ensures br.Valid() && old(br.pos) <= br.pos
    ensures RequestRead(r, br.pos - old(br.pos)) == ReadRequestSpec(old(br.Rest()), br.end)
  {
    ghost var s := br.Rest();
    var line, err := ReadLine(br);
    ghost var first := LineRead(line, err, br.pos - old(br.pos));
    DropDrop(br.data, old(br.pos), first.used);
    ReadRequestStep(s, br.end, first);
    if err.Some? {
      return Err(ReadErr(err.value));
    }
    var verb := ParseRequestLine(line);
    if verb.None? {
      return Err(MalformedStartLine(line));
    }
    if !ValidMethod(verb.value) {
      return Err(InvalidMethod(verb.value));
    }
    ghost var h0 := br.pos;
    ghost var total := SkipHeadersSpec(br.Rest(), br.end);
    while true
      invariant br.Valid() && h0 <= br.pos
      invariant total.err == SkipHeadersSpec(br.Rest(), br.end).err
      invariant total.used == br.pos - h0 + SkipHeadersSpec(br.Rest(), br.end).used
      decreases |br.data| - br.pos
    {
      ghost var p := br.pos;
      ghost var before := br.Rest();
      line, err := ReadLine(br);
      DropDrop(br.data, p, br.pos - p);
      SkipHeadersStep(before, br.end, LineRead(line, err, br.pos - p));
      if err.Some? {
        return Err(ReadErr(err.value));
      }
      if line == "" {
        break;
      }
    }
    return Ok(Request(verb.value));
  }

  // ---------------------------------------------------------------------------
  // The status line

  /** The decimal digit `d` as a character. */
  function DigitChar(d: nat): (c: char)
    requires d < 10
    ensures '0' <= c <= '9' && (c as int) - ('0' as int) == d
  {
    (('0' as int) + d) as char
  }

  predicate IsDigits(s: string) {
    forall i :: 0 <= i < |s| ==> '0' <= s[i] <= '9'
  }

  /** The decimal form of `n`, as fmt prints an unsigned value. */
  function NatToDecimal(n: nat): (r: string)
    ensures r != [] && IsDigits(r)
  {
    if n < 10 then [DigitChar(n)] else NatToDecimal(n / 10) + [DigitChar(n % 10)]
  }

  /** The decimal form of `i` with a leading '-' for a negative value, as fmt's %v prints an int. */
  function IntToDecimal(i: int): (r: string)
    ensures r != [] && ' ' !in r && NoCrlf(r)
  {
    if i < 0 then "-" + NatToDecimal(-i) else NatToDecimal(i)
  }

  /** The value of a string of decimal digits. */
  function DecimalValue(s: string): nat
    requires IsDigits(s)
  {
    if s == [] then 0 else 10 * DecimalValue(s[..|s| - 1]) + ((s[|s| - 1] as int) - ('0' as int))
  }

  /** Reading back a decimal integer, optionally signed with '-'. */
  function ParseInt(s: string): Option<int> {
    if s != [] && s[0] == '-' then
      if s[1..] != [] && IsDigits(s[1..]) then Some(0 - DecimalValue(s[1..]) as int) else None
    else if s != [] && IsDigits(s) then Some(DecimalValue(s))
    else None
  }

  lemma {:induction false} DecimalRoundTrip(n: nat)
    ensures DecimalValue(NatToDecimal(n)) == n
  {
    if n >= 10 {
      var d := NatToDecimal(n / 10) + [DigitChar(n % 10)];
      assert d[..|d| - 1] == NatToDecimal(n / 10);
      DecimalRoundTrip(n / 10);
    }
  }

  lemma IntRoundTrip(i: int)
    ensures ParseInt(IntToDecimal(i)) == Some(i)
  {
    if i < 0 {
      var digits := NatToDecimal(-i);
      DecimalRoundTrip(-i);
      assert IntToDecimal(i) == "-" + digits;
      assert ("-" + digits)[0] == '-' && ("-" + digits)[1..] == digits;
    } else {
      var digits := NatToDecimal(i);
      DecimalRoundTrip(i);
      assert digits[0] != '-';
    }
  }

  /** The reason phrase looked up in StatusText; Go's map lookup gives "" for a code it lacks. */
  function StatusReason(code: int): (reason: string)
    ensures code == StatusOK ==> reason == "OK"
    ensures code == StatusMethodNotAllowed ==> reason == "Method Not Allowed"
    ensures code != StatusOK && code != StatusMethodNotAllowed ==> reason == ""
  {
    if code in StatusText then StatusText[code] else ""
  }

  /** The status line Response.Write emits: proto, code and reason separated by spaces, ended by "\r\n". */
  function FormatStatusLine(proto: string, code: int): (r: string)
    ensures |proto| + 5 <= |r| && r[..|proto| + 1] == proto + " "
    ensures HasSuffix(r, " " + StatusReason(code) + CRLF)
  {
    var head := proto + " " + IntToDecimal(code);
    var tail := " " + StatusReason(code) + CRLF;
    ConcatAssoc(head, " " + StatusReason(code), CRLF);
    ConcatAssoc(head, " ", StatusReason(code));
    assert (head + tail)[..|proto| + 1] == proto + " " by {
      assert (head + tail)[..|proto| + 1] == head[..|proto| + 1];
    }
    assert (head + tail)[|head + tail| - |tail|..] == tail;
    proto + " " + IntToDecimal(code) + " " + StatusReason(code) + CRLF
  }

  /** The three parts of a status line. */
  datatype StatusLine = StatusLine(proto: string, code: int, reason: string)

  /** Splits a status line (without its terminator) at its first two spaces. */
  function ParseStatusLine(line: string): Option<StatusLine> {
    var f := SplitN2(line, ' ');
    if |f| != 2 then None
    else
      var g := SplitN2(f[1], ' ');
      if |g| != 2 then None
      else match ParseInt(g[0])
        case None => None
        case Some(code) => Some(StatusLine(f[0], code, g[1]))
  }

  /** The emitted status line reads back, one line, as the proto, code and reason it was made from. */
  lemma StatusLineRoundTrip(proto: string, code: int, rest: string, end: StreamError)
    requires ' ' !in proto && NoCrlf(proto)
    ensures var l := ReadLineSpec(FormatStatusLine(proto, code) + rest, end);
      l.err == None && ParseStatusLine(l.line) == Some(StatusLine(proto, code, StatusReason(code)))
  {
    var line := proto + " " + IntToDecimal(code) + " " + StatusReason(code);
    NoCrlfJoin(proto, IntToDecimal(code), StatusReason(code));
    assert FormatStatusLine(proto, code) + rest == line + CRLF + rest;
    ReadLineSpecOfLine(line, rest, end);
    ParseFormattedStatusLine(proto, code, StatusReason(code));
  }

  /** The fields of a status line are recovered from its text, whatever the reason phrase. */
  lemma ParseFormattedStatusLine(proto: string, code: int, reason: string)
    requires ' ' !in proto
    ensures ParseStatusLine(proto + " " + IntToDecimal(code) + " " + reason) == Some(StatusLine(proto, code, reason))
  {
    var digits := IntToDecimal(code);
    assert proto + " " + digits + " " + reason == proto + " " + (digits + " " + reason);
    SplitAtFirstSpace(proto, digits + " " + reason);
    SplitAtFirstSpace(digits, reason);
    IntRoundTrip(code);
  }

  lemma SplitAtFirstSpace(a: string, b: string)
    requires ' ' !in a
    ensures SplitN2(a + " " + b, ' ') == [a, b]
  {
    var s := a + " " + b;
    assert s == a + (" " + b);
    IndexOfAfter(a, " " + b, ' ');
    assert s[..|a|] == a;
    assert s[|a| + 1..] == b;
  }

  lemma {:induction false} IndexOfAfter(a: string, b: string, c: char)
    requires c !in a && b != [] && b[0] == c
    ensures IndexOf(a + b, c) == Some(|a|)
  {
    if a != [] {
      assert (a + b)[0] == a[0];
      assert (a + b)[1..] == a[1..] + b;
      IndexOfAfter(a[1..], b, c);
    }
  }

  lemma NoCrlfJoin(proto: string, digits: string, reason: string)
    requires NoCrlf(proto) && NoCrlf(digits) && (reason == "" || reason == "OK" || reason == "Method Not Allowed")
    ensures NoCrlf(proto + " " + digits + " " + reason)
  {
    var t := proto + " " + digits + " " + reason;
    forall i | 0 <= i < |t| - 1
      ensures !(t[i] == '\r' && t[i + 1] == '\n')
    {
      if i + 1 < |proto| {
        assert t[i] == proto[i] && t[i + 1] == proto[i + 1];
      } else if i + 1 == |proto| {
        assert t[i + 1] == ' ';
      } else if i == |proto| {
        assert t[i] == ' ';
      } else if i + 1 < |proto| + 1 + |digits| {
        assert t[i] == digits[i - |proto| - 1] && t[i + 1] == digits[i + 1 - |proto| - 1];
      } else if i + 1 == |proto| + 1 + |digits| {
        assert t[i + 1] == ' ';
      } else {
        assert t[i + 1] == reason[i + 1 - |proto| - 2 - |digits|];
      }
    }
  }

  /** The response side of a connection: the bytes written to it and whether it is closed. */
  class Conn {
    var sent: string
    var closed: bool

    constructor ()
      ensures sent == "" && !closed
    {
      sent := "";
      closed := false;
    }

    method Close()
      modifies this
      ensures closed && sent == old(sent)
    {
      closed := true;
    }
  }

  /** A response being prepared: the fields the handlers set before Write. */
  class Response {
    var statusCode: int
    var proto: string
    var filePath: string

    /** &Response{}: Go's zero values. */
    constructor ()
      ensures statusCode == 0 && proto == "" && filePath == ""
    {
      statusCode := 0;
      proto := "";
      filePath := "";
    }

    method Init()
      modifies this
      ensures proto == ResponseProto
      ensures statusCode == old(statusCode) && filePath == old(filePath)
    {
      proto := ResponseProto;
    }

    /** HandleOK: a 200 response; the file path is left as it was. */
    method HandleOK()
      modifies this
      ensures proto == ResponseProto && statusCode == StatusOK && filePath == old(filePath)
    {
      Init();
      statusCode := StatusOK;
    }

    /** HandleBadRequest: a 405 response with no file. */
    method HandleBadRequest()
      modifies this
      ensures proto == ResponseProto && statusCode == StatusMethodNotAllowed && filePath == ""
    {
      Init();
      statusCode := StatusMethodNotAllowed;
      filePath := "";
    }

    /** Write: emit the status line on the connection (a write error is not modelled). */
    method Write(conn: Conn)
      modifies conn
      ensures conn.sent == old(conn.sent) + FormatStatusLine(proto, statusCode)
      ensures conn.closed == old(conn.closed)
    {
      var statusLine := FormatStatusLine(proto, statusCode);
      conn.sent := conn.sent + statusLine;
    }
  }

  /** The exact status line of a 200 response. */
  lemma StatusLineOK()
    ensures FormatStatusLine(ResponseProto, StatusOK) == "HTTP/1.1 200 OK\r\n"
  {
    DecimalOf200();
    FormatStatusLineOf(ResponseProto, StatusOK, "200", "OK");
  }

  /** The exact status line of a 405 response. */
  lemma StatusLineMethodNotAllowed()
    ensures FormatStatusLine(ResponseProto, StatusMethodNotAllowed) == "HTTP/1.1 405 Method Not Allowed\r\n"
  {
    DecimalOf405();
    FormatStatusLineOf(ResponseProto, StatusMethodNotAllowed, "405", "Method Not Allowed");
  }

  /** A status line spelled out from the code's digits and reason phrase. */
  lemma FormatStatusLineOf(proto: string, code: int, digits: string, reason: string)
    requires IntToDecimal(code) == digits && StatusReason(code) == reason
    ensures FormatStatusLine(proto, code) == proto + " " + digits + " " + reason + CRLF
  {
  }

  lemma DecimalOf200()
    ensures IntToDecimal(200) == "200"
  {
    assert NatToDecimal(20) == NatToDecimal(2) + ['0'];
    assert NatToDecimal(200) == NatToDecimal(20) + ['0'];
  }

  lemma DecimalOf405()
    ensures IntToDecimal(405) == "405"
  {
    assert NatToDecimal(40) == NatToDecimal(4) + ['0'];
    assert NatToDecimal(405) == NatToDecimal(40) + ['5'];
  }

  /** HandleGoodRequest: a 200 response naming the served file. `docFile` stands for
      filepath.Join(DocRoot, "hello-world.txt"), a library call outside this model. */
  method HandleGoodRequest(docFile: string) returns (res: Response)
    ensures fresh(res)
    ensures res.proto == ResponseProto && res.statusCode == StatusOK && res.filePath == docFile
  {
    res := new Response();
    res.HandleOK();
    res.filePath := docFile;
  }

  // ---------------------------------------------------------------------------
  // The per-connection loop

  /** What the connection owner does with one ReadRequest outcome. */
  datatype Action = Close | RespondAndClose(code: int) | RespondAndContinue(code: int)

  /** The branches of HandleConnection: a clean close or a timeout closes silently,
      any other error is answered with 405 before closing, a request with 200. */
  function Decide(r: Result<Request, ParseError>): (a: Action)
    ensures a == Close <==> r.Err? && r.error.ReadErr? && r.error.cause != IOErr
    ensures a == RespondAndClose(StatusMethodNotAllowed) <==>
      r.Err? && (r.error.MalformedStartLine? || r.error.InvalidMethod? || r.error == ReadErr(IOErr))
    ensures a == RespondAndContinue(StatusOK) <==> r.Ok?
  {
    match r
    case Err(ReadErr(EOF)) => Close
    case Err(ReadErr(Timeout)) => Close
    case Err(_) => RespondAndClose(StatusMethodNotAllowed)
    case Ok(_) => RespondAndContinue(StatusOK)
  }

  /** The status codes a connection receives, in order, when the peer sends `s` and the stream then ends with `end`. */
  function Serve(s: string, end: StreamError): (codes: seq<int>)
    ensures forall i :: 0 <= i < |codes| ==> codes[i] == StatusOK || (codes[i] == StatusMethodNotAllowed && i == |codes| - 1)
    decreases |s|
  {
    var rr := ReadRequestSpec(s, end);
    match Decide(rr.result)
    case Close => []
    case RespondAndClose(code) => [code]
    case RespondAndContinue(code) => [code] + Serve(s[rr.used..], end)
  }

  /** The bytes those responses put on the connection. */
  function Render(codes: seq<int>): string {
    if codes == [] then "" else FormatStatusLine(ResponseProto, codes[0]) + Render(codes[1..])
  }

  /** One round of the connection loop: what the first request of `s` adds to the transcript. */
  lemma ServeStep(s: string, end: StreamError, r: Result<Request, ParseError>, used: nat)
    requires ReadRequestSpec(s, end) == RequestRead(r, used)
    ensures Decide(r).Close? ==> Render(Serve(s, end)) == ""
    ensures Decide(r).RespondAndClose? ==>
      Render(Serve(s, end)) == FormatStatusLine(ResponseProto, Decide(r).code)
    ensures Decide(r).RespondAndContinue? ==>
      Render(Serve(s, end)) == FormatStatusLine(ResponseProto, Decide(r).code) + Render(Serve(s[used..], end))
  {
    match Decide(r)
    case Close =>
    case RespondAndClose(code) =>
      RenderCons(code, []);
    case RespondAndContinue(code) =>
      RenderCons(code, Serve(s[used..], end));
  }

  /** A complete GET request is answered with 200 and the connection goes on with the bytes after it. */
  lemma ServeRequest(startLine: string, headers: seq<string>, rest: string, end: StreamError)
    requires NoCrlf(startLine) && CheckStartLine(startLine).Ok? && HeaderLines(headers)
    ensures Serve(RequestText(startLine, headers) + rest, end) == [StatusOK] + Serve(rest, end)
  {
    var text := RequestText(startLine, headers);
    ReadRequestOfText(startLine, headers, rest, end);
    assert (text + rest)[|text|..] == rest;
  }

  /** With no bytes left, a clean close or a timeout ends the connection silently; any other
      stream error is answered with 405. */
  lemma ServeAtEnd(end: StreamError)
    ensures Serve("", end) == if end == IOErr then [StatusMethodNotAllowed] else []
  {
    UnterminatedTail("", end);
  }

  /** A malformed start line or a method other than GET is answered with one 405, and nothing more is read. */
  lemma ServeRejected(s: string, end: StreamError)
    requires ReadRequestSpec(s, end).result.Err? && !ReadRequestSpec(s, end).result.error.ReadErr?
    ensures Serve(s, end) == [StatusMethodNotAllowed]
  {
  }

  /** The bookkeeping of one round of HandleConnection: `target` is the transcript
      still owed, `sent` what has been written so far. */
  lemma ConnectionStep(target: string, sent: string, s: string, end: StreamError,
                       r: Result<Request, ParseError>, used: nat, rest: string)
    requires ReadRequestSpec(s, end) == RequestRead(r, used)
    requires used <= |s| && rest == s[used..]
    requires target == sent + Render(Serve(s, end))
    ensures Decide(r).Close? ==> target == sent
    ensures Decide(r).RespondAndClose? ==> target == sent + FormatStatusLine(ResponseProto, Decide(r).code)
    ensures Decide(r).RespondAndContinue? ==>
      target == (sent + FormatStatusLine(ResponseProto, Decide(r).code)) + Render(Serve(rest, end))
  {
    ServeStep(s, end, r, used);
    if Decide(r).RespondAndContinue? {
      ConcatAssoc(sent, FormatStatusLine(ResponseProto, Decide(r).code), Render(Serve(rest, end)));
    }
  }

  lemma RenderCons(code: int, codes: seq<int>)
    ensures Render([code] + codes) == FormatStatusLine(ResponseProto, code) + Render(codes)
  {
    assert ([code] + codes)[1..] == codes;
  }

  /** The if-chain HandleConnection runs on each ReadRequest outcome: close on a clean
      end or a timeout, answer 405 and close on any other error, answer 200 otherwise.
      `docFile` is as for HandleGoodRequest. */
  method Respond(req: Result<Request, ParseError>, conn: Conn, docFile: string) returns (done: bool)
    requires !conn.closed
    modifies conn
    ensures done <==> !Decide(req).RespondAndContinue?
    ensures conn.closed == done
    ensures Decide(req).Close? ==> conn.sent == old(conn.sent)
    ensures !Decide(req).Close? ==> conn.sent == old(conn.sent) + FormatStatusLine(ResponseProto, Decide(req).code)
  {
    if req == Err(ReadErr(EOF)) || req == Err(ReadErr(Timeout)) {
      conn.Close();
      return true;
    }
    if req.Err? {
      var res := new Response();
      res.HandleBadRequest();
      res.Write(conn);
      conn.Close();
      return true;
    }
    var res := HandleGoodRequest(docFile);
    res.Write(conn);
    return false;
  }

  /** HandleConnection: parse requests one after another, answering each, until the
      stream ends or a request is rejected; then close. `docFile` is as for HandleGoodRequest. */
  method HandleConnection(br: Reader, conn: Conn, docFile: string)
    requires br.Valid() && !conn.closed
    modifies br, conn
    ensures br.Valid() && conn.closed
    ensures conn.sent == old(conn.sent) + Render(Serve(old(br.Rest()), br.end))
  {
    ghost var target := old(conn.sent) + Render(Serve(br.Rest(), br.end));
    while true
      invariant br.Valid() && !conn.closed
      invariant target == conn.sent + Render(Serve(br.Rest(), br.end))
      decreases |br.data| - br.pos
    {
      ghost var p := br.pos;
      ghost var before := br.Rest();
      var req := ReadRequest(br);
      DropDrop(br.data, p, br.pos - p);
      ConnectionStep(target, conn.sent, before, br.end, req, br.pos - p, br.Rest());
      var done := Respond(req, conn, docFile);
      if done {
        return;
      }
    }
  }
}
