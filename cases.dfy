/**
 * The request cases of server/server_test.go and server/server_tableTests_test.go,
 * stated over the model: single requests through ReadRequestSpec, back-to-back
 * requests through ReadRequest on one Reader and through Serve.
 */
module ServerCases {
  import opened Wrappers
  import opened Util
  import opened Server

  /** The one header line every case sends. */
  const HostHeader: seq<string> := ["Host: test"]
  const GetLine: string := "GET /index.html HTTP/1.1"
  /** "GET /index.html HTTP/1.1\r\nHost: test\r\n\r\n" */
  const SimpleGet: string := RequestText(GetLine, HostHeader)
  /** "GETT /index.html HTTP/1.1\r\nHost: test\r\n\r\n" */
  const InvalidVerb: string := RequestText("GETT" + " " + "/index.html HTTP/1.1", HostHeader)
  /** "POST /index.html HTTP/1.0\r\nHost: test\r\n\r\n" */
  const PostRequest: string := RequestText("POST" + " " + "/index.html HTTP/1.0", HostHeader)

  /** Text with no carriage return holds no "\r\n". */
  lemma NoCarriageReturn(s: string)
    requires '\r' !in s
    ensures NoCrlf(s)
  {
  }

  /** The start line of "Simple GET" passes the checks and its header line is well formed. */
  lemma SimpleGetText()
    ensures NoCrlf(GetLine) && CheckStartLine(GetLine).Ok? && HeaderLines(HostHeader)
  {
    NoCarriageReturn(GetLine);
    HostHeaderWellFormed();
    GetLineAccepted();
  }

  lemma HostHeaderWellFormed()
    ensures HeaderLines(HostHeader)
  {
    NoCarriageReturn(HostHeader[0]);
  }

  lemma GetLineAccepted()
    ensures CheckStartLine(GetLine) == Ok("GET")
  {
    assert GetLine == "GET" + " " + "/index.html HTTP/1.1";
    CheckStartLineOf("GET", "/index.html HTTP/1.1");
  }

  /** A request text is its start line, "\r\n", and the header block with the blank line. */
  lemma RequestTextSplit(line: string, headers: seq<string>, rest: string)
    ensures RequestText(line, headers) + rest == line + CRLF + (HeaderBlock(headers) + CRLF + rest)
  {
  }

  /** A start line whose method token is not GET is rejected after that one line, whatever follows it. */
  lemma OtherMethodRejected(verb: string, target: string, rest: string, end: StreamError)
    requires ' ' !in verb && NoCrlf(verb + " " + target) && verb != "GET"
    ensures ReadRequestSpec(verb + " " + target + CRLF + rest, end)
         == RequestRead(Err(InvalidMethod(verb)), |verb| + |target| + 3)
  {
    var line := verb + " " + target;
    ReadLineSpecOfLine(line, rest, end);
    CheckStartLineOf(verb, target);
    ReadRequestStep(line + CRLF + rest, end, LineRead(line, None, |line| + 2));
  }

  /** "Simple GET": parsed as a GET request that consumes the whole text, whatever follows it. */
  lemma SimpleGetIsRead(rest: string, end: StreamError)
    ensures ReadRequestSpec(SimpleGet + rest, end) == RequestRead(Ok(Request("GET")), |SimpleGet|)
  {
    SimpleGetText();
    ReadRequestOfText(GetLine, HostHeader, rest, end);
  }

  /** "Basic": the first token of "This is a bad request" is taken as the method and rejected
      after that one line. */
  lemma BasicBadRequest(rest: string, end: StreamError)
    ensures ReadRequestSpec("This is a bad request\r\n" + rest, end) == RequestRead(Err(InvalidMethod("This")), 23)
  {
    assert "This is a bad request\r\n" + rest == "This" + " " + "is a bad request" + CRLF + rest;
    NoCarriageReturn("This" + " " + "is a bad request");
    OtherMethodRejected("This", "is a bad request", rest, end);
  }

  /** "Empty": a blank start line has no space and is malformed. */
  lemma EmptyStartLine(rest: string, end: StreamError)
    ensures ReadRequestSpec("\r\n" + rest, end) == RequestRead(Err(MalformedStartLine("")), 2)
  {
    assert "\r\n" + rest == "" + CRLF + rest;
    ReadLineSpecOfLine("", rest, end);
  }

  /** "InvalidHTTPVerb": GETT is not GET. */
  lemma InvalidVerbRejected(rest: string, end: StreamError)
    ensures ReadRequestSpec(InvalidVerb + rest, end).result == Err(InvalidMethod("GETT"))
  {
    RequestTextSplit("GETT" + " " + "/index.html HTTP/1.1", HostHeader, rest);
    NoCarriageReturn("GETT" + " " + "/index.html HTTP/1.1");
    OtherMethodRejected("GETT", "/index.html HTTP/1.1", HeaderBlock(HostHeader) + CRLF + rest, end);
  }

  /** "NotSupportedHTTPVerb" and the POST case: POST is rejected. */
  lemma PostRejected(rest: string, end: StreamError)
    ensures ReadRequestSpec(PostRequest + rest, end).result == Err(InvalidMethod("POST"))
  {
    RequestTextSplit("POST" + " " + "/index.html HTTP/1.0", HostHeader, rest);
    NoCarriageReturn("POST" + " " + "/index.html HTTP/1.0");
    OtherMethodRejected("POST", "/index.html HTTP/1.0", HeaderBlock(HostHeader) + CRLF + rest, end);
  }

  /** A start line that begins with a space has an empty method token, which is not GET:
      the line is rejected as an invalid method, not as a malformed one. */
  lemma EmptyMethodToken(target: string)
    ensures CheckStartLine(" " + target) == Err(InvalidMethod(""))
  {
    assert " " + target == "" + " " + target;
    CheckStartLineOf("", target);
  }

  /** "GET " with nothing after the space is accepted: the remainder is never examined. */
  lemma EmptyRemainder()
    ensures CheckStartLine("GET ") == Ok("GET")
  {
    assert "GET " == "GET" + " " + "";
    CheckStartLineOf("GET", "");
  }

  /** An empty stream yields the stream's own error, EOF for a closed connection. */
  lemma EmptyStream(end: StreamError)
    ensures ReadRequestSpec("", end) == RequestRead(Err(ReadErr(end)), 0)
  {
    UnterminatedTail("", end);
  }

  /** "GoodBad": two ReadRequest calls on one reader give a GET request, then the GETT rejection. */
  method GoodBad() returns (first: Result<Request, ParseError>, second: Result<Request, ParseError>)
    ensures first == Ok(Request("GET"))
    ensures second == Err(InvalidMethod("GETT"))
  {
    var br := new Reader(SimpleGet + InvalidVerb, EOF);
    SimpleGetIsRead(InvalidVerb, EOF);
    first := ReadRequest(br);
    assert br.Rest() == InvalidVerb + "" by {
      assert (SimpleGet + InvalidVerb)[|SimpleGet|..] == InvalidVerb;
    }
    InvalidVerbRejected("", EOF);
    second := ReadRequest(br);
  }

  /** "GoodGood", then the end of the stream: two GET requests, then EOF. */
  method GoodGood() returns (first: Result<Request, ParseError>, second: Result<Request, ParseError>,
                             third: Result<Request, ParseError>)
    ensures first == Ok(Request("GET")) && second == Ok(Request("GET"))
    ensures third == Err(ReadErr(EOF))
  {
    var br := new Reader(SimpleGet + SimpleGet, EOF);
    SimpleGetIsRead(SimpleGet, EOF);
    first := ReadRequest(br);
    assert br.Rest() == SimpleGet + "" by {
      assert (SimpleGet + SimpleGet)[|SimpleGet|..] == SimpleGet;
    }
    SimpleGetIsRead("", EOF);
    second := ReadRequest(br);
    EmptyStream(EOF);
    third := ReadRequest(br);
  }

  /** "Simple GET" is answered with 200, and the connection goes on with the bytes after it. */
  lemma SimpleGetServed(rest: string, end: StreamError)
    ensures Serve(SimpleGet + rest, end) == [StatusOK] + Serve(rest, end)
  {
    SimpleGetText();
    ServeRequest(GetLine, HostHeader, rest, end);
  }

  /** A connection that sends "GoodGood" receives two 200s, then whatever the bytes after them bring. */
  lemma GoodGoodServed(rest: string, end: StreamError)
    ensures Serve(SimpleGet + SimpleGet + rest, end) == [StatusOK, StatusOK] + Serve(rest, end)
  {
    ConcatAssoc(SimpleGet, SimpleGet, rest);
    SimpleGetServed(SimpleGet + rest, end);
    SimpleGetServed(rest, end);
  }

  /** A connection that sends "GoodBad" receives 200, then 405, and nothing after, whatever follows. */
  lemma GoodBadServed(rest: string, end: StreamError)
    ensures Serve(SimpleGet + InvalidVerb + rest, end) == [StatusOK, StatusMethodNotAllowed]
  {
    ConcatAssoc(SimpleGet, InvalidVerb, rest);
    SimpleGetServed(InvalidVerb + rest, end);
    InvalidVerbRejected(rest, end);
    ServeRejected(InvalidVerb + rest, end);
  }

  /** HandleConnection on "Simple GET" followed by a clean close writes exactly one 200 status line. */
  method SimpleGetConnection() returns (sent: string)
    ensures sent == "HTTP/1.1 200 OK\r\n"
  {
    var br := new Reader(SimpleGet, EOF);
    var conn := new Conn();
    HandleConnection(br, conn, "hello-world.txt");
    sent := conn.sent;
    assert SimpleGet == SimpleGet + "";
    SimpleGetServed("", EOF);
    ServeAtEnd(EOF);
    RenderCons(StatusOK, []);
    StatusLineOK();
  }
}
