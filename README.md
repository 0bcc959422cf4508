# HTTP/1.1 request framing and status lines, modelled in Dafny

This project models the core of a small Go HTTP/1.1 server (package `server`):

- the CRLF line reader `ReadLine` (server/util.go);
- the request parser `ReadRequest`, with `parseRequestLine` and `validMethod`;
- the response preparation `HandleOK`, `HandleBadRequest` and `init`;
- the status-line writer `Response.Write` and its reason table `statusText`;
- the per-connection loop `HandleConnection` with `HandleGoodRequest` (server/server.go).

The request framing is a cut-down form of section 3 of RFC 7230. A request is a start line, header lines, and an empty line, each terminated by "\r\n". Only the method token of the start line is looked at, and only `GET` is accepted. The status line follows section 3.1.2 of RFC 7230: `HTTP/1.1 <code> <reason>\r\n`. Code 405 is "Method Not Allowed" (section 6.5.5 of RFC 7231).

Layout:

- `wrappers.dfy` (module `Wrappers`): `Option` and `Result`.
- `util.dfy` (module `Util`): the buffered stream and the line reader.
  - A `Reader` holds the bytes the peer sends (`data`) and a cursor (`pos`). It also holds the error the stream reports once the bytes run out (`end`): `EOF`, `Timeout` or `IOErr`.
  - `ReadString` is bufio's `ReadString`.
  - `ReadLine` is the source's accumulate-until-"\r\n" loop. It is proved against `ReadLineSpec`, which is defined from the first "\r\n" of the remaining bytes.
- `server.dfy` (module `Server`): request parsing, the status line, the response object, and the connection loop.
  - The `ReadRequest` method is proved against `ReadRequestSpec`, a function of the remaining bytes.
  - The `Response` class updates its fields in place.
  - `HandleConnection` is proved to write exactly `Render(Serve(bytes, end))`. `Serve(bytes, end)` is the sequence of status codes the connection receives.
- `cases.dfy` (module `ServerCases`): the repository's test inputs, stated over the model.

`parseRequestLine` only checks that the line contains a space (server/server.go:207-210). Neither part has to be non-empty, so:

- `" /index.html HTTP/1.1"` yields the empty method token, which is then rejected as an invalid method (`ServerCases.EmptyMethodToken`).
- `"GET "` is accepted as a GET request (`ServerCases.EmptyRemainder`).
- `"This is a bad request"` is rejected as the invalid method `"This"`, not as a malformed line (`ServerCases.BasicBadRequest`).

## Model

| member | source | states |
|---|---|---|
| Util.ReadLineSpec | server/util.go:12-28 | On success the line is the text before the first "\r\n". The bytes consumed are exactly the line plus "\r\n". The line never holds "\r\n". On a stream error, every remaining byte is returned, unstripped, with that error. |
| Util.ReadLine | server/util.go:12-28 | The returned line, the error and the cursor advance equal `ReadLineSpec` of the remaining bytes. On success the consumed bytes are the line plus "\r\n". The cursor only moves forward. |
| Util.Reader.ReadString | server/util.go:15 | bufio's `ReadString('\n')`: returns the bytes up to and including the first "\n". With no "\n", it returns every remaining byte together with the stream's error. |
| Util.ReadLineSpecOfLine | server/util.go:14-26 | A line free of "\r\n", followed by "\r\n", is read back exactly, whatever follows it. |
| Util.BareLfNotTerminator | server/util.go:15-22 | A "\n" not preceded by "\r" does not end the line. The text up to and including it stays in the line. |
| Util.UnterminatedTail | server/util.go:15-19 | Bytes without a terminator come back whole, with the stream's error. An empty stream gives ("", error). |
| Util.TerminatedChunk | server/util.go:15-25 | Appending a "\n"-ended chunk to text free of "\r\n": if the text now ends in "\r\n", stripping those two characters gives the complete line, and exactly the text has been consumed. Otherwise the text is still free of "\r\n" and reading goes on. |
| Server.SplitN2 | server/server.go:207 | `strings.SplitN(s, sep, 2)`: one field, equal to `s`, exactly when `sep` is absent. Otherwise two fields joined by the first `sep`. |
| Server.ParseRequestLine | server/server.go:206-212 | Fails exactly when the line has no space. Otherwise the method is the text before the first space. |
| Server.CheckStartLine | server/server.go:181-188 | Accepts exactly the lines that begin with "GET ". A line with no space is malformed and carries the raw line. Any other line is an invalid method and carries its first token. |
| Server.CheckStartLineOf | server/server.go:181-188 | The verdict on a start line depends only on the token before its first space. |
| Server.ValidMethod | server/server.go:214-216 | The allow-list holds exactly "GET": the comparison is exact, so any other token, including "get" or one holding a space, is refused. |
| Server.SkipHeadersSpec | server/server.go:190-200 | The header loop consumes non-empty header lines and then the blank line. It fails only when the stream ends first, and then it has consumed everything. |
| Server.ReadRequestSpec | server/server.go:172-203 | A request is returned only with method "GET". A read error is passed on unchanged, with every remaining byte consumed. |
| Server.ReadRequest | server/server.go:172-203 | The result and the cursor advance equal `ReadRequestSpec` of the remaining bytes. |
| Server.ReadRequestAfterStartLine | server/server.go:176-200 | After an accepted start line, the outcome is that of the header loop on the bytes after that line. |
| Server.SkipHeadersOfBlock | server/server.go:190-200 | Header lines followed by the blank line are consumed exactly, whatever follows them. |
| Server.ReadRequestOfText | server/server.go:172-203 | A GET start line, any header lines and the blank line parse as one GET request. The parse consumes exactly those bytes, so the next call starts at the next request. |
| Server.ParsedRequestIsText | server/server.go:172-203 | Conversely, the bytes consumed by a successful read are one GET start line, header lines and the blank line. |
| Server.RejectedStartLineConsumesOneLine | server/server.go:181-188 | After a malformed start line or an invalid method, only the start line and its "\r\n" have been consumed. |
| Server.TruncatedHeaders | server/server.go:190-194 | Header content never causes a failure. If the stream ends before the blank line, the stream's error is returned and every byte is consumed. |
| Server.IntToDecimal | server/server.go:225 | `%v` of an int is a non-empty string with no space and no "\r\n". |
| Server.IntRoundTrip | server/server.go:225 | The decimal form of any int reads back as that int. |
| Server.StatusReason | server/server.go:23-26 | 200 maps to "OK", 405 to "Method Not Allowed", and any other code to "", Go's zero value for a missing map key. |
| Server.StatusLineRoundTrip | server/server.go:222-225 | An emitted status line is read back by the line reader as one line. That line splits into the proto, the code and the reason it was made from. |
| Server.ParseFormattedStatusLine | server/server.go:225 | "<proto> <code> <reason>" splits back into its three fields for any reason phrase. |
| Server.FormatStatusLine | server/server.go:225 | The `Sprintf("%v %v %v\r\n")` status line: it starts with the proto and a space, ends with a space, the reason phrase of the code and "\r\n". That it reads back into proto, code and reason is `StatusLineRoundTrip`. |
| Server.StatusLineOK | server/server.go:16-26 | The 200 status line is exactly "HTTP/1.1 200 OK\r\n". |
| Server.StatusLineMethodNotAllowed | server/server.go:16-26 | The 405 status line is exactly "HTTP/1.1 405 Method Not Allowed\r\n". |
| Server.Response.constructor | server/server.go:147 | `&Response{}`: status 0 and empty proto and file path, Go's zero values. |
| Server.Conn.Close | server/server.go:111 | `conn.Close`: marks the connection closed and writes nothing. |
| Server.Response.Init | server/server.go:168-170 | Sets `Proto` to "HTTP/1.1" and leaves the other fields unchanged. |
| Server.Response.HandleOK | server/server.go:156-159 | Proto "HTTP/1.1" and status 200. The file path is left as it was. |
| Server.Response.HandleBadRequest | server/server.go:161-166 | Proto "HTTP/1.1", status 405 and an empty file path. |
| Server.Response.Write | server/server.go:222-234 | Appends exactly `Proto + " " + code + " " + statusText[code] + "\r\n"` to the connection. |
| Server.HandleGoodRequest | server/server.go:146-152 | A fresh response with proto "HTTP/1.1", status 200 and the given file path. |
| Server.Decide | server/server.go:108-139 | Close silently exactly on EOF or timeout. Answer 405 and close exactly on any other error. Answer 200 and continue exactly on a request. |
| Server.Respond | server/server.go:108-139 | Runs that branch on the connection. It closes exactly when the decision is not "continue", and writes the decided status line or nothing. |
| Server.Serve | server/server.go:95-144 | The codes a connection receives are all 200, except that the last may be 405. |
| Server.ServeStep | server/server.go:106-139 | What one round of the loop adds to the transcript for each kind of outcome. |
| Server.ServeRequest | server/server.go:133-143 | A complete GET request is answered with 200, and the loop goes on with the bytes after it. |
| Server.ServeRejected | server/server.go:123-131 | A malformed or non-GET request is answered with a single 405, and nothing more is read. |
| Server.ServeAtEnd | server/server.go:108-131 | With no bytes left, EOF and timeout close silently and any other stream error gets a 405. |
| Server.HandleConnection | server/server.go:95-144 | The connection ends closed, having received exactly the status lines of `Serve` on the bytes the peer sent. |
| ServerCases.SimpleGetIsRead | server/server_tableTests_test.go:32-40 | "Simple GET" parses as a GET request that consumes exactly its bytes. |
| ServerCases.BasicBadRequest | server/server_tableTests_test.go:56-59 | "This is a bad request\r\n" is the invalid method "This", after one line. |
| ServerCases.EmptyStartLine | server/server_tableTests_test.go:60-63 | "\r\n" is a malformed start line carrying "". |
| ServerCases.InvalidVerbRejected | server/server_tableTests_test.go:64-67 | "GETT ..." is rejected as the invalid method "GETT". |
| ServerCases.PostRejected | server/server_tableTests_test.go:68-71 | "POST ..." is rejected as the invalid method "POST". |
| ServerCases.OtherMethodRejected | server/server.go:181-188 | Any method token other than GET is rejected after exactly one line. |
| ServerCases.EmptyStream | server/server.go:176-179 | An empty stream yields the stream's own error and consumes nothing. |
| ServerCases.EmptyMethodToken | server/server.go:206-211 | A line starting with a space gives the empty method token, rejected as an invalid method. |
| ServerCases.EmptyRemainder | server/server.go:206-211 | "GET " is accepted, because the remainder after the space is never examined. |
| ServerCases.GoodGood | server/server_tableTests_test.go:88-100 | Two ReadRequest calls on one reader return two GET requests, and a third call returns EOF. |
| ServerCases.GoodBad | server/server_tableTests_test.go:101-111 | Two calls return a GET request and then the GETT rejection. |
| ServerCases.GoodGoodServed | server/server_tableTests_test.go:88-100 | A connection sending "GoodGood" receives two 200s before anything the following bytes bring. |
| ServerCases.GoodBadServed | server/server_tableTests_test.go:101-111 | A connection sending "GoodBad" receives 200, then 405, then nothing. |
| ServerCases.SimpleGetConnection | server/server.go:95-144 | The "Simple GET" input of server/server_test.go, run through HandleConnection and followed by a clean close, writes exactly "HTTP/1.1 200 OK\r\n". |

## Left out

- `ListenAndServe`: TCP listening, accepting and goroutine dispatch. This is network I/O and concurrency.
- `ValidateServerSetup`: a filesystem `os.Stat` call.
- `SetReadDeadline` and the clock: a timeout enters the model only as the `Timeout` error a stream ends with. The branch where setting the deadline fails, and the loop closes the connection, is not modelled.
- `filepath.Join(DocRoot, "hello-world.txt")` is a library call. The resulting path is a parameter, `docFile`, of `HandleGoodRequest` and `HandleConnection`.
- Server.Response.Write: the `bufio.Writer` buffering, the flush, and write errors are not modelled. Write always appends the status line to the connection's transcript.
- Logging and `fmt.Println` side effects.
- The text of error messages from `fmt.Errorf`. Errors are the tagged datatype `ParseError`.
- Util.Reader: the stream reports its terminal error on every read once its bytes run out. bufio's one-shot `readErr` is not modelled; for the streams used here, a closed connection or a string reader, the next read reports the same error again.
- Server.SplitN2 models `strings.SplitN(s, sep, 2)` only for a one-character separator, which is the only use in the source.
- Server.HandleConnection's two branches for EOF and for timeout differ only in their log message, so `Respond` tests them in one condition.
- main.go (process start-up) and server/server_parallelTests_test.go (its inputs repeat the table tests).
