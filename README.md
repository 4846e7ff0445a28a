# A minimal HTTP/1.1 file server, modelled in Dafny

The server accepts TCP connections. On each one it reads a single
request, answers it and closes the connection. It offers these routes:

- `/` answers `200 OK` with no fields.
- `/user-agent` echoes the `User-Agent` header as text.
- `/echo/<message>` echoes the message as text.
- `/files/<name>` stores the request body in the served directory (POST), or returns a file's contents as an octet stream (any other method).
- Any other path answers `404 NotFound`.

The model covers the request parser, the routing and the two file handlers of
`app/server.go`. Its modules are:

- `Bytes`: the Go library behaviour the server relies on, over octets:
  `strings.TrimSpace` (ASCII white space), `strings.Split`, `strings.Cut`,
  `strings.HasPrefix`, and `%d` formatting of a length.
- `BufReader`: the `bufio.Reader` over a connection whose whole input has arrived. It is a class with a read position, and provides `ReadString`, `Buffered` and `ReadByte`.
- `Parser`: `ReadRequest` as an imperative method (the header loop and the body loop with their invariants). `ParseRequest` is its specification function.
- `RequestProperties`: what the parser guarantees, proved about `ParseRequest`:
  - the error cases
  - the request-line tokens
  - how header lines fill the map, with the last line for a key winning
  - the exact read-back of a well-formed request
- `HttpResponse`: the response a handler writes, and `Wire`, the octets it puts on the connection. Its partner is a client reader, `ReadReply`, that frames the content by `Content-Length`.
- `Router`: the routing of `HandleConnection` as a function from the request and the served directory to the response and the new directory. Its lemmas state each route's octets as the source's chunks, the directory effect, post-then-get, and which responses a client can read.
- `Server`: the handlers as methods over a connection (`Conn`, which collects what is written and whether `Close` was called) and a file store (`FileStore`, a map from names to contents, with failure flags). Each handler is proved to write exactly `Wire` of the response `Route` chooses, and to leave the store as `Route` says.

## Model

| member | source | states |
|---|---|---|
| Bytes.TrimSpace | app/server.go:33-34 | the result is the input with its leading and trailing white space removed: a contiguous slice starting after the leading white space, followed only by white space, and neither starting nor ending in white space |
| Bytes.TrimSpaceOf | app/server.go:33-34 | trimming white space + m + white space gives exactly m when m does not start or end in white space |
| Bytes.TrimSpaceIdempotent | app/server.go:33-34 | trimming twice, as the request line is, gives the same as trimming once |
| Bytes.Split | app/server.go:35 | there is one more part than there are separators, no part contains the separator, and joining the parts with the separator gives back the input |
| Bytes.SplitJoin | app/server.go:35 | splitting the join of separator-free parts gives back those parts |
| Bytes.Cut | app/server.go:65 | when found, the input is the text before, the separator and the text after, and the separator does not occur earlier; when not found, the before part is the whole input and the after part is empty |
| Bytes.SplitByCut | app/server.go:47-48 | the first part of Split is the text before the first separator found by Cut, and the other parts are the split of the text after it |
| Bytes.HasPrefixCut | app/server.go:125-134 | the prefix test of the "/echo" and "/files" branches holds exactly when the path is the prefix followed by some text, and then Cut finds the prefix at the start with that text after it |
| Bytes.Decimal | app/server.go:81 | %d writes at least one digit, all digits, with no leading zero |
| Bytes.DecimalRoundTrip | app/server.go:81 | reading back the digits %d writes gives the same number |
| BufReader.SplitLine | app/server.go:28 | the line and the rest make up the input; the line ends in the delimiter and holds no earlier one, or the input has no delimiter, the whole input is the line and eof is set |
| BufReader.Reader.constructor | app/server.go:27 | a new reader has nothing read yet: all of the connection's input is unread |
| BufReader.Reader.ReadString | app/server.go:28 | the line read and the unread rest are SplitLine of what was unread before |
| BufReader.Reader.ScanTo | app/server.go:43 | the index returned is the first delimiter in the unread input, or its end |
| BufReader.Reader.Buffered | app/server.go:52 | the number of buffered octets is the number still unread |
| BufReader.Reader.ReadByte | app/server.go:53-56 | fails exactly when nothing is unread; otherwise returns the first unread octet and advances by one |
| Parser.ReadHeaderLines | app/server.go:41-49 | the header loop returns the header map that ReadHeaders computes and leaves exactly the octets after the blank line unread, or returns ReadHeaders' error |
| Parser.ReadBody | app/server.go:51-58 | the body is every unread octet, in order, and nothing is left unread |
| Parser.ReadRequest | app/server.go:26-62 | the method returns exactly ParseRequest of the connection's input |
| Parser.RequestLine | app/server.go:28-34 | the request line, trimmed twice, is no longer than the input and neither starts nor ends in white space |
| Parser.HeaderKey | app/server.go:47-48 | a header line's key holds no ':' and the line begins with the key followed by ':' |
| Parser.HeaderValue | app/server.go:47-48 | a header line's value holds no ':' and neither starts nor ends in white space |
| Parser.ReadHeaders | app/server.go:42-49 | the header loop's only error is a malformed header line; when the blank line is found, the body is what follows it, a suffix at least two octets shorter than the input, and the map keeps every key it held before |
| Parser.ParseRequest | app/server.go:26-62 | a request is rejected as a read failure exactly when the input holds no '\n'; a parsed request's body is a suffix of the input, shorter than it |
| RequestProperties.InvalidRequestLineIff | app/server.go:35-38 | a request with a first line is rejected as an invalid request line exactly when the trimmed line holds fewer than two spaces |
| RequestProperties.RequestLineTokens | app/server.go:35-40 | method, path and version hold no space and are the first three space-separated tokens of the trimmed request line |
| RequestProperties.OkTokens | app/server.go:40 | method, path and version are parts 0, 1 and 2 of the split request line |
| RequestProperties.FirstThreeTokens | app/server.go:35-40 | the first three parts of a split hold no separator and begin the line, separated by it |
| RequestProperties.HeaderKeyValueByCut | app/server.go:47-48 | a header line's key is its text before the first ':' and holds no ':'; its value is the trimmed text between the first ':' and the next ':' or the end of the line |
| RequestProperties.ReadOneHeaderLine | app/server.go:43-48 | one header line enters its key and value into the map and the loop continues after it |
| RequestProperties.ReadHeadersSkipsLines | app/server.go:42-49 | a run of header lines enters each line's key and value, in order, before the loop continues |
| RequestProperties.HeaderBlockOfLines | app/server.go:42-49 | header lines followed by "\r\n" give the map they enter, and the octets after the blank line become the body |
| RequestProperties.MalformedHeaderLine | app/server.go:47-48 | a line that is neither "\r\n" nor holds ':' is an error, after any number of good header lines |
| RequestProperties.MissingBlankLine | app/server.go:43-48 | after any number of header lines, input that ends without a further '\n' (empty, or a partial line with or without ':') is a malformed-header error |
| RequestProperties.UnterminatedHeaderLine | app/server.go:43-48 | a last header line without '\n' is a malformed-header error, whether or not it holds ':' |
| RequestProperties.LastLineWins | app/server.go:48 | when a key appears on several lines, the map holds the value from the last of them |
| RequestProperties.KeyUntouched | app/server.go:48 | a key on no header line keeps its previous entry, or stays absent |
| RequestProperties.EnterAllPairs | app/server.go:42-49 | entering header lines into the map is entering their (key, value) pairs in order |
| RequestProperties.LastPairWins | app/server.go:48 | among entries entered in order, the one at a position no later entry shares a key with is the one the map keeps |
| RequestProperties.PairUntouched | app/server.go:48 | a key no entry has keeps its previous entry, or stays absent |
| RequestProperties.ParseFormattedRequest | app/server.go:26-62 | a request written as "<method> <path> <version>\r\n", header lines, "\r\n" and a body is read back as those tokens, the headers the lines enter, and the body unchanged |
| RequestProperties.FirstLine | app/server.go:28-34 | a request line without '\n' and not starting or ending in white space is read back as itself |
| RequestProperties.SplitThree | app/server.go:35 | three separator-free tokens joined by the separator split back into those three |
| HttpResponse.WireFrame | app/server.go:73-103 | every response written begins with its status line, and ends with its content and "\r\n", or, without content, with the blank line |
| HttpResponse.ReadFieldLines | app/server.go:80-81 | field lines followed by the blank line are read back by a client as the same fields, with the rest left after them |
| HttpResponse.ReadHead | app/server.go:98-101 | a client reads back the status line and the fields of a written response |
| HttpResponse.ReadFramed | app/server.go:98-103 | a response whose Content-Length announces exactly its content is read back whole, with the closing "\r\n" left over |
| HttpResponse.ReadBare | app/server.go:116 | a response without Content-Length or content is read back with no content and nothing left over |
| HttpResponse.ReadAnnouncedButMissing | app/server.go:79-81 | a response that announces a Content-Length but sends no content is incomplete exactly when the length is positive |
| HttpResponse.DeclaredDecimal | app/server.go:81 | the Content-Length that %d writes is read back as the same length |
| Router.NotFoundWire | app/server.go:143 | a 404 response is the octets "HTTP/1.1 404 NotFound\r\n\r\n" |
| Router.PlainOkWire | app/server.go:116 | the answer to "/" is the octets "HTTP/1.1 200 OK\r\n\r\n" |
| Router.WithContentChunks | app/server.go:98-103 | the octets of a 200 response with content, grouped as the six writes the source makes |
| Router.WithContentWire | app/server.go:98-103 | a 200 response with content is the status line, the Content-Type line, "Content-Length: <n>", "\r\n\r\n", the content and "\r\n", where n is the content's length |
| Router.CreatedWire | app/server.go:79-81 | a 201 response is its status line, "Content-Type: text/plain\r\n" and "Content-Length: <n>\r\n\r\n", with nothing after |
| Router.ReadEchoMessage | app/server.go:64-67 | a non-empty message exists only when the path holds "/echo/", is shorter than the path by at least those six octets, and neither starts nor ends in white space |
| Router.FileName | app/server.go:135-136 | a non-empty file name exists only when the path holds "/files/", is shorter than the path by at least those seven octets, and neither starts nor ends in white space |
| Router.UserAgentOfLastLine | app/server.go:118-123 | the User-Agent echoed is the value of the last header line with that key |
| Router.UserAgentAbsent | app/server.go:118-123 | without a User-Agent header line the echoed value is empty |
| Router.FilePost | app/server.go:69-82 | the answer is 404 exactly when creating the file fails, and then the directory is unchanged; otherwise the file holds the body, it is the only name added, and no other file changes |
| Router.FileGet | app/server.go:84-104 | content is sent exactly when the file exists and can be read, with status 200, and it is the file's contents; every failure answers 404 with nothing else |
| Router.Route | app/server.go:115-144 | the status is 200, 201 or 404, and the directory is unchanged unless the request is a POST under "/files", which sets the file name's entry to the body |
| Router.EchoMessageAfterFirst | app/server.go:64-67 | when the path holds "/echo/", the message is the trimmed text after the first occurrence |
| Router.EchoMessageAbsent | app/server.go:64-67 | without "/echo/" in the path, the message is empty |
| Router.EchoMessageOf | app/server.go:64-67 | a message with no white space at its ends, sent as "/echo/<message>", comes back unchanged |
| Router.FileNameOf | app/server.go:135-136 | a name with no white space at its ends, sent as "/files/<name>", is that name |
| Router.FilesPathPassesEarlierRules | app/server.go:115-134 | a path under "/files" matches none of the earlier rules |
| Router.RouteRoot | app/server.go:115-116 | "/" is answered with "HTTP/1.1 200 OK\r\n\r\n" and the directory is unchanged |
| Router.RouteUserAgent | app/server.go:117-124 | "/user-agent" is answered with the User-Agent value as text, in the chunks the source writes |
| Router.RouteEcho | app/server.go:125-133 | any other path starting "/echo" is answered with the echo message as text, in the chunks the source writes |
| Router.RouteFilePost | app/server.go:134-141 | POST under "/files" stores the body under the file name and answers 201 announcing the body's length, or, when the file cannot be created, answers 404 and stores nothing |
| Router.RouteFileGet | app/server.go:134-141 | any other method under "/files" answers the file's contents as an octet stream when the file exists and can be read, and 404 otherwise; the directory is unchanged |
| Router.RouteNotFound | app/server.go:142-144 | every other path is answered with "HTTP/1.1 404 NotFound\r\n\r\n" |
| Router.OnlyFilePostWrites | app/server.go:69-82 | the directory changes only on a POST under "/files" whose file can be created, and then exactly that file's entry becomes the body |
| Router.PostThenGet | app/server.go:69-104 | posting a body to a file and then getting the same file answers with the posted body, and a client reads exactly that body back |
| Router.ConstantsWellFormed | app/server.go:73-81 | the fixed statuses, field names and content types contain no "\r" and the field names no ':', so a client can read them back |
| Router.ReadWithContent | app/server.go:98-103 | a 200 response with content is read back with exactly its content, and the closing "\r\n" left over |
| Router.ReadCreated | app/server.go:79-81 | a 201 response completes for a client only when the posted body was empty |
| Router.ReadBareResponses | app/server.go:73 | "200 OK" and "404 NotFound" without content are read back with no content |
| Router.EveryResponseReadable | app/server.go:115-144 | a client can read every response the router produces, except a 201 for a non-empty body |
| Router.PostHelloThenGet | app/server.go:69-104 | posting "hello" to /files/test.txt answers 201 with Content-Length 5, and getting the file then answers with the five octets |
| Server.Conn.Write | app/server.go:73 | written octets go after those already sent |
| Server.Conn.Close | app/server.go:107 | Close is recorded as called and nothing more is written |
| Server.FileStore.Create | app/server.go:71-75 | creating a file succeeds unless creation fails, and then leaves the file empty, truncating any earlier contents |
| Server.FileStore.Write | app/server.go:78 | the data goes after the file's contents |
| Server.FileStore.Stat | app/server.go:86-90 | the lookup succeeds exactly for an existing name |
| Server.FileStore.ReadFile | app/server.go:92-96 | the read succeeds exactly for an existing name without a read fault, and then returns its contents |
| Server.WriteWithContent | app/server.go:98-103 | the six writes put Wire of the 200 response with that content on the connection |
| Server.HandleFilePost | app/server.go:69-82 | the handler writes Wire of FilePost's response and leaves the store as FilePost says |
| Server.HandleFileGet | app/server.go:84-104 | the handler writes Wire of FileGet's response and leaves the store unchanged |
| Server.Respond | app/server.go:115-144 | the routing writes Wire of Route's response and leaves the store as Route says |
| Server.Exit | app/server.go:106-113 | leaving on a parse error writes nothing; Close is called exactly for a malformed header line, whose panic runs the deferred Close, while os.Exit skips it |
| Server.HandleConnection | app/server.go:106-145 | an unreadable request exits with nothing written and the store unchanged, calling Close only when the error is a malformed header line; otherwise Route's response is written, the store updated and Close called |

## Left out

- `main` (server.go:147-167) is not part of this model. That covers listening on port 4221, the accept loop, the goroutine per connection and the `-directory` flag.
- Connections are not modelled as a stream. Each one is its complete input, so requests that arrive in several packets are not modelled.
- `ReadRequest`'s error exit goes through `os.Exit(1)` and a log line. It is modelled as the `exited` result of `HandleConnection`, with nothing written. `os.Exit` skips the deferred `Close` call; a malformed header line instead panics, and the panic runs the deferred `Close` before the process ends. `Server.Conn`'s `closed` records only whether `Close` was called: when the process ends the operating system closes the socket in both cases, and the model does not record that. The log line is not modelled.
- `BufReader.Reader.Buffered`: counts everything still unread. bufio's buffer is 4096 octets, so a body longer than what one read filled is cut short in Go; this is not modelled.
- The body loop's error branch (server.go:54-56) cannot be taken: `ReadByte` fails only when nothing is buffered, and the loop runs only while something is.
- A header line without ':' makes Go panic on `parts[1]` (server.go:48). So does input that ends before the blank line. Both are modelled as the error `MalformedHeader`.
- The header value is modelled as the code computes it: the trimmed text between the first and the second ':'. A value containing ':' is therefore cut there.
- `Parser.Request` has no `UserAgent` field. The source declares one but never sets it; the `/user-agent` route reads the header map.
- `Bytes.TrimSpace`: removes ASCII white space only (tab, newline, vertical tab, form feed, carriage return, space). Go's `strings.TrimSpace` also removes Unicode white space such as U+0085 and U+00A0.
- The filesystem is a map from file names to contents. `filepath.Join` with the served directory, path cleaning and names such as ".." are not modelled. Failures other than a missing name are the two `Faults` flags.
- The result of `file.Write` (server.go:78) is ignored by the source and is not modelled; the write always succeeds. `file.Close` is not modelled.
- The result of `conn.Write` is ignored by the source; every write is modelled as succeeding.
- Concurrency between connections that touch the same file is not modelled. Each connection is one step on the directory.
- Two behaviours follow from the code as written, and are stated as lemmas rather than corrected:
  - a 201 response announces the posted body's length but sends no content (`Router.ReadCreated`)
  - a 200 response sends a stray "\r\n" after its content (`Router.ReadWithContent`)
