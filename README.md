# webpp11 request head, route table and dispatch — a Dafny model

webpp11 is a small embeddable HTTP/1.x server written in C++ on Boost.Asio.
This project models its sequential core:

- **The request-head parser** (`Server::parse_request`). It reads the buffered
  stream with `std::getline`. Each line loses its last character to
  `pop_back`. The request line must fit `^([^ ]*) ([^ ]*) HTTP/([^ ]*)$`.
  Header lines are then read while they fit `^([^:]*): ?(.*)$`. Both patterns
  are written as character-level matchers (`RequestParser`).
- **The route table** (`ApplicationBase::add_route` and the `Routes` type).
  It is a map from path to method to handler. Handlers are user code, so they
  are an opaque type parameter `H` (`Routing`, `App`).
- **The server's route snapshot, dispatch and body length** (`Server::start`,
  `Server::respond`, `Server::process`). `start` copies one entry per path
  into `all_routes`. `respond` scans that snapshot for the first entry with
  the request's path whose method map holds the request's method, and calls
  that one handler. Without such an entry it sends 404 with an empty body.
  `process` decides how many more body bytes to read after the header block
  (`HttpServer`, `App`, and `BodyLength` for the `size_t` arithmetic and
  `std::stoull`).

`ParseRequest` (with its header loop `ReadHeaders`), `Respond` and `Start`
are methods with the source's loops.
Each is proved against a specification function: `ParseHead`, `Decide` and
`Snapshot`. The lemmas beside those functions state what the source
promises. They cover the request-line round trip, header matching, where
header reading stops, and last-wins on duplicate header keys. They also show
that the scan agrees with a map lookup, and give the body-framing arithmetic
with its unsigned wrap-around.

Modelling choices that follow the code:

- The parser's input is the buffered stream. Its precondition
  `HasTerminator` says the stream holds `"\r\n\r\n"`, which
  `async_read_until` guarantees. Under it, `getline` never reaches the end of
  the stream before parsing stops (`FramedAfterLine`).
- `pop_back` on an empty line is undefined behaviour in C++. A bare `"\n"`
  line in the head triggers it. The model makes this a distinct outcome,
  `PopBackOnEmptyLine`, and `Process` reports it as `Undefined`.
- In std::regex's ECMAScript grammar, `.` matches neither `'\r'` nor `'\n'`.
  A header line whose value holds either character therefore ends header
  reading.
- `std::stoull` is modelled in base 10. It skips leading white space,
  accepts an optional sign, reads the longest digit run and ignores what
  follows. It throws when there is no digit or the value is 2^64 or more. A
  `'-'` negates the value modulo 2^64.
- `size_t` subtraction wraps modulo 2^64. A `Content-Length` smaller than the
  bytes already buffered therefore produces a huge read
  (`BodyLengthUnderflow`). The model keeps this behaviour.

Further behaviour of the code that the model keeps or records:

- A `Content-Length` below the buffered count is neither rejected nor
  clamped: the `size_t` subtraction wraps, and so does the model.
- The re-arming `accept()` call is commented out, so only one connection is
  ever accepted.
- The keep-alive test is `stof(version) > 1.05`.

## Model

| member | source | states |
|---|---|---|
| RequestParser.Getline | include/webpp11/server.h:158 | the line has no '\n', and line + "\n" + rest is the stream when it holds a '\n' |
| RequestParser.GetlineOf | include/webpp11/server.h:169 | a '\n'-free line followed by '\n' comes back out of getline unchanged, with the rest of the stream after it |
| RequestParser.PopBack | include/webpp11/server.h:159 | pop_back removes exactly the last character of a non-empty line |
| RequestParser.MatchRequestLine | include/webpp11/server.h:154-161 | a match yields space-free method, path and version whose concatenation with " " and " HTTP/" is the line |
| RequestParser.RequestLineRoundTrip | include/webpp11/server.h:154-164 | every space-free method, path and version is read back from M + " " + P + " HTTP/" + V |
| RequestParser.TooFewParts | include/webpp11/server.h:154 | a line with fewer than two spaces never fits the request-line pattern |
| RequestParser.NotHttpVersion | include/webpp11/server.h:154 | a third part not starting with "HTTP/" never fits the request-line pattern |
| RequestParser.HeaderValue | include/webpp11/server.h:167-171 | the part after the first ':' fails exactly when it holds '\r' or '\n'; otherwise the value is that part, or that part minus one leading space |
| RequestParser.MatchHeaderLine | include/webpp11/server.h:167-171 | a match yields a key free of ':' and a value free of '\r' and '\n', with line == key + ":" + value or key + ": " + value; a line without ':' never matches |
| RequestParser.HeaderLineRoundTrip | include/webpp11/server.h:167-173 | K + ":" + S + R records (K, R) for S "" or " ", except that with S == "" a leading space of R is dropped |
| RequestParser.HeaderLineRejected | include/webpp11/server.h:167-171 | a line holding ':' fails the header pattern exactly when a line break follows its first ':' |
| RequestParser.FramedAfterLine | include/webpp11/server.h:166-175 | while the terminator is still ahead, reading a non-blank line leaves a stream that still reaches the blank line, so getline never hits end of stream |
| RequestParser.Record | include/webpp11/server.h:173 | the header map after storing the pairs in order: every key already present stays, and every stored key is present |
| RequestParser.RecordAppend | include/webpp11/server.h:173 | storing one more header pair updates the map at that key |
| RequestParser.RecordKeys | include/webpp11/server.h:173 | the header map's keys are exactly the keys of the stored pairs, as received |
| RequestParser.LastFieldWins | include/webpp11/server.h:173 | with duplicate header keys the value of the last line with that key is the one kept |
| RequestParser.RecordUntouched | include/webpp11/server.h:173 | a key no header line carries is neither added nor changed |
| RequestParser.ParseHead | include/webpp11/server.h:150-179 | parse_request on the buffered stream: a parsed request has space-free method, path and version and header keys free of ':' |
| RequestParser.ParseRequestLine | include/webpp11/server.h:150-179 | the head M + " " + P + " HTTP/" + V + "\r\n" + rest parses to method M, path P and version V, with the header map recorded from the block after it |
| RequestParser.InvalidRequestLine | include/webpp11/server.h:158-178 | a request line that fails the pattern, ended by any character and '\n', yields the empty request (empty fields and headers) whatever follows, so no header line is read |
| RequestParser.BlankRequestLine | include/webpp11/server.h:158-161 | a head starting with the blank line "\r\n" yields the empty request |
| RequestParser.HeaderBlock | include/webpp11/server.h:166-175 | the pairs of the header lines read before the first non-matching line, or undefined on an empty line; every pair has a key free of ':' and a value free of line breaks |
| RequestParser.HeaderBlockStep | include/webpp11/server.h:168-175 | a matching header line, ended by any character and '\n', contributes its pair ahead of whatever the following lines give |
| RequestParser.HeaderBlockStops | include/webpp11/server.h:168-175 | header reading stops at the first non-matching line, whatever character precedes its '\n': nothing after it reaches the header map |
| RequestParser.BlankLineEndsHeaders | include/webpp11/server.h:168-175 | the blank "\r" terminator line ends the header block |
| Routing.Register | include/webpp11/app.h:18 | after routes[url][method] = f: lookup of (url, method) gives f, every other (path, method) lookup is unchanged, the paths grow by exactly url, url's other methods are kept |
| Routing.RegisterTwice | include/webpp11/app.h:18 | registering the same (url, method) twice leaves only the later handler |
| HttpServer.FirstHit | include/webpp11/server.h:112-132 | a handler is found iff some entry has the request path and holds the request method, and it is the handler of the first such entry |
| HttpServer.Decide | include/webpp11/server.h:112-134 | respond's decision: a handler is called iff some entry of the snapshot has the request's path and method; otherwise the 404 response with an empty body |
| HttpServer.SnapshotExtend | include/webpp11/server.h:31-33 | pushing the entry of a path not yet listed extends a partial snapshot by that path |
| HttpServer.SnapshotDecide | include/webpp11/server.h:112-134 | scanning a snapshot decides as a lookup in the table: the registered handler, else 404 with empty body, also when only the path is registered |
| BodyLength.SizeSub | include/webpp11/server.h:86-93 | size_t subtraction: the result is below 2^64 and adding the subtrahend back modulo 2^64 restores the minuend |
| BodyLength.Stoull | include/webpp11/server.h:92 | a value std::stoull accepts is below 2^64 |
| BodyLength.StoullDecimal | include/webpp11/server.h:92 | the decimal spelling of any n below 2^64 reads back as n |
| BodyLength.BodyReadFor | include/webpp11/server.h:86-93 | no read iff "Content-Length" is absent, rejection iff stoull throws, and otherwise buffered + count == n when n >= buffered, count == 2^64 - (buffered - n) when n < buffered |
| BodyLength.BodyFraming | include/webpp11/server.h:86-104 | with "Content-Length: n" and at most n bytes buffered, the extra read is n - buffered |
| BodyLength.BodyLengthUnderflow | include/webpp11/server.h:86-93 | with fewer declared bytes than buffered, the extra read exceeds the declared length |
| HttpServer.Server.constructor | include/webpp11/server.h:24-28 | a new server keeps port and thread count and has an empty all_routes |
| HttpServer.Server.Start | include/webpp11/server.h:30-33 | all_routes keeps its old entries and gains one entry per path of the table, each with its method map, each path once |
| HttpServer.Server.Respond | include/webpp11/server.h:112-134 | the dispatch is the first hit of the scan, or the 404 response with empty body |
| HttpServer.Server.ParseRequest | include/webpp11/server.h:150-179 | parse_request returns exactly the parse given by ParseHead |
| HttpServer.Server.ReadHeaders | include/webpp11/server.h:166-175 | the do/while loop stores the pairs of the header block in order into the request's map, or meets an empty line |
| RequestParser.HeaderStep | include/webpp11/server.h:166-175 | one pass of the do/while loop: an empty line leaves the block undefined, a matching line adds its pair, any other line closes the block |
| HttpServer.Server.Process | include/webpp11/server.h:78-105 | an undefined parse, an abort when stoull throws, or the parsed request with its body read and its dispatch |
| App.ApplicationBase.constructor | include/webpp11/app.h:21 | a new application has its port and an empty route table |
| App.ApplicationBase.AddRoute | include/webpp11/app.h:15-19 | the table becomes Register(old table, url, method, func), with method "GET" by default |
| App.HttpApplication.constructor | include/webpp11/app.h:31-32 | a fresh application and server on the same port, with the given thread count |
| App.HttpApplication.Run | include/webpp11/app.h:34-37 | the server's snapshot is taken from the registered table, which is left unchanged |
| App.RegisterAndServe | include/webpp11/app.h:15-19 | after add_route(url, f) and run, a request is dispatched to f iff its path is url and its method "GET", and otherwise gets the 404 response |

## Left out

- Boost.Asio plumbing is not modelled: the acceptor, `async_read_until`, `async_read`, `async_write`, `io_service.run` and the worker-thread pool (server.h:37-45, 60-69, 74-107, 121-128, 140-147). It is socket I/O and concurrency. `Process` covers only the decision taken once the header block is buffered.
- The keep-alive test `std::stof(http_version) > 1.05` is not modelled. It is floating-point parsing. `stof` also throws on the empty version of an invalid request.
- The request body stream (`request->content`) is not modelled, because it is I/O. So are what the handler does and the response encoding: `Response::get_buffer` and `http::HttpStatusMap` are not part of this model, nor is the log line written by `Logger::info`. `NotFound` is taken to be status code 404.
- HttpServer.Server.Start: the source visits the `std::map` in key order and stores iterators into the live table. The model stores copies in an unspecified order. Because paths are unique, dispatch does not depend on the order (`SnapshotDecide`), and the table is not changed after `run`.
- HttpServer.Server.Process: what happens after `std::stoull` throws is not modelled. The exception leaves the completion handler, and the model stops at `Aborted`.
- RequestParser.Getline: it matches `std::getline` while a '\n' remains ahead. A failed `getline` keeps the previous line, and that case is not modelled. The parser's precondition rules it out.
- BodyLength.Stoull: white space is `isspace` in the C locale. Other locales are not modelled.
- `HttpApplication::run`'s console output and the commented-out `SslApplication` (app.h:34-52) are not modelled: they are I/O and dead code. `HttpApplication` is modelled by composition, because the model has no subclasses.
- The `std::regex` engine is not modelled. Only the two fixed patterns are, as matchers.
- The platform is taken to be LP64: `size_t` and `unsigned long long` (`SizeMod`) are both taken to be 64 bits wide (an LP64 platform). With a 32-bit `size_t` the difference passed to `transfer_exactly` would be truncated further, and that is not modelled.
- Characters of the model stand for the bytes of the stream. The parser needs no decoding, because every delimiter it looks for is ASCII.
