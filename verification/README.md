# A minimal HTTP/1.1 file and echo server, modelled in Dafny

The server (`main.go`) accepts a connection, reads one buffer, parses it into a
request (method, path, header map, body), routes it on the second
`/`-separated segment of the path and the method, and writes one response: a
200 with Content-Type and Content-Length, or a bare 201, 400 or 404 status line.
The file endpoints read and write files under a serving directory.

This project models that request-to-response pipeline as pure functions over
byte sequences. The modules follow the pipeline in order:

- `Bytes`: bytes, byte strings, and searching, counting, joining and concatenating them.
- `Strings`: `strings.Split` and `strings.SplitN(…, 2)` with a one-byte
  separator, `strings.TrimSpace` over ASCII white space, and `strings.TrimPrefix`.
- `Scanner`: the lines a `bufio.Scanner` yields with `bufio.ScanLines`.
- `Decimal`: the `%d` numeral of a length, and reading it back.
- `Response`: `ok`, `badRequest`, `notFound` and `created`, as the exact bytes
  written to the connection. It also has a client-side reader that recovers
  the status code, content type and body.
- `FileStore`: the serving directory as a map from full paths to contents,
  plus the paths at which reading or writing fails.
- `Parser`: `newRequest`.
- `Server`: `routes`, the four handlers, and `serve` after its read.
- `Exchanges`: whole exchanges, from request text as a client frames it to the
  bytes written back and the store left behind.

Go strings and `[]byte` are both `seq<byte>`. Panics are explicit outcomes, not
preconditions:

- A header line without a colon (main.go:97) makes `newRequest` give `NoColon`,
  and `Serve` gives `Crashed(HeaderWithoutColon)`.
- A path without a slash (main.go:115) makes `Endpoint` give `None`, and
  `Route` gives `Crashed(PathWithoutSlash)`.
- When `newRequest` returns nil, `serve` calls `badRequest` on the nil pointer
  (main.go:65-66). That dereferences the nil receiver's `conn` and panics, so
  `Serve` gives `Crashed(NilRequest)` and no response is written.

Nothing recovers these panics. A panic in a connection's goroutine therefore
ends the whole server process, so every `Crashed` outcome stops the server
for all connections, not just the one being served.

Two consequences of the code are worth stating directly:

- A request line with fewer than three tokens gets no 400. Serving it panics,
  as above.
- An echo path without the `/echo/` prefix is answered with the whole path
  (main.go:174); `Server.GetEcho` does the same.

## Model

| member | source | states |
|---|---|---|
| `Strings.Split` | main.go:85 | The pieces hold no separator, there is at least one, and joined with the separator they give back the input. |
| `Strings.SplitJoin` | main.go:85 | Splitting inverts joining for separator-free pieces. |
| `Strings.SplitCount` | main.go:85-86 | There is one more piece than separators, so "fewer than 3 tokens" means "fewer than 2 spaces". |
| `Strings.SplitN2` | main.go:96 | There is one piece exactly when the separator is absent (the whole input), else two pieces around its first occurrence. |
| `Strings.SplitN2After` | main.go:96 | Cutting `a + ":" + c` with no colon in `a` gives exactly `a` and `c`. |
| `Strings.TrimSpace` | main.go:97 | The result starts and ends with non-space, and trimmed text is left alone. |
| `Strings.TrimSpaceOfPadded` | main.go:97 | Trimming white space around a trimmed core gives exactly that core. |
| `Strings.TrimPrefix` | main.go:174 | With the prefix present, prefix plus result is the input; without it, the input is unchanged. |
| `Scanner.Lines` | main.go:82-103 | The scanner yields no line exactly when the input is empty, and no line holds a line feed. |
| `Scanner.DropCR` | main.go:82 | The scanner's line-ending cleanup: one trailing carriage return is removed when present, and the line is unchanged otherwise. |
| `Scanner.FirstLine` | main.go:83-85 | `scanner.Text()` after the first `Scan`: the input up to its first line feed, less one carriage return, and the empty text for an empty input. |
| `Scanner.ScanLine` | main.go:82-103 | At every line feed the scanner cuts one line, less one carriage return, so bare LF and CR LF endings both split, followed by the lines of the rest. |
| `Scanner.ScanOneLine` | main.go:91-92 | A CR LF terminated line scans as itself, followed by the lines of the rest. |
| `Scanner.LinesOfTerminated` | main.go:82-103 | Scanning CR LF terminated lines gives them back, followed by the lines of what follows. |
| `Scanner.LinesOfFinal` | main.go:101-102 | A final segment without a line feed is one last line, or none when empty. |
| `Decimal.Format` | main.go:161-164 | `%d` of a length writes a canonical numeral, one digit exactly for values below ten. |
| `Decimal.ValueOfFormat` | main.go:161-164 | Reading the numeral `%d` writes gives the length back. |
| `Decimal.FormatOfValue` | main.go:161-164 | A canonical numeral is the `%d` of its value. |
| `Response.Ok` | main.go:160-167 | The output starts with the 200 status line and the Content-Type field name, and ends with the body bytes verbatim. |
| `Response.ReadOkOfOk` | main.go:160-167 | A client that reads the content type up to CR and takes the Content-Length bytes after the blank line recovers exactly the content type and body. |
| `Response.StatusCodes` | main.go:152-171 | `ok`, `badRequest`, `notFound` and `created` carry status codes 200, 400, 404 and 201. |
| `Parser.ParseField` | main.go:96-97 | A line without a colon has no field. Otherwise the name and value are the trimmed text before and after the first colon. |
| `Parser.ParseFieldLine` | main.go:96-97 | A well-formed `name: value` line parses back to its field. |
| `Parser.Collect` | main.go:91-98 | The header loop fails exactly when one of its parsed lines has no field, and otherwise keeps every name it started with. Its values are stated by `Parser.LastFieldWins`. |
| `Parser.ReadHeaders` | main.go:90-98 | The header loop over the header block panics exactly when one of its lines has no colon. The map's values are stated by `Parser.CollectLastValues`. |
| `Parser.CollectLastValues` | main.go:90-98 | From an empty map, the loop gives each name the value of its last field, and names without a field are absent. |
| `Parser.CollectSnoc` | main.go:97 | One more header line updates the map so far with that field. |
| `Parser.LastFieldWins` | main.go:90-98 | Each name maps to the value of the last field with that name, and other names keep their earlier values. |
| `Parser.ReadFieldLines` | main.go:90-98 | Well-formed field lines read back as the map in which later fields overwrite earlier ones. |
| `Parser.HeaderEnd` | main.go:93-95 | The header block ends at the first empty line, or after the last line when there is none. |
| `Parser.BodyLines` | main.go:100-103 | The body loop reads exactly the lines after the first empty line, in order, and none when there is no empty line. |
| `Parser.NewRequest` | main.go:81-112 | Gives nil exactly when the first line has fewer than two spaces. Panics exactly when, past that, a header-block line has no colon. Otherwise method and path are the space-free text before the first space and between the first and second; the body is the concatenation of the body lines and so has no line feed; the directory is passed through. |
| `Parser.RequestHeaders` | main.go:90-98 | For a parsed request, every header-block line has a colon, and each name maps to the trimmed value of the last line with that name. |
| `Parser.ParseLinesOf` | main.go:85-111 | `newRequest` after scanning: the tokens before the first and second space are the method and path, the lines up to the empty one give the header map, and the lines after it, concatenated, give the body. |
| `Parser.ParseRequestText` | main.go:81-112 | A client-framed request parses to its method, path, header map and body, for a body with no line feed and no final carriage return; other bodies arrive rebuilt from their lines (`Parser.ParseFramedLines`). The version is ignored. |
| `Parser.ParseFramedLines` | main.go:100-103 | The body is the concatenation of the lines after the empty line, without their line endings. |
| `FileStore.Read` | main.go:189-204 | Gives the contents when the file exists and is readable, not-exist when it is absent and readable, and another error otherwise. |
| `FileStore.Write` | main.go:214-224 | Fails exactly at unwritable paths. On success the written path reads back the data, and every other path reads as before. |
| `Server.Endpoint` | main.go:115 | No endpoint exactly when the path has no slash. Otherwise it is the text between the first slash and the next slash or the end. |
| `Server.EndpointOf` | main.go:115 | A path `before/segment…` with no slash in `before` or `segment` has the endpoint `segment`. |
| `Server.GetEcho` | main.go:173-176 | A 200 whose text/plain body is the path without `/echo/`, or the whole path when it lacks that prefix. |
| `Server.GetUserAgent` | main.go:178-185 | Exactly the 400 line without a `User-Agent` header; otherwise a 200 whose text/plain body is its value. |
| `Server.FilePath` | main.go:188-189 | The file is the serving directory, a slash, and the path with any `/files/` prefix removed. |
| `Server.GetFiles` | main.go:187-206 | 404 for a missing file and 400 for another read failure; otherwise a 200 whose octet-stream body is the file's contents. |
| `Server.ContentTypeOf` | main.go:209 | A missing Content-Type reads as the empty text, Go's zero value. It equals `application/octet-stream` exactly when that header is present with that value. |
| `Server.PostFiles` | main.go:208-226 | 400 and an unchanged store when Content-Type is not exactly `application/octet-stream` or the write fails. Otherwise 201, with the body stored at the file path. The failure sets never change. |
| `Server.Route` | main.go:114-150 | Panics exactly when the path has no slash. GET on echo, user-agent and files and POST on files reach their handlers. GET on the root gives an empty text/plain 200. Every other endpoint or method gives exactly the 404 line. Only POST on files can change the store. |
| `Server.Serve` | main.go:64-69 | Panics on a nil request exactly when the first line has fewer than two spaces, and on a colonless header or slashless path exactly when the parser says so. The store changes only for a parsed POST. |
| `Exchanges.EchoRoute` | main.go:116-120 | GET on `/echo/s` answers `ok("text/plain", s)`. |
| `Exchanges.EchoExchange` | main.go:173-176 | A client's `GET /echo/s` gets a 200 with body exactly `s`, even when `s` holds slashes. |
| `Exchanges.RootExchange` | main.go:140-146 | `GET /` gets a 200 with an empty text/plain body. |
| `Exchanges.UserAgentRoute` | main.go:124-130 | GET on `/user-agent` answers `getUseragent`. |
| `Exchanges.UserAgentExchange` | main.go:178-185 | `GET /user-agent` echoes the last `User-Agent` field's value, or gets the 400 line without one. |
| `Exchanges.DownloadRoute` | main.go:131-134 | GET on `/files/name` reads the file `dir/name`. |
| `Exchanges.DownloadExchange` | main.go:187-206 | `GET /files/name` gets 404, 400, or a 200 with the contents, by the store's read outcome. |
| `Exchanges.UploadRoute` | main.go:135-136 | POST on `/files/name` writes the body to `dir/name` when Content-Type allows it. |
| `Exchanges.UploadExchange` | main.go:208-226 | `POST /files/name` with body lines of any LF-free bytes gets 201 and stores those lines concatenated, without their line endings, when Content-Type is exactly `application/octet-stream` and the path is writable; otherwise it gets 400 with the store unchanged. |
| `Exchanges.UploadThenDownload` | main.go:187-226 | After a 201 upload, downloading the same name gives back exactly the uploaded bytes. |
| `Exchanges.ShortRequestLine` | main.go:64-66 | A request line with fewer than two spaces ends in a panic, not a response. |
| `Exchanges.BareMethodCrashes` | main.go:85-87 | `GET` alone on the request line ends in a panic. |
| `Exchanges.SlashlessPath` | main.go:115 | A path without a slash ends in a panic in the router, whatever the header fields and body lines. |
| `Exchanges.UnknownRoute` | main.go:147-148 | The router answers any method on an endpoint outside echo, user-agent, files and the root with exactly the 404 line, and changes nothing. |
| `Exchanges.UnknownEndpoint` | main.go:147-148 | A framed request with any method, header fields and body lines on an unknown endpoint gets exactly the 404 line and changes nothing. |
| `Exchanges.BodyLineBreaksLost` | main.go:100-103 | A body sent as two CR LF terminated lines arrives as their concatenation, with the line break gone. |

## Left out

- `main` is left out: flag parsing, the directory check, `net.Listen`, the accept loop and `os.Exit` (main.go:28-54). They are process and network plumbing.
- The goroutine per connection and the unsynchronised concurrent file writes are left out. The model serves one request against one store.
- `serve` reads once into a zero-padded 1024-byte buffer (main.go:58-63). The model takes the buffer as an input sequence. It does not model the 1024-byte truncation or the trailing NUL padding, which would land in the last line or the body.
- A failing `conn.Read`, which logs and exits the process, is left out.
- `bufio.Scanner`'s 64 KiB token limit is left out. It cannot be reached within a 1024-byte read.
- Logging through `log.Println` is left out.
- Connection writes are left out. Each response is the byte sequence the handler would write.
- `strings.TrimSpace` is modelled over ASCII white space (tab, LF, VT, FF, CR, space) only. Unicode white space is not modelled.
- FileStore.Read: real `os.Open`/`io.ReadAll` error kinds are reduced to not-exist and "other". An `io.ReadAll` failure after a successful open counts as "other", which gives the same 400.
- FileStore.Write: a failed `fp.Write` after a successful `os.Create` leaves a truncated or partly written file in reality. The model treats any write failure as leaving the store unchanged.
- The store's keys are the exact path texts `dir + "/" + name`. Path normalisation (`..`, repeated slashes, symbolic links) is not modelled.
- Parser.ParseRequestText: proved only for a final body without a line feed that does not end in a carriage return. Any other body is split into lines and rebuilt by the parser; `Parser.ParseFramedLines` states what arrives for body lines.
- Exchanges.UploadThenDownload: proved only for bodies without a line feed that do not end in a carriage return. Other bodies are changed by the parser before they are stored, as `Exchanges.BodyLineBreaksLost` shows.
