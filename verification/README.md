# my-http-server: request ingestion and response serialisation in Dafny

This project models the protocol core of FlapyPan/my-http-server, a small
HTTP/1.1 server written in Rust. The core covers four parts:

- **Header framer** (`read_stream`, src/server.rs). It reads a TCP stream in
  chunks of at most `header_buffer` bytes until it sees `\r\n\r\n`. It tops
  up a window that a chunk boundary cut short with `read_exact`. It enforces
  `max_header_size`, counts short reads against `header_read_attempts`, and
  returns the header (as UTF-8) and the bytes read past it. As written, the
  top-up panics (see Findings). The model's framer uses the corrected top-up
  and keeps the code as written beside it, behind an `asWritten` flag.
- **Byte scanner and splitter** (`scan`, `split`, src/utils.rs).
- **Request parser** (src/request.rs). It handles the request line, the
  header lines, query and url-encoded parameters, and `multipart/form-data`
  bodies.
- **Response** (src/response.rs). It covers the status text, the default
  headers, the `BTreeMap` of headers, and serialisation with
  `Content-Length`.

Text is bytes throughout (`Bytes.bytes`). A Rust `&str` is a byte sequence
for which `Bytes.Utf8Valid` holds. The std functions the source calls are
modelled in `Bytes`: `trim`, `to_lowercase`, `lines`, `split_whitespace`,
`split`, `splitn(2, ..)` and `format!("{}", n)`. These models work on ASCII,
which covers every byte that the source's own separators and keywords use.

Errors are `Errors.Error`:

- `Fail(message)` carries the source's own messages, word for word.
- `Io` stands for a socket error.
- `InvalidUtf8` stands for a failed UTF-8 conversion.
- `Panic(reason)` marks an input on which the source panics. The server
  cannot check for these inputs in advance, so the model makes them values
  and does not put them in preconditions. The reason is a label for the
  kind of panic (an index out of bounds, a subtraction that underflows, a
  slice off a character boundary), not the message the Rust runtime prints.

There is one exception. `scan` with an empty pattern and non-empty data
indexes `pat[0]` and panics. `split` inherits that panic through `scan`.
`Utils.ScanSpec`, `Utils.Scan`, `Utils.SplitSpec` and `Utils.Split`
therefore require a non-empty pattern, or else empty data. Every caller in
the source passes a non-empty pattern (`"\r\n"`, or the multipart delimiter
`--` + boundary + `"\r\n"`), so no input of the server reaches that panic.

Where imperative code updates state, the model is imperative too:

- `Utils.Scan`, `Utils.Split`, `Request.ParseParameters`,
  `Request.ParseMultipartForm`, `Request.FindBoundary` and
  `Server.FindWindow` are methods with loops.
- `Response.HttpResponse` is a class whose methods update its fields.
- `Server.ByteSource` is a class standing for the stream.

Each method is proved equal to a specification function, and the
properties are proved about those functions.

## Model

| member | source | states |
|---|---|---|
| Bytes.Trim | src/request.rs:96 | the result is the slice of the input between its leading and its trailing run of whitespace: only whitespace is cut, and the result has none at either end |
| Bytes.ToLower | src/request.rs:96 | byte by byte, an ASCII capital becomes its lower-case letter and every other byte is kept |
| Bytes.SplitOnce | src/request.rs:94-95 | `splitn(2, c)`: the key has no `c`; there is a value exactly when `c` occurs, and key, `c`, value rebuild the input |
| Bytes.SplitOnJoin | src/request.rs:225 | the fragments of `split(c)` joined with `c` give back the input |
| Bytes.Lines | src/request.rs:70 | no lines exactly for empty text; no line holds a LF |
| Bytes.LinesCons | src/request.rs:70 | the text before the first LF is the first line, less one trailing CR, and the text after it gives the other lines |
| Bytes.LinesLast | src/request.rs:70 | non-empty text without a LF is a single line, kept as it is |
| Bytes.SplitWhitespace | src/request.rs:75 | every word is non-empty and holds no whitespace |
| Bytes.SplitWhitespaceNone | src/request.rs:75 | there are no words exactly when every byte is whitespace |
| Bytes.SplitWhitespaceCons | src/request.rs:75 | after a run of whitespace, a maximal run of non-whitespace is the first word and the rest of the text gives the other words |
| Bytes.DecimalRoundTrip | src/response.rs:84-91 | the decimal text of a length reads back as that length |
| Utils.ScanFrom | src/utils.rs:25-36 | a position returned is where the whole pattern occurs, past the current byte |
| Utils.ScanSpec | src/utils.rs:19-37 | a pattern longer than the data is not found; a position found is an occurrence of the pattern |
| Utils.Scan | src/utils.rs:19-37 | the loop returns `ScanSpec` |
| Utils.ScanFindsLeadingMatch | src/utils.rs:19-37 | data that starts with the pattern gives position 0 |
| Utils.ScanMissesRestartedMatch | src/utils.rs:26-34 | `scan("aab", "ab")` finds nothing: the byte that breaks a partial match is not retried as a new start |
| Utils.SplitSpec | src/utils.rs:2-16 | at least one fragment |
| Utils.Split | src/utils.rs:2-16 | the loop returns `SplitSpec` |
| Utils.SplitLastHasNoSeparator | src/utils.rs:7-14 | `scan` finds no separator in the last fragment |
| Utils.SplitJoin | src/utils.rs:2-16 | the fragments joined with the separator give back the data |
| Request.MethodFrom | src/request.rs:16-24 | a known method exactly for "OPTIONS", "GET", "POST", and its token is the input |
| Request.VersionFrom | src/request.rs:36-44 | a known version exactly for "HTTP/1.1", "HTTP/2.0", and its token is the input |
| Request.ParamEntry | src/request.rs:227-235 | the key is trimmed and lower case, the value trimmed; without `=` the key is the whole pair and the value is empty |
| Request.ParamEntryAtFirstEquals | src/request.rs:227-235 | with an `=`, the key is the pair up to its first `=`, trimmed and lower case, and the value what follows that `=`, trimmed |
| Request.ParseParameters | src/request.rs:221-239 | the loop returns `Ok(Parameters(raw))`; it never fails |
| Request.ParametersKeys | src/request.rs:225-236 | a key is present iff some `&`-separated pair gives it |
| Request.ParametersNormalised | src/request.rs:225-236 | keys are lower case and trimmed, values trimmed, neither holds `&` |
| Request.ParametersLastWins | src/request.rs:228-236 | the last pair with a given key gives its value |
| Request.ParametersOfEmpty | src/request.rs:225-236 | an empty query still inserts the empty key with the empty value |
| Request.ParseRequestLine | src/request.rs:75-90 | no word: method error; fewer than three words: version error; otherwise method from word 1, version from word 3, url before the first `?` of word 2 and query after it |
| Request.HeaderEntry | src/request.rs:94-97 | a line gives an entry iff it has a `:`; the name is the line up to its first `:`, trimmed and lower case, and the value what follows that `:`, trimmed |
| Request.HeadersFromLines | src/request.rs:92-98 | a name is a header iff some line gives it, and it is normalised |
| Request.ParseHeaders | src/request.rs:92-98 | the header-line loop returns `Headers` of the lines after the request line |
| Request.HeadersLastWins | src/request.rs:92-98 | the last line giving a name sets its value |
| Request.BoundaryOfValue | src/request.rs:153-154 | the boundary is the text after `boundary=` up to the next `=` |
| Request.LastBoundaryIsLast | src/request.rs:151-156 | no boundary iff no attribute starts with `boundary=`; otherwise the last such attribute gives it |
| Request.FindBoundary | src/request.rs:145-159 | the loop returns `LastBoundary` of the `;`-separated parts |
| Request.ParseBody | src/request.rs:144-174 | returns `BodySpec` |
| Request.BodyFallsBackToRaw | src/request.rs:167-172 | any other content type gives the single entry `__raw` holding the body |
| Request.BodyUrlEncoded | src/request.rs:160-163 | a url-encoded body is parsed as parameters when it is UTF-8, else the UTF-8 error |
| Request.BodyMultipart | src/request.rs:164-167 | multipart without a boundary fails with the boundary error; otherwise the body is decoded with the last boundary |
| Request.StripTerminal | src/request.rs:186-189 | a section that ends with the close delimiter loses it and two more bytes, and underflows when shorter; others are kept |
| Request.QuotedName | src/request.rs:196-197 | only panics are errors |
| Request.QuotedNameValue | src/request.rs:194-198 | an empty value underflows; otherwise the name is the value without its first and last bytes, lower-cased, when both cuts fall on character boundaries |
| Request.QuotedNameOmits | src/request.rs:196-197 | the name holds no non-letter byte absent from the attribute |
| Request.FieldNameValue | src/request.rs:191-200 | the field-name error iff no attribute starts with `name=`; otherwise the first such attribute gives the name |
| Request.FieldNameChars | src/request.rs:191-200 | a field name is lower case and holds no `;` or `=` |
| Request.DataLineIndexFirstEmpty | src/request.rs:203-209 | the index is one past the first empty line, or the line count when there is none |
| Request.PartValue | src/request.rs:186-215 | a part decodes iff its first line names a field and an empty line comes before its last line; the value is the line after the first empty line |
| Request.ParsePart | src/request.rs:185-215 | one pass of the loop returns `Part` |
| Request.FindDataLine | src/request.rs:203-209 | the `data_line_idx` loop returns `DataLineIndex` of the lines |
| Request.ParseMultipartForm | src/request.rs:177-218 | the loop returns `Multipart` |
| Request.PartLowerName | src/request.rs:191-200 | a decoded field name is lower case |
| Request.MultipartOk | src/request.rs:183-217 | the form decodes iff every section after the first does; otherwise the first bad section's error is returned |
| Request.MultipartLowerKeys | src/request.rs:177-218 | every field name in the form is lower case |
| Request.MultipartLastWins | src/request.rs:184-217 | every section decodes, and the last section with a name gives its value |
| Request.MultipartDropsFirstSection | src/request.rs:180-183 | a body with no delimiter gives an empty form |
| Request.RequestLineQuery | src/request.rs:79-86 | the query is what follows the first `?` of the second word |
| Request.RequestParts | src/request.rs:66-112 | empty header: request-line error; request-line and body errors propagate; on success every field comes from its part of the header and body |
| Request.ParseRequest | src/request.rs:66-112 | returns `RequestSpec` |
| Response.ToStr | src/response.rs:15-22 | the text starts with the three-digit status code and a space |
| Response.StatusOf | src/response.rs:15-22 | a status read from a text renders back to that text |
| Response.StatusRoundTrip | src/response.rs:15-22 | every status text reads back as its status |
| Response.Insert | src/response.rs:42-43 | `BTreeMap::insert`: the map gains or replaces exactly that key, and nothing else is added |
| Response.InsertSorted | src/response.rs:42-43 | insertion keeps the keys strictly ordered |
| Response.ToMapKeys | src/response.rs:29 | a key is in the map iff some entry has it |
| Response.OverlaySorted | src/response.rs:57-61 | inserting a sorted list of entries overrides the map with that list's map |
| Response.HeaderTextLines | src/response.rs:73-80 | the header text has one line per header entry, `key:value`, in the order of the entries |
| Response.HeaderTextReadsBack | src/response.rs:73-80 | each line splits at its first `:` back into its key and value |
| Response.SerializeFraming | src/response.rs:82-100 | output starts with the status line, the head ends with `\r\n\r\n`, the body follows verbatim |
| Response.ContentLengthReadsBack | src/response.rs:83-91 | the head ends with `Content-Length: n` and a blank line, and `n` reads back as the body length |
| Response.HttpResponse.Default | src/response.rs:34-46 | HTTP/1.1, 200, no body, headers `Content-Type: text/plain` and `server: FlapyPan/my-http-server`, in key order |
| Response.HttpResponse.New | src/response.rs:49-65 | the status and body given; the defaults overridden by the given headers, key by key |
| Response.HttpResponse.NotFound | src/response.rs:66-72 | 404, the body given, `Content-Type` replaced by `text/html` |
| Response.HttpResponse.Headers | src/response.rs:73-80 | the loop returns `HeaderText` of the headers |
| Response.HttpResponse.ToVec | src/response.rs:82-100 | returns `Serialize` of the response |
| Server.HttpSettings.New | src/server.rs:22-31 | `max_header_size`, `header_buffer` and `body_buffer` are 8192, `max_body_size` is 8 MiB, both attempt counts are three; the settings are valid for the framer |
| Server.ReadOutcome | src/server.rs:96 | a read hands over at most the buffer's size, taken from the front of the stream |
| Server.ByteSource.Read | src/server.rs:96 | returns `ReadOutcome` and drops the bytes handed over |
| Server.ReadExactOutcome | src/server.rs:109-110 | `read_exact` hands over exactly the bytes asked for, from the front of the stream, or fails |
| Server.ByteSource.ReadExact | src/server.rs:109-110 | returns `ReadExactOutcome` and drops those bytes |
| Server.WindowFrom | src/server.rs:103-128 | a split ends just after a CR LF CR LF in the chunk, and a top-up is at a CR with fewer than three bytes after it; every CR before either has three bytes after it that are not LF CR LF, so it is the first CR that stops the scan |
| Server.TerminatorAt | src/server.rs:121 | the three bytes checked after a CR are LF CR LF iff the four bytes there are `\r\n\r\n` |
| Server.WindowWhole | src/server.rs:103-133 | the scan runs to the chunk's end iff every CR has three bytes after it that are not LF CR LF |
| Server.FindWindow | src/server.rs:103-128 | the `'f` loop returns `WindowOf` the chunk |
| Server.ChunkStep | src/server.rs:105-133 | when the call goes on, the header grew by the chunk and at most three topped-up bytes (the corrected top-up; `asWritten` selects the code as written) |
| Server.ActOnChunk | src/server.rs:105-133 | acting on the scanned chunk returns `ChunkStep` (corrected top-up) and leaves the stream as it says |
| Server.RoundOf | src/server.rs:94-142 | going round again leaves more short reads counted or a longer header, within the limits, with either top-up |
| Server.ReadRound | src/server.rs:94-142 | one pass of the `'l` loop returns `RoundOf` (corrected top-up) |
| Server.ReadStream | src/server.rs:86-150 | returns `ReadStreamSpec` (corrected top-up) and leaves the stream as it says |
| Server.ChunkStepConserves | src/server.rs:105-133 | the header so far, the chunk and the stream are exactly the new header, the body and what the stream holds |
| Server.RoundConserves | src/server.rs:94-142 | one pass loses no byte and makes none up |
| Server.FrameConserves | src/server.rs:94-144 | the whole framing loses no byte and makes none up |
| Server.ChunkStepTerminated | src/server.rs:105-127 | a header ended on a chunk ends with `\r\n\r\n`, at most three bytes past the chunk; after a split the header is the old header plus the chunk up to the window and the body is exactly the rest of the chunk; after a top-up the header is the old header, the chunk and the bytes that completed the window, and the body is empty |
| Server.RoundTerminated | src/server.rs:96-127 | the same for one pass, about the chunk that pass read, with the header within `max_header_size` plus three |
| Server.LastPass | src/server.rs:94-142 | the pass at which the framing stops: its round stops with the framing's result |
| Server.FrameTerminated | src/server.rs:94-144 | the same for the whole framing, about the chunk its last pass read |
| Server.ReadStreamOk | src/server.rs:86-150 | with the corrected top-up, a returned header is UTF-8, ends with `\r\n\r\n` and is at most three bytes over the limit; header, body and the rest of the stream are the stream |
| Server.HeaderNeedsCarriageReturn | src/server.rs:103-127 | no request is read from a stream without a CR |
| Server.EndedStreamFails | src/server.rs:136-141 | a stream that has ended gives short reads until the read-failure error |
| Server.OversizeChunkRejected | src/server.rs:96-99 | a chunk that would take the header past `max_header_size` ends the call with the size error |
| Server.TopUpAsWritten | src/server.rs:109-119 | the code as written: appending moves the bytes out of `buf2` before it is indexed |
| Server.TopUpAsWrittenPanics | src/server.rs:112-115 | as written, every top-up panics with an index out of bounds |
| Server.ChunkStepAsWritten | src/server.rs:105-133 | as written, acting on a chunk gives the corrected step, or the index panic; it panics whenever `read_exact` tops up a window |
| Server.RoundAsWritten | src/server.rs:94-142 | one pass as written gives the corrected pass or stops with the index panic |
| Server.FrameAsWritten | src/server.rs:94-144 | the framing as written returns what the corrected framing returns, or the index panic |
| Server.ReadStreamAsWritten | src/server.rs:86-150 | `read_stream` as written returns what the corrected one returns, or the index panic |
| Server.TerminatorAcrossReads | src/server.rs:105-119 | for "\r\n\r\n" whose first read returns "\r\n", the scan tops up; `read_stream` as written panics; corrected, the whole stream is the header |

## Left out

- `Server::new`, `Server::run` and `handle_conn` (src/server.rs:41-84) are not modelled: they bind a socket, spawn async tasks, print and write the response. `handle_conn` never calls `HttpRequest::from` (the TODO at src/server.rs:73). It answers every request with a fixed `HTTP/1.1 400` reply: on success the reply echoes the header, and on failure it carries the error text. A body that is not UTF-8 (src/server.rs:72) ends the connection with no reply.
- src/handler.rs, src/router.rs and src/main.rs are not part of this model. They hold the routes, the handlers and process start-up.
- `HttpRequest::body_utf8` (src/request.rs:134-140) is not modelled. It relies on lossy UTF-8 decoding, which the model has no text type for. The getters at src/request.rs:113-133 return fields unchanged.
- `Request.FieldName`: the source decodes the first part line with `String::from_utf8_lossy` before searching it. The model searches the raw bytes. The two agree whenever that line is UTF-8.
- `Bytes.Trim`, `Bytes.ToLower`, `Bytes.Lines` and `Bytes.SplitWhitespace` treat only ASCII whitespace and ASCII letters. Unicode whitespace and non-ASCII case mapping are not modelled.
- `Server.ChunkStep`, `Server.RoundOf`, `Server.Frame`, `Server.ReadStreamSpec` and `Server.ReadStream` model the corrected top-up by default, not the code as written: as written, src/server.rs:112-115 panics on every top-up (see Findings). The code as written is the same functions with `asWritten` set; `Server.FrameAsWritten` and `Server.ReadStreamAsWritten` state how the two differ, and `Server.ReadStream`, the imperative loop, follows only the corrected one.
- `Utils.Scan`, `Utils.ScanSpec`, `Utils.Split` and `Utils.SplitSpec` require a non-empty pattern unless the data is empty. The index panic that `scan` hits at src/utils.rs:27 on an empty pattern is therefore not modelled; every call in the source passes a non-empty pattern.
- `Server.ReadStream` requires `header_buffer > 0`. With a zero-length buffer every read returns 0 bytes and, since 0 is not less than 0, the source loops forever; a non-terminating loop is not modelled.
- `Server.ReadStreamSpec`: a header that is not UTF-8 gives `Err(InvalidUtf8)`. The source wraps that error in a `Fail` holding the text of the `FromUtf8Error`, which the model does not reproduce.
- `Server.ByteSource.ReadExact`: `read_exact` fails only when the stream ends before enough bytes arrive; a socket error in the middle of it is not modelled. Once the read schedule is used up, every `read` hands over as much as the buffer holds.
- No body reader bounded by `Content-Length` exists: src/server.rs:143 leaves it as a TODO, and `max_body_size`, `body_buffer` and `body_read_attempts` are never read. The model follows the code, so the body is only the bytes read past the header in the same chunk.
- The boundary and the field name are taken from the second `=`-separated piece of the attribute (`split('=').nth(1)`), not from the text after its last `=`. The model follows the code, so a value holding `=` is cut there.
- Response headers are a `BTreeMap`. The model keeps them as a list of entries in strictly increasing key order (`Response.Sorted`), which is the order `headers()` iterates in. `Response.HttpResponse.New` accepts any list of entries; the override property is stated for the sorted lists a `BTreeMap` yields.
- src/error.rs and src/constant.rs are data only: `Errors` and `Constant` reproduce them. `Display` and the boxing of errors are not modelled.

## Findings

| source | as written | input that shows it | evidently intended | confidence | as-written member | corrected member |
|---|---|---|---|---|---|---|
| src/server.rs:112-115 | `header.append(&mut buf2)` moves every byte of `buf2` into the header and leaves `buf2` empty; `buf2[i + 1]` is then read from the empty vector, so every top-up panics | a stream "\r\n\r\n" whose first read returns "\r\n" (any chunk with a CR among its last three bytes and no earlier terminator) | test the window on the chunk plus the topped-up bytes, then add them to the header and stop if it is `\r\n\r\n` | high; not executed | Server.TerminatorAcrossReads | Server.ChunkStep |
