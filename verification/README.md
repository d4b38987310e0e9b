# Request handler of the Rust HTTP workshop server

The server answers each connection by reading one request line, trimming it,
and matching it against the single line it serves, `GET / HTTP/1.1`. It then
writes back a response built by one `format!`. That response has:

- a first line made of `HTTP/1.1 ` followed by the chosen status;
- a `Content-Length` header giving the size of the chosen content;
- an empty line;
- the content.

This project models that pure kernel of `handle_request` as three functions
and their composition:

- `Text.Trim` is `str::trim`, over the full Unicode `White_Space` set that
  `char::is_whitespace` tests.
- `Handler.Classify` is the `match` on the trimmed line.
- `Handler.Serialize` is the `format!`.
- `Handler.Respond(line)` is `Serialize(Classify(Trim(line)))`.

`Respond` is a Dafny function, so it is total and deterministic by
construction, and no state passes from one call to the next.
`Handler.RespondCases` proves that every line gets exactly one of the two
responses.

The module `Wire` reads a response back the way a client does, and checks
what the handler writes against that reading:

- the first line ends at the first CRLF;
- the header block ends at the first empty line;
- `Content-Length: <digits>` is parsed;
- the status line is checked against its grammar in section 4 of RFC 9112.

Two facts about the code are modelled as written:

- Each status literal already starts with `HTTP/1.1`, and the format string
  adds `HTTP/1.1 ` again. Every response therefore starts
  `HTTP/1.1 HTTP/1.1 `, and its first line is not a well-formed status line,
  although each status literal on its own is one.
- The two contents are 82 and 89 characters long, so the header reads
  `Content-Length: 82` or `Content-Length: 89`.

Files:

- `text.dfy` (module `Text`) holds trimming, decimal numerals and substring
  search.
- `handler.dfy` (module `Handler`) holds the literals, `Classify`, `Serialize`
  and `Respond`.
- `wire.dfy` (module `Wire`) holds the client-side reading and the status-line
  grammar.

## Model

| member | source | states |
|---|---|---|
| Text.IsWhitespace | src/main.rs:28 | the Unicode White_Space set that `char::is_whitespace` tests, which `trim` strips: tab, line feed, carriage return and space are in it, and no visible ASCII character is |
| Text.TrimStart | src/main.rs:28 | the result is a suffix of the line, everything cut off is whitespace, and the result does not start with whitespace |
| Text.TrimEnd | src/main.rs:28 | the result is a prefix of the line, everything cut off is whitespace, and the result does not end with whitespace |
| Text.Trim | src/main.rs:28 | the trimmed line has no whitespace at either end and is no longer than the line |
| Text.TrimIsSlice | src/main.rs:28 | the trimmed line is a slice of the line, and everything cut off before and after it is whitespace |
| Text.TrimUnique | src/main.rs:28 | any whitespace around a string with non-whitespace ends is exactly what `trim` removes |
| Text.TrimTrimmedThenWhitespace | src/main.rs:28 | a string with non-whitespace ends followed by whitespace trims to that string |
| Text.TrimIgnoresSurroundingWhitespace | src/main.rs:24-28 | whitespace added before or after a line does not change its trim |
| Text.TrimFixedPoints | src/main.rs:28 | a line is its own trim iff neither end is whitespace; trimming is idempotent |
| Text.Decimal | src/main.rs:44 | the `{}` rendering of a length is a non-empty digit string with no leading zero unless it is 0 |
| Text.DecimalRoundTrip | src/main.rs:44 | reading back the rendered length gives the length |
| Text.DecimalCanonical | src/main.rs:44 | every digit string without a superfluous leading zero is the rendering of its value, so the rendering is one-to-one |
| Text.IndexOf | src/main.rs:42 | a reference reader of the text line 42 writes (the source itself never searches a string): the result is the first position where the pattern occurs, or none when it never occurs |
| Text.IndexOfAt | src/main.rs:42 | a reference reader of the text line 42 writes (the source itself never searches a string): a pattern whose first character is absent from the prefix before it is first found right after that prefix |
| Handler.Classify | src/main.rs:28-37 | the status is the 200 status iff the trimmed line is exactly `GET / HTTP/1.1`; the pair is one of the two literal pairs |
| Handler.Serialize | src/main.rs:41-46 | the response starts with `HTTP/1.1 ` and ends with exactly the content |
| Handler.ContentLengths | src/main.rs:31-44 | the contents are 82 and 89 characters long and render as `82` and `89` |
| Handler.SerializeBranches | src/main.rs:28-46 | the two replies serialize to the two exact responses, `Content-Length: 82` and `Content-Length: 89` included |
| Handler.Respond | src/main.rs:28-46 | the whole kernel of `handle_request`, `Serialize(Classify(Trim(line)))`: every line gets one of the two exact responses; which one, the length header and the first line are stated by `RespondCases`, `ContentLengthMatchesBody` and `SentStatusLineMalformed` |
| Handler.RespondCases | src/main.rs:28-46 | every line gets one of the two responses: the page iff its trim is the root request, the error iff it is not |
| Handler.StatusLiterals | src/main.rs:30-34 | both status literals start with `HTTP/1.1 ` and hold no carriage return |
| Handler.SerializeRepeatsVersion | src/main.rs:30-42 | a status starting with the version yields a response starting `HTTP/1.1 HTTP/1.1 ` |
| Handler.DuplicatedVersion | src/main.rs:28-46 | every response starts with `HTTP/1.1 HTTP/1.1 ` |
| Handler.RespondIgnoresSurroundingWhitespace | src/main.rs:24-28 | leading or trailing whitespace on the line never changes the response |
| Handler.RootRequestAnswered | src/main.rs:24-32 | the root request with any surrounding whitespace gets the page |
| Handler.RootRequestWithTerminators | src/main.rs:24-32 | the root request still ending in `\r\n` or `\n` gets the page |
| Handler.NotFoundWhenTrimmed | src/main.rs:33-36 | any other line, with any surrounding whitespace, gets the error |
| Handler.OtherLinesNotFound | src/main.rs:33-36 | the empty line, a doubled inner space, lower case, another method, path or version all get the error |
| Wire.FirstLine | src/main.rs:42 | a reference reader of the text line 42 writes, not a step of the source: the first line is followed by CRLF at the start of the response |
| Wire.ParseResponse | src/main.rs:42-45 | a reference reader of the text lines 42-45 write, not a step of the source: a response that parses has an empty line, and its body is everything after the first one |
| Wire.FirstHeaderEnd | src/main.rs:42 | about the reference reader of the text line 42 writes: a header block without carriage returns ends at the empty line the format writes |
| Wire.ParseLengthFieldOf | src/main.rs:42-44 | the `Content-Length` field reads back as the value of its digits |
| Wire.ParseHeaderBlock | src/main.rs:42-44 | the header block reads back as the status and the value of the length digits |
| Wire.ParseSerialize | src/main.rs:41-46 | reading back a serialized reply gives its status, a length equal to the content size, and the content as body |
| Wire.RepliesReadBack | src/main.rs:28-46 | each of the two replies the `match` picks reads back as its status, its content size and its content |
| Wire.ContentLengthMatchesBody | src/main.rs:42-45 | in every response, `Content-Length` equals the length of the text after the first empty line, and that text is the chosen content |
| Wire.StatusLiteralsAreStatusLines | src/main.rs:30-34 | each status literal on its own is a status line of RFC 9112 section 4 |
| Wire.FirstLineOfSerialize | src/main.rs:42 | the first line written is `HTTP/1.1 ` followed by the status |
| Wire.RepeatedVersionNotStatusLine | src/main.rs:42 | a line with `H` where the status code should start is not a status line |
| Wire.RepliesStatusLineMalformed | src/main.rs:30-42 | for each of the two replies, the first line written is the version plus the status literal, and it is not a well-formed status line |
| Wire.SentStatusLineMalformed | src/main.rs:30-42 | the first line actually sent is the version plus the status literal, and it is never a well-formed status line |

## Left out

- The accept loop in `main` (src/main.rs:11-18) is left out. It is socket I/O that calls the handler once per connection.
- Reading the line with `read_line` and writing with `write_all` (src/main.rs:20-24, 39-49) are left out. The model takes the line that was read and returns the response text.
- The panics from `unwrap` on bind, accept, read and write are left out. They are I/O failure paths, and the model assumes the line was read.
- The `println!` diagnostic (src/main.rs:26) is left out. It is console output only.
- Handler.Serialize: `Content-Length` is the number of characters of the content. `content.len()` counts UTF-8 bytes, which gives the same number for the two ASCII contents the handler passes. The model does not prove that they are ASCII.
- Strings are sequences of Unicode scalar values. The byte encoding of the response (`as_bytes`) is not modelled.
