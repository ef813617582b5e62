# HTTP/1.1 header parsing and response writing, in Dafny

This project models two small pieces of the wire handling of a hand-written
HTTP/1.1 server (Go module `httpfromtcp`):

- **The header-line parser and the header map** (`internal/headers/headers.go`).
  `Headers.Parse` is called once per line on the input not yet consumed. It
  finds the first CRLF and then does one of four things:
  - asks for more data, returning `(0, false, nil)`;
  - reports the blank line that ends the block, returning `(2, true, nil)`;
  - rejects the line, with nothing consumed;
  - stores one field line, consuming it and its CRLF.

  `Set` stores a name lower-cased and joins the values of a repeated name with
  `", "`. `Get` looks a name up case-insensitively.
- **The response writer** (`internal/response/response.go`). It has:
  - the status-line table;
  - `WriteStatusLine`;
  - the default header map of `GetDefaultHeaders`;
  - `WriteHeaders`, which writes one `key: value\r\n` line per map entry, in
    map order, then a blank line, and stops at the first failed write.

The modules follow the two source files:

- `ByteStrings` (`bytes.dfy`) holds the Go library routines the parser uses,
  as functions over byte strings with lemmas that specify them:
  - `bytes.Index` for CRLF;
  - `bytes.SplitN(…, 2)`;
  - `TrimSpace`;
  - `strings.TrimRight` with a one-byte cutset;
  - `strings.ToLower`;
  - the header-name character class.
- `Decimal` (`decimal.dfy`) is `fmt.Sprintf("%d", n)`, proved against a reference
  reader of decimal text.
- `Headers` (`headers.dfy`) places the pure decision of one `Parse` call in the
  function `ParseLine` and the merge rule of `Set` in the function `Combine`.
  The map itself is the `fields` field of class `Headers`; its method `Parse`
  mirrors the Go code step by step and calls `Set`, and its `ensures` ties
  each outcome to `ParseLine` and `Combine`.
- `Response` (`response.dfy`) models the `io.Writer` as class `Sink`:
  - the bytes the peer has received so far;
  - how many more bytes it accepts before the connection breaks;
  - as ghost state, the argument of every `Write` call so far.

  A write past that point delivers what fits and fails. The writers state
  the room left after them, so a status line and a header block written
  one after the other on the same sink can be reasoned about together.
  `WriteHeaders` picks each next key nondeterministically, as a Go `range` over a map does. It
  returns, as a ghost value, the order it visited the keys in. What the sink
  receives is `HeaderBlock` for that order, or the prefix of it that fits.
  The `Write` calls it makes are those of that order up to and including the
  first one that fails (`Attempted`), so nothing is written after an error.
- `RoundTrip` (`roundtrip.dfy`) reads the block back. `ParseBlock` calls
  `ParseLine` repeatedly on the rest of the input, advancing by the bytes
  consumed and merging each field with `Combine`, as a request parser does.
  The round-trip lemma holds for a map whose keys are tokens that stay
  distinct after lower-casing and whose values have no CR, no LF and no white
  space at either end. For such a map, the block written in any order reads
  back as the map with lower-cased keys, and the whole block is consumed.

Three behaviours are modelled as the code has them, where the HTTP standard
says otherwise:

- `WriteStatusLine` writes the table entry with no CRLF after it
  (internal/response/response.go:24). Section 4 of RFC 9112 ends the status
  line with CRLF.
- The default `Connection` value is `"closed"`
  (internal/response/response.go:34). It is not the `close` option of
  section 7.6.1 of RFC 9110.
- The default header names are the mixed-case keys of a map literal, which
  bypasses `Set`. A `Get` finds none of them (`DefaultFieldsFacts`).

How `Parse` handles a few edge cases, as modelled:

- Only spaces count in the test for white space before the colon
  (`TrimRight(key, " ")`, headers.go:32). The later `TrimSpace` also strips
  tabs and leading white space, so `"Foo\t: x"` and `" Foo: x"` are accepted.
- A line with no colon makes `parts[1]` (headers.go:36) index past a
  one-element slice, which is a Go panic. The model reports it as the
  distinct error `MissingColon`, with nothing consumed and the map unchanged.
- The trailing-space test runs before that index. So `"Foo \r\n"` is an
  invalid header name and `"Foo\r\n"` is the panic case.
- A field line `Content-Type: text/html\r\n` is 25 bytes. `Parse` consumes
  those 25 bytes, and the blank line that follows takes 2 more, 27 in all.

## Model

| member | source | states |
|---|---|---|
| ByteStrings.IndexCrlf | internal/headers/headers.go:19-23 | `bytes.Index(data, "\r\n")`: `None` (Go's -1) exactly when there is no CRLF anywhere, else the position of the first CRLF |
| ByteStrings.IndexOfFirstCrlf | internal/headers/headers.go:19 | whenever a CRLF at `i` has none before it, `bytes.Index` returns `i` |
| ByteStrings.SplitN2 | internal/headers/headers.go:29-30 | `bytes.SplitN(line, ":", 2)`; what it returns is stated by `SplitN2Spec` and `SplitN2At` |
| ByteStrings.IndexByteSpec | internal/headers/headers.go:29 | the position of the first colon is found, or none exactly when the line has no colon |
| ByteStrings.SplitN2Spec | internal/headers/headers.go:29-30 | `SplitN(line, ":", 2)` has one part, the whole line, exactly when there is no colon; otherwise the line is part 0, a colon and part 1, with no colon in part 0 |
| ByteStrings.SplitN2At | internal/headers/headers.go:29 | a colon with none before it is where the line is cut; everything after it, later colons included, is part 1 |
| ByteStrings.TrimRightByteSpec | internal/headers/headers.go:32 | `TrimRight(key, " ")` is the longest prefix of `key` that does not end in a space, and only spaces were removed |
| ByteStrings.TrimRightByte | internal/headers/headers.go:32 | `strings.TrimRight(key, " ")`; stated by `TrimRightByteSpec` and `TrimRightSpaceTest` |
| ByteStrings.TrimSpaceSpec | internal/headers/headers.go:36-37 | `TrimSpace` keeps the slice of its input that starts at its first byte that is not white space; that slice neither starts nor ends with white space, and every byte cut before or after it is white space |
| ByteStrings.TrimLeftSpaceSpec | internal/headers/headers.go:36-37 | leading white space removed: the suffix left does not start with white space, and everything cut was white space |
| ByteStrings.TrimRightSpaceSpec | internal/headers/headers.go:36-37 | trailing white space removed: the prefix left does not end with white space, and everything cut was white space |
| ByteStrings.TrimSpace | internal/headers/headers.go:36-37 | `bytes.TrimSpace` and `strings.TrimSpace` over ASCII white space; stated by `TrimSpaceSpec` |
| ByteStrings.ToLower | internal/headers/headers.go:48 | `strings.ToLower` over ASCII: the same length, each byte lower-cased on its own; its other properties are stated by `ToLowerIsLowerCase` |
| ByteStrings.ToLowerIsLowerCase | internal/headers/headers.go:48 | lower-casing leaves no upper-case letter, changes nothing in a lower-case name, and is idempotent |
| ByteStrings.IsValidKey | internal/headers/headers.go:63-68 | `isValidKey`: non-empty, and every byte is one of `A-Za-z0-9!#$%&'*+-.^_`\|~`, which is what the anchored pattern matches; its consequences are stated by `ValidKeyHasNoDelimiters` and `ToLowerKeepsValidKey` |
| ByteStrings.ValidKeyHasNoDelimiters | internal/headers/headers.go:63-68 | a name `isValidKey` accepts has no colon and no white space, does not end in a space, and is unchanged by `TrimSpace` and `TrimRight` |
| ByteStrings.ToLowerKeepsValidKey | internal/headers/headers.go:63-68 | lower-casing a token gives a token |
| Decimal.FormatInt | internal/response/response.go:33 | `fmt.Sprintf("%d", n)` is non-empty, all digits but for a leading minus sign that appears exactly when `n < 0`, with no leading zero (a text starting with `0` is `"0"` itself, and no `0` follows a minus sign) and no white space at either end |
| Decimal.FormatIntValue | internal/response/response.go:33 | reading the decimal text back gives `n`: the content length is written without loss |
| Headers.ParseLine | internal/headers/headers.go:18-45 | one `Parse` decision: need more data exactly when the input has no CRLF; end of block exactly when it starts with CRLF |
| Headers.ParseLineField | internal/headers/headers.go:39-44 | a stored line consumes up to and including the first CRLF (at least 3 bytes), and its name is a token |
| Headers.CheckedNameIsToken | internal/headers/headers.go:37-41 | a name the line checks accept passes `isValidKey` |
| Headers.CheckFieldLine | internal/headers/headers.go:29-41 | the checks of one line in source order: the split, the trailing-space test, the missing colon, the trims and `isValidKey`; their outcomes are stated by `ParseLineWithColon`, `ParseLineWithoutColon` and `CheckedNameIsToken` |
| Headers.ParseLineWithColon | internal/headers/headers.go:29-44 | for a line with a colon: a space before the first colon gives an invalid header name; a trimmed name that is not a token gives an invalid parameter; otherwise the field is the trimmed name and the trimmed rest of the line, later colons included, and `idx + 2` bytes are consumed |
| Headers.ParseLineWithoutColon | internal/headers/headers.go:29-36 | for a line with no colon: a trailing space is still an invalid header name, and otherwise the outcome is `MissingColon` (the `parts[1]` panic) |
| Headers.ParseLineAtCrlf | internal/headers/headers.go:19-44 | the outcome is the verdict of the line checks on the text before the first CRLF, with `idx + 2` consumed on success |
| Headers.ParseLineIgnoresRest | internal/headers/headers.go:19-30 | once the input holds a CRLF, bytes appended after it do not change the outcome |
| Headers.TrimRightSpaceTest | internal/headers/headers.go:32 | `key != TrimRight(key, " ")` holds exactly when the key ends in a space |
| Headers.Combine | internal/headers/headers.go:47-55 | the keys become the old keys plus the lower-cased key; a present name gets `old + ", " + value`; an absent one gets `value`; every other entry is unchanged |
| Headers.Headers.constructor | internal/headers/headers.go:14-16 | `NewHeaders` gives an empty map |
| Headers.Headers.Set | internal/headers/headers.go:47-55 | the new map is `Combine` of the old map, the key and the value |
| Headers.Headers.Get | internal/headers/headers.go:57-61 | found exactly when the lower-cased key is in the map; the entry for it when found, and `""` otherwise |
| Headers.Headers.Parse | internal/headers/headers.go:18-45 | each outcome of `ParseLine` gives its result: `(0, false, nil)` without a CRLF; `(2, true, nil)` on the blank line; the error with 0 consumed on a bad line; and `idx + 2` consumed with the map extended by `Combine` on a field. The map is unchanged in every case but the last |
| Headers.CombineKeepsLowerCaseKeys | internal/headers/headers.go:48 | a map whose names are all lower case stays so after `Set` |
| Headers.LookupAfterCombine | internal/headers/headers.go:47-61 | after `Set(key, v)`, a `Get` under any spelling that lower-cases to the same name finds the new value, joined to the old one when the name was present |
| Headers.CombineAll | internal/headers/headers.go:47-55 | `Set` called once per arriving field line, `keys[i]` with `values[i]`, in arrival order; stated by `CombineAllJoins` |
| Headers.CombineAllJoins | internal/headers/headers.go:47-55 | a name that arrives once per value, under spellings that all lower-case to the same name and starting absent, ends up holding all the values joined in arrival order by `", "`; every other name keeps its entry |
| Response.StatusLineText | internal/response/response.go:17-24 | the string written for a code is `""` exactly when the code is not in the table; a present entry is `HTTP/1.1`, a space, the decimal code and a space, then a reason phrase; no entry holds a CRLF |
| Response.StatusLineShape | internal/response/response.go:17-21 | each table entry has the status-line layout for its own code |
| Response.Sink.Write | internal/response/response.go:42-48 | `Write` delivers all of `p` and no error when it fits in the peer's room, and otherwise the part that fits and an error; `n` counts the bytes delivered |
| Response.WriteStatusLine | internal/response/response.go:23-29 | one write of the table entry (`""` for an unknown code, so zero bytes), with no CRLF; the error is returned exactly when the write fails; the peer's remaining room shrinks by exactly the bytes delivered; the only `Write` call is the one with the entry |
| Response.DefaultFieldsFacts | internal/response/response.go:31-37 | the default map has exactly three keys: `Content-Length` holds text that reads back as the length, `Connection` = `"closed"`, `Content-Type` = `"text/plain"`; no key is lower case, so `Get` finds none of them |
| Response.DefaultFields | internal/response/response.go:32-36 | the map literal of `GetDefaultHeaders`; stated by `DefaultFieldsFacts` |
| Response.GetDefaultHeaders | internal/response/response.go:31-37 | a fresh header map holding exactly the default map literal |
| Response.FieldLine | internal/response/response.go:41 | `fmt.Sprintf("%s: %s\r\n", key, value)`; read back by `ParseWrittenLine` |
| Response.HeaderBlock | internal/response/response.go:40-49 | the bytes `WriteHeaders` sends for one visiting order: the lines, then `\r\n`; stated by `HeaderBlockLength`, `FlattenWrites` and `RoundTrip` |
| Response.Writes | internal/response/response.go:40-48 | the `Write` arguments of `WriteHeaders` for one visiting order when no write fails: one line per key, then `\r\n`; stated by `FlattenWrites` |
| Response.Attempted | internal/response/response.go:42-48 | the writes made by a caller that returns at its first error: every write up to and including the first that does not fit; stated by `AttemptedSpec` |
| Response.AttemptedSpec | internal/response/response.go:42-48 | the writes made are a prefix of those planned; all of them when their bytes fit in the room; otherwise they end with the first write that overflows, every earlier one having fit |
| Response.FlattenWrites | internal/response/response.go:40-48 | the planned writes of `WriteHeaders`, sent one after another, are exactly the header block |
| Response.WriteHeaders | internal/response/response.go:39-50 | the ghost order visits every key of the map exactly once; the sink receives one `key: value\r\n` line per entry in that order and then `\r\n`, or, when a write fails, exactly the prefix of that block that fit, and the error is returned; the room shrinks by exactly the bytes delivered; the `Write` calls made are the lines and the blank line for that order up to and including the first that fails, so nothing is written after a failure |
| Response.FailedAfter | internal/response/response.go:42-44 | on the first failed line write, the visited keys, the failing key and the remaining keys form an order of the whole map, and what was delivered is that order's block cut where the room ran out |
| Response.FailedCalls | internal/response/response.go:42-44 | when the line for a key is the first write that fails, the calls made are the lines of the keys before it and that line, with no blank line after |
| Response.DoneCalls | internal/response/response.go:46-48 | once every line has fit, the blank line is written whether or not it fits, so all planned writes are made |
| Response.CutShort | internal/response/response.go:40-44 | a failure inside the line of the n-th key leaves the first lines whole and a prefix of that line, which together are a prefix of the whole block |
| Response.OrderingCompleted | internal/response/response.go:40 | keys visited, the current key and any order of the rest together list every key exactly once |
| Response.VisitStep | internal/response/response.go:40 | moving one key from the unvisited set to the visited list keeps every key in exactly one of them |
| Response.HeaderBlockLength | internal/response/response.go:40-49 | in any order, the block is Σ(\|key\| + \|value\| + 4) + 2 bytes long, and an empty map gives exactly `"\r\n"` |
| RoundTrip.ParseBlock | internal/headers/headers.go:18-45 | repeated `Parse` calls, each on what the last left, never consume more than the input |
| RoundTrip.ParseWrittenLine | internal/response/response.go:41 | `Parse` of a written line `key: value\r\n` (any input after it) stores `key` with `value` and consumes \|key\| + \|value\| + 4 bytes |
| RoundTrip.BlockStep | internal/response/response.go:40-41 | reading a block back stores its first line and continues just past it |
| RoundTrip.LinesComplete | internal/response/response.go:40-48 | parsing a written block reaches the blank line and consumes exactly the whole block |
| RoundTrip.LinesRoundTrip | internal/response/response.go:40-48 | the lines of distinct keys, parsed on top of a map with none of their lower-cased names, add each lower-cased name with its value, keep the existing entries and add nothing else |
| RoundTrip.RoundTrip | internal/response/response.go:39-50 | for token keys that stay distinct when lower-cased and for clean values, in any visiting order: the parse of the block completes and consumes all Σ(\|key\| + \|value\| + 4) + 2 bytes; the result has as many entries as the map, and each lower-cased key holds its value, with nothing else |
| RoundTrip.DefaultFieldsWireSafe | internal/response/response.go:31-37 | the default map meets the round-trip conditions |
| RoundTrip.DefaultNames | internal/response/response.go:32-35 | the three default names are tokens that lower-case to three distinct names |
| RoundTrip.DefaultHeadersRoundTrip | internal/response/response.go:31-50 | whatever the order, the default headers read back as exactly `content-length`, `connection` and `content-type` with their values, and the whole block is consumed |

## Left out

- `internal/server/server.go`: the TCP listener, the per-connection goroutines and `atomic.Bool`. These are sockets and concurrency.
- `internal/server/handler.go`: a single function-type declaration, so there is nothing to model.
- `cmd/httpserver/main.go`: routing, the proxy, hashing and file I/O.
- `cmd/tcplistener/main.go`: an I/O demonstration loop.
- The request parser and the chunked response writer: `internal/request` is not part of this model. `RoundTrip.ParseBlock` stands in for the caller loop that feeds `Parse` line by line.
- `isValidKey` compiles a regular expression. The model states what the anchored pattern `^[…]+$` accepts, a non-empty string of those characters, and not the regular-expression engine.
- `TrimSpace` and `ToLower` are ASCII only. Unicode white space (U+0085, U+00A0) and non-ASCII case mapping are not modelled. A string is a sequence of bytes, with no UTF-8 decoding.
- The error texts of `fmt.Errorf` are modelled as values of `ParseError`:
  - `InvalidHeaderName` carries the name;
  - `InvalidParameter`;
  - `MissingColon`, which stands for the Go panic.
- Go map iteration order is not modelled as a particular order. `WriteHeaders` is specified for whichever order it visits, and every property holds for every order.
- `Response.Sink.Write`: the model is a writer that accepts a fixed number of bytes and then fails after a short write. Other `io.Writer` failures, such as an error with nothing written or an error before the limit, are not modelled.
- Go's fixed-width `int` (a `Content-Length` beyond 64 bits, or an `n` that overflows) is not modelled; integers are unbounded.
