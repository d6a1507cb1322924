# veeder-pot: the connection loop and the reply builder, in Dafny

veeder-pot is a honeypot. It pretends to be a Veeder-Root automatic tank
gauge on TCP. It logs every command a client sends and answers the
in-tank inventory request with a plausible report. This project models the
two parts of it that handle bytes:

- **`Connection`** (`connection.dfy`) models the task spawned for each
  accepted connection in `src/main.rs`. The task reads a one-byte control
  field and a six-byte code field. It drops the connection on a short read,
  on a control byte other than SOH, or on a code field that is not UTF-8.
  Otherwise it writes one `[time, source_ip, code]` row to the shared CSV
  log, writes the server's reply to the socket, and repeats.
  - The socket input is a byte sequence that `Serve` reads through a cursor,
    using the two fixed buffers of the source (`control`, `rawCode`).
  - What the task does comes out as a trace of events: each log attempt and
    each write.
  - `Frames` specifies how a stream splits into messages. `Session`
    specifies the trace.
- **`Responses`** (`server.dfy`) models `resp` and `build_header` from
  `src/server.rs`.
  - The only code with a real answer is `I20100`. It gets the header block,
    CR LF, the inventory table, and CR CR ETX.
  - Every other code gets the ten-byte `<SOH>9999FF1B<ETX>` followed by
    CR CR ETX. This includes the five report codes the dispatch names.
  - `Resp` is the method, with the same branch structure as the source.
    `Response` is its specification.
- **`Utf8`** (`utf8.dfy`) models what `str::from_utf8` accepts and what
  `into_bytes` produces. It follows the well-formedness table of section 4
  of RFC 3629. `Utf8Exact` proves the two are inverse.

The server is never mutated after construction: `resp` and
`build_header` take `&self`. So it is a datatype value, and "a reply
leaves the header lines and the tanks unchanged" holds by construction.

The code differs from the gauge protocol the project imitates. The model
follows the code:

- A command is exactly SOH plus six bytes. No tank selector and no payload
  are read, so `I2010X` is an unknown code and is rejected
  (`ExampleCodeTakenWhole`).
- A rejection is `<SOH>9999FF1B<ETX>` followed by CR CR ETX, 13 bytes in
  all. It is not the bare ten bytes.
- The inventory reply ends with CR CR ETX, not with CR LF CR LF ETX.
- The header timestamp is UTC.
- The control byte is checked only after the six code bytes have been read.
  So a stream shorter than seven bytes ends as a short read, whatever its
  first byte is (`ExampleControlCheckedLate`).

## Model

| member | source | states |
|---|---|---|
| Utf8.DecodeEncodeChar | src/main.rs:71-77 | decoding the UTF-8 encoding of any character yields it and consumes exactly its bytes, whatever follows |
| Utf8.FromToUtf8 | src/main.rs:71-77 | `from_utf8` accepts the bytes of every string and gives the string back |
| Utf8.ToFromUtf8 | src/main.rs:71-77 | every byte sequence `from_utf8` accepts is exactly the encoding of the string it yields |
| Utf8.Utf8Exact | src/main.rs:71-77 | `from_utf8(b)` yields `s` if and only if `b` is the UTF-8 encoding of `s` |
| Responses.UnrecognizedSpelling | src/server.rs:19-24 | the rejection constant is SOH, ASCII "9999FF1B", ETX: ten bytes |
| Responses.Resp | src/server.rs:70-97 | the reply equals the specification `Response` (the header, CR LF, the table and the trailer for I20100; otherwise the rejection and the trailer), and every reply ends with CR CR ETX |
| Responses.HeaderLayout | src/server.rs:99-119 | the header is eight CRLF-terminated lines: SOH, the code, the timestamp, an empty line, the four header lines |
| Responses.HeaderFraming | src/server.rs:99-119 | the header starts with SOH CR LF, the code's bytes, CR LF, and ends with CR LF |
| Responses.InventoryLayout | src/server.rs:70-77 | the I20100 reply is the eight header lines, CR LF, the inventory table, CR CR ETX |
| Responses.UnknownCodeResponse | src/server.rs:78-96 | every code other than I20100 gets the same 13 bytes, independent of the header lines, the tanks and the clock |
| Responses.ReservedCodesRejected | src/server.rs:79-89 | the delivery, leak-detect, shift, status and product-label codes answer exactly as an unknown code does |
| Responses.RepliesDistinguishable | src/server.rs:70-96 | the inventory reply has CR as its second byte and the rejection has '9', so the two never coincide |
| Responses.InventoryContainsTable | src/server.rs:70-96 | the inventory reply holds the table unchanged just before the trailer, and its length is header + 2 + table + 3 |
| Connection.Log | src/main.rs:18-26 | a log attempt records `[time, source_ip, code]` and is a success exactly when the row write succeeds |
| Connection.ReadExact | src/main.rs:54-64 | `read_exact` succeeds exactly when the buffer's length in bytes remain; then the buffer holds them and the cursor moves past them; otherwise the rest of the stream is consumed |
| Connection.ReadMessage | src/main.rs:54-77 | the two reads and two checks give the outcome `FirstMessage` of the unread input, and an accepted message consumes exactly seven bytes |
| Connection.Serve | src/main.rs:49-84 | the task's trace is `Session` of the codes `Frames` finds in the input, and it ends for the reason `Frames` gives |
| Connection.AcceptedMessage | src/main.rs:66-77 | an accepted message is at least seven bytes, starts with SOH, its code field decodes to the code, and framing continues after it |
| Connection.FramesAt | src/main.rs:53-77 | accepted message `i` is the seven bytes at offset 7i: SOH, then the encoding of code `i` |
| Connection.FramesStop | src/main.rs:53-77 | reading stops at the first message that is not accepted, and the reason is short read, not SOH, or not UTF-8 exactly when that message is so |
| Connection.RequestAccepted | src/main.rs:53-77 | SOH followed by a six-byte UTF-8 code is accepted as that code, whatever follows |
| Connection.FramesOfRequests | src/main.rs:53-83 | a client's sequence of well-formed requests is framed back into exactly its codes, in order |
| Connection.FramesAdvance | src/main.rs:53-83 | after an accepted message, the framing of the stream continues seven bytes on |
| Connection.SessionAt | src/main.rs:79-82 | each accepted message gives two events in order: its log attempt, then the write of its reply |
| Connection.WrittenSession | src/main.rs:79-82 | the bytes written are the replies to the accepted codes, one after another, and nothing else |
| Connection.LogOutcomeIrrelevant | src/main.rs:18-26 | a failed log write changes nothing on the wire |
| Connection.LogFileSession | src/main.rs:79-80 | when every `write_record` succeeds the log writer has accepted one row per accepted message, in order, with its time, the peer's address and its code |
| Connection.RepliesEndWithTrailer | src/server.rs:92-94 | a connection that answered anything has last written CR CR ETX, after at least 13 bytes |
| Connection.ExampleRejectionKeepsConnection | src/main.rs:53-83 | a rejected code does not end the connection; a following lone SOH is a short read |
| Connection.ExampleNotSoh | src/main.rs:66-69 | seven bytes not starting with SOH end the connection with nothing accepted |
| Connection.ExampleControlCheckedLate | src/main.rs:54-69 | fewer than seven bytes are a short read whatever the control byte is |
| Connection.ExampleInvalidUtf8 | src/main.rs:71-77 | a code field containing 0xFF ends the connection |
| Connection.ExampleCodeTakenWhole | src/main.rs:60-82 | "I2010X" is taken as one code and rejected, not read as I20100 plus a selector |

## Left out

- `payload_i20100` and `Tank` (`tc_volume`, `ullage`, the tank table layout) are not modelled. They format `f32` arithmetic. The model takes the table as opaque bytes, the `inventory` field of `Server`.
- The clock is a parameter. The `chrono` formatting (`%b %e, %Y %l:%M %p`, upper-cased) and the RFC 3339 log time are strings supplied by `Env`.
- `Server::new` and its default station lines are not modelled. Neither is `src/config.rs` (loading `config.toml`, the defaults, the `conf.server` argument). The model takes any header lines.
- Accepting connections, `tokio::spawn`, and the `Arc`/`Mutex` sharing of the log writer are not modelled. Rows from different connections may interleave in the log file; the model covers one connection.
- The CSV header row written at start-up and CSV quoting are not modelled. A log row is modelled as the record of its three fields.
- Connection.Log: the outcome of `flush` is discarded by the source, so a log attempt has one outcome, whether the row write succeeded; a failed flush can leave a `Logged` row out of the file, and `LogFile` lists the rows the writer accepted, not the rows on disk. The `eprintln!` messages on stderr are not modelled.
- Connection.Serve: the result of `write_all` is ignored by the source. The trace records the bytes handed to it, and the model does not capture a peer that stops reading.
- Connection.ReadExact: a socket error and end of stream are both modelled as the end of the input. The `Ok(0)` arms cannot occur with non-empty buffers, so they have no counterpart.
- The peer's address is the string `Env.sourceIp`.
