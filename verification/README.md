# weldr relay core in Dafny

This project models the two pieces of the weldr TCP relay that carry real logic.

- **The zero-copy HTTP request decoder/encoder** (`src/http/request.rs`). It is modelled in module `HttpRequest`, on top of `ByteSlice`. `Decode(buf, grammar)` takes the input buffer and the httparse answer for that buffer. That answer is `Partial(headerLines)`, `Invalid(error, headerLines)` or `Complete(amt, method, path, version, headers)`, with every token given as an offset/length into `buf`. `Decode` then does what the source does:
  - it gives the parser 16 header slots, so a head that reaches a 17th header line is the parse error `TooManyHeaders`, whether the unbounded parse would be complete, partial or another error;
  - it returns `Incomplete` and leaves the buffer alone on a partial parse;
  - it checks that every token starts inside the buffer (the `assert!` in `toslice`);
  - it turns tokens into `(start, start + len)` slices;
  - it maps version token 0/1 to `Http10`/`Http11`;
  - it drains the first `amt` bytes into the request's own buffer.

  `Encode` appends that buffer unchanged. `AppendData` grows it. `MethodBytes`, `PathBytes`, `HeaderName` and `HeaderValue` are the `method()`/`path()`/`slice` views (src/http/request.rs:18-24, 49-51), as raw bytes. What they return is stated by `AppendData` and `DecodedSlicesDenoteTokens`.
- **The connection pipe** (`src/main.rs`, `ConnectionState` and `Pipe::poll`). It is modelled in module `Relay` as a pure `Step(pipe, wire, event)`. Each event is the outcome of the I/O operation the current state performs. `Read(data)` is one underlying read inside `read_to_end`; empty data is a 0-byte read. `WriteDone` is a completed `write_all`. `WouldBlock` and `Error` are the other outcomes. Bytes that `read_to_end` appended before it would block are the `Read` events before the `WouldBlock`, so they stay in the buffer. `Poll` runs steps until an operation would block or fails. `Wire` records what the two peers have received so far. It is not part of the source's struct; it is only there so that the relay's effect can be stated.

A version token other than 0 or 1 reaches `unimplemented!()` in the code, which is a panic. A token that starts past the end of the buffer fails the `assert!` in `toslice` (src/http/request.rs:78), also a panic. `Decode` turns both into error outcomes (`UnsupportedVersion`, `TokenOutOfBuffer`), so both panicking branches appear in the model rather than being excluded by a precondition. `Anchored` and `AllAnchored` are the condition that `assert!` checks. `ToSlice` is `toslice`.

The state machine has no terminal state, and `poll` never completes. `Wire.ends` records which streams have ended. `Fits` and `Admissible` allow only the outcomes real sockets give:
- once a stream has ended, every read of it returns 0 bytes at once;
- `write_all` of an empty buffer makes no system call and completes;
- writing bytes to the half-closed backend fails instead of completing or blocking.

So a pipe whose client sent a request ends after one exchange. The next cycle reads 0 bytes from the client, and writing the request again to the backend fails, so the pipe is dropped (`NoSecondExchange`). A client that sends nothing is different: the write of the empty send buffer completes, and the pipe goes round again to a second shutdown of the backend (src/main.rs:74). If that shutdown succeeds, as the model assumes (see `Relay.Step` under "## Left out"), the response is written to the client a second time. If it fails, `expect` panics (see "## Findings").

## Model

| member | source | states |
|---|---|---|
| `ByteSlice.View` | src/http/request.rs:49-51 | a slice denotes exactly the bytes `start..end` of the buffer, `end - start` of them |
| `ByteSlice.ViewSurvivesAppend` | src/http/request.rs:30-32 | appending to a buffer keeps every slice valid and denoting the same bytes |
| `ByteSlice.ViewOfPrefix` | src/http/request.rs:103 | keeping only a prefix that covers a slice (the drained head) leaves what it denotes unchanged |
| `HttpRequest.WithCapacity` | src/http/request.rs:63-69 | with 16 header slots, a head that reaches more header lines than slots is the parse error `TooManyHeaders`, stopping on the first line beyond the slots, whether the unbounded answer is complete, partial or another parse error; answers within the slots pass through |
| `HttpRequest.CapacityIsThreshold` | src/http/request.rs:63-69 | the slot limit depends only on the header count: applying it twice is applying it once, an answer that fits fits any larger capacity, and the answer changes exactly when the count exceeds the slots and the answer is not already the stop on the first line beyond them |
| `HttpRequest.VersionOf` | src/http/request.rs:92-96 | a version is known exactly for tokens 0 and 1 |
| `HttpRequest.VersionRoundTrip` | src/http/request.rs:92-96 | token 0 maps to HTTP/1.0 and 1 to HTTP/1.1, and no other token maps to a version |
| `HttpRequest.ToSlice` | src/http/request.rs:76-80 | a token becomes the offset pair that starts at its offset and spans its length |
| `HttpRequest.HeaderSlices` | src/http/request.rs:85-88 | one (name, value) slice pair per parsed header, in the parser's order, with no merging |
| `HttpRequest.Decode` | src/http/request.rs:60-105 | partial parse within 16 header lines: `Incomplete` with the buffer untouched; a partial, complete or malformed head with more than 16 header lines: `TooManyHeaders`; any other parse error: that error with the buffer untouched; a token starting outside the buffer: `TokenOutOfBuffer`; otherwise a version token other than 0/1: `UnsupportedVersion`; every failure leaves the buffer untouched; a request comes out exactly when the parse is complete, fits the slots, every token starts in the buffer and the version is 0/1; then the request's data is the first `amt` bytes and the buffer keeps exactly the rest |
| `HttpRequest.DecodeHead` | src/http/request.rs:76-105 | for a complete head: `TokenOutOfBuffer` if a token starts outside the buffer, else `UnsupportedVersion` for a version token other than 0/1, both with the buffer untouched; otherwise a request whose data is the first `amt` bytes, with the buffer keeping exactly the rest |
| `HttpRequest.RetryAfterIncomplete` | src/http/request.rs:71-74 | after an incomplete parse the caller keeps the whole buffer, so appending bytes and decoding again is decoding the extended input |
| `HttpRequest.DecodedSlicesDenoteTokens` | src/http/request.rs:76-88 | every slice of a decoded request is its token's offset pair: it starts at the token's offset, before the end of the input, has its token's length and denotes the token's bytes; the headers are the parser's headers one-to-one and in order |
| `HttpRequest.TerminatedParseIsAnchored` | src/http/request.rs:76-80 | for a complete head whose tokens all start before `amt`, the start-inside-buffer assertion never fails and decoding succeeds when the slots and version allow |
| `HttpRequest.Encode` | src/http/request.rs:107-109 | the output is the previous output followed by the request's buffer, byte for byte |
| `HttpRequest.EncodeDecodeRoundTrip` | src/http/request.rs:103-109 | encoding a decoded request reproduces the consumed prefix of the input; encoded bytes followed by the remaining buffer give back the whole input |
| `HttpRequest.AppendData` | src/http/request.rs:30-32 | appending only extends the buffer: all slices stay valid, and method, path and every header name and value read the same bytes as before |
| `Relay.Next` | src/main.rs:50-103 | the successor of a state in the cycle is always a different state |
| `Relay.NewPipe` | src/main.rs:136-144 | a new pipe starts in `ClientReading` with empty send and receive buffers |
| `Relay.Transition` | src/main.rs:50-103 | a state either stays or moves to its cyclic successor; it moves exactly on a 0-byte read or a completed write |
| `Relay.NextEnds` | src/main.rs:58-77 | a 0-byte read marks the stream it reads as ended, a completed backend write marks its write half shut, and nothing else ends a stream; ended streams stay ended |
| `Relay.NoTerminalState` | src/main.rs:50-103 | every state has an I/O outcome that moves it on, so no state is terminal |
| `Relay.CycleHasLengthFour` | src/main.rs:50-103 | ClientReading, ServerWriting, ServerReading, ClientWriting form one cycle of length four |
| `Relay.Step` | src/main.rs:53-101 | would-block suspends and changes nothing; any other error drops the pipe; a read appends to its direction's buffer only; a completed write delivers the whole buffer (to the backend, then half-closes it; or to the client); buffers are never shortened; it accepts only outcomes real sockets give (0 bytes from an ended stream, completion for an empty write, failure for writing bytes to the half-closed backend) |
| `Relay.Poll` | src/main.rs:47-104 | a poll never finishes; it runs until the first would-block (suspending, with the remaining events) or the first error (failing); the buffers and what the peers received only grow |
| `Relay.PollAfterRead` | src/main.rs:54-66 | a nonzero read leaves the state reading and only extends that state's buffer |
| `Relay.ReadsAccumulate` | src/main.rs:54-66 | a run of nonzero reads leaves the buffer extended by their concatenation, in order, and the state unchanged |
| `Relay.PollAfterEof` | src/main.rs:61-65 | a 0-byte read moves a reading state to its successor, marks that stream ended and changes no buffer |
| `Relay.PollAfterWrite` | src/main.rs:69-77 | a completed write in `ServerWriting` delivers the whole send buffer to the backend, half-closes it and moves to `ServerReading`; in `ClientWriting` it delivers the whole receive buffer to the client and moves to `ClientReading` |
| `Relay.RequestLeg` | src/main.rs:53-77 | from a new pipe, the client's chunks followed by end of stream and a completed write put exactly those bytes in the send buffer and on the backend's wire, half-closed, in `ServerReading` |
| `Relay.ResponseLeg` | src/main.rs:79-101 | the backend's chunks followed by end of stream and a completed write put exactly those bytes in the receive buffer and on the client's wire, back in `ClientReading` |
| `Relay.OneExchange` | src/main.rs:50-103 | from a new pipe, one full cycle delivers exactly the client's bytes to the backend and half-closes it, delivers exactly the backend's bytes to the client, and returns to `ClientReading` with both peers' streams ended and the backend half-closed |
| `Relay.NoSecondExchange` | src/main.rs:53-77 | once the client's stream has ended, the backend is half-closed and the send buffer holds a request, the relay delivers nothing more and keeps its buffers; the next client read gives 0 bytes and writing the request to the backend again fails, so the pipe is dropped |
| `Relay.PollMoves` | src/main.rs:47-104 | a step that moves the pipe on is followed by the poll from the pipe it leaves, for `Poll` always and for `PollOnce` unless the step wrote to the client |
| `Relay.EmptyRequestSecondRound` | src/main.rs:53-101 | with every stream ended and an empty send buffer, a further cycle completes: the empty write succeeds and the response is written to the client again |
| `Relay.EmptyRequestResendsResponse` | src/main.rs:53-101 | a client that sends nothing and closes, answered by a response `R`, receives `R` twice after two cycles, where `PollOnce` finishes with `R` delivered once |
| `Relay.PollOnce` | src/main.rs:47-104 | the corrected loop, which finishes once the response is written; until it finishes it agrees with `Poll`; from a fresh pipe the backend then holds exactly the send buffer and the client exactly the receive buffer, and a dropped pipe has delivered nothing to the client |
| `Relay.SuspendKeepsProgress` | src/main.rs:58 | a suspended poll holds the pipe exactly as the events before the would-block left it |
| `Relay.ResumeIsSeamless` | src/main.rs:47-104 | for a would-block on a read, or on a write before any of its bytes were sent, suspending and resuming with the remaining events ends where one poll without the would-block ends |

## Left out

- `main()` (src/main.rs:107-161) is not modelled: argument parsing, logger set-up, the reactor, binding the listener, dialling the backend and spawning tasks are I/O glue.
- `pool::Pool`, and the `Headers` bodies behind `content_length` and `transfer_encoding_chunked`, are not part of this model. They lie outside the modelled core; `Request` only delegates to them.
- The httparse grammar itself is an input to `Decode`. The model assumes only what the library promises: a complete head fits in the buffer and its tokens are sub-ranges of the first `amt` bytes.
- `HttpRequest.Decode`: a token starting outside the buffer, and an unsupported version token, are error results. In the source they are panics: the `assert!` in `toslice` and `unimplemented!()`.
- The pointer arithmetic of `toslice` is not modelled. Tokens carry their offset directly.
- UTF-8 validation and `unwrap` in `method()`/`path()` are not modelled: the views return raw bytes. The `Debug` impl is not modelled either.
- `Relay.Step`: the socket mechanics of `read_to_end` and `write_all` are not modelled. Each `Read` event is one underlying read inside `read_to_end`; a `write_all` either completes whole or would block or fails. So a `write_all` that wrote part of the buffer and then would block (after which the next poll writes the whole buffer again) is outside the model.
- `Relay.ResumeIsSeamless`: holds for a would-block on a read, or on a write before any bytes were sent. A `write_all` that sends part of its buffer and then would block does not record that progress, so the next poll sends the whole buffer again from the start (src/main.rs:71, 96). For such a write, suspending is visible to the peer, and the lemma does not cover it.
- `Relay.Poll`: a script of events is finite. A poll that never yields (an empty request answered by an empty response cycles without any system call that could block) shows only as a `Running` result at the end of the script.
- `Relay.Step`: a write to the half-closed backend fails with an I/O error of unspecified kind. The model does not single out the broken-pipe error.
- `Relay.Step`: shutting down the backend's write half always succeeds in the model. In the source a failure there panics through `expect`.
- Socket addresses and `trace!` logging are not modelled. I/O error kinds are reduced to an opaque code.

## Findings

| source | as written | input that shows it | evidently intended | confidence | as-written member | corrected member |
|---|---|---|---|---|---|---|
| src/main.rs:50-103 | after writing the response the pipe goes back to `ClientReading` with both buffers kept; with an empty send buffer, the second write to the backend completes without a system call, so the cycle repeats and writes the receive buffer to the client again | a client connects and closes without sending; the backend answers `R` and closes; the relay reaches a second `shutdown` of the backend (src/main.rs:74); if it succeeds, the client receives `R` twice; if it fails, `expect` panics after one delivery | the pipe finishes once the response is written, and the client receives `R` once | medium, not executed; it assumes the second `shutdown` succeeds, and where it fails instead the `expect` panics, which is not intended either | `Relay.EmptyRequestResendsResponse` | `Relay.PollOnce` |
