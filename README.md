# sim7000: a verified model of the virtual TCP stream, the relay drain and three AT encoders

This project models the sequential core of the `sim7000` modem driver:

- **The virtual TCP stream** (`sim7000-async/src/tcp.rs`), in module `Tcp`. One socket of the modem is
  a byte stream. `send_tcp` runs the `AT+CIPSEND` handshake over the shared AT channel. `inner_read`
  reassembles the payload chunks the modem reports through a buffer of one chunk (365 bytes).
  `inner_read_exact` repeats reads until the caller's slice is full or the stream ends. `close` sends
  `AT+CIPCLOSE` and waits for the socket's `Closed` event.
- **The relay drain and the driver's error type** (`src/lib.rs`), in module `Relay`.
- **The AT request encoders** for `AT+CGNSURC`, `AT+CGNSPWR` and `AT+CBATCHK`, in modules `CgnsUrc`,
  `CgnsPwr` and `CbatChk`, with the decimal formatting they share in module `Fmt`.

The model's shape:

- **Inputs as queues.** Every asynchronous wait of the stream takes the next element of an input
  queue held by the stream:
  - `responses` stands for the generic-response channel.
  - `events` stands for the socket's event channel, as the send and close handshakes see it.
  - `arrivals` stands for the `select` race between the payload channel and the event channel in a read.
- **Outcomes.** A queue that runs out at a wait point yields `Pending`: the future never completes.
  `panic!()` and a failing `unwrap()` yield `Panicked`.
- **Specification functions.** Each operation is first a function on the value `StreamState`:
  `SendStep`, `ReadStep`, `ReadExactStep` and `CloseStep`. Each returns the outcome, the bytes
  delivered to the caller, the writes made to the transport, and the state after.
- **The class.** `TcpStream` keeps the source's fields:
  - the `closed` flag;
  - the buffer, held as an array of 365 bytes and a length;
  - the input queues.

  Its methods change the buffer in place (load, copy out, `rotate_left`, truncate, clear) and write
  into a caller's `array` window `read[lo..hi]`. Each method is proved to match its specification
  function exactly. The properties are proved as lemmas about those functions.
- **The transport.** The shared transport's write side is a `Transport` object that logs every write
  and flush.

`drain_relay` is a method over a finite sequence of read outcomes. It returns its result together
with the timeout passed to each read it made.

The model keeps one quirk of the code. An empty payload chunk is loaded as an empty buffer, so a read returns 0 ("end of stream"). `inner_read_exact` then fails with `Closed` though the stream is still open; `ReadExactEmptyChunk` shows it.

## Model

| member | source | states |
|---|---|---|
| Fmt.Dec | sim7000-async/src/at_command/cgnsurc.rs:19 | the `{}` rendering of a number is non-empty and all digits, and starts with `0` exactly when the number is 0 (then it is `"0"`) |
| Fmt.DecRoundTrip | sim7000-async/src/at_command/cgnsurc.rs:19 | parsing the decimal rendering gives the number back |
| Fmt.DecInjective | sim7000-async/src/at_command/cgnsurc.rs:19 | different numbers render differently |
| Fmt.DecWidth | sim7000-async/src/at_command/cgnsurc.rs:19 | a number renders in at most k digits exactly when it is below 10^k |
| Fmt.LeadingDigitsOf | sim7000-async/src/tcp.rs:45 | in a digit string followed by a non-digit, the leading digits are exactly that digit string, so a formatted number is delimited by its separator |
| Fmt.AsBytes | sim7000-async/src/tcp.rs:46 | `as_bytes` of ASCII text gives one byte per character, equal to its code |
| Fmt.AsBytesInjective | sim7000-async/src/tcp.rs:46 | equal bytes come from equal text |
| CgnsUrc.Encode | sim7000-async/src/at_command/cgnsurc.rs:17-21 | the request is `AT+CGNSURC=`, then digits that parse back to `period` with no leading zero, then one `\r` that is the last and only carriage return; its length is 13 to 15 |
| CgnsUrc.EncodeDisable | sim7000-async/src/at_command/cgnsurc.rs:10-11 | period 0, which disables the report, encodes to `AT+CGNSURC=0\r` |
| CgnsUrc.EncodeInjective | sim7000-async/src/at_command/cgnsurc.rs:19 | different periods give different requests |
| CgnsUrc.EncodeFits | sim7000-async/src/at_command/cgnsurc.rs:17-20 | the request is ASCII and fits the 256-byte `String`, so the `unwrap` never fails |
| CgnsPwr.Encode | sim7000-async/src/at_command/request/cgnspwr.rs:12-17 | the request has 13 characters: `AT+CGNSPWR=`, then `1` when on or `0` when off, then `\r` |
| CgnsPwr.EncodeOn | sim7000-async/src/at_command/request/cgnspwr.rs:14-15 | on encodes to `AT+CGNSPWR=1\r` |
| CgnsPwr.EncodeOff | sim7000-async/src/at_command/request/cgnspwr.rs:14-15 | off encodes to `AT+CGNSPWR=0\r` |
| CgnsPwr.EncodeInjective | sim7000-async/src/at_command/request/cgnspwr.rs:14 | the two settings give different requests |
| CbatChk.Encode | sim7000-async/src/at_command/cbatchk.rs:12-19 | the request has 13 characters (so it fits the 256-byte `String`): `AT+CBATCHK=`, then `1` when enabled or `0` when disabled, then `\r` |
| CbatChk.EncodeEnable | sim7000-async/src/at_command/cbatchk.rs:13-14 | enabled encodes to `AT+CBATCHK=1\r` |
| CbatChk.EncodeDisable | sim7000-async/src/at_command/cbatchk.rs:15-16 | disabled encodes to `AT+CBATCHK=0\r` |
| CbatChk.EncodeInjective | sim7000-async/src/at_command/cbatchk.rs:13-17 | the two settings give different requests |
| Relay.FromSerial | src/lib.rs:18-22 | a serial error converts to `SerialError` carrying it unchanged |
| Relay.FromSerialInjective | src/lib.rs:18-22 | the conversion keeps distinct serial errors distinct |
| Relay.DrainRelay | src/lib.rs:58-78 | the drain reads until the first result that is not a byte and no further. The first read uses the caller's timeout and every later read uses 0. An error is returned unchanged. No data gives `Ok(true)` exactly when at least one byte was discarded first |
| Tcp.CipSend | sim7000-async/src/tcp.rs:45 | the send request is ASCII text |
| Tcp.CipSendInjective | sim7000-async/src/tcp.rs:45 | the send request determines both the ordinal and the payload length |
| Tcp.CipSendFits | sim7000-async/src/tcp.rs:44-45 | for an ordinal below 256 and a length below 2^32, the send request fits the `String<32>` |
| Tcp.CipClose | sim7000-async/src/tcp.rs:135 | the close request is ASCII text |
| Tcp.CipCloseInjective | sim7000-async/src/tcp.rs:135 | the close request determines the ordinal |
| Tcp.CipCloseFits | sim7000-async/src/tcp.rs:134-135 | for an ordinal below 256, the close request fits the `String<32>` |
| Tcp.AwaitPrompt | sim7000-async/src/tcp.rs:49-55 | the prompt wait; when it finds `> ` or `ERROR` it has consumed that line at least. `AwaitPromptFinds` carries its properties |
| Tcp.AwaitChunk | sim7000-async/src/tcp.rs:81-90 | the receive wait; when it stops on a chunk or `Closed` it has consumed that arrival at least. `AwaitChunkFinds` and `AwaitChunkPayload` carry its properties |
| Tcp.AwaitClosed | sim7000-async/src/tcp.rs:139-142 | the close wait; when it finds `Closed` it has consumed that event at least. `AwaitClosedFinds` carries its properties |
| Tcp.Payload | sim7000-async/src/tcp.rs:30 | the payload bytes of the arrivals in order, at most 365 per arrival; the reference for the no-loss lemmas |
| Tcp.Unread | sim7000-async/src/tcp.rs:30 | the buffered bytes followed by the payload still to arrive, at most one buffer plus 365 per arrival; every no-loss lemma is stated against it |
| Tcp.AwaitPromptFinds | sim7000-async/src/tcp.rs:49-55 | the prompt wait stops at the first `> ` or `ERROR` and consumes exactly the lines up to it; every line it skipped was neither |
| Tcp.AwaitChunkFinds | sim7000-async/src/tcp.rs:81-90 | the receive wait stops at the first chunk or `Closed` and consumes exactly the arrivals up to it; every arrival it skipped was another event |
| Tcp.AwaitChunkPayload | sim7000-async/src/tcp.rs:81-92 | the receive wait drops no payload bytes |
| Tcp.AwaitClosedFinds | sim7000-async/src/tcp.rs:139-142 | the close wait discards every event up to and including the first `Closed`; with no `Closed` it waits forever |
| Tcp.SendStep | sim7000-async/src/tcp.rs:38-73 | `send_tcp` as a function of the stream's state: it delivers nothing to a reader, writes nothing, the request or the request and the payload (each flushed), and in the model leaves the buffer and the read-side queue alone. `SendWhenClosed`, `SendSucceeds`, `SendFails`, `SendWire`, `SendPayloadAfterPrompt` and `SendLatchesClosed` carry its properties |
| Tcp.SendOverflowPanics | sim7000-async/src/tcp.rs:44-45 | on an open stream, a send request longer than the `String<32>` makes the `unwrap` panic, with nothing written and nothing changed |
| Tcp.SendHandshake | sim7000-async/src/tcp.rs:43-69 | on an open stream whose request fits: no prompt waits forever; `ERROR` fails with `SendFail` after consuming the lines through it; after the prompt, no event waits forever, `SendSuccess` succeeds, `SendFail` fails with `SendFail`, `Closed` fails with `Closed` and sets the flag, and any other event panics; each path consumes exactly the prompt lines and the one event, and nothing else of the state changes |
| Tcp.SendWhenClosed | sim7000-async/src/tcp.rs:39-41 | a send on a closed stream fails with `Closed`, writes nothing and changes nothing |
| Tcp.SendSucceeds | sim7000-async/src/tcp.rs:38-73 | a send succeeds exactly when the stream is open, the request fits, the prompt comes before any `ERROR`, and the next event is `SendSuccess` |
| Tcp.SendFails | sim7000-async/src/tcp.rs:49-69 | a send fails with `SendFail` exactly when `ERROR` answers the request, or `SendFail` follows the payload |
| Tcp.SendWire | sim7000-async/src/tcp.rs:44-57 | what a send writes: nothing when closed, the flushed request, and the flushed payload only once the prompt came |
| Tcp.SendPayloadAfterPrompt | sim7000-async/src/tcp.rs:49-57 | the payload is written only after a `> ` line that no `ERROR` preceded |
| Tcp.SendLatchesClosed | sim7000-async/src/tcp.rs:59-69 | a send leaves the stream closed exactly when it fails with `Closed` and never reopens it; in the model it also leaves the buffer and `arrivals` alone, which rests on the split of the event channel under "Left out" |
| Tcp.ReadStep | sim7000-async/src/tcp.rs:75-107 | a read that completes returns the number of bytes it delivered, at most the slice length; one that does not complete delivers nothing and is waiting |
| Tcp.Deliver | sim7000-async/src/tcp.rs:95-106 | the copy out once the buffer holds a chunk (possibly an empty one) returns the number of bytes delivered, at most the slice length, and writes nothing. `DeliverNoLoss` carries the rest |
| Tcp.DeliverNoLoss | sim7000-async/src/tcp.rs:95-106 | the bytes the copy out delivers, followed by the new buffer, are the old buffer; nothing else of the state changes |
| Tcp.ReadWhenClosed | sim7000-async/src/tcp.rs:76-78 | a read of a closed stream returns 0 and leaves the buffer untouched |
| Tcp.ReadFromBuffer | sim7000-async/src/tcp.rs:95-100 | with at least n bytes buffered, a read of n delivers the first n and keeps the rest |
| Tcp.ReadDrainsBuffer | sim7000-async/src/tcp.rs:101-106 | with fewer than n bytes buffered, a read delivers the whole buffer and empties it |
| Tcp.ReadWaitsForChunk | sim7000-async/src/tcp.rs:80-93 | on an empty buffer, `Closed` latches the flag and gives 0, other events are skipped, and the first chunk becomes the buffer that the read copies from |
| Tcp.ReadNoLoss | sim7000-async/src/tcp.rs:92-106 | the bytes a read delivers, followed by everything still unread, are what was unread before |
| Tcp.ReadBounds | sim7000-async/src/tcp.rs:75-107 | a read returns at most the slice length and at most 365; it never reopens the stream; once closed it returns 0; in the model it leaves `responses` and `events` alone, which rests on the split of the event channel under "Left out" |
| Tcp.ReadSequenceNoLoss | sim7000-async/src/tcp.rs:75-107 | reads of any sizes, one after another, deliver the unread bytes in order and lose none |
| Tcp.Forward | sim7000-async/src/tcp.rs:117 | a failure of the inner read is passed on as the same failure: `Err(e)` as `Err(e)`, waiting as waiting, a panic as a panic |
| Tcp.ReadExactStep | sim7000-async/src/tcp.rs:109-126 | `inner_read_exact` as a function of the stream's state: it writes nothing to the transport. `ReadExactFills` (which also shows it never panics), `ReadExactNoLoss`, `ReadExactWhenClosed` and `ReadExactEmptyChunk` carry its properties |
| Tcp.ReadExactUnfold | sim7000-async/src/tcp.rs:110-118 | one turn of the `read_exact` loop: a failed read ends it, a read of 0 ends it with `Closed`, and any other read continues on the rest of the slice |
| Tcp.ReadExactAdvance | sim7000-async/src/tcp.rs:110-118 | the loop's bookkeeping: after a read of n > 0 bytes, the answer is those bytes followed by `read_exact` of the remaining suffix |
| Tcp.ReadExactFills | sim7000-async/src/tcp.rs:109-126 | `read_exact` succeeds exactly when the slice is full; it fails only with the error `Closed` and only short of full; otherwise it is waiting, also short of full. The error does not imply the flag is set (see `ReadExactEmptyChunk`) |
| Tcp.ReadExactNoLoss | sim7000-async/src/tcp.rs:109-126 | the prefix `read_exact` fills holds the unread bytes in order, on failure too, and nothing is lost |
| Tcp.ReadExactWhenClosed | sim7000-async/src/tcp.rs:109-126 | on a closed stream, `read_exact` of a non-empty slice fails with `Closed` and delivers nothing |
| Tcp.ReadExactEmptyChunk | sim7000-async/src/tcp.rs:92-126 | an empty payload chunk makes a read return 0, so `read_exact` of one byte fails with `Closed` although the stream stays open and its next byte is still unread |
| Tcp.CloseStep | sim7000-async/src/tcp.rs:128-143 | `close` as a function of the stream's state: it delivers nothing, writes at most the one request, and changes nothing but the event queue, so the `closed` flag keeps its value. `CloseWhenClosed` and `CloseDiscardsThroughClosed` carry its properties |
| Tcp.CloseWhenClosed | sim7000-async/src/tcp.rs:129-131 | closing a closed stream does nothing and writes nothing |
| Tcp.CloseOverflowPanics | sim7000-async/src/tcp.rs:134-135 | on an open stream, a close request longer than the `String<32>` makes the `unwrap` panic, with nothing written and nothing changed |
| Tcp.CloseDiscardsThroughClosed | sim7000-async/src/tcp.rs:133-142 | closing an open stream writes the close request once, then discards every event up to and including the first `Closed` |
| Tcp.PingPong | sim7000-async/src/tcp.rs:38-107 | socket 2 sends `PING` and then reads `PONG`: the send writes `AT+CIPSEND=2,4\r`; a first read of 8 gives 4 bytes `PONG` and a second read gives 0 |
| Tcp.Splice | sim7000-async/src/tcp.rs:96-102 | the caller's slice after `copy_from_slice` into a window: a slice of the same length. `SpliceWrites` and `SpliceTwice` carry its properties |
| Tcp.SpliceWrites | sim7000-async/src/tcp.rs:96-102 | a read writes its bytes at the start of the caller's window and no other byte of the slice changes |
| Tcp.Transport.WriteAll | sim7000-async/src/tcp.rs:46 | a write appends its bytes to the transport log |
| Tcp.Transport.Flush | sim7000-async/src/tcp.rs:47 | a flush appends a flush to the transport log |
| Tcp.TcpStream.constructor | sim7000-async/src/tcp.rs:24-31 | tcp.rs declares the struct but has no constructor; the model assumes this starting state: open, with an empty buffer |
| Tcp.TcpStream.SendTcp | sim7000-async/src/tcp.rs:38-73 | `send_tcp` returns `SendStep`'s outcome, ends in its state and appends its writes to the transport |
| Tcp.TcpStream.AwaitPromptLine | sim7000-async/src/tcp.rs:49-55 | the prompt loop consumes the lines `AwaitPrompt` consumes and ends as it says |
| Tcp.TcpStream.Load | sim7000-async/src/tcp.rs:92 | the arrived chunk becomes the buffer's contents |
| Tcp.TcpStream.CopyOut | sim7000-async/src/tcp.rs:96-102 | `copy_from_slice` writes the first n buffered bytes into the window and nothing else |
| Tcp.TcpStream.RotateLeft | sim7000-async/src/tcp.rs:97 | the buffered bytes are rotated left by k in place |
| Tcp.TcpStream.AwaitData | sim7000-async/src/tcp.rs:80-93 | the receive wait loop ends as `AwaitChunk` says: waiting, closed with 0, or the chunk in the buffer |
| Tcp.TcpStream.DeliverTo | sim7000-async/src/tcp.rs:95-106 | the copy, rotate and truncate (or copy and clear) deliver what `Deliver` says into the window and leave its buffer |
| Tcp.TcpStream.InnerRead | sim7000-async/src/tcp.rs:75-107 | `inner_read` returns `ReadStep`'s outcome, ends in its state, and writes its bytes at the start of the window and nothing else |
| Tcp.TcpStream.ReadExactTurn | sim7000-async/src/tcp.rs:110-118 | one iteration of the `read_exact` loop advances the filled prefix as `ReadExactAdvance` says |
| Tcp.TcpStream.InnerReadExact | sim7000-async/src/tcp.rs:109-126 | `inner_read_exact` returns `ReadExactStep`'s outcome, ends in its state, and writes its bytes at the start of the window and nothing else |
| Tcp.TcpStream.Close | sim7000-async/src/tcp.rs:128-143 | `close` returns `CloseStep`'s outcome, ends in its state and appends its write to the transport |

## Left out

- Locking: the transport mutex, and mutual exclusion between tasks. This is concurrency, which a sequential model cannot state.
- The stream's transport handle: the source refers to a `tx` field that the struct does not declare. It is modelled as a `Transport` with a write log, without the lock.
- Channels: their capacity, their backpressure and the `commands` channel. The `commands` channel is never used by the modelled code.
- Fairness of `select` among ready futures is not modelled. The order of `arrivals` decides which side wins.
- The two kinds of event queue: the source has one event channel, which send, close and the read race all receive from. The model keeps `events` for the handshakes and `arrivals` for the read race as separate queues, so interleavings between a handshake and a read on the same socket are not modelled.
- Transport write and flush errors (the `?` in `send_tcp` and the `unwrap` in `close`) are treated as infallible.
- The `panic!()` on an unexpected event after a send is the outcome `Panicked`; the abort itself is not modelled.
- The `Write` and `Read` trait impls of the stream only forward to `send_tcp`, `inner_read` and `inner_read_exact`, and their `flush` always returns `Ok`. They are not modelled separately.
- The `SerialError` trait impl of the stream is a type alias only.
- `close` taking the stream by value: in the code no send or read can follow a `close`. The model keeps the object and `CloseStep` leaves `closed` as it was, as the code does, so a `SendTcp` or `InnerRead` after `Close` sees the old flag. The model does not capture that a closed-by-`close` stream cannot be used again.
- `TcpError::Timeout` is declared but no modelled operation produces it.
- Relay.DrainRelay: the `log::trace!` output and the bytes read into `recv_buf` are not modelled. Timeouts are opaque numbers that are recorded, not timed.
- Relay.DrainRelay: requires that some read eventually reports something other than a byte. The source loops forever on a relay that never stops sending.
- The `AtModem`, `SerialReadTimeout` and `SerialWrite` methods are declared without bodies in the source, so they are not part of this model.
- The `Debug` and `defmt` derives have no behaviour to model.
