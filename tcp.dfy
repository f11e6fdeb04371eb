/** One virtual TCP socket of the modem, seen as a byte stream.

    Sending runs a handshake over the shared AT channel: the `AT+CIPSEND`
    request, the `> ` prompt, the payload, and the socket's send report.
    Receiving reassembles the payload chunks the modem reports into reads
    of any size the caller asks for, through a buffer of one chunk.

    Every wait of the source is replaced by taking the next element of an
    input queue: `responses` for the generic-response channel, `events` for
    the socket's event channel as the send and close handshakes see it, and
    `arrivals` for the race between the payload channel and the event
    channel while a read waits for data. A queue that runs out at a wait
    point means the future never completes (`Pending`). */
module Tcp {
  import opened Fmt

  /** The capacity of one payload chunk and of the reassembly buffer (`Vec<u8, 365>`). */
  const Capacity := 365
  /** The capacity of the `String<32>` the send and close requests are formatted into. */
  const CommandCapacity := 32

  type Chunk = c: seq<u8> | |c| <= Capacity

  datatype Option<T> = None | Some(value: T)

  datatype TcpMessage = SendFail | SendSuccess | Closed | Connected | ConnectionFailed

  datatype TcpError = Timeout | SendFail | Closed

  /** How a stream operation ends. `Pending`: its input ran out at a wait
      point, so the operation never completes. `Panicked`: the source aborts
      there (`panic!()`, or `unwrap()` on a failed `write!`). */
  datatype Outcome<T> = Ok(value: T) | Err(error: TcpError) | Pending | Panicked

  /** Whichever of the payload channel and the event channel completed first. */
  datatype Arrival = Data(chunk: Chunk) | Event(msg: TcpMessage)

  /** One call on the shared transport's write side. */
  datatype WireEvent = Wrote(bytes: seq<u8>) | Flushed

  /** The stream as a value: the `closed` flag, the bytes buffered but not
      yet delivered, and the inputs still to come. */
  datatype StreamState = StreamState(
    closed: bool,
    buffer: Chunk,
    responses: seq<string>,
    events: seq<TcpMessage>,
    arrivals: seq<Arrival>)

  /** What one operation does: its outcome, the bytes it copied into the
      caller's slice, what it wrote to the transport, and the state after. */
  datatype Step<T> = Step(outcome: Outcome<T>, delivered: seq<u8>, wire: seq<WireEvent>, after: StreamState)

  // ---------------------------------------------------------------------------
  // Requests

  const SendPrefix := "AT+CIPSEND="
  const ClosePrefix := "AT+CIPCLOSE="

  /** `AT+CIPSEND=<ordinal>,<length>\r`. */
  function CipSend(ordinal: nat, length: nat): (s: string)
    ensures IsAscii(s)
  {
    DigitsAreAscii(Dec(ordinal));
    DigitsAreAscii(Dec(length));
    SendPrefix + Dec(ordinal) + "," + Dec(length) + "\r"
  }

  /** `AT+CIPCLOSE=<ordinal>\r`. */
  function CipClose(ordinal: nat): (s: string)
    ensures IsAscii(s)
  {
    DigitsAreAscii(Dec(ordinal));
    ClosePrefix + Dec(ordinal) + "\r"
  }

  /** Two digit strings each followed by the same separator split the same way. */
  lemma SplitAfterDigits(a: string, x: string, b: string, y: string, sep: char)
    requires AllDigits(a) && AllDigits(b) && !IsDigit(sep)
    requires a + [sep] + x == b + [sep] + y
    ensures a == b && x == y
  {
    var s := a + [sep] + x;
    LeadingDigitsOf(a, [sep] + x);
    LeadingDigitsOf(b, [sep] + y);
    assert s == a + ([sep] + x) == b + ([sep] + y);
    assert a == s[..|a|];
    assert x == s[|a| + 1..];
  }

  /** The send request names its ordinal and payload length unambiguously. */
  lemma CipSendInjective(o1: nat, l1: nat, o2: nat, l2: nat)
    requires CipSend(o1, l1) == CipSend(o2, l2)
    ensures o1 == o2 && l1 == l2
  {
    var s := CipSend(o1, l1);
    assert s == SendPrefix + CipSend(o1, l1)[|SendPrefix|..];
    assert CipSend(o1, l1)[|SendPrefix|..] == Dec(o1) + [','] + (Dec(l1) + "\r");
    assert CipSend(o2, l2)[|SendPrefix|..] == Dec(o2) + [','] + (Dec(l2) + "\r");
    SplitAfterDigits(Dec(o1), Dec(l1) + "\r", Dec(o2), Dec(l2) + "\r", ',');
    SplitAfterDigits(Dec(l1), [], Dec(l2), [], '\r');
    DecInjective(o1, o2);
    DecInjective(l1, l2);
  }

  /** The close request names its ordinal unambiguously. */
  lemma CipCloseInjective(o1: nat, o2: nat)
    requires CipClose(o1) == CipClose(o2)
    ensures o1 == o2
  {
    assert CipClose(o1)[|ClosePrefix|..] == Dec(o1) + ['\r'] + [];
    assert CipClose(o2)[|ClosePrefix|..] == Dec(o2) + ['\r'] + [];
    SplitAfterDigits(Dec(o1), [], Dec(o2), [], '\r');
    DecInjective(o1, o2);
  }

  /** For a one-byte ordinal and a 32-bit length the send request fits its
      `String<32>`, so formatting it never panics. */
  lemma CipSendFits(ordinal: nat, length: nat)
    requires ordinal < 256 && length < 0x1_0000_0000
    ensures |CipSend(ordinal, length)| <= CommandCapacity
  {
    DecWidth(ordinal, 3);
    DecWidth(length, 10);
  }

  /** For a one-byte ordinal the close request fits its `String<32>`. */
  lemma CipCloseFits(ordinal: nat)
    requires ordinal < 256
    ensures |CipClose(ordinal)| <= CommandCapacity
  {
    DecWidth(ordinal, 3);
  }

  // ---------------------------------------------------------------------------
  // Waiting on the inputs

  datatype Prompt = Ready(rest: seq<string>) | Rejected(rest: seq<string>) | NoPrompt

  /** A generic response that the send handshake skips while it waits for the prompt. */
  predicate Ignored(line: string) {
    line != "> " && line != "ERROR"
  }

  /** The wait for the modem's `> ` prompt: `ERROR` rejects the request, any other line is skipped. */
  function AwaitPrompt(lines: seq<string>): (r: Prompt)
    ensures !r.NoPrompt? ==> |r.rest| < |lines|
    decreases |lines|
  {
    if lines == [] then NoPrompt
    else if lines[0] == "> " then Ready(lines[1..])
    else if lines[0] == "ERROR" then Rejected(lines[1..])
    else AwaitPrompt(lines[1..])
  }

  /** The prompt wait stops at the first `> ` or `ERROR` and consumes exactly the lines up to it. */
  lemma {:induction false} AwaitPromptFinds(lines: seq<string>)
    ensures match AwaitPrompt(lines)
      case NoPrompt => forall j :: 0 <= j < |lines| ==> Ignored(lines[j])
      case Ready(rest) =>
        var i := |lines| - |rest| - 1;
        0 <= i && lines[i] == "> " && lines[i + 1..] == rest
        && forall j :: 0 <= j < i ==> Ignored(lines[j])
      case Rejected(rest) =>
        var i := |lines| - |rest| - 1;
        0 <= i && lines[i] == "ERROR" && lines[i + 1..] == rest
        && forall j :: 0 <= j < i ==> Ignored(lines[j])
  {
    if lines != [] && Ignored(lines[0]) {
      AwaitPromptFinds(lines[1..]);
      match AwaitPrompt(lines[1..])
      case NoPrompt =>
      case Ready(rest) =>
        assert lines[1..][|lines| - |rest| - 1..] == lines[|lines| - |rest|..];
      case Rejected(rest) =>
        assert lines[1..][|lines| - |rest| - 1..] == lines[|lines| - |rest|..];
    }
  }

  datatype Wait = Chunked(chunk: Chunk, rest: seq<Arrival>) | ClosedSeen(rest: seq<Arrival>) | Starved

  /** An arrival the receive wait skips: an event other than `Closed`. */
  predicate Skipped(a: Arrival) {
    a.Event? && a.msg != TcpMessage.Closed
  }

  /** The receive wait of `inner_read` on an empty buffer: the first chunk
      wins, a `Closed` event ends the wait, every other event is skipped. */
  function AwaitChunk(arrivals: seq<Arrival>): (r: Wait)
    ensures !r.Starved? ==> |r.rest| < |arrivals|
    decreases |arrivals|
  {
    if arrivals == [] then Starved
    else match arrivals[0]
      case Data(c) => Chunked(c, arrivals[1..])
      case Event(m) => if m == TcpMessage.Closed then ClosedSeen(arrivals[1..]) else AwaitChunk(arrivals[1..])
  }

  /** The receive wait stops at the first chunk or `Closed` and consumes exactly the arrivals up to it. */
  lemma {:induction false} AwaitChunkFinds(arrivals: seq<Arrival>)
    ensures match AwaitChunk(arrivals)
      case Starved => forall j :: 0 <= j < |arrivals| ==> Skipped(arrivals[j])
      case Chunked(c, rest) =>
        var i := |arrivals| - |rest| - 1;
        0 <= i && arrivals[i] == Data(c) && arrivals[i + 1..] == rest
        && forall j :: 0 <= j < i ==> Skipped(arrivals[j])
      case ClosedSeen(rest) =>
        var i := |arrivals| - |rest| - 1;
        0 <= i && arrivals[i] == Event(TcpMessage.Closed) && arrivals[i + 1..] == rest
        && forall j :: 0 <= j < i ==> Skipped(arrivals[j])
  {
    if arrivals != [] && Skipped(arrivals[0]) {
      AwaitChunkFinds(arrivals[1..]);
      match AwaitChunk(arrivals[1..])
      case Starved =>
      case Chunked(c, rest) =>
        assert arrivals[1..][|arrivals| - |rest| - 1..] == arrivals[|arrivals| - |rest|..];
      case ClosedSeen(rest) =>
        assert arrivals[1..][|arrivals| - |rest| - 1..] == arrivals[|arrivals| - |rest|..];
    }
  }

  /** The wait in `close`: every event up to and including the first `Closed` is discarded. */
  function AwaitClosed(events: seq<TcpMessage>): (r: Option<seq<TcpMessage>>)
    ensures r.Some? ==> |r.value| < |events|
    decreases |events|
  {
    if events == [] then None
    else if events[0] == TcpMessage.Closed then Some(events[1..])
    else AwaitClosed(events[1..])
  }

  lemma {:induction false} AwaitClosedFinds(events: seq<TcpMessage>)
    ensures match AwaitClosed(events)
      case None => TcpMessage.Closed !in events
      case Some(rest) =>
        var i := |events| - |rest| - 1;
        0 <= i && events[i] == TcpMessage.Closed && events[i + 1..] == rest
        && TcpMessage.Closed !in events[..i]
  {
    if events != [] && events[0] != TcpMessage.Closed {
      AwaitClosedFinds(events[1..]);
      match AwaitClosed(events[1..])
      case None =>
      case Some(rest) =>
        var i := |events| - |rest| - 1;
        assert events[1..][i..] == events[i + 1..];
        assert events[..i] == [events[0]] + events[1..][..i - 1];
    }
  }

  // ---------------------------------------------------------------------------
  // The bytes still to be read

  /** The payload bytes among `arrivals`, in arrival order. */
  function Payload(arrivals: seq<Arrival>): (r: seq<u8>)
    ensures |r| <= Capacity * |arrivals|
    decreases |arrivals|
  {
    if arrivals == [] then []
    else (if arrivals[0].Data? then arrivals[0].chunk else []) + Payload(arrivals[1..])
  }

  /** Every byte the stream holds or will receive and has not yet handed to a reader. */
  function Unread(s: StreamState): (r: seq<u8>)
    ensures |r| <= Capacity * (1 + |s.arrivals|)
  {
    s.buffer + Payload(s.arrivals)
  }

  /** The receive wait drops no payload: what it skips or stops on holds none. */
  lemma {:induction false} AwaitChunkPayload(arrivals: seq<Arrival>)
    ensures match AwaitChunk(arrivals)
      case Starved => Payload(arrivals) == []
      case ClosedSeen(rest) => Payload(arrivals) == Payload(rest)
      case Chunked(c, rest) => Payload(arrivals) == c + Payload(rest)
  {
    if arrivals != [] && Skipped(arrivals[0]) {
      AwaitChunkPayload(arrivals[1..]);
    }
  }

  // ---------------------------------------------------------------------------
  // The operations, as functions of the stream's state

  /** `send_tcp`. */
  function SendStep(s: StreamState, ordinal: nat, words: seq<u8>): (r: Step<()>)
    ensures r.delivered == [] && (|r.wire| == 0 || |r.wire| == 2 || |r.wire| == 4)
    ensures r.after.buffer == s.buffer && r.after.arrivals == s.arrivals
  {
    if s.closed then Step(Err(TcpError.Closed), [], [], s)
    else
      var cmd := CipSend(ordinal, |words|);
      if |cmd| > CommandCapacity then Step(Panicked, [], [], s)
      else
        var request := [Wrote(AsBytes(cmd)), Flushed];
        match AwaitPrompt(s.responses)
        case NoPrompt => Step(Pending, [], request, s.(responses := []))
        case Rejected(rest) => Step(Err(TcpError.SendFail), [], request, s.(responses := rest))
        case Ready(rest) =>
          var wire := request + [Wrote(words), Flushed];
          var t := s.(responses := rest);
          if t.events == [] then Step(Pending, [], wire, t)
          else
            var u := t.(events := t.events[1..]);
            match t.events[0]
            case SendFail => Step(Err(TcpError.SendFail), [], wire, u)
            case SendSuccess => Step(Ok(()), [], wire, u)
            case Closed => Step(Err(TcpError.Closed), [], wire, u.(closed := true))
            case _ => Step(Panicked, [], wire, u)
  }

  /** The copy out once the buffer holds a chunk: a prefix of it, as much as the caller asked for. */
  function Deliver(s: StreamState, want: nat): (r: Step<nat>)
    ensures r.outcome == Ok(|r.delivered|) && |r.delivered| <= want && r.wire == []
  {
    if |s.buffer| >= want then Step(Ok(want), s.buffer[..want], [], s.(buffer := s.buffer[want..]))
    else Step(Ok(|s.buffer|), s.buffer, [], s.(buffer := []))
  }

  /** The copy out keeps the order and loses nothing: the bytes delivered followed by
      the new buffer are the old buffer, and nothing else of the state changes. */
  lemma DeliverNoLoss(s: StreamState, want: nat)
    ensures var r := Deliver(s, want);
      r.delivered + r.after.buffer == s.buffer && r.after == s.(buffer := r.after.buffer)
  {
    if |s.buffer| >= want {
      assert s.buffer[..want] + s.buffer[want..] == s.buffer;
    }
  }

  /** `inner_read` into a slice of length `want`. */
  function ReadStep(s: StreamState, want: nat): (r: Step<nat>)
    ensures r.wire == []
    ensures r.outcome.Ok? ==> r.outcome.value == |r.delivered| <= want
    ensures !r.outcome.Ok? ==> r.outcome == Pending && r.delivered == []
  {
    if s.closed then Step(Ok(0), [], [], s)
    else if s.buffer == [] then
      match AwaitChunk(s.arrivals)
      case Starved => Step(Pending, [], [], s.(arrivals := []))
      case ClosedSeen(rest) => Step(Ok(0), [], [], s.(closed := true, arrivals := rest))
      case Chunked(c, rest) => Deliver(s.(buffer := c, arrivals := rest), want)
    else Deliver(s, want)
  }

  /** An outcome that is not `Ok`, carried over to another result type. */
  function Forward<T, U>(o: Outcome<T>): (r: Outcome<U>)
    requires !o.Ok?
    ensures match o
      case Err(e) => r == Err(e)
      case Pending => r == Pending
      case Panicked => r == Panicked
  {
    match o
    case Err(e) => Err(e)
    case Pending => Pending
    case Panicked => Panicked
  }

  /** `inner_read_exact` into a slice of length `want`. */
  function ReadExactStep(s: StreamState, want: nat): (r: Step<()>)
    ensures r.wire == []
    decreases want
  {
    if want == 0 then Step(Ok(()), [], [], s)
    else
      var first := ReadStep(s, want);
      if !first.outcome.Ok? then Step(Forward(first.outcome), first.delivered, [], first.after)
      else if first.outcome.value == 0 then Step(Err(TcpError.Closed), [], [], first.after)
      else
        var rest := ReadExactStep(first.after, want - first.outcome.value);
        Step(rest.outcome, first.delivered + rest.delivered, [], rest.after)
  }

  /** One turn of the `read_exact` loop: the first read, then the rest of the slice. */
  lemma ReadExactUnfold(s: StreamState, want: nat)
    requires want > 0
    ensures var first := ReadStep(s, want);
      var r := ReadExactStep(s, want);
      && (!first.outcome.Ok? ==> r == Step(Forward(first.outcome), [], [], first.after))
      && (first.outcome == Ok(0) ==> r == Step(Err(TcpError.Closed), [], [], first.after))
      && (first.outcome.Ok? && first.outcome.value > 0 ==>
            var rest := ReadExactStep(first.after, want - first.outcome.value);
            r == Step(rest.outcome, first.delivered + rest.delivered, [], rest.after))
  {
  }

  /** `step` with `done` delivered ahead of its own bytes. */
  function Prepend<T>(done: seq<u8>, step: Step<T>): (r: Step<T>) {
    Step(step.outcome, done + step.delivered, step.wire, step.after)
  }

  /** The bookkeeping of one turn of the `read_exact` loop, with `done` the bytes filled so far. */
  lemma ReadExactAdvance(goal: Step<()>, before: StreamState, want: nat, done: seq<u8>)
    requires want > 0
    requires goal == Prepend(done, ReadExactStep(before, want))
    ensures var first := ReadStep(before, want);
      && (!first.outcome.Ok? ==> goal == Step(Forward(first.outcome), done, [], first.after))
      && (first.outcome == Ok(0) ==> goal == Step(Err(TcpError.Closed), done, [], first.after))
      && (first.outcome.Ok? && first.outcome.value > 0 ==>
            goal == Prepend(done + first.delivered, ReadExactStep(first.after, want - first.outcome.value)))
  {
    ReadExactUnfold(before, want);
    var first := ReadStep(before, want);
    if first.outcome.Ok? && first.outcome.value > 0 {
      var rest := ReadExactStep(first.after, want - first.outcome.value);
      assert done + (first.delivered + rest.delivered) == (done + first.delivered) + rest.delivered;
    } else {
      assert done + [] == done;
    }
  }

  /** `close`. */
  function CloseStep(s: StreamState, ordinal: nat): (r: Step<()>)
    ensures r.delivered == [] && |r.wire| <= 1
    ensures r.after == s.(events := r.after.events)
  {
    if s.closed then Step(Ok(()), [], [], s)
    else
      var cmd := CipClose(ordinal);
      if |cmd| > CommandCapacity then Step(Panicked, [], [], s)
      else
        var wire := [Wrote(AsBytes(cmd))];
        match AwaitClosed(s.events)
        case Some(rest) => Step(Ok(()), [], wire, s.(events := rest))
        case None => Step(Pending, [], wire, s.(events := []))
  }

  /** Reads of the given sizes, one after the other: every byte delivered and the state after. */
  function ReadSequence(s: StreamState, wants: seq<nat>): (r: (seq<u8>, StreamState))
    decreases |wants|
  {
    if wants == [] then ([], s)
    else
      var first := ReadStep(s, wants[0]);
      var rest := ReadSequence(first.after, wants[1..]);
      (first.delivered + rest.0, rest.1)
  }

  // ---------------------------------------------------------------------------
  // Properties of send

  /** On a closed stream a send fails with `Closed` at once and writes nothing. */
  lemma SendWhenClosed(s: StreamState, ordinal: nat, words: seq<u8>)
    requires s.closed
    ensures SendStep(s, ordinal, words) == Step(Err(TcpError.Closed), [], [], s)
  {
  }

  /** A send succeeds exactly when the stream is open, the request fits, the
      prompt comes before any `ERROR`, and the next socket event is `SendSuccess`. */
  lemma SendSucceeds(s: StreamState, ordinal: nat, words: seq<u8>)
    ensures SendStep(s, ordinal, words).outcome == Ok(()) <==>
      && !s.closed
      && |CipSend(ordinal, |words|)| <= CommandCapacity
      && AwaitPrompt(s.responses).Ready?
      && s.events != [] && s.events[0] == TcpMessage.SendSuccess
  {
  }

  /** A send fails with `SendFail` exactly when the modem answers the request
      with `ERROR`, or reports `SendFail` after the payload. */
  lemma SendFails(s: StreamState, ordinal: nat, words: seq<u8>)
    ensures SendStep(s, ordinal, words).outcome == Err(TcpError.SendFail) <==>
      && !s.closed
      && |CipSend(ordinal, |words|)| <= CommandCapacity
      && (|| AwaitPrompt(s.responses).Rejected?
          || (AwaitPrompt(s.responses).Ready? && s.events != [] && s.events[0] == TcpMessage.SendFail))
  {
  }

  /** A send request too long for its `String<32>` makes `write!(..).unwrap()` panic, before any write. */
  lemma SendOverflowPanics(s: StreamState, ordinal: nat, words: seq<u8>)
    requires !s.closed && |CipSend(ordinal, |words|)| > CommandCapacity
    ensures SendStep(s, ordinal, words) == Step(Panicked, [], [], s)
  {
  }

  /** Every way a send on an open stream whose request fits can end, with the
      state after: it waits for the prompt, then takes exactly one event. */
  lemma SendHandshake(s: StreamState, ordinal: nat, words: seq<u8>)
    requires !s.closed && |CipSend(ordinal, |words|)| <= CommandCapacity
    ensures var r := SendStep(s, ordinal, words);
      match AwaitPrompt(s.responses)
      case NoPrompt => r.outcome == Pending && r.after == s.(responses := [])
      case Rejected(rest) => r.outcome == Err(TcpError.SendFail) && r.after == s.(responses := rest)
      case Ready(rest) =>
        if s.events == [] then r.outcome == Pending && r.after == s.(responses := rest)
        else
          var u := s.(responses := rest, events := s.events[1..]);
          match s.events[0]
          case SendSuccess => r.outcome == Ok(()) && r.after == u
          case SendFail => r.outcome == Err(TcpError.SendFail) && r.after == u
          case Closed => r.outcome == Err(TcpError.Closed) && r.after == u.(closed := true)
          case Connected => r.outcome == Panicked && r.after == u
          case ConnectionFailed => r.outcome == Panicked && r.after == u
  {
  }

  /** What a send writes: nothing when closed, otherwise the flushed
      `AT+CIPSEND` request, and the flushed payload only once the prompt came. */
  lemma SendWire(s: StreamState, ordinal: nat, words: seq<u8>)
    ensures var r := SendStep(s, ordinal, words);
      var cmd := CipSend(ordinal, |words|);
      r.wire ==
        if s.closed || |cmd| > CommandCapacity then []
        else if AwaitPrompt(s.responses).Ready? then [Wrote(AsBytes(cmd)), Flushed, Wrote(words), Flushed]
        else [Wrote(AsBytes(cmd)), Flushed]
  {
  }

  /** The payload goes out only after a `> ` prompt that no `ERROR` preceded. */
  lemma {:induction false} SendPayloadAfterPrompt(s: StreamState, ordinal: nat, words: seq<u8>)
    ensures var r := SendStep(s, ordinal, words);
      |r.wire| == 4 ==>
        exists i :: 0 <= i < |s.responses| && s.responses[i] == "> "
          && (forall j :: 0 <= j < i ==> Ignored(s.responses[j]))
          && r.wire[2] == Wrote(words)
  {
    AwaitPromptFinds(s.responses);
    var r := SendStep(s, ordinal, words);
    if |r.wire| == 4 {
      var rest := AwaitPrompt(s.responses).rest;
      var i := |s.responses| - |rest| - 1;
      assert s.responses[i] == "> ";
    }
  }

  /** A send ends with the stream closed exactly when it fails with `Closed`;
      it never reopens a stream and never touches the receive side. */
  lemma SendLatchesClosed(s: StreamState, ordinal: nat, words: seq<u8>)
    ensures var r := SendStep(s, ordinal, words);
      && (r.after.closed <==> r.outcome == Err(TcpError.Closed))
      && (s.closed ==> r.after.closed)
      && r.after.buffer == s.buffer && r.after.arrivals == s.arrivals
      && r.delivered == []
  {
  }

  // ---------------------------------------------------------------------------
  // Properties of read

  /** A read of a closed stream returns 0 and changes nothing, even with bytes still buffered. */
  lemma ReadWhenClosed(s: StreamState, want: nat)
    requires s.closed
    ensures ReadStep(s, want) == Step(Ok(0), [], [], s)
  {
  }

  /** With at least `want` bytes buffered, a read delivers exactly the first `want` of them and keeps the rest. */
  lemma ReadFromBuffer(s: StreamState, want: nat)
    requires !s.closed && s.buffer != [] && want <= |s.buffer|
    ensures var r := ReadStep(s, want);
      && r.outcome == Ok(want) && r.delivered == s.buffer[..want]
      && r.after == s.(buffer := s.buffer[want..])
  {
  }

  /** With fewer than `want` bytes buffered, a read delivers the whole buffer and empties it. */
  lemma ReadDrainsBuffer(s: StreamState, want: nat)
    requires !s.closed && 0 < |s.buffer| < want
    ensures var r := ReadStep(s, want);
      r.outcome == Ok(|s.buffer|) && r.delivered == s.buffer && r.after == s.(buffer := [])
  {
  }

  /** On an empty buffer a read waits: `Closed` latches the flag and ends the
      stream (0 bytes), other events are skipped, and the first chunk becomes
      the buffer that the read then copies from. */
  lemma {:induction false} ReadWaitsForChunk(s: StreamState, want: nat)
    requires !s.closed && s.buffer == []
    ensures var r := ReadStep(s, want);
      match AwaitChunk(s.arrivals)
      case Starved =>
        r.outcome == Pending && Payload(s.arrivals) == []
      case ClosedSeen(rest) =>
        r.outcome == Ok(0) && r.after == s.(closed := true, arrivals := rest)
      case Chunked(c, rest) =>
        var n := if want <= |c| then want else |c|;
        && r.outcome == Ok(n) && r.delivered == c[..n]
        && r.after == s.(buffer := c[n..], arrivals := rest)
  {
    AwaitChunkPayload(s.arrivals);
    match AwaitChunk(s.arrivals)
    case Starved =>
    case ClosedSeen(rest) =>
    case Chunked(c, rest) =>
      if want > |c| {
        assert c[..|c|] == c && c[|c|..] == [];
      }
  }

  /** Reassembly loses and reorders nothing: the bytes a read delivers,
      followed by everything still unread, are what was unread before. */
  lemma ReadNoLoss(s: StreamState, want: nat)
    ensures var r := ReadStep(s, want); r.delivered + Unread(r.after) == Unread(s)
  {
    var r := ReadStep(s, want);
    if !s.closed {
      if s.buffer == [] {
        AwaitChunkPayload(s.arrivals);
        match AwaitChunk(s.arrivals)
        case Starved =>
        case ClosedSeen(rest) =>
        case Chunked(c, rest) =>
          if want <= |c| {
            assert c[..want] + c[want..] == c;
          }
      } else if want <= |s.buffer| {
        assert s.buffer[..want] + s.buffer[want..] == s.buffer;
      }
    }
  }

  /** A read returns at most what was asked for and at most one chunk, never
      reopens the stream, and once the stream is closed it returns 0. */
  lemma ReadBounds(s: StreamState, want: nat)
    ensures var r := ReadStep(s, want);
      && (r.outcome.Ok? ==> r.outcome.value == |r.delivered| <= want && r.outcome.value <= Capacity)
      && (s.closed ==> r.after.closed)
      && (r.after.closed ==> r.outcome == Ok(0))
      && r.after.responses == s.responses && r.after.events == s.events
  {
  }

  /** Reads of any sizes, one after another, deliver the unread bytes in order and lose none. */
  lemma {:induction false} ReadSequenceNoLoss(s: StreamState, wants: seq<nat>)
    ensures var r := ReadSequence(s, wants); r.0 + Unread(r.1) == Unread(s)
    decreases |wants|
  {
    if wants != [] {
      var first := ReadStep(s, wants[0]);
      ReadNoLoss(s, wants[0]);
      ReadSequenceNoLoss(first.after, wants[1..]);
      var rest := ReadSequence(first.after, wants[1..]);
      assert first.delivered + rest.0 + Unread(rest.1) == first.delivered + (rest.0 + Unread(rest.1));
    }
  }

  // ---------------------------------------------------------------------------
  // Properties of read_exact

  /** `read_exact` succeeds exactly when the slice is full; it fails with the error
      `Closed` only short of full (the flag need not be set, see
      `ReadExactEmptyChunk`); otherwise it is still waiting. */
  lemma {:induction false} ReadExactFills(s: StreamState, want: nat)
    ensures var r := ReadExactStep(s, want);
      && (r.outcome == Ok(()) <==> |r.delivered| == want)
      && (r.outcome.Err? ==> r.outcome == Err(TcpError.Closed) && |r.delivered| < want)
      && (r.outcome.Pending? ==> |r.delivered| < want)
      && (r.outcome.Ok? || r.outcome.Err? || r.outcome.Pending?)
      && |r.delivered| <= want
    decreases want
  {
    if want > 0 {
      var first := ReadStep(s, want);
      if first.outcome.Ok? && first.outcome.value > 0 {
        ReadExactFills(first.after, want - first.outcome.value);
      }
    }
  }

  /** `read_exact` hands over the unread bytes in order and loses none, also on failure. */
  lemma {:induction false} ReadExactNoLoss(s: StreamState, want: nat)
    ensures var r := ReadExactStep(s, want); r.delivered + Unread(r.after) == Unread(s)
    decreases want
  {
    var r := ReadExactStep(s, want);
    if want > 0 {
      var first := ReadStep(s, want);
      ReadNoLoss(s, want);
      ReadExactUnfold(s, want);
      if first.outcome.Ok? && first.outcome.value > 0 {
        var rest := ReadExactStep(first.after, want - first.outcome.value);
        ReadExactNoLoss(first.after, want - first.outcome.value);
        assert r.delivered == first.delivered + rest.delivered && r.after == rest.after;
        NoLossCompose(first.delivered, rest.delivered, Unread(s), Unread(first.after), Unread(rest.after));
      } else {
        assert r.delivered == first.delivered == [] && r.after == first.after;
      }
    }
  }

  /** Two hand-overs that each lose nothing lose nothing together. */
  lemma NoLossCompose(d1: seq<u8>, d2: seq<u8>, u0: seq<u8>, u1: seq<u8>, u2: seq<u8>)
    requires d1 + u1 == u0 && d2 + u2 == u1
    ensures (d1 + d2) + u2 == u0
  {
  }

  /** An empty payload chunk reads as 0 bytes, so `read_exact` reports `Closed`
      although the stream is still open and more payload is on its way. */
  lemma ReadExactEmptyChunk()
    ensures var s := StreamState(false, [], [], [], [Data([]), Data([1])]);
      var r := ReadExactStep(s, 1);
      && ReadStep(s, 1).outcome == Ok(0)
      && r.outcome == Err(TcpError.Closed) && !r.after.closed && Unread(r.after) == [1]
  {
    var s := StreamState(false, [], [], [], [Data([]), Data([1])]);
    assert AwaitChunk(s.arrivals) == Chunked([], [Data([1])]);
    assert Payload([Data([1])]) == [1];
  }

  /** On a closed stream `read_exact` of a non-empty slice fails with `Closed` and delivers nothing. */
  lemma ReadExactWhenClosed(s: StreamState, want: nat)
    requires s.closed && want > 0
    ensures ReadExactStep(s, want) == Step(Err(TcpError.Closed), [], [], s)
  {
  }

  // ---------------------------------------------------------------------------
  // Properties of close

  /** Closing a closed stream does nothing and writes nothing. */
  lemma CloseWhenClosed(s: StreamState, ordinal: nat)
    requires s.closed
    ensures CloseStep(s, ordinal) == Step(Ok(()), [], [], s)
  {
  }

  /** A close request too long for its `String<32>` makes `write!(..).unwrap()` panic, before any write. */
  lemma CloseOverflowPanics(s: StreamState, ordinal: nat)
    requires !s.closed && |CipClose(ordinal)| > CommandCapacity
    ensures CloseStep(s, ordinal) == Step(Panicked, [], [], s)
  {
  }

  /** Closing an open stream writes the `AT+CIPCLOSE` request once and then
      discards every event up to and including the first `Closed`. */
  lemma {:induction false} CloseDiscardsThroughClosed(s: StreamState, ordinal: nat)
    requires !s.closed && |CipClose(ordinal)| <= CommandCapacity
    ensures var r := CloseStep(s, ordinal);
      && r.wire == [Wrote(AsBytes(CipClose(ordinal)))]
      && (r.outcome == Ok(()) <==> TcpMessage.Closed in s.events)
      && (r.outcome.Ok? ==>
            var i := |s.events| - |r.after.events| - 1;
            && 0 <= i && s.events[i] == TcpMessage.Closed
            && TcpMessage.Closed !in s.events[..i]
            && r.after == s.(events := s.events[i + 1..]))
      && (!r.outcome.Ok? ==> r.outcome == Pending && r.after == s.(events := []))
  {
    AwaitClosedFinds(s.events);
  }

  // ---------------------------------------------------------------------------
  // A worked scenario

  const Ping: seq<u8> := [80, 73, 78, 71]
  const Pong: seq<u8> := [80, 79, 78, 71]

  /** Socket 2 sends `PING` through the prompt and a `SendSuccess`, then
      receives `PONG` and a `Closed`: two reads of 8 bytes give 4 bytes of
      `PONG`, then end of stream. */
  lemma PingPong()
    ensures
      var s := StreamState(false, [], ["> "], [TcpMessage.SendSuccess], [Data(Pong), Event(TcpMessage.Closed)]);
      var send := SendStep(s, 2, Ping);
      var first := ReadStep(send.after, 8);
      var second := ReadStep(first.after, 8);
      && send.outcome == Ok(())
      && send.wire == [Wrote(AsBytes("AT+CIPSEND=2,4\r")), Flushed, Wrote(Ping), Flushed]
      && first.outcome == Ok(4) && first.delivered == Pong
      && second.outcome == Ok(0) && second.after.closed
  {
    assert Dec(2) == "2" && Dec(4) == "4";
    assert CipSend(2, 4) == "AT+CIPSEND=2,4\r";
  }

  // ---------------------------------------------------------------------------
  // The caller's slice

  /** `a` with `d` written over it from index `lo` on. */
  function Splice(a: seq<u8>, lo: nat, d: seq<u8>): (r: seq<u8>)
    requires lo + |d| <= |a|
    ensures |r| == |a|
  {
    a[..lo] + d + a[lo + |d|..]
  }

  /** What a splice does to the caller's slice: `d` lands at `lo`, every other byte is kept. */
  lemma SpliceWrites(a: seq<u8>, lo: nat, d: seq<u8>)
    requires lo + |d| <= |a|
    ensures var r := Splice(a, lo, d);
      && r[lo..lo + |d|] == d
      && (forall i :: 0 <= i < lo ==> r[i] == a[i])
      && (forall i :: lo + |d| <= i < |a| ==> r[i] == a[i])
  {
    var r := Splice(a, lo, d);
    assert r == a[..lo] + d + a[lo + |d|..];
    forall i | lo + |d| <= i < |a|
      ensures r[i] == a[i]
    {
      assert r[i] == a[lo + |d|..][i - lo - |d|];
    }
  }

  /** Writing `d1` and then `d2` right after it is writing `d1 + d2`. */
  lemma SpliceTwice(a: seq<u8>, lo: nat, d1: seq<u8>, d2: seq<u8>)
    requires lo + |d1| + |d2| <= |a|
    ensures Splice(Splice(a, lo, d1), lo + |d1|, d2) == Splice(a, lo, d1 + d2)
  {
  }

  // ---------------------------------------------------------------------------
  // The objects

  /** The write side of the shared serial transport, as the log of calls made on it. */
  class Transport {
    var log: seq<WireEvent>

    constructor ()
      ensures log == []
    {
      log := [];
    }

    method WriteAll(bytes: seq<u8>)
      modifies this
      ensures log == old(log) + [Wrote(bytes)]
    {
      log := log + [Wrote(bytes)];
    }

    method Flush()
      modifies this
      ensures log == old(log) + [Flushed]
    {
      log := log + [Flushed];
    }
  }

  /** `TcpStream`: the socket's ordinal, the shared transport, the `closed`
      flag, the reassembly buffer (`storage[..len]`), and the input queues. */
  class TcpStream {
    const ordinal: nat
    const tx: Transport
    const storage: array<u8>
    var len: nat
    var closed: bool
    var responses: seq<string>
    var events: seq<TcpMessage>
    var arrivals: seq<Arrival>

    ghost predicate Valid()
      reads this
    {
      storage.Length == Capacity && len <= Capacity
    }

    /** The stream's state as a value. */
    function State(): (r: StreamState)
      reads this, storage
      requires Valid()
    {
      StreamState(closed, storage[..len], responses, events, arrivals)
    }

    /** An open stream with an empty buffer, on a connected socket. */
    constructor (ordinal: nat, tx: Transport, responses: seq<string>, events: seq<TcpMessage>, arrivals: seq<Arrival>)
      ensures Valid() && fresh(storage)
      ensures this.ordinal == ordinal && this.tx == tx
      ensures State() == StreamState(false, [], responses, events, arrivals)
    {
      this.ordinal := ordinal;
      this.tx := tx;
      storage := new u8[Capacity];
      len := 0;
      closed := false;
      this.responses := responses;
      this.events := events;
      this.arrivals := arrivals;
    }

    /** `send_tcp`. */
    method SendTcp(words: seq<u8>) returns (r: Outcome<()>)
      requires Valid()
      modifies this, tx
      ensures Valid()
      ensures var step := SendStep(old(State()), ordinal, words);
        r == step.outcome && State() == step.after && tx.log == old(tx.log) + step.wire
    {
      if closed {
        return Err(TcpError.Closed);
      }
      var cmd := CipSend(ordinal, |words|);
      if |cmd| > CommandCapacity {
        return Panicked;
      }
      tx.WriteAll(AsBytes(cmd));
      tx.Flush();

      var ready;
      ready, r := AwaitPromptLine();
      if !ready {
        return;
      }
      tx.WriteAll(words);
      tx.Flush();

      // the completion wait ends on its first event, whatever it is
      if events == [] {
        return Pending;
      }
      var event := events[0];
      events := events[1..];
      match event {
        case SendFail =>
          r := Err(TcpError.SendFail);
        case SendSuccess =>
          r := Ok(());
        case Closed =>
          closed := true;
          r := Err(TcpError.Closed);
        case _ =>
          r := Panicked;
      }
    }

    /** The wait of `send_tcp` for the `> ` prompt on the generic-response channel. */
    method AwaitPromptLine() returns (ready: bool, r: Outcome<()>)
      modifies this`responses
      ensures match AwaitPrompt(old(responses))
        case NoPrompt => !ready && r == Pending && responses == []
        case Rejected(rest) => !ready && r == Err(TcpError.SendFail) && responses == rest
        case Ready(rest) => ready && responses == rest
    {
      ready := false;
      r := Pending;
      while !ready
        invariant !ready ==> AwaitPrompt(responses) == AwaitPrompt(old(responses))
        invariant ready ==> AwaitPrompt(old(responses)) == Ready(responses)
        decreases |responses|
      {
        if responses == [] {
          return;
        }
        var line := responses[0];
        responses := responses[1..];
        if line == "> " {
          ready := true;
        } else if line == "ERROR" {
          return false, Err(TcpError.SendFail);
        }
      }
    }

    /** `self.buffer = rx_buffer`: the chunk becomes the buffer's contents. */
    method Load(chunk: Chunk)
      requires Valid()
      modifies this`len, storage
      ensures Valid() && storage[..len] == chunk
    {
      for i := 0 to |chunk|
        invariant storage[..i] == chunk[..i]
      {
        storage[i] := chunk[i];
      }
      len := |chunk|;
    }

    /** `copy_from_slice`: the first `n` buffered bytes into `read[lo..lo + n]`. */
    method CopyOut(read: array<u8>, lo: nat, n: nat)
      requires Valid() && read != storage && n <= len && lo + n <= read.Length
      modifies read
      ensures read[..] == Splice(old(read[..]), lo, storage[..n])
    {
      for i := 0 to n
        invariant read[..] == Splice(old(read[..]), lo, storage[..i])
      {
        read[lo + i] := storage[i];
        assert storage[..i + 1] == storage[..i] + [storage[i]];
      }
    }

    /** `rotate_left(k)` of the buffered bytes. */
    method RotateLeft(k: nat)
      requires Valid() && k <= len
      modifies storage
      ensures storage[..len] == old(storage[..len])[k..] + old(storage[..len])[..k]
    {
      var snapshot := storage[..len];
      for i := 0 to len
        invariant forall j :: 0 <= j < i ==> storage[j] == snapshot[if j + k < len then j + k else j + k - len]
      {
        storage[i] := snapshot[if i + k < len then i + k else i + k - len];
      }
      assert storage[..len] == snapshot[k..] + snapshot[..k] by {
        forall j | 0 <= j < len
          ensures storage[..len][j] == (snapshot[k..] + snapshot[..k])[j]
        {
          if j + k < len {
            assert (snapshot[k..] + snapshot[..k])[j] == snapshot[j + k];
          } else {
            assert (snapshot[k..] + snapshot[..k])[j] == snapshot[j + k - len];
          }
        }
      }
    }

    /** The wait of `inner_read` on an empty buffer: until a chunk arrives
        (`stop` is false and the chunk is the buffer) or `Closed` does. */
    method AwaitData() returns (stop: bool, r: Outcome<nat>)
      requires Valid() && !closed && len == 0
      modifies this, storage
      ensures Valid() && responses == old(responses) && events == old(events)
      ensures match AwaitChunk(old(arrivals))
        case Starved => stop && r == Pending && !closed && len == 0 && arrivals == []
        case ClosedSeen(rest) => stop && r == Ok(0) && closed && len == 0 && arrivals == rest
        case Chunked(c, rest) => !stop && !closed && storage[..len] == c && arrivals == rest
    {
      stop := false;
      r := Pending;
      var waiting := true;
      while waiting
        invariant Valid() && !closed
        invariant responses == old(responses) && events == old(events)
        invariant waiting ==> len == 0 && AwaitChunk(arrivals) == AwaitChunk(old(arrivals))
        invariant !waiting ==> AwaitChunk(old(arrivals)) == Chunked(storage[..len], arrivals)
        decreases |arrivals|
      {
        if arrivals == [] {
          return true, Pending;
        }
        var next := arrivals[0];
        arrivals := arrivals[1..];
        match next {
          case Data(chunk) =>
            Load(chunk);
            waiting := false;
          case Event(msg) =>
            if msg == TcpMessage.Closed {
              closed := true;
              return true, Ok(0);
            }
        }
      }
    }

    /** The copy of `inner_read` once the buffer holds a chunk: as much of it
        as `read[lo..hi]` takes; the rest moves to the front of the buffer. */
    method DeliverTo(read: array<u8>, lo: nat, hi: nat) returns (r: Outcome<nat>)
      requires Valid() && read != storage && lo <= hi <= read.Length
      modifies this`len, storage, read
      ensures Valid()
      ensures var step := Deliver(old(State()), hi - lo);
        && r == step.outcome && State() == step.after
        && lo + |step.delivered| <= hi
        && read[..] == Splice(old(read[..]), lo, step.delivered)
    {
      ghost var buffered := storage[..len];
      var want := hi - lo;
      if len >= want {
        CopyOut(read, lo, want);
        assert storage[..want] == buffered[..want];
        RotateLeft(want);
        len := len - want;
        assert storage[..len] == (buffered[want..] + buffered[..want])[..len];
        r := Ok(want);
      } else {
        var n := len;
        CopyOut(read, lo, n);
        assert storage[..n] == buffered;
        len := 0;
        r := Ok(n);
      }
    }

    /** `inner_read` into `read[lo..hi]`. */
    method InnerRead(read: array<u8>, lo: nat, hi: nat) returns (r: Outcome<nat>)
      requires Valid() && read != storage && lo <= hi <= read.Length
      modifies this, storage, read
      ensures Valid()
      ensures var step := ReadStep(old(State()), hi - lo);
        && r == step.outcome && State() == step.after
        && lo + |step.delivered| <= hi
        && read[..] == Splice(old(read[..]), lo, step.delivered)
    {
      if closed {
        return Ok(0);
      }
      if len == 0 {
        var stop;
        stop, r := AwaitData();
        if stop {
          return;
        }
      }
      r := DeliverTo(read, lo, hi);
    }

    /** One turn of the `read_exact` loop: a read into `read[cur..hi]`, where
        `done` is what the turns before filled in from `lo` on and `goal` the
        whole `read_exact`'s step; `next` is where the unfilled suffix now
        starts and `filled` is `done` with this turn's bytes. */
    method ReadExactTurn(read: array<u8>, lo: nat, cur: nat, hi: nat,
                         ghost goal: Step<()>, ghost original: seq<u8>, ghost done: seq<u8>)
      returns (n: Outcome<nat>, next: nat, ghost filled: seq<u8>)
      requires Valid() && read != storage && lo <= cur < hi <= read.Length && cur == lo + |done|
      requires |original| == read.Length && read[..] == Splice(original, lo, done)
      requires goal == Prepend(done, ReadExactStep(State(), hi - cur))
      modifies this, storage, read
      ensures Valid()
      ensures !n.Ok? ==> goal == Step(Forward(n), done, [], State()) && read[..] == Splice(original, lo, done)
      ensures n == Ok(0) ==> goal == Step(Err(TcpError.Closed), done, [], State()) && read[..] == Splice(original, lo, done)
      ensures n.Ok? && n.value > 0 ==>
        && next == cur + n.value <= hi && next == lo + |filled|
        && read[..] == Splice(original, lo, filled)
        && goal == Prepend(filled, ReadExactStep(State(), hi - next))
    {
      ghost var first := ReadStep(State(), hi - cur);
      ReadExactAdvance(goal, State(), hi - cur, done);
      SpliceTwice(original, lo, done, first.delivered);
      n := InnerRead(read, cur, hi);
      next := if n.Ok? then cur + n.value else cur;
      filled := done + first.delivered;
    }

    /** `inner_read_exact` into `read[lo..hi]`: reads into the unfilled suffix until it is full or a read returns 0. */
    method InnerReadExact(read: array<u8>, lo: nat, hi: nat) returns (r: Outcome<()>)
      requires Valid() && read != storage && lo <= hi <= read.Length
      modifies this, storage, read
      ensures Valid()
      ensures var step := ReadExactStep(old(State()), hi - lo);
        && r == step.outcome && State() == step.after
        && lo + |step.delivered| <= hi
        && read[..] == Splice(old(read[..]), lo, step.delivered)
    {
      ghost var goal := ReadExactStep(State(), hi - lo);
      ghost var original := read[..];
      ghost var done: seq<u8> := [];
      var cur := lo;
      while cur < hi
        invariant Valid() && lo <= cur <= hi && cur == lo + |done|
        invariant read[..] == Splice(original, lo, done)
        invariant goal == Prepend(done, ReadExactStep(State(), hi - cur))
        decreases hi - cur
      {
        var n, next;
        n, next, done := ReadExactTurn(read, lo, cur, hi, goal, original, done);
        if !n.Ok? {
          return Forward(n);
        }
        if n.value == 0 {
          return Err(TcpError.Closed);
        }
        cur := next;
      }
      r := Ok(());
    }

    /** `close`: unless already closed, the close request, then every event up to the first `Closed` is discarded. */
    method Close() returns (r: Outcome<()>)
      requires Valid()
      modifies this, tx
      ensures Valid()
      ensures var step := CloseStep(old(State()), ordinal);
        r == step.outcome && State() == step.after && tx.log == old(tx.log) + step.wire
    {
      if closed {
        return Ok(());
      }
      var cmd := CipClose(ordinal);
      if |cmd| > CommandCapacity {
        return Panicked;
      }
      tx.WriteAll(AsBytes(cmd));
      var waiting := true;
      while waiting
        invariant Valid() && !closed
        invariant len == old(len) && responses == old(responses) && arrivals == old(arrivals)
        invariant tx.log == old(tx.log) + [Wrote(AsBytes(cmd))]
        invariant waiting ==> AwaitClosed(events) == AwaitClosed(old(events))
        invariant !waiting ==> AwaitClosed(old(events)) == Some(events)
        decreases |events|
      {
        if events == [] {
          return Pending;
        }
        var event := events[0];
        events := events[1..];
        if event == TcpMessage.Closed {
          waiting := false;
        }
      }
      r := Ok(());
    }
  }
}
