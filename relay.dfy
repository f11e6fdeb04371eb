/** The modem driver's error type and the resynchronising drain of the
    serial relay, run after a command's response timed out or failed to
    decode so that the next command starts on a clean line boundary. */
module Relay {

  datatype Error<S> = DecodingFailed | SerialError(cause: S) | Timeout | BufferOverflow | ConnectFailed

  /** Every serial error converts into the `SerialError` variant, carrying it unchanged. */
  function FromSerial<S>(value: S): (e: Error<S>)
    ensures e.SerialError? && e.cause == value
  {
    SerialError(value)
  }

  /** The conversion keeps errors apart: telling two converted errors apart tells the causes apart. */
  lemma FromSerialInjective<S>(a: S, b: S)
    requires FromSerial(a) == FromSerial(b)
    ensures a == b
  {
  }

  datatype Result<T, E> = Ok(value: T) | Err(error: E)

  /** A timeout in milliseconds, kept as an opaque number. */
  type Milliseconds = nat

  /** What one timed single-byte `read_exact` on the relay reports:
      `Ok(Some(()))`, `Ok(None)` (nothing arrived in time) or `Err(e)`. */
  datatype ReadOutcome<E> = Byte | NoData | Failed(error: E)

  /** The relay eventually stops delivering bytes. */
  predicate EventuallyStops<E>(outcomes: seq<ReadOutcome<E>>) {
    exists i :: 0 <= i < |outcomes| && !outcomes[i].Byte?
  }

  /** `drain_relay`: performs the reads that `outcomes` answer, in order, and returns
      the result together with the timeout passed to each read it made. */
  method DrainRelay<E>(outcomes: seq<ReadOutcome<E>>, timeout: Milliseconds)
    returns (res: Result<bool, E>, timeouts: seq<Milliseconds>)
    requires EventuallyStops(outcomes)
    ensures 1 <= |timeouts| <= |outcomes|
    ensures forall i :: 0 <= i < |timeouts| - 1 ==> outcomes[i].Byte?
    ensures !outcomes[|timeouts| - 1].Byte?
    ensures timeouts[0] == timeout
    ensures forall i :: 1 <= i < |timeouts| ==> timeouts[i] == 0
    ensures outcomes[|timeouts| - 1].Failed? ==> res == Err(outcomes[|timeouts| - 1].error)
    ensures outcomes[|timeouts| - 1].NoData? ==> res == Ok(|timeouts| > 1)
  {
    var wait := timeout;
    var drained := false;
    var n := 0;
    timeouts := [];
    while true
      invariant 0 <= n < |outcomes| && |timeouts| == n
      invariant forall i :: 0 <= i < n ==> outcomes[i].Byte?
      invariant forall i :: 0 <= i < n ==> timeouts[i] == if i == 0 then timeout else 0
      invariant wait == if n == 0 then timeout else 0
      invariant drained <==> n > 0
      decreases |outcomes| - n
    {
      timeouts := timeouts + [wait];
      match outcomes[n] {
        case Failed(error) =>
          return Err(error), timeouts;
        case NoData =>
          return Ok(drained), timeouts;
        case Byte =>
          drained := true;
      }
      // every later read must not block
      wait := 0;
      n := n + 1;
    }
  }
}
