/**
 The admission filter of the read loop: one integer of state, the last send
 time, and a gate that lets a decoded reading through only when the clock is
 strictly past `sendTime + interval`.
 */
module Admission {
  import opened Wrappers

  /** A reading of Go's monotonic clock, in nanoseconds. */
  type Time = int

  /**
   One input line as the loop sees it: the outcome of decoding it, and the
   two clock readings the loop takes for it, first for the gate and then for
   the new send time. For a line that fails to decode the loop reads no
   clock, and the two readings are ignored.
   */
  datatype Event<R> = Event(decoded: Option<R>, checkAt: Time, updateAt: Time)

  /** What became of one line. */
  datatype Verdict = Malformed | Dropped | Admitted

  /** The filter's state: the fixed interval and the last send time. */
  datatype State = State(interval: int, sendTime: Time)

  /** The clock readings of one line are taken in order: the update after the check. */
  predicate WellTimed<R>(e: Event<R>)
  {
    e.checkAt <= e.updateAt
  }

  /**
   The state before the first line: the send time is the start time minus
   the interval, so the first gate opens strictly after the start time.
   `Trace.FirstDecodedReading` states what this means for the first reading.
   */
  function Initial(interval: int, start: Time): (s: State)
    ensures s.interval == interval
    ensures s.sendTime + s.interval == start
  {
    State(interval, start - interval)
  }

  /** `now.After(sendTime.Add(interval))`: strictly later than the deadline. */
  predicate Admits(s: State, now: Time)
  {
    now > s.sendTime + s.interval
  }

  /** One iteration of the loop body, for one line. */
  function Step<R>(s: State, e: Event<R>): (r: (State, Verdict))
    ensures r.0.interval == s.interval
    ensures r.1.Malformed? <==> e.decoded.None?
    ensures r.1.Admitted? <==> e.decoded.Some? && e.checkAt > s.sendTime + s.interval
    ensures r.1.Admitted? ==> r.0.sendTime == e.updateAt
    ensures !r.1.Admitted? ==> r.0 == s
    ensures WellTimed(e) && r.1.Admitted? ==> r.0.sendTime > s.sendTime + s.interval
  {
    match e.decoded
    case None => (s, Malformed)
    case Some(_) =>
      if Admits(s, e.checkAt) then (State(s.interval, e.updateAt), Admitted)
      else (s, Dropped)
  }
}
