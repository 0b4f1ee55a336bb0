/**
 The pipeline driver's read loop: the interval from the flag, the initial
 send time, and one pass over the input lines, logging the ones that fail to
 decode and handing off the ones the filter admits.
 */
module Driver {
  import opened Wrappers
  import opened Duration
  import opened Records
  import opened Admission
  import opened Trace

  /**
   The loop of `main`, line by line, in its corrected form: a line that
   reads `null` arrives as `None` and is logged and skipped like a decode
   error (the loop as written is `Decoding.RunAsWritten`). `submitInterval` is the duration built
   from the flag (`SubmitInterval`); `start` is the clock reading taken when
   the send time is initialised; `sent` are the readings handed to the
   delivery worker, in hand-off order; `logged` are the positions of the lines
   whose decode error was logged.
   */
  method ReadLoop<R>(submitInterval: int64, start: Time, lines: seq<Event<R>>)
    returns (sent: seq<R>, sendTime: Time, logged: seq<nat>)
    ensures sent == Run(Initial(submitInterval as int, start), lines).forwarded
    ensures sendTime == Run(Initial(submitInterval as int, start), lines).state.sendTime
    ensures forall i :: i in logged <==> 0 <= i < |lines| && lines[i].decoded.None?
    ensures forall k, l :: 0 <= k < l < |logged| ==> logged[k] < logged[l]
  {
    var interval := submitInterval as int;
    sendTime := start - interval;
    sent := [];
    logged := [];
    var i := 0;
    while i < |lines|
      invariant 0 <= i <= |lines|
      invariant Run(Initial(interval, start), lines[..i]).state == State(interval, sendTime)
      invariant Run(Initial(interval, start), lines[..i]).forwarded == sent
      invariant forall j :: j in logged <==> 0 <= j < i && lines[j].decoded.None?
      invariant forall k, l :: 0 <= k < l < |logged| ==> logged[k] < logged[l]
      invariant forall k :: 0 <= k < |logged| ==> logged[k] < i
    {
      assert lines[..i + 1][..i] == lines[..i];
      var e := lines[i];
      if e.decoded.None? {
        logged := logged + [i];
      } else if e.checkAt > sendTime + interval {
        sendTime := e.updateAt;
        sent := sent + [e.decoded.value];
      }
      i := i + 1;
    }
    assert lines[..i] == lines;
  }

  const Seconds: int := Second as int

  /** A reading of the sensor with the given sequence number, wind, temperature and humidity. */
  function SensorLine(sequenceNum: int64, windSpeedMph: Float32, temperatureF: Float32, humidity: int64): InputRecord
  {
    InputRecord("2018-12-22 16:31:14", "Acurite 3n1 sensor", 2618, "A", sequenceNum, "LOW", 32,
                windSpeedMph, temperatureF, humidity)
  }

  // 51.0 F, 2.654 mph, 70 %; 68.0 F, 5.0 mph, 50 %; 32.0 F, 0.0 mph, 90 %
  const EarlyReading: InputRecord := SensorLine(1, 0x4029_DB23, 0x424C_0000, 70)
  const MiddleReading: InputRecord := SensorLine(2, 0x40A0_0000, 0x4288_0000, 50)
  const LateReading: InputRecord := SensorLine(3, 0x0000_0000, 0x4200_0000, 90)

  /**
   With a 30 second interval and readings 1 ns, 10 s and 35 s after the
   start, the first and the third are handed off and the second is dropped.
   */
  lemma ThrottleScenario()
    ensures var t := [Event(Some(EarlyReading), 1, 1),
                      Event(Some(MiddleReading), 10 * Seconds, 10 * Seconds),
                      Event(Some(LateReading), 35 * Seconds, 35 * Seconds)];
            Run(Initial(30 * Seconds, 0), t).forwarded == [EarlyReading, LateReading]
  {
    var t := [Event(Some(EarlyReading), 1, 1),
              Event(Some(MiddleReading), 10 * Seconds, 10 * Seconds),
              Event(Some(LateReading), 35 * Seconds, 35 * Seconds)];
    var s := Initial(30 * Seconds, 0);
    assert t[..2][..1][..0] == [];
    assert Run(s, t[..1]).forwarded == [EarlyReading];
    assert Run(s, t[..2]).forwarded == [EarlyReading];
  }

  /**
   The same readings with the first one checked at exactly the start time:
   the first is dropped because the gate is strict, the send time stays where
   it was, so the 10 s reading is handed off and the 35 s one falls within
   the interval after it.
   */
  lemma StartTieScenario()
    ensures var t := [Event(Some(EarlyReading), 0, 0),
                      Event(Some(MiddleReading), 10 * Seconds, 10 * Seconds),
                      Event(Some(LateReading), 35 * Seconds, 35 * Seconds)];
            Run(Initial(30 * Seconds, 0), t).forwarded == [MiddleReading]
  {
    var t := [Event(Some(EarlyReading), 0, 0),
              Event(Some(MiddleReading), 10 * Seconds, 10 * Seconds),
              Event(Some(LateReading), 35 * Seconds, 35 * Seconds)];
    var s := Initial(30 * Seconds, 0);
    assert t[..2][..1][..0] == [];
    assert Run(s, t[..1]).forwarded == [];
    assert Run(s, t[..2]).forwarded == [MiddleReading];
  }

  /**
   A malformed line between two valid ones does not stop the loop: both
   valid readings, 31 s apart, are handed off and the malformed line is skipped.
   */
  lemma MalformedScenario()
    ensures var t := [Event(Some(EarlyReading), 1, 1),
                      Event(None, 2, 2),
                      Event(Some(LateReading), 31 * Seconds + 2, 31 * Seconds + 2)];
            && Run(Initial(30 * Seconds, 0), t).forwarded == [EarlyReading, LateReading]
            && Run(Initial(30 * Seconds, 0), t).verdicts == [Admitted, Malformed, Admitted]
  {
    var t := [Event(Some(EarlyReading), 1, 1),
              Event(None, 2, 2),
              Event(Some(LateReading), 31 * Seconds + 2, 31 * Seconds + 2)];
    var s := Initial(30 * Seconds, 0);
    assert t[..2][..1][..0] == [];
    assert Run(s, t[..1]).forwarded == [EarlyReading];
    assert Run(s, t[..2]).forwarded == [EarlyReading];
  }
}
