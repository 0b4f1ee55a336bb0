/**
 The read loop as a fold of the admission step over a finite trace of
 lines, and what the fold guarantees: which lines are forwarded, in what
 order, and how far apart in time.
 */
module Trace {
  import opened Wrappers
  import opened Admission

  /** Final state, one verdict per line, and the readings handed off, in order. */
  datatype Outcome<R> = Outcome(state: State, verdicts: seq<Verdict>, forwarded: seq<R>)

  /** The loop run over the lines `t` from state `s`. */
  function Run<R>(s: State, t: seq<Event<R>>): (o: Outcome<R>)
    ensures |o.verdicts| == |t|
    ensures |o.forwarded| <= |t|
    ensures o.state.interval == s.interval
    decreases |t|
  {
    if |t| == 0 then Outcome(s, [], [])
    else
      var o := Run(s, t[..|t| - 1]);
      var e := t[|t| - 1];
      var r := Step(o.state, e);
      Outcome(r.0, o.verdicts + [r.1],
              if r.1.Admitted? then o.forwarded + [e.decoded.value] else o.forwarded)
  }

  /** Run two traces one after the other. */
  function Then<R>(o1: Outcome<R>, o2: Outcome<R>): Outcome<R>
  {
    Outcome(o2.state, o1.verdicts + o2.verdicts, o1.forwarded + o2.forwarded)
  }

  /** The positions of the admitted lines, in increasing order. */
  function AdmittedLines(v: seq<Verdict>): (idx: seq<nat>)
    ensures forall k :: 0 <= k < |idx| ==> idx[k] < |v| && v[idx[k]].Admitted?
    ensures forall k, l :: 0 <= k < l < |idx| ==> idx[k] < idx[l]
    ensures forall i :: 0 <= i < |v| && v[i].Admitted? ==> i in idx
  {
    if |v| == 0 then []
    else
      var p := AdmittedLines(v[..|v| - 1]);
      if v[|v| - 1].Admitted? then p + [|v| - 1] else p
  }

  /**
   The send time in force after lines `t` received verdicts `v`: the update
   reading of the last admitted line, or `start` when none was admitted.
   */
  function LastSendTime<R>(start: Time, t: seq<Event<R>>, v: seq<Verdict>): Time
    requires |v| == |t|
  {
    if |v| == 0 then start
    else if v[|v| - 1].Admitted? then t[|t| - 1].updateAt
    else LastSendTime(start, t[..|t| - 1], v[..|v| - 1])
  }

  /**
   Declarative description of the filter, with no state carried from line
   to line: a line is malformed exactly when it fails to decode, and admitted
   exactly when it decodes and its check reading is strictly later than the
   last admitted line's update reading (or the initial send time) plus the
   interval.
   */
  ghost predicate Justified<R>(s: State, t: seq<Event<R>>, v: seq<Verdict>)
  {
    && |v| == |t|
    && forall i :: 0 <= i < |t| ==>
         && (v[i].Malformed? <==> t[i].decoded.None?)
         && (v[i].Admitted? <==>
               t[i].decoded.Some? && t[i].checkAt > LastSendTime(s.sendTime, t[..i], v[..i]) + s.interval)
  }

  /** Extending a described trace by one line whose verdict fits the last send time before it. */
  lemma {:induction false} JustifiedSnoc<R>(s: State, t: seq<Event<R>>, v: seq<Verdict>)
    requires |v| == |t| > 0
    requires Justified(s, t[..|t| - 1], v[..|v| - 1])
    requires var n := |t| - 1;
             && (v[n].Malformed? <==> t[n].decoded.None?)
             && (v[n].Admitted? <==>
                   t[n].decoded.Some? && t[n].checkAt > LastSendTime(s.sendTime, t[..n], v[..n]) + s.interval)
    ensures Justified(s, t, v)
  {
    var n := |t| - 1;
    var t', v' := t[..n], v[..n];
    forall i | 0 <= i < n
      ensures v[i].Malformed? <==> t[i].decoded.None?
      ensures v[i].Admitted? <==>
                t[i].decoded.Some? && t[i].checkAt > LastSendTime(s.sendTime, t[..i], v[..i]) + s.interval
    {
      assert t'[..i] == t[..i] && v'[..i] == v[..i];
      assert t'[i] == t[i] && v'[i] == v[i];
    }
  }

  /** The loop's verdicts meet the declarative description, and its state is the last send time. */
  lemma {:induction false} RunIsJustified<R>(s: State, t: seq<Event<R>>)
    ensures Justified(s, t, Run(s, t).verdicts)
    ensures Run(s, t).state.sendTime == LastSendTime(s.sendTime, t, Run(s, t).verdicts)
    decreases |t|
  {
    if |t| > 0 {
      var n := |t| - 1;
      var o' := Run(s, t[..n]);
      RunIsJustified(s, t[..n]);
      var v := Run(s, t).verdicts;
      assert v[..n] == o'.verdicts;
      assert v[n] == Step(o'.state, t[n]).1;
      JustifiedSnoc(s, t, v);
    }
  }

  /** The description of a trace holds of every prefix of it. */
  lemma {:induction false} JustifiedPrefix<R>(s: State, t: seq<Event<R>>, v: seq<Verdict>, n: nat)
    requires Justified(s, t, v)
    requires n <= |t|
    ensures Justified(s, t[..n], v[..n])
  {
    var t', v' := t[..n], v[..n];
    forall i | 0 <= i < n
      ensures v'[i].Malformed? <==> t'[i].decoded.None?
      ensures v'[i].Admitted? <==>
                t'[i].decoded.Some? && t'[i].checkAt > LastSendTime(s.sendTime, t'[..i], v'[..i]) + s.interval
    {
      assert t'[..i] == t[..i];
      assert v'[..i] == v[..i];
    }
  }

  /** At most one verdict sequence meets the declarative description: the loop's. */
  lemma {:induction false} JustifiedUnique<R>(s: State, t: seq<Event<R>>, v: seq<Verdict>)
    requires Justified(s, t, v)
    ensures v == Run(s, t).verdicts
    decreases |t|
  {
    if |t| > 0 {
      var n := |t| - 1;
      JustifiedPrefix(s, t, v, n);
      JustifiedUnique(s, t[..n], v[..n]);
      RunIsJustified(s, t[..n]);
      var o' := Run(s, t[..n]);
      var r := Step(o'.state, t[n]);
      assert v[n] == r.1 by {
        assert LastSendTime(s.sendTime, t[..n], v[..n]) == o'.state.sendTime;
        assert v[n].Malformed? <==> r.1.Malformed?;
        assert v[n].Admitted? <==> r.1.Admitted?;
      }
      assert v == v[..n] + [v[n]];
    }
  }

  /** The declarative description, at one line of the loop's run. */
  lemma {:induction false} JustifiedAt<R>(s: State, t: seq<Event<R>>, j: nat)
    requires j < |t|
    ensures Run(s, t).verdicts[j].Malformed? <==> t[j].decoded.None?
    ensures Run(s, t).verdicts[j].Admitted? <==>
              t[j].decoded.Some? &&
              t[j].checkAt > LastSendTime(s.sendTime, t[..j], Run(s, t).verdicts[..j]) + s.interval
  {
    RunIsJustified(s, t);
  }

  /** A run of one line is one step. */
  lemma {:induction false} RunOne<R>(s: State, e: Event<R>)
    ensures Run(s, [e]).state == Step(s, e).0
    ensures Run(s, [e]).verdicts == [Step(s, e).1]
    ensures !Step(s, e).1.Admitted? ==> Run(s, [e]).forwarded == []
  {
  }

  /**
   Streaming: running a trace in two pieces is running it whole. The
   verdicts and hand-offs of a prefix are final once its lines are read.
   */
  lemma {:induction false} RunAppend<R>(s: State, a: seq<Event<R>>, b: seq<Event<R>>)
    ensures Run(s, a + b) == Then(Run(s, a), Run(Run(s, a).state, b))
    decreases |b|
  {
    if |b| == 0 {
      assert a + b == a;
    } else {
      var n := |b| - 1;
      assert (a + b)[..|a + b| - 1] == a + b[..n];
      assert (a + b)[|a + b| - 1] == b[n];
      RunAppend(s, a, b[..n]);
    }
  }

  /** The outcome of a prefix is a prefix of the outcome. */
  lemma {:induction false} RunPrefix<R>(s: State, t: seq<Event<R>>, k: nat)
    requires k <= |t|
    ensures Run(s, t[..k]).verdicts == Run(s, t).verdicts[..k]
    ensures Run(s, t[..k]).forwarded <= Run(s, t).forwarded
  {
    RunAppend(s, t[..k], t[k..]);
    assert t[..k] + t[k..] == t;
  }

  /** Line `k` gets the verdict of one step from the state the lines before it left. */
  lemma {:induction false} StepAt<R>(s: State, t: seq<Event<R>>, k: nat)
    requires k < |t|
    ensures Run(s, t).verdicts[k] == Step(Run(s, t[..k]).state, t[k]).1
    ensures Run(s, t[..k + 1]).state == Step(Run(s, t[..k]).state, t[k]).0
  {
    RunPrefix(s, t, k + 1);
    assert t[..k + 1][..k] == t[..k];
  }

  /** The last send time of a trace is the update reading of its last admitted line. */
  lemma {:induction false} LastSendTimeIsLastAdmission<R>(start: Time, t: seq<Event<R>>, v: seq<Verdict>, i: nat)
    requires |v| == |t| && i < |v| && v[i].Admitted?
    requires forall m :: i < m < |v| ==> !v[m].Admitted?
    ensures LastSendTime(start, t, v) == t[i].updateAt
    decreases |v|
  {
    if i < |v| - 1 {
      LastSendTimeIsLastAdmission(start, t[..|t| - 1], v[..|v| - 1], i);
    }
  }

  /** With no admitted line, the last send time is the initial one. */
  lemma {:induction false} LastSendTimeWithoutAdmission<R>(start: Time, t: seq<Event<R>>, v: seq<Verdict>)
    requires |v| == |t|
    requires forall m :: 0 <= m < |v| ==> !v[m].Admitted?
    ensures LastSendTime(start, t, v) == start
    decreases |v|
  {
    if |v| > 0 {
      LastSendTimeWithoutAdmission(start, t[..|t| - 1], v[..|v| - 1]);
    }
  }

  /** `f` lists the decoded readings of the lines of `t` at positions `idx`, in that order. */
  ghost predicate Selects<R>(t: seq<Event<R>>, idx: seq<nat>, f: seq<R>)
  {
    && |f| == |idx|
    && forall k :: 0 <= k < |idx| ==>
         idx[k] < |t| && t[idx[k]].decoded.Some? && f[k] == t[idx[k]].decoded.value
  }

  /** A selection from a prefix is a selection from the whole, and may take the next line too. */
  lemma {:induction false} SelectsSnoc<R>(t: seq<Event<R>>, idx: seq<nat>, f: seq<R>)
    requires |t| > 0
    requires Selects(t[..|t| - 1], idx, f)
    ensures Selects(t, idx, f)
    ensures t[|t| - 1].decoded.Some? ==>
              Selects(t, idx + [|t| - 1], f + [t[|t| - 1].decoded.value])
  {
  }

  /** Inductive core of `ForwardedAreAdmittedReadings`. */
  lemma {:induction false} SelectionOfRun<R>(s: State, t: seq<Event<R>>)
    ensures Selects(t, AdmittedLines(Run(s, t).verdicts), Run(s, t).forwarded)
    decreases |t|
  {
    if |t| > 0 {
      var n := |t| - 1;
      var o := Run(s, t);
      var o' := Run(s, t[..n]);
      SelectionOfRun(s, t[..n]);
      SelectsSnoc(t, AdmittedLines(o'.verdicts), o'.forwarded);
      assert o.verdicts[..n] == o'.verdicts;
    }
  }

  /**
   The forwarded readings are the decoded readings of the admitted lines, in
   line order: an in-order subsequence of the decoded readings in which each
   line appears at most once.
   */
  lemma {:induction false} ForwardedAreAdmittedReadings<R>(s: State, t: seq<Event<R>>)
    ensures |Run(s, t).forwarded| == |AdmittedLines(Run(s, t).verdicts)|
    ensures forall k :: 0 <= k < |AdmittedLines(Run(s, t).verdicts)| ==>
              && AdmittedLines(Run(s, t).verdicts)[k] < |t|
              && t[AdmittedLines(Run(s, t).verdicts)[k]].decoded.Some?
              && Run(s, t).forwarded[k] == t[AdmittedLines(Run(s, t).verdicts)[k]].decoded.value
  {
    SelectionOfRun(s, t);
  }

  /**
   Two admissions in a row are spaced: the later check reading is strictly
   later than the earlier update reading plus the interval, and so (the
   update reading of a line coming no earlier than its check reading) more
   than the interval after the earlier check reading.
   */
  lemma {:induction false} SpacingConsecutive<R>(s: State, t: seq<Event<R>>, i: nat, j: nat)
    requires i < j < |t|
    requires Run(s, t).verdicts[i].Admitted? && Run(s, t).verdicts[j].Admitted?
    requires forall m :: i < m < j ==> !Run(s, t).verdicts[m].Admitted?
    ensures t[j].checkAt > t[i].updateAt + s.interval
    ensures WellTimed(t[i]) ==> t[j].checkAt > t[i].checkAt + s.interval
    ensures WellTimed(t[j]) ==> t[j].updateAt > t[i].updateAt + s.interval
  {
    var v := Run(s, t).verdicts;
    JustifiedAt(s, t, j);
    LastSendTimeIsLastAdmission(s.sendTime, t[..j], v[..j], i);
  }

  /**
   Before anything has been admitted the gate is the initial deadline: a line
   with no admission before it is admitted exactly when it decodes and its
   check reading is strictly later than the initial send time plus the interval.
   */
  lemma {:induction false} GateBeforeFirstAdmission<R>(s: State, t: seq<Event<R>>, j: nat)
    requires j < |t|
    requires forall m :: 0 <= m < j ==> !Run(s, t).verdicts[m].Admitted?
    ensures Run(s, t).verdicts[j].Admitted? <==>
              t[j].decoded.Some? && t[j].checkAt > s.sendTime + s.interval
  {
    var v := Run(s, t).verdicts;
    JustifiedAt(s, t, j);
    LastSendTimeWithoutAdmission(s.sendTime, t[..j], v[..j]);
  }

  /**
   From the initial state, the first line that decodes is admitted exactly
   when its check reading is strictly later than the start time: admission
   of the first reading is not unconditional.
   */
  lemma {:induction false} FirstDecodedReading<R>(interval: int, start: Time, t: seq<Event<R>>, f: nat)
    requires f < |t| && t[f].decoded.Some?
    requires forall m :: 0 <= m < f ==> t[m].decoded.None?
    ensures Run(Initial(interval, start), t).verdicts[f].Admitted? <==> t[f].checkAt > start
  {
    var s := Initial(interval, start);
    forall m | 0 <= m < f
      ensures !Run(s, t).verdicts[m].Admitted?
    {
      JustifiedAt(s, t, m);
    }
    GateBeforeFirstAdmission(s, t, f);
  }

  /** With a non-negative interval and ordered readings per line, the send time never moves back. */
  lemma {:induction false} SendTimeMonotone<R>(s: State, t: seq<Event<R>>, k: nat, l: nat)
    requires s.interval >= 0
    requires forall m :: 0 <= m < |t| ==> WellTimed(t[m])
    requires k <= l <= |t|
    ensures Run(s, t[..k]).state.sendTime <= Run(s, t[..l]).state.sendTime
    decreases l - k
  {
    if k < l {
      SendTimeMonotone(s, t, k + 1, l);
      StepAt(s, t, k);
    }
  }

  /**
   With a non-negative interval, any two admissions, consecutive or not, are
   spaced by more than the interval, both in check and in update readings.
   */
  lemma {:induction false} SpacingPairwise<R>(s: State, t: seq<Event<R>>, i: nat, j: nat)
    requires s.interval >= 0
    requires forall m :: 0 <= m < |t| ==> WellTimed(t[m])
    requires i < j < |t|
    requires Run(s, t).verdicts[i].Admitted? && Run(s, t).verdicts[j].Admitted?
    ensures t[j].checkAt > t[i].updateAt + s.interval
    ensures t[j].updateAt > t[i].updateAt + s.interval
  {
    StepAt(s, t, i);
    StepAt(s, t, j);
    SendTimeMonotone(s, t, i + 1, j);
  }

  /** A line that is not admitted, at the head of a trace, changes nothing. */
  lemma {:induction false} SkipRejected<R>(s: State, e: Event<R>, post: seq<Event<R>>)
    requires !Step(s, e).1.Admitted?
    ensures Run(s, [e] + post).state == Run(s, post).state
    ensures Run(s, [e] + post).forwarded == Run(s, post).forwarded
  {
    RunOne(s, e);
    RunAppend(s, [e], post);
    assert [] + Run(s, post).forwarded == Run(s, post).forwarded;
  }

  /**
   A line that is not admitted leaves no trace: removing it from the input
   changes neither the final state nor the forwarded readings, so a dropped
   reading is never queued or retried.
   */
  lemma {:induction false} RejectedLineIsInvisible<R>(s: State, t: seq<Event<R>>, i: nat)
    requires i < |t|
    requires !Run(s, t).verdicts[i].Admitted?
    ensures Run(s, t[..i] + t[i + 1..]).state == Run(s, t).state
    ensures Run(s, t[..i] + t[i + 1..]).forwarded == Run(s, t).forwarded
  {
    var pre, rest, post := t[..i], t[i..], t[i + 1..];
    assert rest == [t[i]] + post;
    assert pre + rest == t;
    var o1 := Run(s, pre);
    StepAt(s, t, i);
    SkipRejected(o1.state, t[i], post);
    var whole := Run(o1.state, rest);
    var skipped := Run(o1.state, post);
    RunAppend(s, pre, rest);
    assert Run(s, t) == Then(o1, whole);
    RunAppend(s, pre, post);
    assert Run(s, pre + post) == Then(o1, skipped);
  }

  /**
   Rate bound: each admission moves the send time forward by more than the
   interval, so after `n > 0` admissions it is more than `n` intervals past
   where it started, and it is the update reading of some line.
   */
  lemma {:induction false} SendTimeAdvance<R>(s: State, t: seq<Event<R>>)
    requires forall m :: 0 <= m < |t| ==> WellTimed(t[m])
    ensures |Run(s, t).forwarded| == 0 ==> Run(s, t).state == s
    ensures |Run(s, t).forwarded| > 0 ==>
              Run(s, t).state.sendTime > s.sendTime + |Run(s, t).forwarded| * s.interval
    ensures |Run(s, t).forwarded| > 0 ==>
              exists m :: 0 <= m < |t| && t[m].updateAt == Run(s, t).state.sendTime
    decreases |t|
  {
    if |t| > 0 {
      var n := |t| - 1;
      SendTimeAdvance(s, t[..n]);
      var o' := Run(s, t[..n]);
      var o := Run(s, t);
      if |o.forwarded| > |o'.forwarded| {
        var f := |o'.forwarded|;
        assert (f + 1) * s.interval == f * s.interval + s.interval;
        assert t[n].updateAt == o.state.sendTime;
      } else if |o.forwarded| > 0 {
        var m :| 0 <= m < n && t[..n][m].updateAt == o'.state.sendTime;
        assert t[m].updateAt == o.state.sendTime;
      }
    }
  }

  /**
   From the initial state, when every clock reading is at most `end`, the
   admissions fit the window: `n` admissions need more than `n - 1`
   intervals after the start time, so with a positive interval at most one
   reading is forwarded per interval elapsed, plus one.
   */
  lemma {:induction false} AdmissionCountBound<R>(interval: int, start: Time, end: Time, t: seq<Event<R>>)
    requires forall m :: 0 <= m < |t| ==> WellTimed(t[m]) && t[m].updateAt <= end
    requires |Run(Initial(interval, start), t).forwarded| > 0
    ensures (|Run(Initial(interval, start), t).forwarded| - 1) * interval < end - start
  {
    var s := Initial(interval, start);
    SendTimeAdvance(s, t);
    var n := |Run(s, t).forwarded|;
    assert (n - 1) * interval == n * interval - interval;
  }

  /**
   The clock never runs backwards: from `from` on, each line's check reading
   comes no earlier than the previous line's update reading.
   */
  ghost predicate ClockFrom<R>(from: Time, t: seq<Event<R>>)
  {
    && (forall m :: 0 <= m < |t| ==> WellTimed(t[m]))
    && (forall m :: 0 < m < |t| ==> t[m - 1].updateAt <= t[m].checkAt)
    && (|t| > 0 ==> from <= t[0].checkAt)
  }

  /**
   With a negative interval (as a wrapped-around interval flag yields) and a
   clock that never runs backwards, the filter throttles nothing once the
   first check reading is past the initial deadline: every line that decodes
   is admitted. After any line, the send time plus the interval stays below
   that line's update reading, which keeps the next gate open.
   */
  lemma {:induction false} NegativeIntervalNeverThrottles<R>(s: State, t: seq<Event<R>>)
    requires s.interval < 0
    requires ClockFrom(s.sendTime + s.interval + 1, t)
    ensures forall i :: 0 <= i < |t| ==> (Run(s, t).verdicts[i].Admitted? <==> t[i].decoded.Some?)
    ensures |t| > 0 ==> Run(s, t).state.sendTime + s.interval < t[|t| - 1].updateAt
    ensures |Run(s, t).forwarded| == 0 ==> Run(s, t).state == s
    ensures |Run(s, t).forwarded| > 0 ==> Run(s, t).state.sendTime <= t[|t| - 1].updateAt
    decreases |t|
  {
    if |t| > 0 {
      var n := |t| - 1;
      assert ClockFrom(s.sendTime + s.interval + 1, t[..n]);
      NegativeIntervalNeverThrottles(s, t[..n]);
      assert Run(s, t).verdicts[..n] == Run(s, t[..n]).verdicts;
      if |Run(s, t[..n]).forwarded| > 0 && !Run(s, t).verdicts[n].Admitted? {
        assert Run(s, t).state.sendTime <= t[n - 1].updateAt;
      }
    }
  }

  /**
   From the initial state with a negative interval, when the clock never
   runs backwards from the start time and the first line is checked strictly
   after it, every line that decodes is admitted.
   */
  lemma {:induction false} NegativeIntervalFromStart<R>(interval: int, start: Time, t: seq<Event<R>>)
    requires interval < 0
    requires ClockFrom(start, t)
    requires |t| > 0 ==> t[0].checkAt > start
    ensures forall i :: 0 <= i < |t| ==>
              (Run(Initial(interval, start), t).verdicts[i].Admitted? <==> t[i].decoded.Some?)
  {
    NegativeIntervalNeverThrottles(Initial(interval, start), t);
  }

  /**
   The strict gate is not relaxed by a negative interval: from the initial
   state, a first line checked at exactly the start time is dropped.
   */
  lemma NegativeIntervalStartTie()
    ensures Run(Initial(-5, 0), [Event(Some(7), 0, 0)]).verdicts == [Dropped]
  {
  }
}
