/**
 What decoding a line into the loop's reused record pointer can yield, and
 the loop as written over those outcomes. Besides an error and a record,
 `json.Unmarshal` accepts the line `null`: it reports no error and sets the
 record pointer to nil, and handing off `*inputJson` then dereferences nil.
 */
module Decoding {
  import opened Wrappers
  import opened Admission
  import opened Trace

  /** The outcome of `json.Unmarshal([]byte(line), &inputJson)`. */
  datatype Decoded<R> = Failed | Null | Record(reading: R)

  /** One input line with its decode outcome and the loop's two clock readings. */
  datatype RawEvent<R> = RawEvent(decoded: Decoded<R>, checkAt: Time, updateAt: Time)

  /**
   The loop as written: the state, the readings handed off, how many lines
   were read, and whether the loop stopped on a nil dereference.
   */
  datatype Written<R> = Written(state: State, forwarded: seq<R>, read: nat, panicked: bool)

  /**
   The loop of `main` over raw decode outcomes. A `null` line passes the
   error check; if the gate is open the send time is reset, and the hand-off
   of the nil record stops the program before any further line is read.
   */
  function RunAsWritten<R>(s: State, t: seq<RawEvent<R>>): (w: Written<R>)
    ensures w.read <= |t|
    ensures !w.panicked ==> w.read == |t|
    ensures w.panicked ==> 1 <= w.read && t[w.read - 1].decoded.Null?
    ensures w.state.interval == s.interval
    decreases |t|
  {
    if |t| == 0 then Written(s, [], 0, false)
    else
      var w := RunAsWritten(s, t[..|t| - 1]);
      var e := t[|t| - 1];
      if w.panicked then w
      else match e.decoded
        case Failed => Written(w.state, w.forwarded, w.read + 1, false)
        case Null =>
          if Admits(w.state, e.checkAt) then Written(State(s.interval, e.updateAt), w.forwarded, w.read + 1, true)
          else Written(w.state, w.forwarded, w.read + 1, false)
        case Record(r) =>
          if Admits(w.state, e.checkAt) then Written(State(s.interval, e.updateAt), w.forwarded + [r], w.read + 1, false)
          else Written(w.state, w.forwarded, w.read + 1, false)
  }

  /** The intended reading of a line: a `null` line is skipped like one that fails to decode. */
  function Normalize<R>(e: RawEvent<R>): (n: Event<R>)
    ensures n.decoded.Some? <==> e.decoded.Record?
    ensures e.decoded.Record? ==> n.decoded.value == e.decoded.reading
    ensures n.checkAt == e.checkAt && n.updateAt == e.updateAt
  {
    match e.decoded
    case Record(r) => Event(Some(r), e.checkAt, e.updateAt)
    case _ => Event(None, e.checkAt, e.updateAt)
  }

  /** `Normalize` applied to every line. */
  function NormalizeAll<R>(t: seq<RawEvent<R>>): (n: seq<Event<R>>)
    ensures |n| == |t|
    ensures forall i :: 0 <= i < |t| ==> n[i] == Normalize(t[i])
  {
    seq(|t|, i requires 0 <= i < |t| => Normalize(t[i]))
  }

  /** Normalising a prefix is the prefix of the normalised trace. */
  lemma {:induction false} NormalizePrefix<R>(t: seq<RawEvent<R>>, k: nat)
    requires k <= |t|
    ensures NormalizeAll(t[..k]) == NormalizeAll(t)[..k]
  {
  }

  /**
   One more line read while the loop as written is still running keeps it in
   step with the corrected loop.
   */
  lemma LastLineAgrees<R>(s: State, t: seq<RawEvent<R>>)
    requires |t| > 0
    requires !RunAsWritten(s, t[..|t| - 1]).panicked
    requires RunAsWritten(s, t[..|t| - 1]).state == Run(s, NormalizeAll(t[..|t| - 1])).state
    requires RunAsWritten(s, t[..|t| - 1]).forwarded == Run(s, NormalizeAll(t[..|t| - 1])).forwarded
    ensures RunAsWritten(s, t).read == |t|
    ensures RunAsWritten(s, t).forwarded == Run(s, NormalizeAll(t)).forwarded
    ensures !RunAsWritten(s, t).panicked ==> RunAsWritten(s, t).state == Run(s, NormalizeAll(t)).state
  {
    var n := |t| - 1;
    var nt := NormalizeAll(t);
    NormalizePrefix(t, n);
    assert nt[..|nt| - 1] == NormalizeAll(t[..n]);
    var o := Run(s, NormalizeAll(t[..n]));
    var r := Step(o.state, Normalize(t[n]));
    assert Run(s, nt).state == r.0;
    assert Run(s, nt).forwarded == if r.1.Admitted? then o.forwarded + [t[n].decoded.reading] else o.forwarded;
  }

  /**
   Up to the point where it stops, the loop as written hands off what the
   corrected loop hands off for the lines it read, and when it does not stop
   it ends in the corrected loop's state.
   */
  lemma {:induction false} AsWrittenAgreesUntilPanic<R>(s: State, t: seq<RawEvent<R>>)
    ensures RunAsWritten(s, t).forwarded == Run(s, NormalizeAll(t[..RunAsWritten(s, t).read])).forwarded
    ensures !RunAsWritten(s, t).panicked ==> RunAsWritten(s, t).state == Run(s, NormalizeAll(t)).state
    decreases |t|
  {
    if |t| > 0 {
      var n := |t| - 1;
      var w := RunAsWritten(s, t[..n]);
      AsWrittenAgreesUntilPanic(s, t[..n]);
      if w.panicked {
        assert RunAsWritten(s, t) == w;
        assert t[..n][..w.read] == t[..w.read];
        assert RunAsWritten(s, t).forwarded == Run(s, NormalizeAll(t[..w.read])).forwarded;
      } else {
        assert t[..n][..w.read] == t[..n];
        LastLineAgrees(s, t);
        assert t[..|t|] == t;
      }
    }
  }

  /**
   Line `i` stops the loop: it reads `null`, and the state the corrected loop
   reaches on the lines before it has an open gate at its check reading.
   */
  predicate StopsAt<R>(s: State, t: seq<RawEvent<R>>, i: int)
  {
    0 <= i < |t| && t[i].decoded.Null? && Admits(Run(s, NormalizeAll(t[..i])).state, t[i].checkAt)
  }

  /** Whether a line stops the loop depends only on the lines up to it. */
  lemma StopsAtPrefix<R>(s: State, t: seq<RawEvent<R>>, n: nat, j: int)
    requires 0 <= j < n <= |t|
    ensures StopsAt(s, t[..n], j) <==> StopsAt(s, t, j)
  {
    assert t[..n][..j] == t[..j];
  }

  /**
   The last line, read with the loop still running, stops it exactly when
   it reads `null` and meets an open gate.
   */
  lemma LastLineStops<R>(s: State, t: seq<RawEvent<R>>)
    requires |t| > 0
    requires !RunAsWritten(s, t[..|t| - 1]).panicked
    requires RunAsWritten(s, t[..|t| - 1]).state == Run(s, NormalizeAll(t[..|t| - 1])).state
    ensures RunAsWritten(s, t).read == |t|
    ensures RunAsWritten(s, t).panicked <==> StopsAt(s, t, |t| - 1)
  {
  }

  /**
   The loop as written stops exactly when some `null` line meets an open
   gate, and then it stops on the first such line.
   */
  lemma {:induction false} PanicsIffNullAdmitted<R>(s: State, t: seq<RawEvent<R>>)
    ensures RunAsWritten(s, t).panicked <==> exists i :: StopsAt(s, t, i)
    ensures RunAsWritten(s, t).panicked ==> StopsAt(s, t, RunAsWritten(s, t).read - 1)
    ensures RunAsWritten(s, t).panicked ==>
              forall j :: 0 <= j < RunAsWritten(s, t).read - 1 ==> !StopsAt(s, t, j)
    decreases |t|
  {
    if |t| > 0 {
      var n := |t| - 1;
      var w := RunAsWritten(s, t[..n]);
      PanicsIffNullAdmitted(s, t[..n]);
      if w.panicked {
        assert RunAsWritten(s, t) == w;
        StopsAtPrefix(s, t, n, w.read - 1);
        forall j | 0 <= j < w.read - 1
          ensures !StopsAt(s, t, j)
        {
          StopsAtPrefix(s, t, n, j);
        }
      } else {
        forall j | 0 <= j < n
          ensures !StopsAt(s, t, j)
        {
          StopsAtPrefix(s, t, n, j);
        }
        AsWrittenAgreesUntilPanic(s, t[..n]);
        LastLineStops(s, t);
      }
    }
  }

  /** Without a `null` line the loop as written never stops early and agrees with the corrected loop. */
  lemma {:induction false} NoNullNoPanic<R>(s: State, t: seq<RawEvent<R>>)
    requires forall i :: 0 <= i < |t| ==> !t[i].decoded.Null?
    ensures !RunAsWritten(s, t).panicked
    ensures RunAsWritten(s, t).state == Run(s, NormalizeAll(t)).state
    ensures RunAsWritten(s, t).forwarded == Run(s, NormalizeAll(t)).forwarded
  {
    var w := RunAsWritten(s, t);
    AsWrittenAgreesUntilPanic(s, t);
    assert t[..w.read] == t;
  }

  /**
   The discrepancy: with a 30 second interval, a `null` first line checked
   after the start stops the program, so the valid line after it is never
   read, while the corrected loop skips the `null` and hands the valid
   reading off.
   */
  lemma NullLinePanics()
    ensures var t := [RawEvent(Null, 1, 1), RawEvent(Record(7), 2, 2)];
            && RunAsWritten(Initial(30_000_000_000, 0), t).panicked
            && RunAsWritten(Initial(30_000_000_000, 0), t).read == 1
            && RunAsWritten(Initial(30_000_000_000, 0), t).forwarded == []
            && Run(Initial(30_000_000_000, 0), NormalizeAll(t)).forwarded == [7]
  {
    var t := [RawEvent(Null, 1, 1), RawEvent(Record(7), 2, 2)];
    var s := Initial(30_000_000_000, 0);
    assert t[..1][..0] == [];
    var n := [Event(None, 1, 1), Event(Some(7), 2, 2)];
    assert NormalizeAll(t) == n;
    assert n[..1][..0] == [];
    assert n[..1] == [Event(None, 1, 1)];
    assert Run(s, n[..1]).state == s && Run(s, n[..1]).forwarded == [];
  }

  /**
   The corrected loop reads every line: it gives each line a verdict, skips
   and logs every `null` line as malformed, and hands off only readings of
   lines that decoded to a record, each as that line's reading.
   */
  lemma CorrectedSkipsNull<R>(s: State, t: seq<RawEvent<R>>)
    ensures |Run(s, NormalizeAll(t)).verdicts| == |t|
    ensures forall i :: 0 <= i < |t| ==>
              (t[i].decoded.Null? || t[i].decoded.Failed?) ==> Run(s, NormalizeAll(t)).verdicts[i].Malformed?
    ensures forall i :: 0 <= i < |t| && Run(s, NormalizeAll(t)).verdicts[i].Admitted? ==>
              t[i].decoded.Record?
  {
    var n := NormalizeAll(t);
    forall i | 0 <= i < |t|
      ensures (t[i].decoded.Null? || t[i].decoded.Failed?) ==> Run(s, n).verdicts[i].Malformed?
      ensures Run(s, n).verdicts[i].Admitted? ==> t[i].decoded.Record?
    {
      JustifiedAt(s, n, i);
    }
  }
}
