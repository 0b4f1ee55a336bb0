# Throttled sensor ingestion: the admission filter and read loop

This project models the core of `weather2bq`. That program reads
line-delimited JSON sensor readings from standard input. It forwards at most
one reading per configured interval to a background worker, which uploads it
to BigQuery. The model covers the part of `main` that decides what is
forwarded:

- building the submit interval from the `-interval` flag, an `int64`
  nanosecond `time.Duration` with Go's wrap-around;
- the initial send time, `now - interval`;
- the read loop, which logs and skips lines that fail to decode, and stops
  with a nil dereference when a line reading `null` passes the gate;
- the strict gate `time.Now().After(sendTime.Add(interval))`;
- resetting `sendTime` to a fresh clock reading before the hand-off.

The loop is a pure fold (`Trace.Run`) of a step function (`Admission.Step`)
over a finite trace of lines. Each line is an `Event`: the outcome of
decoding it (`Option<R>`), and the two clock readings the loop takes for it,
one for the gate (`checkAt`) and one for the new send time (`updateAt`).
In this fold a line reading `null` counts as a decode error. The program as
written stops on such a line if it passes the gate; `Decoding.RunAsWritten`
models that, and "Findings" explains it.
Clock readings are integer nanoseconds of Go's monotonic clock and enter as
parameters. Where a property needs the readings in order, that is stated as a
precondition: `WellTimed` within a line (the update reading is no earlier than
the check reading), and `ClockFrom` across lines.

The partner of the fold is a declarative description, `Trace.Justified`. It
carries no state: a line is admitted exactly when it decodes and its check
reading is strictly later than the previous admitted line's update reading
plus the interval. The fold meets this description (`RunIsJustified`), and no
other verdict sequence does (`JustifiedUnique`). `Driver.ReadLoop` is the
imperative loop of `main` in its corrected form, where a `null` line is logged
and skipped like a line that fails to decode; what `main` does on such a line
as written is `Decoding.RunAsWritten` (see "Findings"). `ReadLoop` is proved to
compute exactly what the fold computes.

Modules: `Wrappers` (Option), `Duration` (int64 durations), `Records` (the
decoded record), `Admission` (state and step), `Trace` (fold and its
properties), `Decoding` (the three decode outcomes and the loop as written
over them, see "Findings") and `Driver` (the loop and concrete scenarios).

The model follows the code where it differs from what the program appears to
intend:

- Initialising the send time to `now - interval` reads as "the first valid
  reading is always admitted". But the gate is strict, so the first reading
  needs `now > t0`, where `t0` is the clock reading at initialisation. A first
  reading whose check reading equals `t0` is dropped
  (`Trace.FirstDecodedReading`, `Driver.StartTieScenario`).
- The comment at weather2bq.go:114-115 asks for "at least" the interval
  since the last send. `After` is strict, so consecutive admissions are more
  than the interval apart, and a reading exactly one interval later is
  dropped (`Admission.Step`, `Trace.SpacingConsecutive`).
- So with a 30 second interval and readings at 0 s, 10 s and 35 s, the
  readings at 0 s and 35 s are forwarded only if the clock has moved past the
  start time by the first check (`Driver.ThrottleScenario`). If it has not,
  the reading at 10 s is forwarded instead (`Driver.StartTieScenario`).

## Model

| member | source | states |
|---|---|---|
| `Duration.SubmitInterval` | weather2bq.go:78-81 | the interval is the flag's seconds times 10^9 ns, exactly when that fits in int64, and congruent to it modulo 2^64 otherwise |
| `Duration.DefaultInterval` | weather2bq.go:78-81 | the default flag of 30 yields 30 000 000 000 ns |
| `Duration.HugeIntervalWraps` | weather2bq.go:81 | a flag of 9 223 372 037 seconds wraps to a negative interval |
| `Admission.Initial` | weather2bq.go:104 | the initial send time plus the interval is the start time, so the first gate is the start time itself |
| `Admission.Step` | weather2bq.go:109-120 | a line that fails to decode is malformed and leaves the state alone; a decoded line is admitted iff its check reading is strictly after send time plus interval (equality is rejected); admission sets the send time to the update reading, which with ordered readings is past the old deadline; a rejected line leaves the state unchanged |
| `Trace.Run` | weather2bq.go:107-122 | one verdict per input line, at most one hand-off per line, the interval never changes |
| `Trace.RunIsJustified` | weather2bq.go:107-121 | every verdict of the loop is explained by its own line and the last admission before it, and the final send time is the last admitted line's update reading |
| `Trace.JustifiedUnique` | weather2bq.go:107-121 | any verdict sequence meeting that description is the loop's |
| `Trace.JustifiedAt` | weather2bq.go:109-120 | line j is malformed iff it fails to decode, and admitted iff it decodes and its check reading beats the last admission's update reading plus the interval |
| `Trace.RunAppend` | weather2bq.go:107-122 | running a trace in two pieces equals running it whole: the outcome for the lines read so far is final |
| `Trace.RunPrefix` | weather2bq.go:107-124 | the verdicts of a prefix are a prefix of the verdicts, and what a prefix forwards is a prefix of what is forwarded: nothing is sent for a line after later lines are read |
| `Trace.StepAt` | weather2bq.go:107-121 | the verdict of line k is one step from the state the earlier lines left |
| `Trace.ForwardedAreAdmittedReadings` | weather2bq.go:107-121 | the forwarded readings are the decoded readings of the admitted lines, in line order, each line at most once |
| `Trace.SpacingConsecutive` | weather2bq.go:116-117 | of two consecutive admissions, the later check reading is strictly later than the earlier update reading plus the interval, hence than the earlier check reading plus the interval |
| `Trace.GateBeforeFirstAdmission` | weather2bq.go:104-116 | before any admission, a line is admitted iff it decodes and its check reading is strictly after the initial deadline |
| `Trace.FirstDecodedReading` | weather2bq.go:104-116 | from the initial state, the first decoded line is admitted iff its check reading is strictly later than the start time |
| `Trace.SendTimeMonotone` | weather2bq.go:116-117 | with a non-negative interval and ordered readings, the send time never decreases along the trace |
| `Trace.SpacingPairwise` | weather2bq.go:116-117 | with a non-negative interval, any two admissions are more than the interval apart in check and in update readings |
| `Trace.SkipRejected` | weather2bq.go:116-120 | a rejected line at the head of a trace changes neither the final state nor the forwarded readings |
| `Trace.RejectedLineIsInvisible` | weather2bq.go:109-120 | deleting any line that was not admitted leaves the final state and the forwarded readings unchanged: dropped, not queued or retried |
| `Trace.SendTimeAdvance` | weather2bq.go:116-117 | with no hand-off the state is unchanged; after n > 0 hand-offs the send time is more than n intervals past its start and is some line's update reading |
| `Trace.AdmissionCountBound` | weather2bq.go:104-117 | from the initial state, with all readings at most `end`, n hand-offs satisfy (n - 1) * interval < end - start |
| `Trace.NegativeIntervalNeverThrottles` | weather2bq.go:116 | with a negative interval, a clock that never runs backwards and a first check reading past the current deadline, every line that decodes is admitted, and the deadline stays below the last update reading |
| `Trace.NegativeIntervalFromStart` | weather2bq.go:104-116 | from the initial state with a negative interval, a clock that never runs backwards from the start and a first check strictly after the start, every line that decodes is admitted |
| `Trace.NegativeIntervalStartTie` | weather2bq.go:104-116 | with a negative interval, a first line checked exactly at the start time is still dropped |
| `Decoding.RunAsWritten` | weather2bq.go:103-122 | the loop over error, `null` and record outcomes reads every line unless it stops, and it stops only right after reading a `null` line |
| `Decoding.PanicsIffNullAdmitted` | weather2bq.go:109-119 | for every input, the loop as written stops exactly when some `null` line meets an open gate (in the state the corrected loop reaches on the lines before it), and it stops on the first such line |
| `Decoding.AsWrittenAgreesUntilPanic` | weather2bq.go:107-122 | up to where it stops, the loop as written hands off what the corrected loop hands off for the lines read, and with no stop it ends in the same state |
| `Decoding.NoNullNoPanic` | weather2bq.go:109-119 | without a `null` line the loop as written never stops early and equals the corrected loop |
| `Decoding.NullLinePanics` | weather2bq.go:109-119 | a `null` first line past the gate stops the loop after one line, so the valid line after it is lost, while the corrected loop hands it off |
| `Decoding.CorrectedSkipsNull` | weather2bq.go:109-112 | the corrected loop gives every line a verdict, treats `null` and undecodable lines as malformed, and admits only lines that decoded to a record |
| `Driver.ReadLoop` | weather2bq.go:103-124 | given the submit interval, the corrected imperative loop (a `null` line counts as a decode error) hands off exactly what the fold forwards from the initial state, ends in the fold's send time, and logs exactly the lines that fail to decode, in order |
| `Driver.ThrottleScenario` | weather2bq.go:104-120 | interval 30 s, readings 1 ns, 10 s and 35 s after the start: the first and the third are handed off |
| `Driver.StartTieScenario` | weather2bq.go:104-120 | the same, with the first reading checked at the start time: only the 10 s reading is handed off |
| `Driver.MalformedScenario` | weather2bq.go:107-120 | a malformed line between two valid ones is skipped and both valid readings are handed off |

## Left out

- JSON decoding (`json.Unmarshal`) is a library call. It is abstracted as a per-line outcome: `Decoding.Decoded` (error, `null`, or a record) for the loop as written, and `Option<R>` in each `Event` for the corrected loop, where a `null` line counts as a decode error. The loop decodes every line into one reused record, so a field missing from a later line keeps an earlier line's value, and a line rejected for a type mismatch may still have filled some fields. The model assumes each `Option` already accounts for that carry-over.
- The unit conversions `fahrenheitToCelsius` and `milesTokilometers` are left out. They are float32 arithmetic, and their expected values depend on float32 rounding. In `Records.InputRecord` the float fields are kept as unchanged binary32 bit patterns.
- The delivery worker `sendWeatherToBQ` is left out: the goroutine, the unbuffered channel rendezvous, the BigQuery `Put` and its swallowed errors, and the console output. The model stops at the ordered sequence of hand-offs.
- BigQuery client setup, the `Save` value saver and flag parsing are left out. Only the interval value enters the model.
- Reading standard input with `bufio.Scanner`, including its line-length limit, is left out. Input is a finite sequence of lines. The loop ends when that sequence does, or earlier, when a `null` line passes the gate (see "Findings").
- Clock readings are parameters, and time values are unbounded integers compared as monotonic readings. Go's `Time.Add` keeps the monotonic reading only while the resulting wall time stays within its packed range, the years 1885 to 2157. From today that allows intervals up to about 131 years (flags up to about 4.1e9 seconds). Past that, `sendTime.Add` at lines 104 and 116 drops the monotonic reading and the gate compares wall-clock times, which the model does not represent.
- Admission.Initial: computes `start - interval` exactly. Go negates `submitInterval` at line 104 as an int64, and that negation wraps when the interval is the most negative int64 (for example a flag of 2^54 = 18014398509481984 seconds, where `SubmitInterval` yields -2^63). This case is already far past the wall-time range above.
- The send time is reset before the hand-off, which can block until the worker is ready. The model treats a hand-off as instantaneous. Time spent blocked shows up only as later clock readings on the following lines, which are parameters.
- Driver.ReadLoop: runs over `Option` outcomes, so it models the corrected loop, which logs and skips a `null` line. The loop as written does not log such a line and stops on it once the gate is open; that behaviour is `Decoding.RunAsWritten`.
- `log.Println` of a decode error is modelled only as the position of the logged line.

## Findings

| source | as written | input that shows it | evidently intended | confidence | as-written member | corrected member |
|---|---|---|---|---|---|---|
| weather2bq.go:109-119 | a line reading `null` decodes without error through the pointer-to-pointer `&inputJson` and sets `inputJson` to nil; if the gate is open, `messages <- *inputJson` dereferences nil and the program panics, so later lines are never read | first line `null` checked after the start time, followed by a valid line (`Decoding.NullLinePanics`); in general, any `null` line that meets an open gate (`Decoding.PanicsIffNullAdmitted`) | a `null` line is skipped like a line that fails to decode, and the loop reads every line | medium, not executed | `Decoding.RunAsWritten` | `Decoding.CorrectedSkipsNull` |
