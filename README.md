# Serial bridge of malone-sidecar, modelled in Dafny

`cmd/serial/main.go` bridges a serial device to Prometheus. Its goroutine
`serialServer` reads the port forever in reads of at most 128 bytes. A read
that ends in `|` is split on `|`. Each piece ("message") goes through a
first-match-wins `switch`:

1. a message that contains the temperature key is split on `:`, and its
   second field is parsed as a float and put into the temperature gauge;
2. a message equal to one of seven literal tokens increments a counter
   (mailbox door opened, mule alarm, road main-loop heartbeat) or sets a
   0/1 gauge (charger charge status, charger power status);
3. anything else is a no-op.

The model has five modules:

- `Wrappers` (`wrappers.dfy`): the `Option` type, for a parse that may fail,
  an event without a target metric and a gauge that no segment sets.
- `GoStrings` (`gostrings.dfy`): Go strings as byte sequences, plus
  `strings.Split` with a one-byte separator, `strings.Contains` and
  `strings.HasSuffix`. `Join` is defined beside them, and lemmas prove that
  `Split` and `Join` undo each other.
- `Classifier` (`classifier.dfy`): the `switch` as the pure function
  `Classify` from a message to an `Event`. The `iot` token constants are not
  visible, so they are a `Tokens` parameter. `ValidTokens` says what the
  model assumes of them: none is empty, the seven literals are pairwise
  distinct, and no literal contains the temperature key.
  `strconv.ParseFloat` is a parameter `parse: Bytes -> Option<real>`.
- `Metrics` (`metrics.dfy`): the six metric values (`Values`), the effect of
  one event (`Effect`), and the class `Registry`. Its six fields are updated
  in place by `Apply`, as `Inc()`/`Set()` update the Prometheus objects.
- `SerialServer` (`serial_server.dfy`): the read loop. `ProcessRead` is one
  iteration of the outer `for`, with the inner loop over the segments.
  `ReadLoop` runs it over a finite sequence of reads. Both are proved equal
  to the pure functions `RunRead` and `RunReads`, and the lemmas about the
  loop's behaviour are stated on those functions.

Three behaviours of the code are worth stating, because its own comments or
a quick reading suggest otherwise:

- The comment at `cmd/serial/main.go:174-176` says that a read without a
  trailing `|` is kept as a partial message and prefixed to the next read.
  But `partialMsg` is declared inside the loop body (line 162), so it is
  empty at the start of every iteration. Such a read is discarded
  (`UnterminatedReadIsLost`).
- `strings.Split` leaves an empty piece after the final `|` (line 184), and
  the loop passes it to the `switch`, where it reaches the no-op `default`
  (`TerminatedReadSegments`, `EmptySegmentIsNoOp`).
- A message with the temperature key and no `:` makes `parts[1]` (line 191)
  an out-of-range index. That is a Go runtime panic, which ends the
  goroutine and the process. The model gives it the event
  `TemperatureFieldMissing`, and processing stops with the outcome
  `Panicked(msg)`. The segments before it keep their effects.

## Model

| member | source | states |
|---|---|---|
| `GoStrings.HasSuffix` | cmd/serial/main.go:177 | `strings.HasSuffix`: holds exactly when the bytes are some prefix followed by the suffix |
| `GoStrings.Contains` | cmd/serial/main.go:189 | `strings.Contains`: the empty key occurs everywhere, an occurring key is no longer than the message, and a prefix occurs; its meaning for the empty segment is stated by `Classifier.EmptySegmentIsNoOp` |
| `GoStrings.Join` | cmd/serial/main.go:184 | the source never calls `strings.Join`: this is the specification partner of the `strings.Split` call at this line. It starts with the first piece, followed by the separator when there is a second; `SplitJoin` and `JoinSplit` state that it inverts `Split` |
| `Classifier.Classify` | cmd/serial/main.go:187-229 | the `switch`: a message is a temperature event exactly when it contains the temperature key, and a no-op equals no literal token; `ClassifyTemperature`, `ClassifyLiteral` and `ClassifyNoOp` state each case in full |
| `Metrics.Effect` | cmd/serial/main.go:195-225 | the `Inc()`/`Set()` of one case: counters never decrease and an event without a target changes nothing; `EffectChangesOnlyItsTarget` states the exact change |
| `SerialServer.Step` | cmd/serial/main.go:186-229 | one iteration of `range msgs`: counters never decrease, and a panic leaves the values as they were and names the segment |
| `SerialServer.RunSegments` | cmd/serial/main.go:185-229 | the inner loop: when it panics, the panicking segment is one of the segments and is a temperature message without a second field; `RunSegmentsAppend`, `CountersCountTokens` and `GaugesFollowLastSetting` state its effect |
| `SerialServer.RunRead` | cmd/serial/main.go:160-230 | one outer iteration: a panic happens only for a read ending in `|`, on one of its `|`-free pieces; `UnterminatedReadChangesNothing` and `TerminatedReadSegments` state both branches |
| `SerialServer.RunReads` | cmd/serial/main.go:158-231 | the outer loop: a panic comes from a piece of one of the reads; `RunReadsAppend`, `UnterminatedReadIsLost` and `ReadsCountersGrow` state its effect |
| `SerialServer.RunReadsNext` | cmd/serial/main.go:158-231 | after reads that have not panicked, the next read is one `RunRead`, and a panic there is the final result of the loop |
| `GoStrings.Split` | cmd/serial/main.go:184 | splitting always yields at least one piece, so the empty string splits into one empty piece |
| `GoStrings.SplitJoin` | cmd/serial/main.go:184 | joining the pieces of a split with the separator gives back the original bytes, so no byte is lost or added |
| `GoStrings.JoinSplit` | cmd/serial/main.go:184 | splitting the join of a non-empty list of separator-free pieces gives back exactly those pieces |
| `GoStrings.SplitPiecesAreSeparatorFree` | cmd/serial/main.go:184-185 | no segment handed to the `switch` contains the separator |
| `GoStrings.SplitLength` | cmd/serial/main.go:184 | there is one more piece than there are separators, so consecutive `|` give empty pieces |
| `GoStrings.SplitAround` | cmd/serial/main.go:184 | a separator in the middle splits the bytes into the pieces of its left side followed by those of its right side |
| `GoStrings.SplitTerminated` | cmd/serial/main.go:177-184 | bytes ending in the separator split into the pieces of what comes before it, plus one trailing empty piece |
| `GoStrings.SplitWithoutSeparator` | cmd/serial/main.go:190 | bytes without the separator split into exactly one piece, themselves |
| `GoStrings.SplitSecondPiece` | cmd/serial/main.go:190-191 | when a `:` is present, `parts[1]` exists and is the text between the first `:` and the next one (or the end) |
| `Classifier.ClassifyTemperature` | cmd/serial/main.go:187-197 | a message containing the temperature key is a temperature event, even if it equals a literal token; with no `:` it is the missing-field case; otherwise a successful parse of the second field gives a reading of that value and a failed parse gives a parse error |
| `Classifier.ClassifyLiteral` | cmd/serial/main.go:199-226 | with valid tokens, a message yields the event of the i-th exact-match case if and only if it equals the i-th literal token |
| `Classifier.ClassifyNoOp` | cmd/serial/main.go:227-228 | a message is a no-op if and only if it neither contains the temperature key nor equals a literal token |
| `Classifier.EmptySegmentIsNoOp` | cmd/serial/main.go:227-228 | with valid tokens, the empty segment is a no-op |
| `Metrics.EffectChangesOnlyItsTarget` | cmd/serial/main.go:195-225 | an event changes at most the one metric it targets: a counter by exactly +1, a charge or power gauge to 1 (on/good) or 0 (off/bad), the temperature gauge to the parsed value; a parse error, a missing field and a no-op change nothing; counters never decrease |
| `Metrics.GaugeEffectIdempotent` | cmd/serial/main.go:207-221 | applying a gauge event twice gives the same values as applying it once |
| `Metrics.Registry.constructor` | cmd/serial/main.go:89-150 | all six metrics start at 0 |
| `Metrics.Registry.Apply` | cmd/serial/main.go:187-229 | the registry's new values are the old values updated by the effect of the event, and no counter decreases |
| `SerialServer.ProcessRead` | cmd/serial/main.go:160-230 | one iteration leaves the registry, and the outcome, as `RunRead` of the old values and the bytes read |
| `SerialServer.ReadLoop` | cmd/serial/main.go:158-231 | the loop over a sequence of reads leaves the registry, and the outcome, as `RunReads`, and stops at the first panic |
| `SerialServer.RunSegmentsNext` | cmd/serial/main.go:185-229 | after a run of segments that has not panicked, processing the next segment is one `Step`, and a panic there is the final result of the whole read |
| `SerialServer.RunSegmentsAppend` | cmd/serial/main.go:185 | segments are processed left to right, each once: running `a + b` is running `a`, then `b` from where `a` stopped, unless `a` panicked |
| `SerialServer.RunReadsAppend` | cmd/serial/main.go:158-231 | reads are processed one after another, and a panic stops all later reads |
| `SerialServer.UnterminatedReadChangesNothing` | cmd/serial/main.go:177-180 | a read that does not end in `|` changes no metric |
| `SerialServer.UnterminatedReadIsLost` | cmd/serial/main.go:160-180 | inserting a read that does not end in `|` anywhere in a sequence of reads changes nothing: its bytes never reach a later iteration |
| `SerialServer.TerminatedReadSegments` | cmd/serial/main.go:184-185 | a read ending in `|` is processed as the pieces before the last `|` followed by one empty segment; with valid tokens that empty segment has no effect |
| `SerialServer.CountersCountTokens` | cmd/serial/main.go:199-225 | with valid tokens and no panic, each of the three counters grows by exactly the number of segments equal to its token |
| `SerialServer.SegmentsCountersGrow` | cmd/serial/main.go:199-225 | counters never decrease over any list of segments, whether or not it panics |
| `SerialServer.ReadsCountersGrow` | cmd/serial/main.go:158-231 | counters never decrease over any sequence of reads |
| `SerialServer.GaugesFollowLastSetting` | cmd/serial/main.go:207-221 | with valid tokens and no panic, the charge gauge holds 1 or 0 for the last charge-on or charge-off segment, and the power gauge for the last power-good or power-bad segment; a gauge that no segment sets keeps its value |
| `SerialServer.TemperatureFollowsLastReading` | cmd/serial/main.go:189-197 | with no panic, the temperature gauge holds the value of the last segment that parses as a reading (`LastReading`, defined through `Classify`); parse errors leave it alone, and a run without a reading keeps the old value |
| `SerialServer.RepeatedGaugeSegment` | cmd/serial/main.go:189-221 | a gauge segment (temperature reading, charge status, power source) repeated right after itself has no further effect |
| `SerialServer.ExampleSplit` | cmd/serial/main.go:170-184 | the read `a|b|c|` yields the segments `a`, `b`, `c` and a trailing empty one |
| `SerialServer.ExamplePanicStopsRead` | cmd/serial/main.go:184-205 | with `b` the door token and `T` the temperature key, the read `b|T|a|` counts one door opening and then panics on `T`, which has no `:`; the segment `a` after it is never applied |
| `SerialServer.ExampleLostPartial` | cmd/serial/main.go:160-205 | with `b` the door token, the reads `b` and then `b|` count one door opening, not two, because the first read is not carried over |

## Left out

- `main` (`cmd/serial/main.go:20-57`): environment lookup, opening the serial device, HTTP routes and the listener. This is process plumbing.
- `pubMsg` (`cmd/serial/main.go:64-82`): reading an HTTP body and writing it to the port. This is I/O.
- The port read and its panic on a read error (`cmd/serial/main.go:164-167`). The bytes read are a parameter of at most 128 bytes, and a read error is not modelled.
- The infinite `for`. It is modelled as a loop over a finite sequence of reads. Any finite prefix of the real loop is one such sequence.
- Prometheus metric construction, `MustRegister` and the `/metrics` export (`cmd/serial/main.go:89-150`). These are a foreign library and are replaced by plain fields. Duplicate-registration panics are not modelled.
- Float arithmetic. Gauge values are `real`, counters are `nat`, and the float64 rounding of a Prometheus counter beyond 2^53 is not modelled. `strconv.ParseFloat` is the parameter `parse`, whose text format and range errors belong to the standard library. Because `parse` returns `Option<real>`, the model cannot hold the values NaN, +Inf and -Inf. `ParseFloat` returns them with a nil error for inputs such as `NaN` or `Inf`, and the real gauge is then set to them. In the model, such a parse is either a reading of some real value or a failure.
- The `iot` token constants are not part of this model. They are the `Tokens` parameter, and the lemmas that depend on their values require `ValidTokens`.
- The goroutine (`cmd/serial/main.go:48`) and scrapes running concurrently with the loop. This is concurrency outside the sequential core.
- Log output: every `log.Printf` and `log.Println`. A parse error is kept in the model as the event `TemperatureParseError` with the field that failed.
- After a `parts[1]` panic the process ends and its metrics are gone. The model keeps the registry's values at the point of the panic and reports `Panicked`.
