/**
 * The read loop of `serialServer`: each read of at most 128 bytes is framed on
 * `|`, every segment is classified, and the metric updates are applied in
 * order. The loop is modelled on a finite sequence of reads; the running
 * process would keep reading forever.
 */
module SerialServer {
  import opened GoStrings
  import opened Classifier
  import opened Metrics
  import opened Wrappers

  /** `buf := make([]byte, 128)`: no read returns more. */
  const ReadBufferSize: nat := 128

  /**
   * How processing ends: still running, or stopped by the runtime panic of
   * `parts[1]` on the segment that holds the temperature key but no `:`.
   * Such a panic ends the goroutine and with it the process.
   */
  datatype Outcome = Running | Panicked(msg: Bytes)

  datatype State = State(values: Values, outcome: Outcome)

  /** One iteration of `for _, msg := range msgs`. */
  function Step(t: Tokens, parse: FloatParser, v: Values, msg: Bytes): (r: State)
    ensures CountersGrow(v, r.values)
    ensures r.outcome.Panicked? ==> r.values == v && r.outcome.msg == msg
  {
    var e := Classify(t, parse, msg);
    if e.TemperatureFieldMissing? then State(v, Panicked(msg)) else State(Effect(v, e), Running)
  }

  /** The segments processed left to right, each exactly once, stopping at a
      panic. */
  function RunSegments(t: Tokens, parse: FloatParser, v: Values, msgs: seq<Bytes>): (r: State)
    ensures r.outcome.Panicked? ==>
      r.outcome.msg in msgs && Classify(t, parse, r.outcome.msg).TemperatureFieldMissing?
    decreases |msgs|
  {
    if msgs == [] then State(v, Running)
    else
      var prev := RunSegments(t, parse, v, msgs[..|msgs| - 1]);
      if prev.outcome.Panicked? then prev else Step(t, parse, prev.values, msgs[|msgs| - 1])
  }

  /**
   * One iteration of the outer `for`. The partial message is declared inside
   * the loop body, so it is empty here and a read that does not end in `|`
   * is discarded. Otherwise every piece of the split is processed, the empty
   * one after the final `|` included.
   */
  function RunRead(t: Tokens, parse: FloatParser, v: Values, chunk: Bytes): (r: State)
    ensures r.outcome.Panicked? ==>
      && HasSuffix(chunk, [Pipe])
      && r.outcome.msg in Split(chunk, Pipe)
      && Pipe !in r.outcome.msg
  {
    if !HasSuffix(chunk, [Pipe]) then State(v, Running)
    else
      SplitPiecesAreSeparatorFree(chunk, Pipe);
      RunSegments(t, parse, v, Split(chunk, Pipe))
  }

  /** The reads processed one after another, stopping at a panic. */
  function RunReads(t: Tokens, parse: FloatParser, v: Values, chunks: seq<Bytes>): (r: State)
    ensures r.outcome.Panicked? ==>
      exists k :: 0 <= k < |chunks| && r.outcome.msg in Split(chunks[k], Pipe)
    decreases |chunks|
  {
    if chunks == [] then State(v, Running)
    else
      var prev := RunReads(t, parse, v, chunks[..|chunks| - 1]);
      if prev.outcome.Panicked? then prev else RunRead(t, parse, prev.values, chunks[|chunks| - 1])
  }

  /** Continue from state `s` with more segments, unless it has panicked. */
  function ThenSegments(t: Tokens, parse: FloatParser, s: State, msgs: seq<Bytes>): State
  {
    if s.outcome.Panicked? then s else RunSegments(t, parse, s.values, msgs)
  }

  /** Continue from state `s` with more reads, unless it has panicked. */
  function ThenReads(t: Tokens, parse: FloatParser, s: State, chunks: seq<Bytes>): State
  {
    if s.outcome.Panicked? then s else RunReads(t, parse, s.values, chunks)
  }

  /**
   * One iteration of the read loop (lines 160-230), on the bytes the read
   * returned. The registry ends in the state `RunRead` gives.
   */
  method ProcessRead(r: Registry, t: Tokens, parse: FloatParser, chunk: Bytes)
    returns (outcome: Outcome)
    requires |chunk| <= ReadBufferSize
    modifies r
    ensures State(r.Snapshot(), outcome) == RunRead(t, parse, old(r.Snapshot()), chunk)
  {
    var partialMsg: Bytes := [];
    var messages := partialMsg + chunk;
    assert messages == chunk;
    if !HasSuffix(messages, [Pipe]) {
      // Stored in a variable that does not outlive this iteration.
      partialMsg := messages;
      return Running;
    }
    var msgs := Split(messages, Pipe);
    ghost var v0 := r.Snapshot();
    var i := 0;
    while i < |msgs|
      invariant 0 <= i <= |msgs|
      invariant RunSegments(t, parse, v0, msgs[..i]) == State(r.Snapshot(), Running)
    {
      var e := Classify(t, parse, msgs[i]);
      RunSegmentsNext(t, parse, v0, msgs, i);
      if e.TemperatureFieldMissing? {
        assert RunSegments(t, parse, v0, msgs) == State(r.Snapshot(), Panicked(msgs[i]));
        return Panicked(msgs[i]);
      }
      r.Apply(e);
      i := i + 1;
    }
    assert msgs[..i] == msgs;
    return Running;
  }

  /** The read loop over a sequence of reads; it stops at the first panic. */
  method ReadLoop(r: Registry, t: Tokens, parse: FloatParser, chunks: seq<Bytes>)
    returns (outcome: Outcome)
    requires forall k :: 0 <= k < |chunks| ==> |chunks[k]| <= ReadBufferSize
    modifies r
    ensures State(r.Snapshot(), outcome) == RunReads(t, parse, old(r.Snapshot()), chunks)
  {
    ghost var v0 := r.Snapshot();
    var i := 0;
    while i < |chunks|
      invariant 0 <= i <= |chunks|
      invariant RunReads(t, parse, v0, chunks[..i]) == State(r.Snapshot(), Running)
    {
      RunReadsNext(t, parse, v0, chunks, i);
      outcome := ProcessRead(r, t, parse, chunks[i]);
      if outcome.Panicked? {
        return;
      }
      i := i + 1;
    }
    assert chunks[..i] == chunks;
    return Running;
  }

  /** One more segment: after a panic the run is over, otherwise segment `i`
      is the next step. */
  lemma RunSegmentsNext(t: Tokens, parse: FloatParser, v: Values, msgs: seq<Bytes>, i: nat)
    requires i < |msgs|
    requires RunSegments(t, parse, v, msgs[..i]).outcome == Running
    ensures var s := Step(t, parse, RunSegments(t, parse, v, msgs[..i]).values, msgs[i]);
      && RunSegments(t, parse, v, msgs[..i + 1]) == s
      && (s.outcome.Panicked? ==> RunSegments(t, parse, v, msgs) == s)
  {
    assert msgs[..i + 1][..i] == msgs[..i];
    assert msgs[..i + 1][i] == msgs[i];
    RunSegmentsAppend(t, parse, v, msgs[..i + 1], msgs[i + 1..]);
    assert msgs[..i + 1] + msgs[i + 1..] == msgs;
  }

  /** One more read: unless an earlier read panicked, read `i` is the next
      iteration, and a panic there is the final result. */
  lemma RunReadsNext(t: Tokens, parse: FloatParser, v: Values, chunks: seq<Bytes>, i: nat)
    requires i < |chunks|
    requires RunReads(t, parse, v, chunks[..i]).outcome == Running
    ensures var s := RunRead(t, parse, RunReads(t, parse, v, chunks[..i]).values, chunks[i]);
      && RunReads(t, parse, v, chunks[..i + 1]) == s
      && (s.outcome.Panicked? ==> RunReads(t, parse, v, chunks) == s)
  {
    assert chunks[..i + 1][..i] == chunks[..i];
    assert chunks[..i + 1][i] == chunks[i];
    RunReadsAppend(t, parse, v, chunks[..i + 1], chunks[i + 1..]);
    assert chunks[..i + 1] + chunks[i + 1..] == chunks;
  }

  /** Segments are processed strictly left to right: running `a + b` is
      running `a`, then `b` from where `a` left off. */
  lemma {:induction false} RunSegmentsAppend(t: Tokens, parse: FloatParser, v: Values,
                                             a: seq<Bytes>, b: seq<Bytes>)
    ensures RunSegments(t, parse, v, a + b) == ThenSegments(t, parse, RunSegments(t, parse, v, a), b)
    decreases |b|
  {
    if b == [] {
      assert a + b == a;
    } else {
      var b' := b[..|b| - 1];
      RunSegmentsAppend(t, parse, v, a, b');
      assert (a + b)[..|a + b| - 1] == a + b';
      assert (a + b)[|a + b| - 1] == b[|b| - 1];
    }
  }

  /** Reads are processed strictly one after another. */
  lemma {:induction false} RunReadsAppend(t: Tokens, parse: FloatParser, v: Values,
                                          a: seq<Bytes>, b: seq<Bytes>)
    ensures RunReads(t, parse, v, a + b) == ThenReads(t, parse, RunReads(t, parse, v, a), b)
    decreases |b|
  {
    if b == [] {
      assert a + b == a;
    } else {
      var b' := b[..|b| - 1];
      RunReadsAppend(t, parse, v, a, b');
      assert (a + b)[..|a + b| - 1] == a + b';
      assert (a + b)[|a + b| - 1] == b[|b| - 1];
    }
  }

  /** A read that does not end in `|` changes no metric in its iteration. */
  lemma UnterminatedReadChangesNothing(t: Tokens, parse: FloatParser, v: Values, chunk: Bytes)
    requires !HasSuffix(chunk, [Pipe])
    ensures RunRead(t, parse, v, chunk) == State(v, Running)
  {
  }

  /**
   * The bytes of a read that does not end in `|` never reach a later
   * iteration: the loop behaves as if that read had not happened.
   */
  lemma UnterminatedReadIsLost(t: Tokens, parse: FloatParser, v: Values,
                               before: seq<Bytes>, chunk: Bytes, after: seq<Bytes>)
    requires !HasSuffix(chunk, [Pipe])
    ensures RunReads(t, parse, v, before + [chunk] + after) == RunReads(t, parse, v, before + after)
  {
    RunReadsAppend(t, parse, v, before + [chunk], after);
    RunReadsAppend(t, parse, v, before, after);
    assert (before + [chunk])[..|before + [chunk]| - 1] == before;
  }

  /**
   * A read that ends in `|` is processed as the pieces of the bytes before
   * the final `|`, followed by one empty segment; with valid tokens that
   * empty segment has no effect.
   */
  lemma TerminatedReadSegments(t: Tokens, parse: FloatParser, v: Values, chunk: Bytes)
    requires HasSuffix(chunk, [Pipe])
    ensures RunRead(t, parse, v, chunk)
         == RunSegments(t, parse, v, Split(chunk[..|chunk| - 1], Pipe) + [[]])
    ensures ValidTokens(t) ==>
      RunRead(t, parse, v, chunk) == RunSegments(t, parse, v, Split(chunk[..|chunk| - 1], Pipe))
  {
    SplitTerminated(chunk, Pipe);
    var pieces := Split(chunk[..|chunk| - 1], Pipe);
    RunSegmentsAppend(t, parse, v, pieces, [[]]);
    if ValidTokens(t) {
      EmptySegmentIsNoOp(t, parse);
      var empty: seq<Bytes> := [[]];
      assert empty[..0] == [];
    }
  }

  /**
   * After a run without a panic each counter has grown by exactly the number
   * of segments equal to its token.
   */
  lemma {:induction false} CountersCountTokens(t: Tokens, parse: FloatParser, v: Values,
                                               msgs: seq<Bytes>)
    requires ValidTokens(t)
    requires RunSegments(t, parse, v, msgs).outcome == Running
    ensures var w := RunSegments(t, parse, v, msgs).values;
      && w.mailboxDoorOpenedCount == v.mailboxDoorOpenedCount + multiset(msgs)[t.doorOpened]
      && w.muleAlarmCount == v.muleAlarmCount + multiset(msgs)[t.muleAlarm]
      && w.roadMainLoopHeartbeatCount
           == v.roadMainLoopHeartbeatCount + multiset(msgs)[t.roadMainLoopHeartbeat]
    decreases |msgs|
  {
    if msgs != [] {
      var init, last := msgs[..|msgs| - 1], msgs[|msgs| - 1];
      assert msgs == init + [last];
      CountersCountTokens(t, parse, v, init);
      ClassifyLiteral(t, parse, last, 0);
      ClassifyLiteral(t, parse, last, 1);
      ClassifyLiteral(t, parse, last, 6);
    }
  }

  /** Counters never decrease, whatever the segments and the outcome. */
  lemma {:induction false} SegmentsCountersGrow(t: Tokens, parse: FloatParser, v: Values,
                                                msgs: seq<Bytes>)
    ensures CountersGrow(v, RunSegments(t, parse, v, msgs).values)
    decreases |msgs|
  {
    if msgs != [] {
      var init := msgs[..|msgs| - 1];
      SegmentsCountersGrow(t, parse, v, init);
      var prev := RunSegments(t, parse, v, init);
      EffectChangesOnlyItsTarget(prev.values, Classify(t, parse, msgs[|msgs| - 1]));
    }
  }

  /** Counters never decrease over any sequence of reads. */
  lemma {:induction false} ReadsCountersGrow(t: Tokens, parse: FloatParser, v: Values,
                                             chunks: seq<Bytes>)
    ensures CountersGrow(v, RunReads(t, parse, v, chunks).values)
    decreases |chunks|
  {
    if chunks != [] {
      var init := chunks[..|chunks| - 1];
      ReadsCountersGrow(t, parse, v, init);
      var prev := RunReads(t, parse, v, init);
      var chunk := chunks[|chunks| - 1];
      if HasSuffix(chunk, [Pipe]) {
        SegmentsCountersGrow(t, parse, prev.values, Split(chunk, Pipe));
      }
    }
  }

  /** The value a two-state gauge was last set to by the segments: 1 for the
      `on` token, 0 for the `off` token, none if neither occurs. */
  function LastSetting(msgs: seq<Bytes>, on: Bytes, off: Bytes): Option<real>
    decreases |msgs|
  {
    if msgs == [] then None
    else
      var last := msgs[|msgs| - 1];
      if last == on then Some(1.0)
      else if last == off then Some(0.0)
      else LastSetting(msgs[..|msgs| - 1], on, off)
  }

  /**
   * After a run without a panic the charge gauge holds the setting of the
   * last charge-status segment, and the power gauge that of the last
   * power-source segment; a gauge no segment sets keeps its value.
   */
  lemma {:induction false} GaugesFollowLastSetting(t: Tokens, parse: FloatParser, v: Values,
                                                   msgs: seq<Bytes>)
    requires ValidTokens(t)
    requires RunSegments(t, parse, v, msgs).outcome == Running
    ensures var w := RunSegments(t, parse, v, msgs).values;
      && w.chargerChargeStatus
           == LastSetting(msgs, t.chargeStatusOn, t.chargeStatusOff).GetOr(v.chargerChargeStatus)
      && w.chargerPowerStatus
           == LastSetting(msgs, t.powerSourceGood, t.powerSourceBad).GetOr(v.chargerPowerStatus)
    decreases |msgs|
  {
    if msgs != [] {
      var init, last := msgs[..|msgs| - 1], msgs[|msgs| - 1];
      GaugesFollowLastSetting(t, parse, v, init);
      ClassifyLiteral(t, parse, last, 2);
      ClassifyLiteral(t, parse, last, 3);
      ClassifyLiteral(t, parse, last, 4);
      ClassifyLiteral(t, parse, last, 5);
    }
  }

  /** The value of the last segment that is a successful temperature reading,
      none if no segment is. */
  function LastReading(t: Tokens, parse: FloatParser, msgs: seq<Bytes>): Option<real>
    decreases |msgs|
  {
    if msgs == [] then None
    else
      match Classify(t, parse, msgs[|msgs| - 1])
      case TemperatureReading(f) => Some(f)
      case _ => LastReading(t, parse, msgs[..|msgs| - 1])
  }

  /**
   * After a run without a panic the temperature gauge holds the value of the
   * last successful reading; a run with no reading (parse errors included)
   * leaves it as it was.
   */
  lemma {:induction false} TemperatureFollowsLastReading(t: Tokens, parse: FloatParser,
                                                         v: Values, msgs: seq<Bytes>)
    requires RunSegments(t, parse, v, msgs).outcome == Running
    ensures RunSegments(t, parse, v, msgs).values.temperatureFahrenheit
         == LastReading(t, parse, msgs).GetOr(v.temperatureFahrenheit)
    decreases |msgs|
  {
    if msgs != [] {
      var init := msgs[..|msgs| - 1];
      TemperatureFollowsLastReading(t, parse, v, init);
    }
  }

  /**
   * Repeating a gauge segment (a temperature reading, a charge-status or a
   * power-source token) right after itself has no further effect.
   */
  lemma RepeatedGaugeSegment(t: Tokens, parse: FloatParser, v: Values,
                             before: seq<Bytes>, msg: Bytes, after: seq<Bytes>)
    requires var e := Classify(t, parse, msg);
      e.TemperatureReading? || e.ChargeStatusOn? || e.ChargeStatusOff?
      || e.PowerSourceGood? || e.PowerSourceBad?
    ensures RunSegments(t, parse, v, before + [msg, msg] + after)
         == RunSegments(t, parse, v, before + [msg] + after)
  {
    var once := before + [msg];
    RunSegmentsAppend(t, parse, v, once + [msg], after);
    RunSegmentsAppend(t, parse, v, once, after);
    RunSegmentsAppend(t, parse, v, once, [msg]);
    assert before + [msg, msg] == once + [msg];
    assert [msg][..0] == [];
    var s := RunSegments(t, parse, v, once);
    if !s.outcome.Panicked? {
      RunSegmentsAppend(t, parse, v, before, [msg]);
      assert [msg][..0] == [];
      GaugeEffectIdempotent(RunSegments(t, parse, v, before).values, Classify(t, parse, msg));
    }
  }

  /** The example of a well-framed read: `a|b|c|` yields `a`, `b`, `c` and a
      trailing empty segment. */
  lemma ExampleSplit()
    ensures Split([0x61, Pipe, 0x62, Pipe, 0x63, Pipe], Pipe) == [[0x61], [0x62], [0x63], []]
  {
    var a, b, c: byte := 0x61, 0x62, 0x63;
    var pieces: seq<Bytes> := [[a], [b], [c], []];
    assert Join(pieces, Pipe) == [a, Pipe, b, Pipe, c, Pipe] by {
      var p3: seq<Bytes> := [[]];
      var p2: seq<Bytes> := [[c], []];
      var p1: seq<Bytes> := [[b], [c], []];
      assert pieces[1..] == p1 && p1[1..] == p2 && p2[1..] == p3;
      assert Join(p3, Pipe) == [];
      assert Join(p2, Pipe) == [c, Pipe];
      assert Join(p1, Pipe) == [b, Pipe, c, Pipe];
    }
    JoinSplit(pieces, Pipe);
  }

  /**
   * A panic ends the read: with `b` the door token and `T` the temperature
   * key, the read `b|T|a|` counts one door opening, panics on `T` (it has no
   * `:`), and the segment `a` is never applied.
   */
  lemma ExamplePanicStopsRead(t: Tokens, parse: FloatParser, v: Values)
    requires ValidTokens(t)
    requires t.temperature == [0x54] && t.muleAlarm == [0x61] && t.doorOpened == [0x62]
    ensures RunRead(t, parse, v, [0x62, Pipe, 0x54, Pipe, 0x61, Pipe]) == State(
      v.(mailboxDoorOpenedCount := v.mailboxDoorOpenedCount + 1), Panicked([0x54]))
  {
    var b, key, a: Bytes := [0x62], [0x54], [0x61];
    var msgs: seq<Bytes> := [b, key, a, []];
    assert HasSuffix([0x62, Pipe, 0x54, Pipe, 0x61, Pipe], [Pipe]);
    assert Split([0x62, Pipe, 0x54, Pipe, 0x61, Pipe], Pipe) == msgs by {
      assert Join(msgs, Pipe) == [0x62, Pipe, 0x54, Pipe, 0x61, Pipe] by {
        var m2: seq<Bytes> := [a, []];
        var m1: seq<Bytes> := [key, a, []];
        assert msgs[1..] == m1 && m1[1..] == m2 && m2[1..] == [[]];
        assert Join(m2, Pipe) == [0x61, Pipe];
        assert Join(m1, Pipe) == [0x54, Pipe, 0x61, Pipe];
      }
      JoinSplit(msgs, Pipe);
    }
    assert Literals(t)[1] == b;
    var door := State(v.(mailboxDoorOpenedCount := v.mailboxDoorOpenedCount + 1), Running);
    assert RunSegments(t, parse, v, [b]) == door by {
      assert [b][..0] == [];
    }
    assert Classify(t, parse, key) == TemperatureFieldMissing by {
      assert key <= key;
      SplitWithoutSeparator(key, Colon);
    }
    var stopped := State(door.values, Panicked(key));
    assert msgs[..2][..1] == [b] && msgs[..2][1] == key;
    assert RunSegments(t, parse, v, msgs[..2]) == stopped;
    assert msgs[..3][..2] == msgs[..2];
    assert RunSegments(t, parse, v, msgs[..3]) == stopped;
    assert msgs[..3] == msgs[..|msgs| - 1];
    assert RunSegments(t, parse, v, msgs) == stopped;
  }

  /**
   * A partial message is lost: the reads `b` and then `b|`, with `b` the door
   * token, count one door opening, not two.
   */
  lemma ExampleLostPartial(t: Tokens, parse: FloatParser, v: Values)
    requires ValidTokens(t)
    requires t.temperature == [0x54] && t.doorOpened == [0x62]
    ensures RunReads(t, parse, v, [[0x62], [0x62, Pipe]]) == State(
      v.(mailboxDoorOpenedCount := v.mailboxDoorOpenedCount + 1), Running)
  {
    var b: Bytes := [0x62];
    var chunks: seq<Bytes> := [[0x62], [0x62, Pipe]];
    assert chunks[1] == b + [Pipe];
    assert chunks[..1] == [b] && [b][..0] == [];
    assert !HasSuffix(b, [Pipe]);
    assert RunReads(t, parse, v, [b]) == State(v, Running);
    assert HasSuffix(b + [Pipe], [Pipe]);
    var msgs: seq<Bytes> := [b, []];
    assert Split(b + [Pipe], Pipe) == msgs by {
      assert Join(msgs, Pipe) == b + [Pipe];
      JoinSplit(msgs, Pipe);
    }
    assert Literals(t)[1] == b;
    EmptySegmentIsNoOp(t, parse);
    var door := State(v.(mailboxDoorOpenedCount := v.mailboxDoorOpenedCount + 1), Running);
    assert RunSegments(t, parse, v, [b]) == door by {
      assert Literals(t)[0] != Literals(t)[1];
      var one: seq<Bytes> := [b];
      assert one[..0] == [];
    }
    assert msgs[..1] == [b] && msgs[1] == [];
    assert RunSegments(t, parse, v, msgs) == door;
    assert RunRead(t, parse, v, b + [Pipe]) == door;
    assert chunks[..|chunks| - 1] == [b];
  }
}
