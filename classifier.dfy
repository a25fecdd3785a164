/**
 * The classification `switch` of the serial bridge: one message segment is
 * mapped to the event whose case matches first.
 */
module Classifier {
  import opened GoStrings
  import opened Wrappers

  /**
   * The device's message tokens (constants of the `iot` package). Their text
   * is not part of this model, so they are a parameter: `temperature` is the
   * key looked for as a substring, the other seven are compared for equality,
   * in the order the `switch` tries them.
   */
  datatype Tokens = Tokens(
    temperature: Bytes,
    muleAlarm: Bytes,
    doorOpened: Bytes,
    chargeStatusOn: Bytes,
    chargeStatusOff: Bytes,
    powerSourceGood: Bytes,
    powerSourceBad: Bytes,
    roadMainLoopHeartbeat: Bytes)

  /** The seven exact-match tokens, in `switch` order. */
  function Literals(t: Tokens): (r: seq<Bytes>)
    ensures |r| == 7
  {
    [t.muleAlarm, t.doorOpened, t.chargeStatusOn, t.chargeStatusOff,
     t.powerSourceGood, t.powerSourceBad, t.roadMainLoopHeartbeat]
  }

  /**
   * What the model assumes of the unseen constants: none is empty, the seven
   * literals are pairwise distinct, and no literal contains the temperature
   * key (otherwise the substring case would shadow it).
   */
  predicate ValidTokens(t: Tokens)
  {
    && t.temperature != []
    && (forall i :: 0 <= i < 7 ==> Literals(t)[i] != [] && !Contains(Literals(t)[i], t.temperature))
    && (forall i, j :: 0 <= i < j < 7 ==> Literals(t)[i] != Literals(t)[j])
  }

  /** `strconv.ParseFloat(s, 64)`: the value on success, `None` on error. */
  type FloatParser = Bytes -> Option<real>

  datatype Event =
    | TemperatureReading(fahrenheit: real)
    | TemperatureParseError(field: Bytes)
    /** The key occurs but there is no `:`, so `parts[1]` is out of range. */
    | TemperatureFieldMissing
    | MuleAlarm
    | DoorOpened
    | ChargeStatusOn
    | ChargeStatusOff
    | PowerSourceGood
    | PowerSourceBad
    | RoadMainLoopHeartbeat
    | NoOp

  predicate IsTemperatureEvent(e: Event)
  {
    e.TemperatureReading? || e.TemperatureParseError? || e.TemperatureFieldMissing?
  }

  /** The events of the seven exact-match cases, in `switch` order. */
  function LiteralEvents(): (r: seq<Event>)
    ensures |r| == 7
  {
    [MuleAlarm, DoorOpened, ChargeStatusOn, ChargeStatusOff,
     PowerSourceGood, PowerSourceBad, RoadMainLoopHeartbeat]
  }

  /** The `switch` of the read loop: first matching case wins. */
  function Classify(t: Tokens, parse: FloatParser, msg: Bytes): (e: Event)
    ensures IsTemperatureEvent(e) <==> Contains(msg, t.temperature)
    ensures e.NoOp? ==> msg !in Literals(t)
  {
    if Contains(msg, t.temperature) then
      var parts := Split(msg, Colon);
      if |parts| < 2 then TemperatureFieldMissing
      else
        match parse(parts[1])
        case Some(f) => TemperatureReading(f)
        case None => TemperatureParseError(parts[1])
    else if msg == t.muleAlarm then MuleAlarm
    else if msg == t.doorOpened then DoorOpened
    else if msg == t.chargeStatusOn then ChargeStatusOn
    else if msg == t.chargeStatusOff then ChargeStatusOff
    else if msg == t.powerSourceGood then PowerSourceGood
    else if msg == t.powerSourceBad then PowerSourceBad
    else if msg == t.roadMainLoopHeartbeat then RoadMainLoopHeartbeat
    else NoOp
  }

  /**
   * The substring rule comes first: a segment containing the temperature key
   * is a temperature event even when it also equals a literal token. Without
   * a `:` the second field does not exist; otherwise the field between the
   * first `:` and the next one is parsed, and the outcome of the parse alone
   * decides the event.
   */
  lemma ClassifyTemperature(t: Tokens, parse: FloatParser, msg: Bytes)
    requires Contains(msg, t.temperature)
    ensures IsTemperatureEvent(Classify(t, parse, msg))
    ensures Colon !in msg ==> Classify(t, parse, msg) == TemperatureFieldMissing
    ensures Colon in msg ==>
      var field := TakeUntil(DropThrough(msg, Colon), Colon);
      Classify(t, parse, msg) ==
        match parse(field)
        case Some(f) => TemperatureReading(f)
        case None => TemperatureParseError(field)
  {
    if Colon in msg {
      SplitSecondPiece(msg, Colon);
    } else {
      SplitWithoutSeparator(msg, Colon);
    }
  }

  /** With valid tokens, a segment yields the event of the i-th exact-match
      case exactly when it equals the i-th literal token. */
  lemma ClassifyLiteral(t: Tokens, parse: FloatParser, msg: Bytes, i: nat)
    requires ValidTokens(t)
    requires i < 7
    ensures Classify(t, parse, msg) == LiteralEvents()[i] <==> msg == Literals(t)[i]
  {
    var L := Literals(t);
    if msg == L[i] {
      assert !Contains(msg, t.temperature);
      forall j | 0 <= j < i ensures msg != L[j] {
        assert L[j] != L[i];
      }
      assert L[0] == t.muleAlarm && L[1] == t.doorOpened && L[2] == t.chargeStatusOn;
      assert L[3] == t.chargeStatusOff && L[4] == t.powerSourceGood && L[5] == t.powerSourceBad;
    }
  }

  /** The `default` case: a segment is a no-op exactly when it neither contains
      the temperature key nor equals any literal token. */
  lemma ClassifyNoOp(t: Tokens, parse: FloatParser, msg: Bytes)
    ensures Classify(t, parse, msg) == NoOp <==>
      !Contains(msg, t.temperature) && msg !in Literals(t)
  {
    if Contains(msg, t.temperature) {
      ClassifyTemperature(t, parse, msg);
    }
  }

  /** An empty segment (the one after a trailing `|`, or between two
      consecutive ones) is a no-op. */
  lemma EmptySegmentIsNoOp(t: Tokens, parse: FloatParser)
    requires ValidTokens(t)
    ensures Classify(t, parse, []) == NoOp
  {
    assert forall i :: 0 <= i < 7 ==> Literals(t)[i] != [];
    ClassifyNoOp(t, parse, []);
  }
}
