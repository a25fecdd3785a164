/**
 * The six metrics the serial bridge maintains (three counters, three gauges)
 * and the effect of one classified event on them.
 */
module Metrics {
  import opened GoStrings
  import opened Classifier
  import opened Wrappers

  /** The value of every metric at one moment. */
  datatype Values = Values(
    mailboxDoorOpenedCount: nat,
    muleAlarmCount: nat,
    temperatureFahrenheit: real,
    chargerChargeStatus: real,
    chargerPowerStatus: real,
    roadMainLoopHeartbeatCount: nat)

  /** A freshly created counter or gauge is 0. */
  const Initial: Values := Values(0, 0, 0.0, 0.0, 0.0, 0)

  /** The names of the six metrics. */
  datatype Metric =
    | MailboxDoorOpenedCount
    | MuleAlarmCount
    | TemperatureFahrenheit
    | ChargerChargeStatus
    | ChargerPowerStatus
    | RoadMainLoopHeartbeatCount

  /** The value of one metric, as exported. */
  function Get(v: Values, m: Metric): real
  {
    match m
    case MailboxDoorOpenedCount => v.mailboxDoorOpenedCount as real
    case MuleAlarmCount => v.muleAlarmCount as real
    case TemperatureFahrenheit => v.temperatureFahrenheit
    case ChargerChargeStatus => v.chargerChargeStatus
    case ChargerPowerStatus => v.chargerPowerStatus
    case RoadMainLoopHeartbeatCount => v.roadMainLoopHeartbeatCount as real
  }

  /** The metric an event updates, if any. */
  function Target(e: Event): Option<Metric>
  {
    match e
    case TemperatureReading(_) => Some(TemperatureFahrenheit)
    case MuleAlarm => Some(MuleAlarmCount)
    case DoorOpened => Some(MailboxDoorOpenedCount)
    case ChargeStatusOn => Some(ChargerChargeStatus)
    case ChargeStatusOff => Some(ChargerChargeStatus)
    case PowerSourceGood => Some(ChargerPowerStatus)
    case PowerSourceBad => Some(ChargerPowerStatus)
    case RoadMainLoopHeartbeat => Some(RoadMainLoopHeartbeatCount)
    case _ => None
  }

  /** The `Inc()` or `Set()` call of the event's `switch` case. */
  function Effect(v: Values, e: Event): (w: Values)
    ensures CountersGrow(v, w)
    ensures Target(e) == None ==> w == v
  {
    match e
    case TemperatureReading(f) => v.(temperatureFahrenheit := f)
    case MuleAlarm => v.(muleAlarmCount := v.muleAlarmCount + 1)
    case DoorOpened => v.(mailboxDoorOpenedCount := v.mailboxDoorOpenedCount + 1)
    case ChargeStatusOn => v.(chargerChargeStatus := 1.0)
    case ChargeStatusOff => v.(chargerChargeStatus := 0.0)
    case PowerSourceGood => v.(chargerPowerStatus := 1.0)
    case PowerSourceBad => v.(chargerPowerStatus := 0.0)
    case RoadMainLoopHeartbeat => v.(roadMainLoopHeartbeatCount := v.roadMainLoopHeartbeatCount + 1)
    case _ => v
  }

  /** Counters only grow. */
  predicate CountersGrow(before: Values, after: Values)
  {
    && before.mailboxDoorOpenedCount <= after.mailboxDoorOpenedCount
    && before.muleAlarmCount <= after.muleAlarmCount
    && before.roadMainLoopHeartbeatCount <= after.roadMainLoopHeartbeatCount
  }

  /**
   * One event changes at most one metric: the one it targets. A counter goes
   * up by exactly one, a gauge takes the event's value; an event without a
   * target changes nothing.
   */
  lemma EffectChangesOnlyItsTarget(v: Values, e: Event)
    ensures forall m :: Target(e) != Some(m) ==> Get(Effect(v, e), m) == Get(v, m)
    ensures Target(e) == None ==> Effect(v, e) == v
    ensures e.MuleAlarm? ==> Get(Effect(v, e), MuleAlarmCount) == Get(v, MuleAlarmCount) + 1.0
    ensures e.DoorOpened? ==>
      Get(Effect(v, e), MailboxDoorOpenedCount) == Get(v, MailboxDoorOpenedCount) + 1.0
    ensures e.RoadMainLoopHeartbeat? ==>
      Get(Effect(v, e), RoadMainLoopHeartbeatCount) == Get(v, RoadMainLoopHeartbeatCount) + 1.0
    ensures e.TemperatureReading? ==> Get(Effect(v, e), TemperatureFahrenheit) == e.fahrenheit
    ensures e.ChargeStatusOn? || e.PowerSourceGood? ==> Get(Effect(v, e), Target(e).value) == 1.0
    ensures e.ChargeStatusOff? || e.PowerSourceBad? ==> Get(Effect(v, e), Target(e).value) == 0.0
    ensures CountersGrow(v, Effect(v, e))
  {
  }

  /** Applying a gauge event twice is the same as applying it once. */
  lemma GaugeEffectIdempotent(v: Values, e: Event)
    requires e.TemperatureReading? || e.ChargeStatusOn? || e.ChargeStatusOff?
          || e.PowerSourceGood? || e.PowerSourceBad?
    ensures Effect(Effect(v, e), e) == Effect(v, e)
  {
  }

  /**
   * The metrics of the bridge, updated in place as the Prometheus counters
   * and gauges are (`Inc`, `Set`).
   */
  class Registry {
    var mailboxDoorOpenedCount: nat
    var muleAlarmCount: nat
    var temperatureFahrenheit: real
    var chargerChargeStatus: real
    var chargerPowerStatus: real
    var roadMainLoopHeartbeatCount: nat

    /** What a scrape of the registry would read. */
    function Snapshot(): Values
      reads this
    {
      Values(mailboxDoorOpenedCount, muleAlarmCount, temperatureFahrenheit,
             chargerChargeStatus, chargerPowerStatus, roadMainLoopHeartbeatCount)
    }

    constructor ()
      ensures Snapshot() == Initial
    {
      mailboxDoorOpenedCount, muleAlarmCount := 0, 0;
      temperatureFahrenheit, chargerChargeStatus, chargerPowerStatus := 0.0, 0.0, 0.0;
      roadMainLoopHeartbeatCount := 0;
    }

    /** Performs the metric update of one `switch` case. */
    method Apply(e: Event)
      modifies this
      ensures Snapshot() == Effect(old(Snapshot()), e)
      ensures CountersGrow(old(Snapshot()), Snapshot())
    {
      match e {
        case TemperatureReading(f) => temperatureFahrenheit := f;
        case MuleAlarm => muleAlarmCount := muleAlarmCount + 1;
        case DoorOpened => mailboxDoorOpenedCount := mailboxDoorOpenedCount + 1;
        case ChargeStatusOn => chargerChargeStatus := 1.0;
        case ChargeStatusOff => chargerChargeStatus := 0.0;
        case PowerSourceGood => chargerPowerStatus := 1.0;
        case PowerSourceBad => chargerPowerStatus := 0.0;
        case RoadMainLoopHeartbeat => roadMainLoopHeartbeatCount := roadMainLoopHeartbeatCount + 1;
        case _ =>
      }
    }
  }
}
