/** The controller's state as a value, and the state changes it goes through:
    the hysteresis report of one zone (`report_sensor`), the fan decision
    (`check_fan`) and one pass of `loop` without its timing. The class in
    module Controller performs these changes in place and is proved against
    the functions here. */
module Telemetry {
  import opened Numeric
  import opened Display

  datatype Zone = Inside | Outside | Repeater
  datatype Metric = Temperature | Humidity

  /** The order in which `loop` renders the zones. */
  const ZoneOrder: seq<Zone> := [Inside, Outside, Repeater]

  /** A topic the controller publishes on: the fan state, or one metric of one zone. */
  datatype Key = FanState | Sensor(metric: Metric, zone: Zone)

  function ZoneName(z: Zone): string
  {
    match z
    case Inside => "INSIDE"
    case Outside => "OUTSIDE"
    case Repeater => "REPEATER"
  }

  function MetricName(m: Metric): string
  {
    match m
    case Temperature => "TEMPERATURE"
    case Humidity => "HUMIDITY"
  }

  /** The topic string: `"FAN_STATE"`, or `f"TEMPERATURE_{name}"` / `f"HUMIDITY_{name}"`. */
  function Topic(k: Key): string
  {
    match k
    case FanState => "FAN_STATE"
    case Sensor(m, z) => MetricName(m) + "_" + ZoneName(z)
  }

  function ZoneOfName(name: string): Option<Zone>
  {
    if name == "INSIDE" then Some(Inside)
    else if name == "OUTSIDE" then Some(Outside)
    else if name == "REPEATER" then Some(Repeater)
    else None
  }

  /** Which key a topic string belongs to, if any: the inverse of Topic. */
  function KeyOf(topic: string): Option<Key>
  {
    if topic == "FAN_STATE" then Some(FanState)
    else if 12 <= |topic| && topic[..12] == "TEMPERATURE_" then
      match ZoneOfName(topic[12..])
      case None => None
      case Some(z) => Some(Sensor(Temperature, z))
    else if 9 <= |topic| && topic[..9] == "HUMIDITY_" then
      match ZoneOfName(topic[9..])
      case None => None
      case Some(z) => Some(Sensor(Humidity, z))
    else None
  }

  /** Every topic string names its key back, so distinct keys never share a topic. */
  lemma TopicRoundTrip(k: Key)
    ensures KeyOf(Topic(k)) == Some(k)
  {
    var t := Topic(k);
    match k
    case FanState =>
    case Sensor(m, z) =>
      assert t[0] == MetricName(m)[0];
      if m == Temperature {
        assert t[..12] == "TEMPERATURE_";
        assert t[12..] == ZoneName(z);
      } else {
        assert t != "FAN_STATE" by { assert t[0] != "FAN_STATE"[0]; }
        assert t[..12] != "TEMPERATURE_" by { assert t[0] != "TEMPERATURE_"[0]; }
        assert t[..9] == "HUMIDITY_";
        assert t[9..] == ZoneName(z);
      }
  }

  lemma TopicInjective(k1: Key, k2: Key)
    ensures Topic(k1) == Topic(k2) <==> k1 == k2
  {
    TopicRoundTrip(k1);
    TopicRoundTrip(k2);
  }

  /** The stored `[temperature, humidity]` list of one zone. */
  datatype Pair = Pair(temp: real, humi: real)
  {
    function Get(m: Metric): real
    {
      match m
      case Temperature => temp
      case Humidity => humi
    }
  }

  /** What `sensor.get_temp_humi()` returns: Celsius and relative humidity. */
  datatype Reading = Reading(celsius: real, humidity: real)

  /** One `client.publish(topic, payload)` call. */
  datatype Message = Message(topic: string, payload: string)

  /** The `data` dictionary, the PWM duty and everything published so far. */
  datatype Snapshot = Snapshot(inside: Pair, outside: Pair, repeater: Pair,
                               fan: bool, duty: int, log: seq<Message>)
  {
    function At(z: Zone): Pair
    {
      match z
      case Inside => inside
      case Outside => outside
      case Repeater => repeater
    }

    function With(z: Zone, p: Pair): (s: Snapshot)
      ensures s.At(z) == p
      ensures forall y :: y != z ==> s.At(y) == At(y)
      ensures s.fan == fan && s.duty == duty && s.log == log
    {
      match z
      case Inside => this.(inside := p)
      case Outside => this.(outside := p)
      case Repeater => this.(repeater := p)
    }
  }

  /** The hysteresis threshold of `report_sensor`. */
  const Threshold: real := 1.0

  /** `pwm.duty_u16` argument for a running fan (100 % duty). */
  const FullDuty: int := 65535

  function Abs(x: real): real
  {
    if x < 0.0 then -x else x
  }

  /** `abs(stored - fresh) >= 1.0`: the new value is far enough to be stored and published. */
  predicate Significant(stored: real, latest: real)
  {
    Abs(stored - latest) >= Threshold
  }

  function Publish(k: Key, payload: string): Message
  {
    Message(Topic(k), payload)
  }

  /** The value `report_sensor` compares against the stored one for a metric:
      the Fahrenheit temperature, or the raw humidity. */
  function Fresh(r: Reading, m: Metric): real
  {
    match m
    case Temperature => ToF(r.celsius)
    case Humidity => r.humidity
  }

  /** `report_sensor(last, sensor, name)` on the pair `last` of zone `z`: the
      pair afterwards and the messages published, in order. The humidity test
      reads the pair after the temperature update, as the in-place list does. */
  function ReportZone(last: Pair, r: Reading, z: Zone): (Pair, seq<Message>)
  {
    var temperature := ToF(r.celsius);
    var humidity := r.humidity;
    var (p1, m1) :=
      if Significant(last.temp, temperature)
      then (last.(temp := temperature), [Publish(Sensor(Temperature, z), DecimalString(Trunc(temperature)))])
      else (last, []);
    var (p2, m2) :=
      if Significant(p1.humi, humidity)
      then (p1.(humi := humidity), [Publish(Sensor(Humidity, z), DecimalString(Trunc(humidity)))])
      else (p1, []);
    (p2, m1 + m2)
  }

  /** The snapshot after `report_sensor` for zone `z`. */
  function Report(s: Snapshot, z: Zone, r: Reading): Snapshot
  {
    var (p, ms) := ReportZone(s.At(z), r, z);
    s.With(z, p).(log := s.log + ms)
  }

  /** The fan rule of `check_fan`: REPEATER warmer than OUTSIDE, compared after
      `int()`. Truncation leaves a dead band: the rule implies the repeater is
      warmer, and a lead of two degrees or more always meets it. */
  predicate FanWanted(s: Snapshot)
    ensures FanWanted(s) ==> s.repeater.temp > s.outside.temp
    ensures s.repeater.temp >= s.outside.temp + 2.0 ==> FanWanted(s)
  {
    Trunc(s.repeater.temp) > Trunc(s.outside.temp)
  }

  /** The snapshot after `check_fan`. */
  function FanStep(s: Snapshot): Snapshot
  {
    if FanWanted(s) then
      if !s.fan then s.(duty := FullDuty, fan := true, log := s.log + [Publish(FanState, "1")])
      else s
    else if s.fan then s.(duty := 0, fan := false, log := s.log + [Publish(FanState, "0")])
    else s
  }

  /** How one pass of `loop` ends: all three zones reported, or a sensor read
      failed at zone `at`, which ends the pass before anything is rendered
      (the device then reboots and the snapshot is discarded). */
  datatype Outcome = Completed(state: Snapshot) | Aborted(state: Snapshot, at: Zone)

  /** The fan check and the three reports of one pass of `loop`; None stands
      for a sensor read that raised. */
  function Cycle(s: Snapshot, inside: Option<Reading>, outside: Option<Reading>,
                 repeater: Option<Reading>): Outcome
  {
    var s1 := FanStep(s);
    if inside.None? then Aborted(s1, Inside)
    else
      var s2 := Report(s1, Inside, inside.value);
      if outside.None? then Aborted(s2, Outside)
      else
        var s3 := Report(s2, Outside, outside.value);
        if repeater.None? then Aborted(s3, Repeater)
        else Completed(Report(s3, Repeater, repeater.value))
  }

  /** The frames of the first `k` zones of ZoneOrder, temperature then humidity,
      at display indices 1, 2, ..., 2k. */
  function RenderPlan(s: Snapshot, k: nat): (plan: seq<Frame>)
    requires k <= |ZoneOrder|
    ensures |plan| == 2 * k
  {
    if k == 0 then []
    else
      var z := ZoneOrder[k - 1];
      RenderPlan(s, k - 1) + [Render(2 * k - 1, s.At(z).temp), Render(2 * k, s.At(z).humi)]
  }

  /** What the display loop does to the outside world, in order: a
      `display_value(index, value)` call, which draws `Render(index, value)`,
      or an LED toggle. */
  datatype Event = Show(index: int, value: real) | Toggle

  /** The frames drawn by a run of events, in order. */
  function Drawn(events: seq<Event>): (frames: seq<Frame>)
    ensures |frames| <= |events|
    decreases |events|
  {
    if events == [] then []
    else
      var last := events[|events| - 1];
      Drawn(events[..|events| - 1]) + (if last.Show? then [Render(last.index, last.value)] else [])
  }

  /** One zone's turn of the display loop: its temperature shown at `index`,
      a toggle, its humidity shown at `index + 1`, a toggle. */
  function ZoneShown(index: int, p: Pair): (events: seq<Event>)
    ensures |events| == 4 && events[1] == Toggle && events[3] == Toggle
  {
    [Show(index, p.temp), Toggle, Show(index + 1, p.humi), Toggle]
  }

  /** The events of the first `k` turns of the display loop. */
  function DisplayPlan(s: Snapshot, k: nat): (plan: seq<Event>)
    requires k <= |ZoneOrder|
    ensures |plan| == 4 * k
  {
    if k == 0 then [] else DisplayPlan(s, k - 1) + ZoneShown(2 * k - 1, s.At(ZoneOrder[k - 1]))
  }

  /** The start-up state: every zone at `[0.0, 0.0]`, the fan off, duty 0 and
      the one `("FAN_STATE", "0")` message published before the loop starts. */
  function Initial(): Snapshot
  {
    Snapshot(Pair(0.0, 0.0), Pair(0.0, 0.0), Pair(0.0, 0.0), false, 0, [Publish(FanState, "0")])
  }

  /** The payload last published on a topic, if any. */
  function LastPayload(log: seq<Message>, topic: string): Option<string>
    decreases |log|
  {
    if log == [] then None
    else if log[|log| - 1].topic == topic then Some(log[|log| - 1].payload)
    else LastPayload(log[..|log| - 1], topic)
  }

  /** What the broker last received on the topic of `k` agrees with the snapshot. */
  predicate Agrees(s: Snapshot, k: Key)
  {
    var last := LastPayload(s.log, Topic(k));
    match k
    case FanState => last == Some(if s.fan then "1" else "0")
    case Sensor(m, z) => last == None || last == Some(DecimalString(Trunc(s.At(z).Get(m))))
  }

  /** The controller's invariant: the PWM duty matches the fan flag, and every
      topic's last published payload matches the stored state. */
  ghost predicate Inv(s: Snapshot)
  {
    && s.duty == (if s.fan then FullDuty else 0)
    && forall k :: Agrees(s, k)
  }

  /** The position of a zone in ZoneOrder. */
  function ZoneIndex(z: Zone): nat
  {
    match z
    case Inside => 0
    case Outside => 1
    case Repeater => 2
  }

  /** The order in which one pass of `loop` can publish: FAN_STATE, then
      INSIDE, OUTSIDE, REPEATER, temperature before humidity. */
  function KeyRank(k: Key): nat
  {
    match k
    case FanState => 0
    case Sensor(m, z) => 1 + 2 * ZoneIndex(z) + (if m == Temperature then 0 else 1)
  }

  /** The rank of a message's topic; -1 for a topic the controller never uses. */
  function Rank(msg: Message): int
  {
    match KeyOf(msg.topic)
    case None => -1
    case Some(k) => KeyRank(k)
  }

  /** The payloads published on one topic, in order. */
  function PayloadsOn(log: seq<Message>, topic: string): seq<string>
    decreases |log|
  {
    if log == [] then []
    else
      var last := log[|log| - 1];
      PayloadsOn(log[..|log| - 1], topic) + (if last.topic == topic then [last.payload] else [])
  }

  /** Ranks strictly increasing and all within [lo, hi): at most one message
      per topic, in publishing order. */
  ghost predicate RankedWithin(ms: seq<Message>, lo: int, hi: int)
  {
    && (forall i :: 0 <= i < |ms| ==> lo <= Rank(ms[i]) < hi)
    && (forall i, j :: 0 <= i < j < |ms| ==> Rank(ms[i]) < Rank(ms[j]))
  }
}
