/** The running controller: the `data` dictionary, the PWM output, the
    broker connection's publish history, the display and the LED, updated in
    place by `check_fan`, `report_sensor`, `display_value` and `loop`.
    ReportSensor, CheckFan, RenderAll and LoopBody are each proved to perform
    the state change a Telemetry function describes (Report, FanStep,
    DisplayPlan, Cycle); ReportSensor, CheckFan and LoopBody also keep the
    controller invariant. Store, DisplayValue, ToggleLed and RenderZone are
    single steps, each stating its own effect. */
module Controller {
  import opened Numeric
  import opened Display
  import opened Telemetry
  import opened Properties

  class Device {
    // The three `data[zone]` lists and `data["FAN"]`.
    var inside: Pair
    var outside: Pair
    var repeater: Pair
    var fan: bool
    // The last `pwm.duty_u16` argument.
    var duty: int
    // Every `client.publish` call so far.
    var log: seq<Message>
    // Every `display_value` call and every `led.toggle()`, in order.
    var shown: seq<Event>
    // The LED level.
    var led: bool

    function State(): Snapshot
      reads this`inside, this`outside, this`repeater, this`fan, this`duty, this`log
    {
      Snapshot(inside, outside, repeater, fan, duty, log)
    }

    /** The pair of zone `z`. It equals `State().At(z)`, but it reads only the
        three zone fields, so a publish or a fan update provably leaves it alone. */
    function Stored(z: Zone): Pair
      reads this`inside, this`outside, this`repeater
    {
      match z
      case Inside => inside
      case Outside => outside
      case Repeater => repeater
    }

    ghost predicate Valid()
      reads this`inside, this`outside, this`repeater, this`fan, this`duty, this`log
    {
      Inv(State())
    }

    /** Start-up: the initial `data`, the `("FAN_STATE", "0")` publish after
        connecting, then `pwm.duty_u16(0)`. The `display_value(0, 0)` call
        made during start-up runs before the display driver exists, so its
        error is swallowed and nothing is drawn. */
    constructor ()
      ensures Valid()
      ensures State() == Initial()
      ensures shown == []
    {
      inside, outside, repeater := Pair(0.0, 0.0), Pair(0.0, 0.0), Pair(0.0, 0.0);
      fan := false;
      log := [Publish(FanState, "0")];
      duty := 0;
      shown, led := [], false;
      InitialInv();
    }

    /** `last[i] = value` on the list of zone `z`. */
    method Store(z: Zone, m: Metric, value: real)
      modifies this
      ensures Stored(z).Get(m) == value
      ensures Stored(z).Get(if m == Temperature then Humidity else Temperature)
           == old(Stored(z)).Get(if m == Temperature then Humidity else Temperature)
      ensures forall y :: y != z ==> Stored(y) == old(Stored(y))
      ensures fan == old(fan) && duty == old(duty) && log == old(log)
      ensures shown == old(shown) && led == old(led)
    {
      var p := Stored(z);
      var q := if m == Temperature then p.(temp := value) else p.(humi := value);
      match z
      case Inside => inside := q;
      case Outside => outside := q;
      case Repeater => repeater := q;
    }

    /** `report_sensor(data[name], sensor, name)` with the sensor's reading `r`. */
    method ReportSensor(z: Zone, r: Reading)
      requires Valid()
      modifies this
      ensures Valid()
      ensures State() == Report(old(State()), z, r)
      ensures shown == old(shown) && led == old(led)
    {
      ghost var before := State();
      ghost var expected := Report(before, z, r);
      ReportAddedSplit(before, z, r);
      ReportFrame(before, z, r);
      var temperature := ToF(r.celsius);
      var humidity := r.humidity;
      if Abs(Stored(z).temp - temperature) >= 1.0 {
        Store(z, Temperature, temperature);
        log := log + [Publish(Sensor(Temperature, z), DecimalString(Trunc(temperature)))];
      }
      assert log == before.log + MetricMessages(before.At(z), r, z, Temperature);
      if Abs(Stored(z).humi - humidity) >= 1.0 {
        Store(z, Humidity, humidity);
        log := log + [Publish(Sensor(Humidity, z), DecimalString(Trunc(humidity)))];
      }
      assert Stored(z) == expected.At(z);
      assert Stored(Inside) == expected.At(Inside) && Stored(Outside) == expected.At(Outside)
        && Stored(Repeater) == expected.At(Repeater);
      ReportPreservesInv(before, z, r);
      assert State() == expected;
    }

    /** `check_fan()`. */
    method CheckFan()
      requires Valid()
      modifies this
      ensures Valid()
      ensures State() == FanStep(old(State()))
      ensures fan == FanWanted(old(State()))
      ensures shown == old(shown) && led == old(led)
    {
      if Trunc(repeater.temp) > Trunc(outside.temp) {
        if !fan {
          duty := FullDuty;
          fan := true;
          log := log + [Publish(FanState, "1")];
        }
      } else if fan {
        duty := 0;
        fan := false;
        log := log + [Publish(FanState, "0")];
      }
      FanStepPreservesInv(old(State()));
    }

    /** `display_value(index, value)`: one call recorded, and exactly the
        frame `Render(index, value)` added to what has been drawn. */
    method DisplayValue(index: int, value: real)
      modifies this`shown
      ensures shown == old(shown) + [Show(index, value)]
      ensures Drawn(shown) == Drawn(old(shown)) + [Render(index, value)]
    {
      DrawnConcat(shown, [Show(index, value)]);
      assert [Show(index, value)][..0] == [];
      shown := shown + [Show(index, value)];
    }

    /** `led.toggle()`. */
    method ToggleLed()
      modifies this`led, this`shown
      ensures led == !old(led) && shown == old(shown) + [Toggle]
    {
      led := !led;
      shown := shown + [Toggle];
    }

    /** One turn of the display loop: the zone's temperature at `index`, its
        humidity at `index + 1`, each followed by an LED toggle. */
    method RenderZone(index: int, key: Zone)
      modifies this`shown, this`led
      ensures shown == old(shown) + ZoneShown(index, Stored(key))
      ensures led == old(led)
    {
      DisplayValue(index, Stored(key).temp);
      ToggleLed();
      DisplayValue(index + 1, Stored(key).humi);
      ToggleLed();
    }

    /** The display phase of `loop()`: for each zone key in order, the
        temperature then the humidity at the next index, each followed by a
        toggle. Properties.DisplayPlanDraws and DisplayPlanInterleaves say
        what that sequence of events draws and in what order. */
    method RenderAll()
      modifies this`shown, this`led
      ensures shown == old(shown) + DisplayPlan(State(), |ZoneOrder|)
      ensures led == old(led)
    {
      ghost var s := State();
      var i := 1;
      for k := 0 to |ZoneOrder|
        invariant i == 2 * k + 1
        invariant State() == s
        invariant shown == old(shown) + DisplayPlan(s, k)
        invariant led == old(led)
      {
        var key := ZoneOrder[k];
        RenderZone(i, key);
        i := i + 2;
      }
    }

    /** One pass of `loop()` without its pacing: the fan check, the three
        reports in the order INSIDE, OUTSIDE, REPEATER, then six frames with
        an LED toggle after each. A reading of None is a sensor read that
        raised: the pass stops there, before anything is rendered, and
        `completed` is false (the device would then reboot). */
    method LoopBody(readInside: Option<Reading>, readOutside: Option<Reading>, readRepeater: Option<Reading>)
      returns (completed: bool)
      requires Valid()
      modifies this
      ensures Valid()
      ensures completed == Cycle(old(State()), readInside, readOutside, readRepeater).Completed?
      ensures State() == Cycle(old(State()), readInside, readOutside, readRepeater).state
      ensures completed ==> shown == old(shown) + DisplayPlan(State(), |ZoneOrder|)
      ensures !completed ==> shown == old(shown)
      ensures led == old(led)
    {
      CheckFan();
      if readInside.None? {
        return false;
      }
      ReportSensor(Inside, readInside.value);
      if readOutside.None? {
        return false;
      }
      ReportSensor(Outside, readOutside.value);
      if readRepeater.None? {
        return false;
      }
      ReportSensor(Repeater, readRepeater.value);

      RenderAll();
      completed := true;
    }
  }
}
