/** What the controller's state changes guarantee: hysteresis per metric,
    the fan rule and its idempotence, the order and number of messages in one
    pass of `loop`, and the invariant that the broker's last word on every
    topic matches the stored state. */
module Properties {
  import opened Numeric
  import opened Display
  import opened Telemetry

  // ---------------------------------------------------------------------------
  // The publish log

  lemma {:induction false} PayloadsOnConcat(a: seq<Message>, b: seq<Message>, topic: string)
    ensures PayloadsOn(a + b, topic) == PayloadsOn(a, topic) + PayloadsOn(b, topic)
    decreases |b|
  {
    if b != [] {
      var ab, init := a + b, b[..|b| - 1];
      var last := b[|b| - 1];
      var tail := if last.topic == topic then [last.payload] else [];
      assert ab[..|ab| - 1] == a + init && ab[|ab| - 1] == last;
      assert PayloadsOn(ab, topic) == PayloadsOn(a + init, topic) + tail;
      assert PayloadsOn(b, topic) == PayloadsOn(init, topic) + tail;
      PayloadsOnConcat(a, init, topic);
    } else {
      assert a + b == a;
    }
  }

  /** The last payload on a topic is the last of the payloads published on it. */
  lemma {:induction false} LastPayloadIsLastOf(log: seq<Message>, topic: string)
    ensures var ps := PayloadsOn(log, topic);
      LastPayload(log, topic) == if ps == [] then None else Some(ps[|ps| - 1])
    decreases |log|
  {
    if log != [] {
      LastPayloadIsLastOf(log[..|log| - 1], topic);
    }
  }

  /** Appending messages changes a topic's last payload only if one of them is on that topic. */
  lemma LastPayloadAppend(log: seq<Message>, added: seq<Message>, topic: string)
    ensures var ps := PayloadsOn(added, topic);
      LastPayload(log + added, topic) == if ps == [] then LastPayload(log, topic) else Some(ps[|ps| - 1])
  {
    PayloadsOnConcat(log, added, topic);
    LastPayloadIsLastOf(log + added, topic);
    LastPayloadIsLastOf(log, topic);
  }

  lemma PayloadsOnSingle(k: Key, payload: string, j: Key)
    ensures PayloadsOn([Publish(k, payload)], Topic(j)) == if j == k then [payload] else []
  {
    TopicInjective(k, j);
    assert [Publish(k, payload)][..0] == [];
  }

  lemma RankOfPublish(k: Key, payload: string)
    ensures Rank(Publish(k, payload)) == KeyRank(k)
  {
    TopicRoundTrip(k);
  }

  lemma RankedConcat(a: seq<Message>, b: seq<Message>, lo: int, mid: int, hi: int)
    requires lo <= mid <= hi
    requires RankedWithin(a, lo, mid) && RankedWithin(b, mid, hi)
    ensures RankedWithin(a + b, lo, hi)
  {
    var ab := a + b;
    forall i | 0 <= i < |ab| ensures lo <= Rank(ab[i]) < hi {
      if i >= |a| { assert ab[i] == b[i - |a|]; } else { assert ab[i] == a[i]; }
    }
    forall i, j | 0 <= i < j < |ab| ensures Rank(ab[i]) < Rank(ab[j]) {
      if j < |a| {
        assert ab[i] == a[i] && ab[j] == a[j];
      } else if i >= |a| {
        assert ab[i] == b[i - |a|] && ab[j] == b[j - |a|];
      } else {
        assert ab[i] == a[i] && ab[j] == b[j - |a|];
      }
    }
  }

  /** Strictly increasing ranks within [lo, hi) leave room for at most hi - lo messages. */
  lemma {:induction false} RankedLength(ms: seq<Message>, lo: int, hi: int)
    requires RankedWithin(ms, lo, hi)
    ensures |ms| <= if lo <= hi then hi - lo else 0
    decreases |ms|
  {
    if ms != [] {
      var top := Rank(ms[|ms| - 1]);
      var init := ms[..|ms| - 1];
      assert RankedWithin(init, lo, top);
      RankedLength(init, lo, top);
    }
  }

  // ---------------------------------------------------------------------------
  // report_sensor

  /** The messages a report adds to the log. */
  function ReportAdded(s: Snapshot, z: Zone, r: Reading): seq<Message>
  {
    ReportZone(s.At(z), r, z).1
  }

  /** The message a report publishes for one metric, if any. */
  function MetricMessages(last: Pair, r: Reading, z: Zone, m: Metric): seq<Message>
  {
    if Significant(last.Get(m), Fresh(r, m))
    then [Publish(Sensor(m, z), DecimalString(Trunc(Fresh(r, m))))] else []
  }

  lemma ReportAddedSplit(s: Snapshot, z: Zone, r: Reading)
    ensures ReportAdded(s, z, r) ==
      MetricMessages(s.At(z), r, z, Temperature) + MetricMessages(s.At(z), r, z, Humidity)
    ensures Report(s, z, r).log == s.log + ReportAdded(s, z, r)
  {
  }

  lemma MetricMessagesRanked(last: Pair, r: Reading, z: Zone, m: Metric)
    ensures RankedWithin(MetricMessages(last, r, z, m), KeyRank(Sensor(m, z)), KeyRank(Sensor(m, z)) + 1)
    ensures forall k ::
      PayloadsOn(MetricMessages(last, r, z, m), Topic(k)) ==
        (if k == Sensor(m, z) && Significant(last.Get(m), Fresh(r, m))
         then [DecimalString(Trunc(Fresh(r, m)))] else [])
  {
    var p := DecimalString(Trunc(Fresh(r, m)));
    RankOfPublish(Sensor(m, z), p);
    forall k ensures PayloadsOn(MetricMessages(last, r, z, m), Topic(k)) ==
      if k == Sensor(m, z) && Significant(last.Get(m), Fresh(r, m)) then [p] else []
    {
      PayloadsOnSingle(Sensor(m, z), p, k);
    }
  }

  /** Hysteresis, per metric: the stored value moves to the fresh one and one
      message carrying `str(int(fresh))` goes out on that metric's topic
      exactly when they differ by at least 1.0; otherwise the stored value
      stays and nothing is published on that topic. No other topic is
      published on, and the log only grows at its end. */
  lemma ReportPublishes(s: Snapshot, z: Zone, r: Reading, k: Key)
    ensures Report(s, z, r).log == s.log + ReportAdded(s, z, r)
    ensures PayloadsOn(ReportAdded(s, z, r), Topic(k)) ==
      match k
      case FanState => []
      case Sensor(m, y) =>
        if y == z && Significant(s.At(z).Get(m), Fresh(r, m))
        then [DecimalString(Trunc(Fresh(r, m)))] else []
  {
    var mt := MetricMessages(s.At(z), r, z, Temperature);
    var mh := MetricMessages(s.At(z), r, z, Humidity);
    ReportAddedSplit(s, z, r);
    PayloadsOnConcat(mt, mh, Topic(k));
    MetricMessagesRanked(s.At(z), r, z, Temperature);
    MetricMessagesRanked(s.At(z), r, z, Humidity);
    var pt, ph := PayloadsOn(mt, Topic(k)), PayloadsOn(mh, Topic(k));
    assert PayloadsOn(ReportAdded(s, z, r), Topic(k)) == pt + ph;
    match k
    case FanState =>
      assert pt == [] && ph == [];
    case Sensor(m, y) =>
      if m == Temperature {
        assert ph == [];
        assert pt + ph == pt;
      } else {
        assert pt == [];
        assert pt + ph == ph;
      }
  }

  /** The stored value of each metric after a report. */
  lemma ReportStores(s: Snapshot, z: Zone, r: Reading, m: Metric)
    ensures Report(s, z, r).At(z).Get(m) ==
      if Significant(s.At(z).Get(m), Fresh(r, m)) then Fresh(r, m) else s.At(z).Get(m)
  {
  }

  /** After a report each stored value is within the threshold of the reading
      just taken: either it was replaced by it, or it was already that close. */
  lemma ReportTracks(s: Snapshot, z: Zone, r: Reading, m: Metric)
    ensures Abs(Report(s, z, r).At(z).Get(m) - Fresh(r, m)) < Threshold
  {
    ReportStores(s, z, r, m);
  }

  /** Temperature and humidity are independent: a metric's stored value and
      what is published on its topic depend only on that metric's fresh value. */
  lemma MetricsIndependent(s: Snapshot, z: Zone, r1: Reading, r2: Reading, m: Metric)
    requires Fresh(r1, m) == Fresh(r2, m)
    ensures Report(s, z, r1).At(z).Get(m) == Report(s, z, r2).At(z).Get(m)
    ensures PayloadsOn(ReportAdded(s, z, r1), Topic(Sensor(m, z)))
         == PayloadsOn(ReportAdded(s, z, r2), Topic(Sensor(m, z)))
  {
    ReportStores(s, z, r1, m);
    ReportStores(s, z, r2, m);
    ReportPublishes(s, z, r1, Sensor(m, z));
    ReportPublishes(s, z, r2, Sensor(m, z));
  }

  /** The messages a report adds are ranked within its zone's two topics,
      temperature before humidity, so there are at most two. */
  lemma ReportAddsRanked(s: Snapshot, z: Zone, r: Reading)
    ensures RankedWithin(ReportAdded(s, z, r), 1 + 2 * ZoneIndex(z), 3 + 2 * ZoneIndex(z))
    ensures |ReportAdded(s, z, r)| <= 2
  {
    var lo := 1 + 2 * ZoneIndex(z);
    ReportAddedSplit(s, z, r);
    MetricMessagesRanked(s.At(z), r, z, Temperature);
    MetricMessagesRanked(s.At(z), r, z, Humidity);
    RankedConcat(MetricMessages(s.At(z), r, z, Temperature), MetricMessages(s.At(z), r, z, Humidity),
                 lo, lo + 1, lo + 2);
    RankedLength(ReportAdded(s, z, r), lo, lo + 2);
  }

  /** A report touches only its own zone: the other zones, the fan flag and the
      duty stay, and it adds at most two messages, temperature before
      humidity, both on this zone's topics. */
  lemma ReportFrame(s: Snapshot, z: Zone, r: Reading)
    ensures forall y :: y != z ==> Report(s, z, r).At(y) == s.At(y)
    ensures Report(s, z, r).fan == s.fan && Report(s, z, r).duty == s.duty
    ensures RankedWithin(ReportAdded(s, z, r), 1 + 2 * ZoneIndex(z), 3 + 2 * ZoneIndex(z))
    ensures |ReportAdded(s, z, r)| <= 2
  {
    ReportAddsRanked(s, z, r);
  }

  /** A report keeps the invariant. */
  lemma ReportPreservesInv(s: Snapshot, z: Zone, r: Reading)
    requires Inv(s)
    ensures Inv(Report(s, z, r))
  {
    var t := Report(s, z, r);
    var added := ReportAdded(s, z, r);
    ReportFrame(s, z, r);
    forall k ensures Agrees(t, k) {
      assert Agrees(s, k);
      ReportPublishes(s, z, r, k);
      LastPayloadAppend(s.log, added, Topic(k));
      match k
      case FanState =>
      case Sensor(m, y) =>
        ReportStores(s, z, r, m);
    }
  }

  // ---------------------------------------------------------------------------
  // check_fan

  /** `check_fan` sets the flag to the rule's verdict; on a transition it drives
      the PWM to full scale or zero and publishes the new state once; without
      one it changes nothing. The zones are never touched. */
  lemma FanStepEffect(s: Snapshot)
    ensures FanStep(s).fan == FanWanted(s)
    ensures forall z :: FanStep(s).At(z) == s.At(z)
    ensures FanWanted(s) == s.fan ==> FanStep(s) == s
    ensures FanWanted(s) != s.fan ==>
      && FanStep(s).duty == (if FanWanted(s) then FullDuty else 0)
      && FanStep(s).log == s.log + [Publish(FanState, if FanWanted(s) then "1" else "0")]
  {
  }

  /** A second `check_fan` on the same data does nothing. */
  lemma FanStepIdempotent(s: Snapshot)
    ensures FanStep(FanStep(s)) == FanStep(s)
  {
    FanStepEffect(s);
    FanStepEffect(FanStep(s));
  }

  /** Under the invariant the PWM duty always matches the rule's verdict
      after `check_fan`, and the invariant is kept. */
  lemma FanStepPreservesInv(s: Snapshot)
    requires Inv(s)
    ensures Inv(FanStep(s))
    ensures FanStep(s).duty == (if FanWanted(s) then FullDuty else 0)
  {
    var t := FanStep(s);
    FanStepEffect(s);
    if t != s {
      var added := [Publish(FanState, if t.fan then "1" else "0")];
      forall k ensures Agrees(t, k) {
        assert Agrees(s, k);
        PayloadsOnSingle(FanState, if t.fan then "1" else "0", k);
        LastPayloadAppend(s.log, added, Topic(k));
      }
    }
  }

  /** Temperatures are compared after truncation: a repeater 0.8 degrees
      warmer than outside, within the same whole degree, leaves the fan off. */
  lemma FanTruncationExample()
    ensures !FanWanted(Snapshot(Pair(0.0, 0.0), Pair(70.1, 0.0), Pair(70.9, 0.0), false, 0, []))
  {
  }

  /** Ties after truncation switch the fan off. */
  lemma FanTiesAreOff(s: Snapshot)
    requires Trunc(s.repeater.temp) == Trunc(s.outside.temp)
    ensures !FanStep(s).fan
  {
  }

  // ---------------------------------------------------------------------------
  // One pass of loop

  lemma InitialInv()
    ensures Inv(Initial())
  {
    var s := Initial();
    forall k ensures Agrees(s, k) {
      PayloadsOnSingle(FanState, "0", k);
      LastPayloadIsLastOf(s.log, Topic(k));
    }
  }

  /** Every pass keeps the invariant, whether it completes or stops at a sensor fault. */
  lemma CyclePreservesInv(s: Snapshot, inside: Option<Reading>, outside: Option<Reading>,
                          repeater: Option<Reading>)
    requires Inv(s)
    ensures Inv(Cycle(s, inside, outside, repeater).state)
  {
    var s1 := FanStep(s);
    FanStepPreservesInv(s);
    if inside.Some? {
      var s2 := Report(s1, Inside, inside.value);
      ReportPreservesInv(s1, Inside, inside.value);
      if outside.Some? {
        var s3 := Report(s2, Outside, outside.value);
        ReportPreservesInv(s2, Outside, outside.value);
        if repeater.Some? {
          ReportPreservesInv(s3, Repeater, repeater.value);
        }
      }
    }
  }

  /** The fan decision of a pass uses the temperatures stored before the
      pass: the reports that follow never touch the fan flag or the duty. */
  lemma CycleFanLag(s: Snapshot, inside: Option<Reading>, outside: Option<Reading>,
                    repeater: Option<Reading>)
    ensures Cycle(s, inside, outside, repeater).state.fan == FanWanted(s)
    ensures Cycle(s, inside, outside, repeater).state.duty == FanStep(s).duty
  {
    var s1 := FanStep(s);
    FanStepEffect(s);
    if inside.Some? {
      var s2 := Report(s1, Inside, inside.value);
      ReportFrame(s1, Inside, inside.value);
      if outside.Some? {
        var s3 := Report(s2, Outside, outside.value);
        ReportFrame(s2, Outside, outside.value);
        if repeater.Some? {
          ReportFrame(s3, Repeater, repeater.value);
        }
      }
    }
  }

  /** The lag is observable: from start-up, a first pass that reads a warm
      repeater ends with the fan still off although the stored values now
      call for it. */
  lemma CycleLagExample()
    ensures var t := Cycle(Initial(), Some(Reading(20.0, 40.0)), Some(Reading(0.0, 40.0)),
                           Some(Reading(30.0, 40.0))).state;
      !t.fan && FanWanted(t)
  {
    var t := Cycle(Initial(), Some(Reading(20.0, 40.0)), Some(Reading(0.0, 40.0)),
                   Some(Reading(30.0, 40.0))).state;
    CycleFanLag(Initial(), Some(Reading(20.0, 40.0)), Some(Reading(0.0, 40.0)),
                Some(Reading(30.0, 40.0)));
    assert t.repeater.temp == 86.0;
  }

  /** `after` is `before` followed by messages ranked strictly within [0, hi). */
  ghost predicate ExtendsRanked(before: seq<Message>, after: seq<Message>, hi: int)
  {
    |before| <= |after| && after[..|before|] == before && RankedWithin(after[|before|..], 0, hi)
  }

  lemma ReportExtendsRanked(log: seq<Message>, s: Snapshot, z: Zone, r: Reading)
    requires ExtendsRanked(log, s.log, 1 + 2 * ZoneIndex(z))
    ensures ExtendsRanked(log, Report(s, z, r).log, 3 + 2 * ZoneIndex(z))
  {
    var added := ReportAdded(s, z, r);
    var prior := s.log[|log|..];
    ReportPublishes(s, z, r, FanState);
    ReportFrame(s, z, r);
    RankedConcat(prior, added, 0, 1 + 2 * ZoneIndex(z), 3 + 2 * ZoneIndex(z));
    assert s.log == log + prior;
    assert Report(s, z, r).log == log + (prior + added);
  }

  lemma FanStepExtendsRanked(s: Snapshot)
    ensures ExtendsRanked(s.log, FanStep(s).log, 1)
  {
    FanStepEffect(s);
    if FanStep(s) != s {
      RankOfPublish(FanState, if FanStep(s).fan then "1" else "0");
    } else {
      assert FanStep(s).log[|s.log|..] == [];
    }
  }

  lemma WidenRanked(before: seq<Message>, after: seq<Message>, hi: int, wider: int)
    requires ExtendsRanked(before, after, hi) && hi <= wider
    ensures ExtendsRanked(before, after, wider)
  {
  }

  lemma {:induction false} CycleExtendsRanked(s: Snapshot, inside: Option<Reading>,
                                              outside: Option<Reading>, repeater: Option<Reading>)
    ensures ExtendsRanked(s.log, Cycle(s, inside, outside, repeater).state.log, 7)
  {
    var s1 := FanStep(s);
    FanStepExtendsRanked(s);
    if inside.None? {
      WidenRanked(s.log, s1.log, 1, 7);
      return;
    }
    var s2 := Report(s1, Inside, inside.value);
    ReportExtendsRanked(s.log, s1, Inside, inside.value);
    if outside.None? {
      WidenRanked(s.log, s2.log, 3, 7);
      return;
    }
    var s3 := Report(s2, Outside, outside.value);
    ReportExtendsRanked(s.log, s2, Outside, outside.value);
    if repeater.None? {
      WidenRanked(s.log, s3.log, 5, 7);
      return;
    }
    ReportExtendsRanked(s.log, s3, Repeater, repeater.value);
  }

  /** The messages of one pass come out in order (the fan state, then INSIDE,
      OUTSIDE, REPEATER, temperature before humidity), at most one per topic,
      so at most seven, appended after what was already published. */
  lemma CycleMessages(s: Snapshot, inside: Option<Reading>, outside: Option<Reading>,
                      repeater: Option<Reading>)
    ensures var t := Cycle(s, inside, outside, repeater).state;
      && |s.log| <= |t.log| && t.log[..|s.log|] == s.log
      && RankedWithin(t.log[|s.log|..], 0, 7)
      && |t.log| <= |s.log| + 7
  {
    var t := Cycle(s, inside, outside, repeater).state;
    CycleExtendsRanked(s, inside, outside, repeater);
    RankedLength(t.log[|s.log|..], 0, 7);
  }

  /** A sensor fault stops the pass where it happens: the failing zone and
      the zones after it keep their stored values. */
  lemma CycleAbortStops(s: Snapshot, inside: Option<Reading>, outside: Option<Reading>,
                        repeater: Option<Reading>)
    ensures var o := Cycle(s, inside, outside, repeater);
      o.Aborted? ==> forall z :: ZoneIndex(o.at) <= ZoneIndex(z) ==> o.state.At(z) == s.At(z)
    ensures Cycle(s, inside, outside, repeater).Completed? <==>
      inside.Some? && outside.Some? && repeater.Some?
  {
    var s1 := FanStep(s);
    FanStepEffect(s);
    if inside.Some? {
      var s2 := Report(s1, Inside, inside.value);
      ReportFrame(s1, Inside, inside.value);
      if outside.Some? {
        ReportFrame(s2, Outside, outside.value);
      }
    }
  }

  lemma {:induction false} DrawnConcat(a: seq<Event>, b: seq<Event>)
    ensures Drawn(a + b) == Drawn(a) + Drawn(b)
    decreases |b|
  {
    if b == [] {
      assert a + b == a;
    } else {
      var init := b[..|b| - 1];
      assert (a + b)[..|a + b| - 1] == a + init && (a + b)[|a + b| - 1] == b[|b| - 1];
      DrawnConcat(a, init);
    }
  }

  /** A zone's turn draws its temperature frame, then its humidity frame. */
  lemma ZoneShownDraws(index: int, p: Pair)
    ensures Drawn(ZoneShown(index, p)) == [Render(index, p.temp), Render(index + 1, p.humi)]
  {
    var e1, e2, e3 := [Show(index, p.temp)], [Show(index, p.temp), Toggle], [Show(index, p.temp), Toggle, Show(index + 1, p.humi)];
    assert e1[..0] == [];
    assert Drawn(e1) == [Render(index, p.temp)];
    assert e2[..1] == e1;
    assert Drawn(e2) == [Render(index, p.temp)];
    assert e3[..2] == e2;
    assert Drawn(e3) == [Render(index, p.temp), Render(index + 1, p.humi)];
    assert ZoneShown(index, p)[..3] == e3;
  }

  /** The display loop's events draw exactly the frames of RenderPlan. */
  lemma {:induction false} DisplayPlanDraws(s: Snapshot, k: nat)
    requires k <= |ZoneOrder|
    ensures Drawn(DisplayPlan(s, k)) == RenderPlan(s, k)
  {
    if k != 0 {
      var p := s.At(ZoneOrder[k - 1]);
      DisplayPlanDraws(s, k - 1);
      DrawnConcat(DisplayPlan(s, k - 1), ZoneShown(2 * k - 1, p));
      ZoneShownDraws(2 * k - 1, p);
    }
  }

  /** Every `display_value` call of the loop is followed at once by an LED
      toggle: even positions show index 1, 2, ... in turn, odd positions toggle. */
  lemma {:induction false} DisplayPlanInterleaves(s: Snapshot, k: nat)
    requires k <= |ZoneOrder|
    ensures forall j :: 0 <= j < 2 * k ==>
      DisplayPlan(s, k)[2 * j].Show? && DisplayPlan(s, k)[2 * j].index == j + 1
      && DisplayPlan(s, k)[2 * j + 1] == Toggle
  {
    if k != 0 {
      DisplayPlanInterleaves(s, k - 1);
      var plan, init := DisplayPlan(s, k), DisplayPlan(s, k - 1);
      var zone := ZoneShown(2 * k - 1, s.At(ZoneOrder[k - 1]));
      assert plan == init + zone;
      forall j | 0 <= j < 2 * k
        ensures plan[2 * j].Show? && plan[2 * j].index == j + 1 && plan[2 * j + 1] == Toggle
      {
        if j < 2 * (k - 1) {
          assert plan[2 * j] == init[2 * j] && plan[2 * j + 1] == init[2 * j + 1];
        } else {
          assert plan[2 * j] == zone[2 * j - 4 * (k - 1)] && plan[2 * j + 1] == zone[2 * j + 1 - 4 * (k - 1)];
        }
      }
    }
  }

  /** The frames of a pass are numbered 1, 2, ... in drawing order: frame i
      shows index i + 1 at position 0. */
  lemma {:induction false} RenderPlanIndices(s: Snapshot, k: nat)
    requires k <= |ZoneOrder|
    ensures forall i :: 0 <= i < |RenderPlan(s, k)| ==> RenderPlan(s, k)[i].p0 == Number(i + 1)
  {
    if k != 0 {
      RenderPlanIndices(s, k - 1);
      var plan, init := RenderPlan(s, k), RenderPlan(s, k - 1);
      forall i | 0 <= i < |plan| ensures plan[i].p0 == Number(i + 1) {
        if i < |init| { assert plan[i] == init[i]; }
      }
    }
  }

  /** The six frames of a pass: index 1..6 showing INSIDE, OUTSIDE and
      REPEATER in turn, temperature then humidity. */
  lemma RenderPlanOrder(s: Snapshot)
    ensures RenderPlan(s, |ZoneOrder|) ==
      [ Render(1, s.inside.temp), Render(2, s.inside.humi),
        Render(3, s.outside.temp), Render(4, s.outside.humi),
        Render(5, s.repeater.temp), Render(6, s.repeater.humi) ]
  {
    assert ZoneOrder[0] == Inside && ZoneOrder[1] == Outside && ZoneOrder[2] == Repeater;
    assert RenderPlan(s, 0) == [];
    assert RenderPlan(s, 1) == [Render(1, s.inside.temp), Render(2, s.inside.humi)];
    assert RenderPlan(s, 2) == RenderPlan(s, 1) + [Render(3, s.outside.temp), Render(4, s.outside.humi)];
    assert RenderPlan(s, 3) == RenderPlan(s, 2) + [Render(5, s.repeater.temp), Render(6, s.repeater.humi)];
  }

  // ---------------------------------------------------------------------------
  // Worked scenarios

  /** Stored 70.0 F, a reading that converts to 71.4 F: the value is stored and "71" published. */
  lemma ScenarioPublish()
    ensures var s := Snapshot(Pair(70.0, 0.0), Pair(0.0, 0.0), Pair(0.0, 0.0), false, 0, []);
      var t := Report(s, Inside, Reading(197.0 / 9.0, 0.5));
      t.inside.temp == 71.4 && t.log == [Publish(Sensor(Temperature, Inside), "71")]
  {
    assert ToF(197.0 / 9.0) == 71.4;
    assert Trunc(71.4) == 71;
    assert NatDigits(7) == "7";
    assert DecimalString(71) == "71";
  }

  /** Stored 70.0 F, a reading that converts to 70.5 F: nothing changes. */
  lemma ScenarioSuppress()
    ensures var s := Snapshot(Pair(70.0, 0.0), Pair(0.0, 0.0), Pair(0.0, 0.0), false, 0, []);
      Report(s, Inside, Reading(385.0 / 18.0, 0.5)) == s
  {
    assert ToF(385.0 / 18.0) == 70.5;
  }

  /** Repeater 75 F, outside 70 F, fan off: the fan goes on and "1" is
      published once; the same data again publishes nothing. */
  lemma ScenarioFanOnce()
    ensures var s := Snapshot(Pair(0.0, 0.0), Pair(70.0, 0.0), Pair(75.0, 0.0), false, 0, []);
      && FanStep(s).fan && FanStep(s).duty == FullDuty
      && FanStep(s).log == [Publish(FanState, "1")]
      && FanStep(FanStep(s)) == FanStep(s)
  {
  }
}
