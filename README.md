# Sensor and fan controller, modelled in Dafny

`main.py` runs on a small board. It watches three SHT31 temperature and humidity
sensors, one each for the INSIDE, OUTSIDE and REPEATER zones, and publishes
changes to an MQTT broker. It also switches a fan through PWM whenever the
repeater's truncated temperature is above the outside one (main.py:97), and it
cycles the stored readings across a 4-digit segment display.

The model covers the controller's sequential core:

- **Hysteresis report (`report_sensor`).** A Celsius reading is converted to
  Fahrenheit. Temperature and humidity are each compared with the zone's
  stored pair. A value is stored, and `str(int(value))` is published on its
  topic, only when it moved by at least 1.0.
- **Fan state machine (`check_fan`).** It compares the truncated REPEATER and
  OUTSIDE temperatures. On a transition it sets the PWM duty and publishes
  `FAN_STATE`.
- **Display encoding (`display_value`).** Position 0 shows the index and
  position 1 a dash. Positions 2 and 3 show the two low nibbles of
  `int(str(int(value)), 16)`.
- **One pass of `loop`.** The fan check runs first. The three reports follow,
  in the order INSIDE, OUTSIDE, REPEATER. Then six frames are drawn, with an
  LED toggle after each one.
- **The start-up state.**

## Files

- `numeric.dfy` (module `Numeric`) holds the Python conversions the code
  relies on:
  - `int()` of a float, which truncates toward zero;
  - the Celsius to Fahrenheit formula;
  - `str()` of an integer;
  - `int(s, base)`.
- `display.dfy` (module `Display`) holds the frame `display_value` draws, as a
  pure function of the index and the value, together with its digit lemmas.
- `telemetry.dfy` (module `Telemetry`) holds the controller state as a value
  (`Snapshot`), plus:
  - the state changes as functions (`Report`, `FanStep`, `Cycle`, `RenderPlan`);
  - the start-up state;
  - the controller invariant `Inv`. Under `Inv` the PWM duty matches the fan
    flag, and the last payload published on every topic agrees with the
    stored state.
- `properties.dfy` (module `Properties`) holds the lemmas about those functions.
- `controller.dfy` (module `Controller`) holds class `Device`. Its fields are
  updated in place, the way the source does it:
  - the three zone pairs of the `data` dictionary, the fan flag and the PWM duty;
  - the publish history, the history of `display_value` calls and LED toggles in order, and the LED level.

  `ReportSensor`, `CheckFan`, `RenderAll` and `LoopBody` are each proved to
  perform the state change that a Telemetry function describes (`Report`,
  `FanStep`, `DisplayPlan`, `Cycle`). `ReportSensor`, `CheckFan` and
  `LoopBody` also keep the invariant. `Store`, `DisplayValue`, `ToggleLed` and
  `RenderZone` are single steps; each states its own effect.

A sensor read that raises is passed in as `None`. The pass stops at that zone,
before anything is drawn; on the device, `reboot()` follows.

Three consequences of the code are worth spelling out:

- The fan rule compares `int()` of the two stored temperatures, not the raw
  values (main.py:97). Equal truncations leave the fan off.
- A pass draws six values, a temperature and a humidity for each zone
  (main.py:176-185).
- A pass publishes at most seven messages: at most one from `check_fan`
  (main.py:98-105) and at most two from each `report_sensor` (main.py:87-92).

The start-up call `display_value(0, 0)` (main.py:123) runs before the display
driver is created (main.py:155). The name it uses is not yet bound, the bare
`except` swallows the error, and so nothing is drawn at start-up.

## Model

| member | source | states |
|---|---|---|
| Numeric.Trunc | main.py:89 | `int()` of a float truncates toward zero: for non-negative x the result is the largest integer not above x, for negative x the smallest integer not below x |
| Numeric.ToF | main.py:85 | the Fahrenheit value converts back to the Celsius reading exactly, and lies below 32 exactly when the Celsius reading is below 0 |
| Numeric.NatDigits | main.py:89 | `str(n)` of a natural number is a non-empty string of decimal digits with no leading zero |
| Numeric.DecimalString | main.py:89 | `str(n)` is non-empty, starts with '-' exactly when n is negative, and is otherwise made of digits |
| Numeric.ParseInt | main.py:73 | `int(s, base)` for bases 2 to 16: the empty string does not parse, and a negative result only comes from a leading '-'; its round trip with `str()` is ParseDecimalString |
| Numeric.ReadAs | main.py:73 | a decimal numeral read in a base of 10 or more is never smaller than the number, and a single digit reads as itself |
| Numeric.DigitsValueOfNatDigits | main.py:73 | the digits of `str(n)` read in any base from 10 to 16 parse, to the decimal digits of n weighted by that base |
| Numeric.ParseDecimalString | main.py:73 | `int(str(n), base)` never fails for base 10 to 16, and keeps the sign of n |
| Numeric.DecimalRoundTrip | main.py:89 | `int(str(n)) == n` for every integer, so a published payload carries exactly `int(value)` |
| Display.HighNibble | main.py:75 | `(bcd & 0xF0) >> 4`: always a nibble, 0 to 15 |
| Display.LowNibble | main.py:76 | `bcd & 0x0F`: always a nibble, 0 to 15, differing from `bcd` by a multiple of 16 |
| Display.NibblesRebuildByte | main.py:75-76 | the two nibbles put together give back the low byte of `bcd` |
| Display.NibblesAreMasks | main.py:75-76 | on a 16-bit word, `(b & 0xF0) >> 4` is `(b / 16) % 16` and `b & 0x0F` is `b % 16`, the arithmetic HighNibble and LowNibble use |
| Display.HexOfDecimal | main.py:73 | `int(str(n), 16)`; HexOfDecimalParses proves it is that parse, HexOfDecimalBounds gives its sign and size |
| Display.HexOfDecimalBounds | main.py:73 | reading the digits as hexadecimal keeps the sign, never makes a non-negative number smaller, and leaves a single digit as it is |
| Display.ReadAsBelowPower | main.py:73 | a number of at most k decimal digits reads, as hexadecimal, below 16^k |
| Display.HexOfDecimalFitsWord | main.py:73 | for every value from 0 to 9999, `bcd` fits in 16 bits, the width NibblesAreMasks is stated on |
| Display.HexOfDecimalParses | main.py:73 | the parse `int(str(int(value)), 16)` always succeeds, so the bare `except` never fires on it |
| Display.Render | main.py:67-79 | the frame has the index at position 0 and '-' at position 1, and positions 2 and 3 each hold a digit in 0..15 |
| Display.DecimalNibbles | main.py:73-76 | for n >= 0, the nibbles of `int(str(n), 16)` are the tens digit and the units digit of n |
| Display.RenderDigits | main.py:70-76 | for a value >= 0, positions 2 and 3 show the tens and units decimal digits of `int(value)` |
| Display.RenderLastTwoDigits | main.py:73-76 | a value of 100 or more shows the same frame as its last two decimal digits |
| Display.RenderNegativeExample | main.py:73-76 | a negative value does not show its digits: -5 is shown as nibbles 15 and 11 |
| Display.RenderTruncates | main.py:73 | the frame depends only on `int(value)` |
| Telemetry.TopicRoundTrip | main.py:89-101 | every topic string parses back to the key it was made from |
| Telemetry.TopicInjective | main.py:89-101 | two keys share a topic string exactly when they are the same key |
| Telemetry.Snapshot.With | main.py:88-91 | writing one zone's pair changes that zone only, and leaves the fan flag, duty and log alone |
| Telemetry.ReportZone | main.py:82-92 | `report_sensor` on one zone's pair: the new pair and the messages published; its meaning is stated by ReportStores, ReportPublishes, ReportTracks and ReportAddsRanked |
| Telemetry.Report | main.py:82-92 | the whole state after `report_sensor`; ReportFrame and ReportPreservesInv state what it changes and what it keeps |
| Telemetry.FanWanted | main.py:97 | the truncated comparison implies the repeater is warmer than outside, and a lead of 2.0 or more always meets it |
| Telemetry.FanStep | main.py:95-105 | the state after `check_fan`; FanStepEffect, FanStepIdempotent and FanStepPreservesInv state its meaning |
| Telemetry.Cycle | main.py:162-174 | the fan check then the three reports, stopping at the first failed read; stated by CyclePreservesInv, CycleFanLag, CycleMessages and CycleAbortStops |
| Telemetry.RenderPlan | main.py:175-185 | the frames of the first k zones number exactly 2k; RenderPlanIndices and RenderPlanOrder give their indices and values |
| Telemetry.Initial | main.py:114-135 | the start-up state; InitialInv proves it satisfies the invariant |
| Telemetry.Inv | main.py:87-105 | the PWM duty matches the fan flag, the last `FAN_STATE` payload matches the flag, and the last payload on every sensor topic, if any, is `str(int(stored value))` |
| Properties.PayloadsOnConcat | main.py:89-92 | the payloads on a topic in a log followed by more messages are those of the first part, then those of the second |
| Properties.LastPayloadIsLastOf | main.py:89-92 | the last payload on a topic is the last element of that topic's payloads |
| Properties.LastPayloadAppend | main.py:89-92 | appending messages changes a topic's last payload only when one of them is on that topic |
| Properties.RankedLength | main.py:162-174 | strictly increasing ranks within [lo, hi) allow at most hi - lo messages |
| Properties.ReportAddedSplit | main.py:87-92 | a report appends its temperature message, if any, then its humidity message, if any, at the end of the log |
| Properties.MetricMessagesRanked | main.py:87-92 | the message for one metric is on that metric's topic only, and carries `str(int(fresh))` exactly when the change is significant |
| Properties.ReportPublishes | main.py:82-92 | per topic: a report publishes `str(int(t))` on the zone's temperature topic exactly when the Fahrenheit value t differs from the stored one by at least 1.0, the same for humidity with no conversion, and nothing on any other topic |
| Properties.ReportStores | main.py:87-91 | each stored metric becomes the fresh value exactly when the change is at least 1.0, and is unchanged otherwise |
| Properties.ReportTracks | main.py:87-91 | after a report each stored metric lies within 1.0 of the reading just taken |
| Properties.MetricsIndependent | main.py:86-92 | one metric's stored value and its published payloads depend only on that metric's reading, never on the other metric's outcome |
| Properties.ReportAddsRanked | main.py:87-92 | a report's messages are ranked within its zone's two topics, temperature before humidity, so at most two |
| Properties.ReportFrame | main.py:82-92 | a report leaves the other zones, the fan flag and the duty unchanged, and adds at most two messages, temperature before humidity, on this zone's topics |
| Properties.ReportPreservesInv | main.py:82-92 | a report keeps the controller invariant |
| Properties.FanStepEffect | main.py:95-105 | after `check_fan` the flag equals `int(REPEATER) > int(OUTSIDE)`; on a transition the duty becomes 65535 or 0 and one `FAN_STATE` message "1" or "0" is appended; without one nothing changes |
| Properties.FanStepIdempotent | main.py:95-105 | a second `check_fan` on the same data changes nothing |
| Properties.FanStepPreservesInv | main.py:95-105 | under the invariant, `check_fan` keeps it and leaves the duty matching the rule's verdict |
| Properties.FanTruncationExample | main.py:97 | repeater 70.9 against outside 70.1 asks for no fan, because the comparison is on truncated values |
| Properties.FanTiesAreOff | main.py:97-105 | equal truncated temperatures leave the fan off |
| Properties.InitialInv | main.py:114-135 | the start-up state satisfies the invariant |
| Properties.CyclePreservesInv | main.py:162-174 | every pass keeps the invariant, whether it completes or stops at a sensor fault |
| Properties.CycleFanLag | main.py:162-171 | a pass ends with the fan flag set from the temperatures stored before its reports, and the reports never change the duty |
| Properties.CycleLagExample | main.py:162-171 | from start-up, a pass that reads a warm repeater ends with the fan still off while the new stored values call for it |
| Properties.CycleMessages | main.py:162-174 | a pass only appends to the log, in the order fan, INSIDE, OUTSIDE, REPEATER with temperature before humidity, at most one message per topic and at most seven in all |
| Properties.CycleAbortStops | main.py:168-174 | a sensor fault leaves the failing zone and all later zones as stored, and a pass completes exactly when all three reads succeed |
| Telemetry.Drawn | main.py:67-79 | the frames drawn by a run of events are at most as many as the events |
| Telemetry.ZoneShown | main.py:178-184 | one zone's turn is four events, the second and fourth of them LED toggles |
| Telemetry.DisplayPlan | main.py:175-185 | the events of the first k turns of the display loop number exactly 4k |
| Properties.DrawnConcat | main.py:67-79 | the frames drawn by two runs of events, one after the other, are the first run's frames followed by the second's |
| Properties.ZoneShownDraws | main.py:178-184 | one zone's turn draws its temperature frame at `index`, then its humidity frame at `index + 1` |
| Properties.DisplayPlanDraws | main.py:175-185 | the display loop's events draw exactly the frames of `RenderPlan`, in order |
| Properties.DisplayPlanInterleaves | main.py:178-184 | in the display loop's events, call j shows index j + 1 and is followed at once by an LED toggle |
| Properties.RenderPlanIndices | main.py:176-185 | frame i of a pass shows index i + 1, the counter `i` of the display loop |
| Properties.RenderPlanOrder | main.py:175-185 | the frames of a pass are, in order, indices 1 to 6 showing INSIDE, OUTSIDE and REPEATER temperature then humidity |
| Properties.ScenarioPublish | main.py:87-89 | stored 70.0 and a reading of 71.4 F: 71.4 is stored and "71" is published |
| Properties.ScenarioSuppress | main.py:87 | stored 70.0 and a reading of 70.5 F: nothing changes |
| Properties.ScenarioFanOnce | main.py:97-101 | repeater 75, outside 70, fan off: the fan turns on once with duty 65535 and "1"; the same data again publishes nothing |
| Controller.Device.constructor | main.py:114-135 | start-up: every zone at 0.0, fan off, duty 0, one `FAN_STATE` "0" published, nothing drawn, and the invariant holds |
| Controller.Device.Store | main.py:88-91 | `last[i] = value` changes one metric of one zone and nothing else |
| Controller.Device.ReportSensor | main.py:82-92 | the in-place report leaves the device in the state `Report` describes, keeps the invariant and draws nothing |
| Controller.Device.CheckFan | main.py:95-105 | the in-place fan check leaves the device in the state `FanStep` describes, with the flag equal to the rule's verdict, and keeps the invariant |
| Controller.Device.DisplayValue | main.py:67-79 | exactly one call is recorded, and the frames drawn grow by exactly `Render(index, value)` |
| Controller.Device.ToggleLed | main.py:179 | the LED level flips and one toggle is recorded after everything before it |
| Controller.Device.RenderZone | main.py:178-185 | one zone adds exactly the events: temperature shown at `index`, toggle, humidity shown at `index + 1`, toggle; the LED level ends where it began |
| Controller.Device.RenderAll | main.py:175-185 | the display loop adds exactly `DisplayPlan` of the current state: the six calls of `RenderPlan`, each followed at once by a toggle; the LED level ends where it began |
| Controller.Device.LoopBody | main.py:162-188 | one pass reaches the state `Cycle` describes and keeps the invariant; if all reads succeed it adds exactly the events of `DisplayPlan` (six calls, each followed by a toggle), otherwise it draws nothing |

## Left out

- Wi-Fi association and its retry loop (main.py:24-41), the MQTT/TLS connection (main.py:44-58) and `log_to_file` (main.py:14-21) are network and file I/O. The broker is modelled as the append-only log of `client.publish` calls.
- Publish failures are not modelled: every `client.publish` is assumed to succeed.
- `reboot()` (main.py:61-64) is not modelled: neither its sleep nor the machine reset.
- The reporting handler (main.py:172-174) is modelled only as an aborted pass (`Outcome.Aborted`): a sensor read that raises is a `None` reading.
- The start-up handler (main.py:127-129), a failing `check_fan` (main.py:165-167) and a display-phase fault (main.py:186-188) are not modelled: the model has no fault path for them.
- `machine` is never imported as a module (main.py:9), so `machine.Pin` (main.py:120) and `machine.reset()` (main.py:64) would raise NameError. The model assumes both work as evidently intended.
- The `uasyncio` task, its 90-second timeout (main.py:191-201) and the `time.sleep(2)` pacing are concurrency and wall-clock timing.
- Hardware setup (main.py:132-159) is out of scope: the PWM frequency, the I2C scans, and the construction of the SHT31 and HT16K33 drivers. The display driver is modelled only as the recorded digits of each frame, and the PWM only as its last duty value.
- Numeric.ToF: uses exact real arithmetic, not IEEE double rounding, so a reading whose float conversion lands within one rounding step of a threshold or an integer may behave differently on the device.
- Numeric.ParseInt: models `int(s, base)` only for an optional sign followed by digits. Python also accepts surrounding whitespace, underscores and base prefixes, which `str()` of an integer never produces.
- Display.NibblesAreMasks: is stated on 16-bit words, which hold every `bcd` of a value from 0 to 9999 (HexOfDecimalFitsWord). It is not stated on unbounded integers, and not for a negative `bcd`. For those the model relies on Python's `&` acting on the infinite two's-complement form, which makes the masks equal HighNibble's and LowNibble's floor arithmetic.
- Display.Render: records the value handed to `set_number` at positions 2 and 3. What the driver shows for a nibble above 9, which only a negative value produces, is not modelled.
- The bare `except: pass` in `display_value` (main.py:78-79) is not modelled as a fault path. The parse it guards is proved never to fail (`Display.HexOfDecimalParses`), and driver faults are out of scope.
