/**
 * The message side of main/main.c: the cJSON field accessors, handleJson
 * (one MQTT payload in, at most one measurement out), the measurement
 * producers, the wifi/ntp flags that the network and time-sync callbacks
 * keep in the static `info`, and the tag switch of the consumer loop in
 * app_main that hands each received measurement to one display routine.
 *
 * A producer's `xQueueSend` is modelled as the sequence of measurements it
 * sends; the consumer's `xQueueReceive` as a sequence of receive results,
 * None standing for a timeout.
 */
module Monitor {
  import opened StdInt
  import opened Wrappers
  import opened DisplayTypes

  /**
   * A cJSON item as the firmware inspects it; a number carries both of
   * cJSON's views of it. Each `char` of a string stands for one byte of the
   * C string, so a string's length is its `strlen` up to the first NUL.
   */
  datatype JsonValue =
    | JFalse
    | JTrue
    | JNull
    | JNumber(valueint: int32, valuedouble: real)
    | JString(valuestring: string)
    | JArray
    | JObject
    | JRaw

  /** A parsed JSON object: what cJSON_GetObjectItem finds under each field name. */
  type JsonObject = map<string, JsonValue>

  /** cJSON's `type` codes: cJSON_False = 1, cJSON_True = 2, ... cJSON_Raw = 128. */
  function TypeCode(v: JsonValue): (code: nat)
    ensures code in {1, 2, 4, 8, 16, 32, 64, 128}
    ensures code == 2 <==> v == JTrue
  {
    match v
    case JFalse => 1
    case JTrue => 2
    case JNull => 4
    case JNumber(_, _) => 8
    case JString(_) => 16
    case JArray => 32
    case JObject => 64
    case JRaw => 128
  }

  /** The C string a character buffer holds: everything before its first NUL. */
  function CString(s: string): (c: string)
    ensures c <= s && '\0' !in c
    ensures |c| < |s| ==> s[|c|] == '\0'
  {
    if s == [] || s[0] == '\0' then [] else [s[0]] + CString(s[1..])
  }

  /** getJsonStr: the field's string when it is present and a string; otherwise the empty string "\0". */
  function GetJsonStr(js: JsonObject, name: string): (s: string)
    ensures '\0' !in s
  {
    if name in js && js[name].JString? then CString(js[name].valuestring) else CString("\0")
  }

  /**
   * getJsonStr gives back a present string field unchanged (when it holds no
   * NUL), and the empty string for a missing or non-string field.
   */
  lemma GetJsonStrCases(js: JsonObject, name: string)
    ensures name in js && js[name].JString? && '\0' !in js[name].valuestring ==>
      GetJsonStr(js, name) == js[name].valuestring
    ensures !(name in js && js[name].JString?) ==> GetJsonStr(js, name) == ""
  {
    if name in js && js[name].JString? && '\0' !in js[name].valuestring {
      CStringOfPlain(js[name].valuestring);
    }
  }

  /** getJsonState: true only for a field present with type code 2, JSON true. */
  function GetJsonState(js: JsonObject, name: string): (b: bool)
    ensures b <==> name in js && js[name] == JTrue
  {
    name in js && TypeCode(js[name]) == 2
  }

  /** What a change-detecting accessor does to its `*val`: whether it wrote, and the value left there. */
  datatype Update<T> = Update(changed: bool, value: T)

  /**
   * getJsonInt: writes the field's integer to `*val` and reports true exactly
   * when the field is present, numeric and differs from `*val`; otherwise
   * `*val` stays.
   */
  function GetJsonInt(js: JsonObject, name: string, val: int32): (u: Update<int32>)
    ensures u.changed <==> name in js && js[name].JNumber? && js[name].valueint != val
    ensures u.value == (if u.changed then js[name].valueint else val)
  {
    if name in js && TypeCode(js[name]) == 8 && js[name].valueint != val
    then Update(true, js[name].valueint)
    else Update(false, val)
  }

  /** getJsonFloat: the same change detection on `valuedouble`, with exact equality. */
  function GetJsonFloat(js: JsonObject, name: string, val: real): (u: Update<real>)
    ensures u.changed <==> name in js && js[name].JNumber? && js[name].valuedouble != val
    ensures u.value == (if u.changed then js[name].valuedouble else val)
  {
    if name in js && TypeCode(js[name]) == 8 && js[name].valuedouble != val
    then Update(true, js[name].valuedouble)
    else Update(false, val)
  }

  /** Reading a field again into the value it just wrote reports no change. */
  lemma GetJsonUpdateSettles(js: JsonObject, name: string, i: int32, r: real)
    ensures var u := GetJsonInt(js, name, i); !GetJsonInt(js, name, u.value).changed
    ensures var u := GetJsonFloat(js, name, r); !GetJsonFloat(js, name, u.value).changed
  {
  }

  /** dispTemperature, dispLevel and dispState: the measurement each one queues. */
  function DispTemperature(temperature: real): (m: Measurement)
    ensures Tag(m) == TemperatureTag && m.temperature == temperature
  {
    Temperature(temperature)
  }

  function DispLevel(level: int32): (m: Measurement)
    ensures Tag(m) == LevelTag && m.level == level
  {
    Level(level)
  }

  function DispState(state: Indicator): (m: Measurement)
    ensures Tag(m) == CarHeaterTag && m.indic == state
  {
    CarHeater(state)
  }

  /** The fields of `struct tm` that dispTime reads. */
  datatype Tm = Tm(hour: int32, min: int32, sec: int32)

  /** localtime_r's ranges: hours 0..23, minutes 0..59, seconds 0..60 (a leap second). */
  predicate ValidTm(t: Tm)
  {
    0 <= t.hour < 24 && 0 <= t.min < 60 && 0 <= t.sec <= 60
  }

  /** The conversion of an int to uint8_t: reduction modulo 256. */
  function ToUint8(n: int): (b: uint8)
    ensures 0 <= n < 0x100 ==> b == n
    ensures (b - n) % 0x100 == 0
  {
    n % 0x100
  }

  /** dispTime: a TIME measurement holding the hour, minute and second of `now`. */
  function DispTime(now: Tm): (m: Measurement)
    ensures Tag(m) == TimeTag
    ensures ValidTm(now) ==> m.time == NtpTime(now.hour, now.min, now.sec)
  {
    Time(NtpTime(ToUint8(now.hour), ToUint8(now.min), ToUint8(now.sec)))
  }

  /** handleJson copies the id into `char id[20]`: its bytes must fit with the terminating NUL. */
  predicate IdFits(root: Option<JsonObject>)
  {
    root.Some? ==> |GetJsonStr(root.value, "id")| <= 19
  }

  /** The temperature branch: sensor "ntc" and a `value` that differs from 0. */
  function TemperatureBranch(js: JsonObject): (sent: seq<Measurement>)
    ensures |sent| <= 1
  {
    if GetJsonStr(js, "sensor") == "ntc" then
      var u := GetJsonFloat(js, "value", 0.0);
      if u.changed then [DispTemperature(u.value)] else []
    else []
  }

  /** The thermostat branch: a `value` that differs from 0. */
  function ThermostatBranch(js: JsonObject): (sent: seq<Measurement>)
    ensures |sent| <= 1
  {
    var u := GetJsonInt(js, "value", 0);
    if u.changed then [DispLevel(u.value)] else []
  }

  /** The relay branch: OFF unless `state` is true; then a `power` other than -1.0 decides ON or CONNECTED. */
  function RelayBranch(js: JsonObject): (sent: seq<Measurement>)
    ensures |sent| <= 1
  {
    if !GetJsonState(js, "state") then [DispState(Off)]
    else
      var u := GetJsonFloat(js, "power", -1.0);
      if u.changed then [DispState(if u.value > 10.0 then Connected else On)] else []
  }

  /**
   * handleJson: the measurements one MQTT payload sends. `root` is None when
   * cJSON_Parse fails. The three id tests run one after another, as in the
   * source; the function's return value is always 0 and is not modelled.
   */
  function HandleJson(root: Option<JsonObject>): (sent: seq<Measurement>)
    requires IdFits(root)
    ensures |sent| <= 1
    ensures root.None? ==> sent == []
  {
    if root.None? then []
    else
      var js := root.value;
      var id := GetJsonStr(js, "id");
      (if id == "temperature" then TemperatureBranch(js) else [])
      + (if id == "thermostat" then ThermostatBranch(js) else [])
      + (if id == "relay" then RelayBranch(js) else [])
  }

  /** An id that is none of the three known ones sends nothing. */
  lemma UnknownIdSendsNothing(js: JsonObject)
    requires IdFits(Some(js))
    requires GetJsonStr(js, "id") !in {"temperature", "thermostat", "relay"}
    ensures HandleJson(Some(js)) == []
  {
  }

  /** A relay message whose `state` is not true sends exactly CARHEATER OFF. */
  lemma RelayOff(js: JsonObject)
    requires IdFits(Some(js)) && GetJsonStr(js, "id") == "relay"
    requires !("state" in js && js["state"] == JTrue)
    ensures HandleJson(Some(js)) == [CarHeater(Off)]
  {
  }

  /**
   * A relay message with `state` true sends CONNECTED for a numeric power
   * above 10.0 and ON for one at most 10.0; a missing or non-numeric
   * power, or a power of exactly -1.0, sends nothing.
   */
  lemma RelayOn(js: JsonObject)
    requires IdFits(Some(js)) && GetJsonStr(js, "id") == "relay"
    requires "state" in js && js["state"] == JTrue
    ensures var p := if "power" in js && js["power"].JNumber? then js["power"].valuedouble else -1.0;
      HandleJson(Some(js)) ==
        if p == -1.0 then []
        else if p > 10.0 then [CarHeater(Connected)]
        else [CarHeater(On)]
  {
  }

  /**
   * TEMPERATURE is sent exactly for id "temperature", sensor "ntc" and a
   * numeric value other than 0, and carries that value.
   */
  lemma TemperatureSent(js: JsonObject, t: real)
    requires IdFits(Some(js))
    ensures Temperature(t) in HandleJson(Some(js)) <==>
      && GetJsonStr(js, "id") == "temperature" && GetJsonStr(js, "sensor") == "ntc"
      && "value" in js && js["value"].JNumber? && js["value"].valuedouble == t && t != 0.0
  {
  }

  /** LEVEL is sent exactly for id "thermostat" and a numeric value other than 0, and carries that value. */
  lemma LevelSent(js: JsonObject, level: int32)
    requires IdFits(Some(js))
    ensures Level(level) in HandleJson(Some(js)) <==>
      && GetJsonStr(js, "id") == "thermostat"
      && "value" in js && js["value"].JNumber? && js["value"].valueint == level && level != 0
  {
  }

  /** A string without NUL is its own C string. */
  lemma {:induction false} CStringOfPlain(s: string)
    requires '\0' !in s
    ensures CString(s) == s
  {
    if s != [] {
      CStringOfPlain(s[1..]);
    }
  }

  // ---------------------------------------------------------------------
  // The connectivity flags of `info`, kept by on_net_event and on_time_sync.
  // ---------------------------------------------------------------------

  /** The events on_net_event is registered for: every WIFI_EVENT, and IP_EVENT_STA_GOT_IP. */
  datatype NetEvent = StaStart | StaDisconnected | OtherWifiEvent | GotIp | OtherIpEvent

  /** A network event, or the SNTP client's sync notification (on_time_sync). */
  datatype ConnEvent = Net(event: NetEvent) | TimeSync

  datatype ConnFlags = ConnFlags(wifi: bool, ntp: bool)

  /** How one callback changes the flags. */
  function Step(f: ConnFlags, e: ConnEvent): (g: ConnFlags)
    ensures IsReset(e) ==> !g.wifi && !g.ntp
    ensures !IsReset(e) ==> (g.wifi <==> f.wifi || e == Net(GotIp)) && (g.ntp <==> f.ntp || e == TimeSync)
  {
    match e
    case Net(StaStart) => ConnFlags(false, false)
    case Net(StaDisconnected) => ConnFlags(false, false)
    case Net(GotIp) => f.(wifi := true)
    case Net(_) => f
    case TimeSync => f.(ntp := true)
  }

  /** The flags after the callbacks `es`, in order. */
  function Replay(f: ConnFlags, es: seq<ConnEvent>): (g: ConnFlags)
    ensures g.wifi ==> f.wifi || Net(GotIp) in es
    ensures g.ntp ==> f.ntp || TimeSync in es
  {
    if es == [] then f else Step(Replay(f, es[..|es| - 1]), es[|es| - 1])
  }

  /** A (re)start or disconnect clears both flags. */
  predicate IsReset(e: ConnEvent)
  {
    e == Net(StaStart) || e == Net(StaDisconnected)
  }

  /** No reset happens in es[from..]. */
  predicate NoResetFrom(es: seq<ConnEvent>, from: nat)
  {
    forall j :: from <= j < |es| ==> !IsReset(es[j])
  }

  /**
   * `setter` occurred after the last reset of `es`, or no reset occurred and
   * the flag was already set.
   */
  predicate SetSinceReset(es: seq<ConnEvent>, setter: ConnEvent, initially: bool)
  {
    (exists i :: 0 <= i < |es| && es[i] == setter && NoResetFrom(es, i + 1))
    || (initially && NoResetFrom(es, 0))
  }

  /**
   * After any run of callbacks, wifi is set exactly when GOT_IP arrived after
   * the last STA_START/STA_DISCONNECTED, and ntp exactly when a time sync
   * did (or the flag was set already and no reset came).
   */
  lemma {:induction false} ReplayFlags(f: ConnFlags, es: seq<ConnEvent>)
    ensures Replay(f, es).wifi <==> SetSinceReset(es, Net(GotIp), f.wifi)
    ensures Replay(f, es).ntp <==> SetSinceReset(es, TimeSync, f.ntp)
  {
    if es != [] {
      var init, e := es[..|es| - 1], es[|es| - 1];
      assert es == init + [e];
      ReplayFlags(f, init);
      SetSinceResetStep(init, e, Net(GotIp), f.wifi);
      SetSinceResetStep(init, e, TimeSync, f.ntp);
      assert Replay(f, es) == Step(Replay(f, init), e);
    }
  }

  /** How SetSinceReset changes when one more event arrives. */
  lemma SetSinceResetStep(es: seq<ConnEvent>, e: ConnEvent, setter: ConnEvent, initially: bool)
    requires !IsReset(setter)
    ensures SetSinceReset(es + [e], setter, initially) <==>
      if IsReset(e) then false
      else if e == setter then true
      else SetSinceReset(es, setter, initially)
  {
    var es' := es + [e];
    if IsReset(e) {
      assert IsReset(es'[|es|]);
      assert !NoResetFrom(es', 0);
      forall i | 0 <= i < |es'| ensures !NoResetFrom(es', i + 1) || es'[i] != setter {
        if i < |es| {
          assert !NoResetFrom(es', i + 1) by {
            assert IsReset(es'[|es|]);
          }
        }
      }
    } else if e == setter {
      assert es'[|es|] == setter && NoResetFrom(es', |es| + 1);
    } else {
      forall from: nat | from <= |es| ensures NoResetFrom(es', from) <==> NoResetFrom(es, from) {
        assert forall j :: from <= j < |es| ==> es'[j] == es[j];
      }
      if SetSinceReset(es, setter, initially) {
        if initially && NoResetFrom(es, 0) {
        } else {
          var i :| 0 <= i < |es| && es[i] == setter && NoResetFrom(es, i + 1);
          assert es'[i] == setter && NoResetFrom(es', i + 1);
        }
      }
      if SetSinceReset(es', setter, initially) {
        if initially && NoResetFrom(es', 0) {
        } else {
          var i :| 0 <= i < |es'| && es'[i] == setter && NoResetFrom(es', i + 1);
          assert i < |es|;
          assert es[i] == setter && NoResetFrom(es, i + 1);
        }
      }
    }
  }

  // ---------------------------------------------------------------------
  // The consumer loop of app_main.
  // ---------------------------------------------------------------------

  /**
   * A display routine call: display_temperature, display_level (whose
   * parameter is a 32-bit unsigned long), display_indicator and display_time.
   */
  datatype RenderCall =
    | ShowTemperature(temperature: real)
    | ShowLevel(level: uint32)
    | ShowIndicator(state: Indicator)
    | ShowTime(time: NtpTime)

  /** The conversion of an int to unsigned long on the 32-bit target: reduction modulo 2^32. */
  function ToUnsignedLong(n: int32): (u: uint32)
    ensures n >= 0 ==> u == n
    ensures n < 0 ==> u == n + 0x1_0000_0000
  {
    n % 0x1_0000_0000
  }

  /** The tag switch: the call one received measurement leads to, if any. */
  function Render(m: Measurement): (r: Option<RenderCall>)
    ensures r.Some? <==> Tag(m) in {TemperatureTag, LevelTag, CarHeaterTag, TimeTag}
  {
    match m
    case Temperature(t) => Some(ShowTemperature(t))
    case Level(l) => Some(ShowLevel(ToUnsignedLong(l)))
    case CarHeater(s) => Some(ShowIndicator(s))
    case Time(t) => Some(ShowTime(t))
    case _ => None
  }

  /** Each call passes on the payload its tag names. */
  lemma RenderPassesPayload(m: Measurement)
    ensures m.Temperature? ==> Render(m) == Some(ShowTemperature(m.temperature))
    ensures m.Level? && m.level >= 0 ==> Render(m) == Some(ShowLevel(m.level))
    ensures m.CarHeater? ==> Render(m) == Some(ShowIndicator(m.indic))
    ensures m.Time? ==> Render(m) == Some(ShowTime(m.time))
  {
  }

  /** The calls made for the receive results `rs`, in order; a timeout makes none. */
  function Dispatch(rs: seq<Option<Measurement>>): (calls: seq<RenderCall>)
    ensures forall c :: c in calls ==> exists m :: Some(m) in rs && Render(m) == Some(c)
  {
    if rs == [] then []
    else
      var calls := Dispatch(rs[..|rs| - 1]);
      match rs[|rs| - 1]
      case None => calls
      case Some(m) => match Render(m) case Some(c) => calls + [c] case None => calls
  }

  /** The loop body, run over a finite stretch of receive results. */
  method ConsumerLoop(received: seq<Option<Measurement>>) returns (calls: seq<RenderCall>)
    ensures calls == Dispatch(received)
  {
    calls := [];
    var n := 0;
    while n < |received|
      invariant n <= |received|
      invariant calls == Dispatch(received[..n])
    {
      assert received[..n + 1][..n] == received[..n];
      match received[n] {
        case None =>
        case Some(meas) =>
          match meas {
            case Comm(_) =>
            case Temperature(t) => calls := calls + [ShowTemperature(t)];
            case Level(l) => calls := calls + [ShowLevel(ToUnsignedLong(l))];
            case CarHeater(s) => calls := calls + [ShowIndicator(s)];
            case Time(t) => calls := calls + [ShowTime(t)];
            case _ =>
          }
      }
      n := n + 1;
    }
    assert received[..n] == received;
  }

  /** Receiving `a` and then `b` makes the calls of `a` and then those of `b`. */
  lemma {:induction false} DispatchAppend(a: seq<Option<Measurement>>, b: seq<Option<Measurement>>)
    ensures Dispatch(a + b) == Dispatch(a) + Dispatch(b)
  {
    if b == [] {
      assert a + b == a;
    } else {
      assert (a + b)[..|a + b| - 1] == a + b[..|b| - 1];
      assert (a + b)[|a + b| - 1] == b[|b| - 1];
      DispatchAppend(a, b[..|b| - 1]);
    }
  }

  /** Counted in calls: one per received measurement with a rendered tag. */
  function RenderedCount(rs: seq<Option<Measurement>>): nat
  {
    if rs == [] then 0
    else RenderedCount(rs[..|rs| - 1]) + if rs[|rs| - 1].Some? && Render(rs[|rs| - 1].value).Some? then 1 else 0
  }

  lemma {:induction false} DispatchCount(rs: seq<Option<Measurement>>)
    ensures |Dispatch(rs)| == RenderedCount(rs) <= |rs|
  {
    if rs != [] {
      DispatchCount(rs[..|rs| - 1]);
    }
  }

  /** Everything handleJson and dispTime send reaches a display routine. */
  lemma ProducedIsRendered(root: Option<JsonObject>, now: Tm)
    requires IdFits(root)
    ensures forall m :: m in HandleJson(root) ==> Render(m).Some?
    ensures Render(DispTime(now)).Some?
  {
  }

  // ---------------------------------------------------------------------
  // The static `info` and the callbacks that update it.
  // ---------------------------------------------------------------------

  /** `static struct info info`, less the humidity, which is left out. */
  class Info {
    var wifi: bool
    var ntp: bool
    var hours: uint8
    var minutes: uint8
    var seconds: uint8
    var temperature: real
    var pressure: real

    function Flags(): ConnFlags
      reads this
    {
      ConnFlags(wifi, ntp)
    }

    /** A static struct starts zeroed. */
    constructor ()
      ensures Flags() == ConnFlags(false, false)
      ensures hours == 0 && minutes == 0 && seconds == 0 && temperature == 0.0 && pressure == 0.0
    {
      wifi, ntp := false, false;
      hours, minutes, seconds := 0, 0, 0;
      temperature, pressure := 0.0, 0.0;
    }

    /** on_net_event: the reconnect and got-ip flag updates; the reconnect and ntp_init calls are left out. */
    method OnNetEvent(e: NetEvent)
      modifies this
      ensures Flags() == Step(old(Flags()), Net(e))
      ensures hours == old(hours) && minutes == old(minutes) && seconds == old(seconds)
      ensures temperature == old(temperature) && pressure == old(pressure)
    {
      match e {
        case StaStart =>
          wifi := false;
          ntp := false;
        case StaDisconnected =>
          wifi := false;
          ntp := false;
        case GotIp =>
          wifi := true;
        case _ =>
      }
    }

    /** on_time_sync: the clock is synchronised. */
    method OnTimeSync()
      modifies this
      ensures Flags() == Step(old(Flags()), TimeSync)
      ensures hours == old(hours) && minutes == old(minutes) && seconds == old(seconds)
      ensures temperature == old(temperature) && pressure == old(pressure)
    {
      ntp := true;
    }

    /**
     * on_clock_tick, with the wall clock read passed in as `now`: sends the
     * time and keeps it in `info`. display_redraw is not part of this model.
     */
    method OnClockTick(now: Tm) returns (sent: seq<Measurement>)
      modifies this
      ensures sent == [DispTime(now)]
      ensures NtpTime(hours, minutes, seconds) == DispTime(now).time
      ensures Flags() == old(Flags()) && temperature == old(temperature) && pressure == old(pressure)
    {
      sent := [DispTime(now)];
      hours := ToUint8(now.hour);
      minutes := ToUint8(now.min);
      seconds := ToUint8(now.sec);
    }

    /**
     * The MQTT_EVENT_DATA case: handleJson on the parsed payload, which also
     * keeps the last temperature and the last level (as `pressure`) in `info`.
     */
    method OnMqttData(root: Option<JsonObject>) returns (sent: seq<Measurement>)
      requires IdFits(root)
      modifies this
      ensures sent == HandleJson(root)
      ensures temperature == (if |sent| == 1 && sent[0].Temperature? then sent[0].temperature else old(temperature))
      ensures pressure == (if |sent| == 1 && sent[0].Level? then sent[0].level as real else old(pressure))
      ensures Flags() == old(Flags()) && hours == old(hours) && minutes == old(minutes) && seconds == old(seconds)
    {
      sent := HandleJson(root);
      if root.Some? {
        var js := root.value;
        var id := GetJsonStr(js, "id");
        if id == "temperature" && GetJsonStr(js, "sensor") == "ntc" {
          var u := GetJsonFloat(js, "value", 0.0);
          if u.changed {
            temperature := u.value;
          }
        }
        if id == "thermostat" {
          var u := GetJsonInt(js, "value", 0);
          if u.changed {
            pressure := u.value as real;
          }
        }
      }
    }
  }
}
