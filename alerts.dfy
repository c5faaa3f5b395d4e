/**
 * Edge-triggered alert evaluation (`notifications.py`): every stored rule of
 * the reporting hawk is checked against the current and the previous reading,
 * and fires only when the reading crosses its threshold. Mail is not sent;
 * the alerts come back as a sequence in the order they would have been sent.
 */
module Alerts {
  import opened Base
  import opened Readings
  import opened Logins

  /** One e-mail: recipient, subject, and the facts its body reports. */
  datatype Alert = Alert(recipient: string, subject: string, sensor: string, serial: int,
                         hiveNumber: Option<int>, reading: Value, threshold: real, above: bool)

  /** The exceptions evaluation can stop with. */
  datatype EvalError =
    | Unset(attribute: AttributeError)  // a reading attribute that was never assigned
    | NoSuchUser                        // the rule's user is gone: `None.email`
    | NotComparable                     // a `None` reading compared with the threshold

  /** The sensor names read from weather-station data. */
  const WeatherSensors: seq<string> := ["outside_temperature", "outside_humidity"]

  /** The sensor names read from hive data. */
  const HiveSensors: seq<string> :=
    ["temperature_1", "temperature_2", "temperature_3", "humidity", "weight", "accelerometer",
     "bees_out", "bees_in", "frequency"]

  /** A reading as a number, when it is one. */
  function Num(v: Value): Option<real>
  {
    match v
    case Null => None
    case Int(i) => Some(i as real)
    case Real(x) => Some(x)
  }

  /** `v > threshold` (when `above`) or `v < threshold`; comparing `None` raises. */
  function Beyond(v: Value, threshold: real, above: bool): Result<bool, EvalError>
  {
    match Num(v)
    case None => Err(NotComparable)
    case Some(x) => Ok(if above then x > threshold else x < threshold)
  }

  /** The reading has crossed the threshold in the direction of the sign. */
  predicate Crossed(sign: string, current: real, previous: real, threshold: real)
  {
    (sign == ">" && current > threshold && !(previous > threshold))
    || (sign == "<" && current < threshold && !(previous < threshold))
  }

  /**
   * Whether a rule fires: for `>` the current reading must exceed the threshold
   * while the previous did not, and symmetrically for `<`; any other sign never
   * fires. The previous reading is compared only when the current one is beyond.
   */
  function Decide(sign: string, current: Value, previous: Value, threshold: real): (r: Result<bool, EvalError>)
    ensures sign != ">" && sign != "<" ==> r == Ok(false)
    ensures r == Ok(true) <==>
              Num(current).Some? && Num(previous).Some? && Crossed(sign, Num(current).value, Num(previous).value, threshold)
    ensures r.Err? <==>
              (sign == ">" || sign == "<")
              && (Num(current).None? || (Beyond(current, threshold, sign == ">") == Ok(true) && Num(previous).None?))
  {
    if sign == ">" || sign == "<" then
      match Beyond(current, threshold, sign == ">")
      case Err(e) => Err(e)
      case Ok(false) => Ok(false)
      case Ok(true) =>
        match Beyond(previous, threshold, sign == ">")
        case Err(e) => Err(e)
        case Ok(b) => Ok(!b)
    else Ok(false)
  }

  /** A reading that has not changed never fires a rule. */
  lemma SteadyReadingNeverFires(sign: string, v: Value, threshold: real)
    ensures Decide(sign, v, v, threshold) != Ok(true)
  {
  }

  /**
   * The sensor dispatch: the (current, previous) attribute for a known sensor
   * name, `None` for an unknown one. An attribute never assigned is `None` inside.
   */
  function SensorValues(sensor: string, cw: WeatherStationData, ch: HiveData, pw: WeatherStationData, ph: HiveData)
    : (r: Option<(Option<Value>, Option<Value>)>)
    reads cw, ch, pw, ph
    ensures r.Some? <==> sensor in WeatherSensors || sensor in HiveSensors
    ensures sensor == "outside_temperature" ==> r == Some((Some(cw.outsideTemperature), Some(pw.outsideTemperature)))
    ensures sensor == "outside_humidity" ==> r == Some((Some(cw.outsideHumidity), Some(pw.outsideHumidity)))
    ensures sensor == "temperature_1" ==> r == Some((Some(ch.temperature1), Some(ph.temperature1)))
    ensures sensor == "temperature_2" ==> r == Some((ch.temperature2, ph.temperature2))
    ensures sensor == "temperature_3" ==> r == Some((ch.temperature3, ph.temperature3))
    ensures sensor == "humidity" ==> r == Some((ch.humidity, ph.humidity))
    ensures sensor == "weight" ==> r == Some((ch.weight, ph.weight))
    ensures sensor == "accelerometer" ==> r == Some((ch.accelerometer, ph.accelerometer))
    ensures sensor == "bees_out" ==> r == Some((ch.beesOut, ph.beesOut))
    ensures sensor == "bees_in" ==> r == Some((ch.beesIn, ph.beesIn))
    ensures sensor == "frequency" ==> r == Some((ch.frequency, ph.frequency))
  {
    if sensor == "outside_temperature" then Some((Some(cw.outsideTemperature), Some(pw.outsideTemperature)))
    else if sensor == "outside_humidity" then Some((Some(cw.outsideHumidity), Some(pw.outsideHumidity)))
    else if sensor == "temperature_1" then Some((Some(ch.temperature1), Some(ph.temperature1)))
    else if sensor == "temperature_2" then Some((ch.temperature2, ph.temperature2))
    else if sensor == "temperature_3" then Some((ch.temperature3, ph.temperature3))
    else if sensor == "humidity" then Some((ch.humidity, ph.humidity))
    else if sensor == "weight" then Some((ch.weight, ph.weight))
    else if sensor == "accelerometer" then Some((ch.accelerometer, ph.accelerometer))
    else if sensor == "bees_out" then Some((ch.beesOut, ph.beesOut))
    else if sensor == "bees_in" then Some((ch.beesIn, ph.beesIn))
    else if sensor == "frequency" then Some((ch.frequency, ph.frequency))
    else None
  }

  /**
   * What one rule yields, given its user and the dispatched attributes: nothing
   * for an unknown sensor, an error for an unset attribute or a missing user,
   * else an alert to the user exactly when the reading has crossed the threshold.
   */
  function RuleAlert(rule: Rule, serial: int, user: Option<User>, values: Option<(Option<Value>, Option<Value>)>)
    : (r: Result<Option<Alert>, EvalError>)
    ensures values.None? ==> r == Ok(None)
    ensures values.Some? && (values.value.0.None? || values.value.1.None?) ==> r == Err(Unset(AttributeError(rule.sensor)))
    ensures values.Some? && values.value.0.Some? && values.value.1.Some? && user.None? ==> r == Err(NoSuchUser)
    ensures r.Err? ==> r.error == Unset(AttributeError(rule.sensor)) || r.error == NoSuchUser
                       || (r.error == NotComparable && (rule.sign == ">" || rule.sign == "<"))
    ensures r.Ok? && r.value.Some? <==>
              values.Some? && values.value.0.Some? && values.value.1.Some? && user.Some?
              && Num(values.value.0.value).Some? && Num(values.value.1.value).Some?
              && Crossed(rule.sign, Num(values.value.0.value).value, Num(values.value.1.value).value, rule.value)
    ensures r.Ok? && r.value.Some? ==>
              var a := r.value.value;
              a.recipient == user.value.email && a.subject == "iBuzz ALERT " + rule.sensor
              && a.sensor == rule.sensor && a.serial == serial && a.hiveNumber == rule.hiveNumber
              && a.reading == values.value.0.value && a.threshold == rule.value && a.above == (rule.sign == ">")
  {
    if values.None? then Ok(None)
    else if values.value.0.None? || values.value.1.None? then Err(Unset(AttributeError(rule.sensor)))
    else if user.None? then Err(NoSuchUser)
    else
      var current, previous := values.value.0.value, values.value.1.value;
      match Decide(rule.sign, current, previous, rule.value)
      case Err(e) => Err(e)
      case Ok(false) => Ok(None)
      case Ok(true) =>
        Ok(Some(Alert(user.value.email, "iBuzz ALERT " + rule.sensor, rule.sensor, serial, rule.hiveNumber,
                      current, rule.value, rule.sign == ">")))
  }

  /** What one rule yields in an evaluation: its user looked up by id, its sensor dispatched. */
  function RuleOutcome(rule: Rule, serial: int, users: seq<User>,
                       cw: WeatherStationData, ch: HiveData, pw: WeatherStationData, ph: HiveData)
    : Result<Option<Alert>, EvalError>
    reads cw, ch, pw, ph
  {
    RuleAlert(rule, serial, UserById(users, rule.userId), SensorValues(rule.sensor, cw, ch, pw, ph))
  }

  /** What each rule yields in this evaluation, in rule order. */
  function Outcomes(rules: seq<Rule>, serial: int, users: seq<User>,
                    cw: WeatherStationData, ch: HiveData, pw: WeatherStationData, ph: HiveData)
    : (r: seq<Result<Option<Alert>, EvalError>>)
    reads cw, ch, pw, ph
    ensures |r| == |rules|
    ensures forall k :: 0 <= k < |rules| ==> r[k] == RuleOutcome(rules[k], serial, users, cw, ch, pw, ph)
  {
    if rules == [] then []
    else [RuleOutcome(rules[0], serial, users, cw, ch, pw, ph)] + Outcomes(rules[1..], serial, users, cw, ch, pw, ph)
  }

  /**
   * Mailing in rule order: the alerts of `outcomes[i..]` after the mail `sent`
   * already sent, stopping at the first rule that raises, with that exception.
   */
  function Send(outcomes: seq<Result<Option<Alert>, EvalError>>, i: nat, sent: seq<Alert>): (seq<Alert>, Option<EvalError>)
    requires i <= |outcomes|
    decreases |outcomes| - i
  {
    if i == |outcomes| then (sent, None)
    else
      match outcomes[i]
      case Err(e) => (sent, Some(e))
      case Ok(None) => Send(outcomes, i + 1, sent)
      case Ok(Some(a)) => Send(outcomes, i + 1, sent + [a])
  }

  /** The mail `evaluate` sends for the rules of one serial number, and the exception that ends it early. */
  function AlertsFrom(rules: seq<Rule>, serial: int, users: seq<User>,
                      cw: WeatherStationData, ch: HiveData, pw: WeatherStationData, ph: HiveData)
    : (seq<Alert>, Option<EvalError>)
    reads cw, ch, pw, ph
  {
    Send(Outcomes(rules, serial, users, cw, ch, pw, ph), 0, [])
  }

  /** The alerts among `outcomes[i..]`, in order, as if no rule raised. */
  function FiredFrom(outcomes: seq<Result<Option<Alert>, EvalError>>, i: nat): (r: seq<Alert>)
    requires i <= |outcomes|
    ensures |r| <= |outcomes| - i
    ensures forall a :: a in r ==> exists j :: i <= j < |outcomes| && outcomes[j] == Ok(Some(a))
    decreases |outcomes| - i
  {
    if i == |outcomes| then []
    else
      match outcomes[i]
      case Ok(Some(a)) => [a] + FiredFrom(outcomes, i + 1)
      case _ => FiredFrom(outcomes, i + 1)
  }

  /** The alerts of the rules that fire, in rule order: a reference for the mail `evaluate` sends. */
  function Fired(rules: seq<Rule>, serial: int, users: seq<User>,
                 cw: WeatherStationData, ch: HiveData, pw: WeatherStationData, ph: HiveData): (r: seq<Alert>)
    reads cw, ch, pw, ph
    ensures |r| <= |rules|
    ensures forall a :: a in r ==> exists j :: 0 <= j < |rules| && RuleOutcome(rules[j], serial, users, cw, ch, pw, ph) == Ok(Some(a))
  {
    FiredFrom(Outcomes(rules, serial, users, cw, ch, pw, ph), 0)
  }

  /** Each rule yields at most one alert, and mail already sent stays sent. */
  lemma {:induction false} AtMostOneAlertPerRule(outcomes: seq<Result<Option<Alert>, EvalError>>, i: nat, sent: seq<Alert>)
    requires i <= |outcomes|
    ensures var out := Send(outcomes, i, sent).0;
            |sent| <= |out| <= |sent| + (|outcomes| - i) && out[..|sent|] == sent
    decreases |outcomes| - i
  {
    if i < |outcomes| {
      match outcomes[i]
      case Err(_) =>
      case Ok(None) =>
        AtMostOneAlertPerRule(outcomes, i + 1, sent);
      case Ok(Some(a)) =>
        AtMostOneAlertPerRule(outcomes, i + 1, sent + [a]);
        var out := Send(outcomes, i + 1, sent + [a]).0;
        assert out[..|sent|] == (out[..|sent| + 1])[..|sent|];
    }
  }

  /** Sending `a` and then a prefix of `rest` sends a prefix of `[a] + rest`. */
  lemma PrefixStep<T>(sent: seq<T>, a: T, rest: seq<T>, out: seq<T>)
    requires |sent| + 1 <= |out| <= |sent| + 1 + |rest|
    requires out == (sent + [a]) + rest[..|out| - |sent| - 1]
    ensures out == sent + ([a] + rest)[..|out| - |sent|]
    ensures (sent + [a]) + rest == sent + ([a] + rest)
  {
    assert ([a] + rest)[..|out| - |sent|] == [a] + rest[..|out| - |sent| - 1];
  }

  /**
   * The mail sent is the firing rules' alerts in rule order, cut short where a
   * rule raises: all of them when none raises, and never one out of order.
   */
  lemma {:induction false} SendIsFiredPrefix(outcomes: seq<Result<Option<Alert>, EvalError>>, i: nat, sent: seq<Alert>)
    requires i <= |outcomes|
    ensures var (out, err) := Send(outcomes, i, sent);
            var fired := FiredFrom(outcomes, i);
            |sent| <= |out| <= |sent| + |fired| && out == sent + fired[..|out| - |sent|]
            && (err.None? ==> out == sent + fired)
    decreases |outcomes| - i
  {
    var fired := FiredFrom(outcomes, i);
    if i == |outcomes| {
      assert sent + [] == sent;
    } else {
      match outcomes[i]
      case Err(_) =>
        assert sent + fired[..0] == sent;
      case Ok(None) =>
        SendIsFiredPrefix(outcomes, i + 1, sent);
      case Ok(Some(a)) =>
        SendIsFiredPrefix(outcomes, i + 1, sent + [a]);
        PrefixStep(sent, a, FiredFrom(outcomes, i + 1), Send(outcomes, i + 1, sent + [a]).0);
    }
  }

  /**
   * The mail `evaluate` sends is the firing rules' alerts in rule order, cut
   * short where a rule raises, and all of them when no rule raises.
   */
  lemma AlertsAreFiredPrefix(rules: seq<Rule>, serial: int, users: seq<User>,
                             cw: WeatherStationData, ch: HiveData, pw: WeatherStationData, ph: HiveData)
    ensures var out := AlertsFrom(rules, serial, users, cw, ch, pw, ph).0;
            |out| <= |Fired(rules, serial, users, cw, ch, pw, ph)|
            && out == Fired(rules, serial, users, cw, ch, pw, ph)[..|out|]
    ensures AlertsFrom(rules, serial, users, cw, ch, pw, ph).1.None? ==>
              AlertsFrom(rules, serial, users, cw, ch, pw, ph).0 == Fired(rules, serial, users, cw, ch, pw, ph)
  {
    var outcomes := Outcomes(rules, serial, users, cw, ch, pw, ph);
    SendIsFiredPrefix(outcomes, 0, []);
    var out := Send(outcomes, 0, []).0;
    var fired := FiredFrom(outcomes, 0);
    assert [] + fired[..|out|] == fired[..|out|];
    assert [] + fired == fired;
  }

  /**
   * Every alert sent comes from a rule of the list that fired: `RuleAlert`
   * yields exactly that alert for it, so it goes to that rule's user, with
   * subject "iBuzz ALERT <sensor>", and the reading has crossed the threshold.
   */
  lemma AlertsComeFromFiringRules(rules: seq<Rule>, serial: int, users: seq<User>,
                                  cw: WeatherStationData, ch: HiveData, pw: WeatherStationData, ph: HiveData)
    ensures forall a :: a in AlertsFrom(rules, serial, users, cw, ch, pw, ph).0 ==>
              exists j :: 0 <= j < |rules|
                          && RuleAlert(rules[j], serial, UserById(users, rules[j].userId),
                                       SensorValues(rules[j].sensor, cw, ch, pw, ph)) == Ok(Some(a))
                          && UserById(users, rules[j].userId).Some?
                          && a.recipient == UserById(users, rules[j].userId).value.email
                          && a.subject == "iBuzz ALERT " + rules[j].sensor
  {
    var outcomes := Outcomes(rules, serial, users, cw, ch, pw, ph);
    SendIsFiredPrefix(outcomes, 0, []);
    var out := AlertsFrom(rules, serial, users, cw, ch, pw, ph).0;
    var fired := Fired(rules, serial, users, cw, ch, pw, ph);
    assert out == fired[..|out|];
    forall a | a in out
      ensures a in fired
    {
      var k :| 0 <= k < |out| && out[k] == a;
      assert fired[k] == a;
    }
  }

  /**
   * A rule's stored hive number never decides whether it fires or where the
   * alert goes; it only appears in the message.
   */
  lemma HiveNumberIrrelevant(rule: Rule, h: Option<int>, serial: int, user: Option<User>,
                             values: Option<(Option<Value>, Option<Value>)>)
    ensures var r1, r2 := RuleAlert(rule, serial, user, values), RuleAlert(rule.(hiveNumber := h), serial, user, values);
            r1.Ok? == r2.Ok? && (r1.Ok? ==> r1.value.Some? == r2.value.Some?)
            && (r1.Ok? && r1.value.Some? ==> r2.value.value == r1.value.value.(hiveNumber := h))
  {
  }

  /**
   * One pass of the loop in `evaluate`: fetch the rule's user, dispatch on the
   * sensor name, read the user's address, compare, and build the alert that
   * would be mailed.
   */
  method EvaluateRule(rule: Rule, serial: int, users: seq<User>,
                      cw: WeatherStationData, ch: HiveData, pw: WeatherStationData, ph: HiveData)
    returns (r: Result<Option<Alert>, EvalError>)
    ensures r == RuleOutcome(rule, serial, users, cw, ch, pw, ph)
  {
    var user := UserById(users, rule.userId);
    var values := SensorValues(rule.sensor, cw, ch, pw, ph);
    if values.None? {
      return Ok(None);
    }
    var (current, previous) := values.value;
    if current.None? || previous.None? {
      return Err(Unset(AttributeError(rule.sensor)));
    }
    if user.None? {
      return Err(NoSuchUser);
    }
    var fires := Decide(rule.sign, current.value, previous.value, rule.value);
    if fires.Err? {
      return Err(fires.error);
    }
    if !fires.value {
      return Ok(None);
    }
    return Ok(Some(Alert(user.value.email, "iBuzz ALERT " + rule.sensor, rule.sensor, serial, rule.hiveNumber,
                         current.value, rule.value, rule.sign == ">")));
  }

  /**
   * The loop of `evaluate` over the rules of one serial number, with `users`
   * the accounts `fetch_user` looks in: the mail of the rules that fire, in
   * order, and the exception that ends the loop early, if any.
   */
  method EvaluateRules(rules: seq<Rule>, serial: int, users: seq<User>,
                       cw: WeatherStationData, ch: HiveData, pw: WeatherStationData, ph: HiveData)
    returns (alerts: seq<Alert>, err: Option<EvalError>)
    ensures (alerts, err) == AlertsFrom(rules, serial, users, cw, ch, pw, ph)
    ensures err.None? ==> alerts == Fired(rules, serial, users, cw, ch, pw, ph)
    ensures |alerts| <= |Fired(rules, serial, users, cw, ch, pw, ph)|
            && alerts == Fired(rules, serial, users, cw, ch, pw, ph)[..|alerts|]
  {
    ghost var outcomes := Outcomes(rules, serial, users, cw, ch, pw, ph);
    alerts, err := [], None;
    var i := 0;
    while i < |rules| && err.None?
      invariant i <= |rules|
      invariant Send(outcomes, 0, []) == if err.None? then Send(outcomes, i, alerts) else (alerts, err)
      decreases |rules| - i, if err.None? then 1 else 0
    {
      var outcome := EvaluateRule(rules[i], serial, users, cw, ch, pw, ph);
      assert outcome == outcomes[i];
      if outcome.Err? {
        err := Some(outcome.error);
      } else {
        if outcome.value.Some? {
          alerts := alerts + [outcome.value.value];
        }
        i := i + 1;
      }
    }
    AlertsAreFiredPrefix(rules, serial, users, cw, ch, pw, ph);
  }

  /** The alert service; the SMTP connection is not modelled. */
  class Notifications {
    var loginDb: LoginDatabase

    constructor (loginDb: LoginDatabase)
      ensures this.loginDb == loginDb
    {
      this.loginDb := loginDb;
    }

    /**
     * `evaluate`: the alerts the current readings trigger against the previous
     * ones, for every rule stored for the weather station's serial number, and
     * the exception that ended the evaluation early, if any.
     */
    method Evaluate(cw: WeatherStationData, ch: HiveData, pw: WeatherStationData, ph: HiveData)
      returns (alerts: seq<Alert>, err: Option<EvalError>)
      ensures cw.serialNumber.None? ==> alerts == [] && err == Some(Unset(AttributeError("serial_number")))
      ensures cw.serialNumber.Some? ==>
                RulesFor(loginDb.rules, Some(cw.serialNumber.value), None).Ok?
                && (alerts, err) == AlertsFrom(RulesFor(loginDb.rules, Some(cw.serialNumber.value), None).value,
                                               cw.serialNumber.value, loginDb.users, cw, ch, pw, ph)
      ensures cw.serialNumber.Some? && err.None? ==>
                alerts == Fired(RulesFor(loginDb.rules, Some(cw.serialNumber.value), None).value,
                                cw.serialNumber.value, loginDb.users, cw, ch, pw, ph)
    {
      if cw.serialNumber.None? {
        return [], Some(Unset(AttributeError("serial_number")));
      }
      var serial := cw.serialNumber.value;
      var fetched := loginDb.FetchNotifications(Some(serial), None);
      var rules := fetched.value;
      if |rules| == 0 {
        return [], None;
      }
      alerts, err := EvaluateRules(rules, serial, loginDb.users, cw, ch, pw, ph);
    }
  }

  /** No rule stored for the serial number means no alert and no error. */
  lemma NoRulesNoAlerts(serial: int, users: seq<User>, cw: WeatherStationData, ch: HiveData, pw: WeatherStationData, ph: HiveData)
    ensures AlertsFrom([], serial, users, cw, ch, pw, ph) == ([], None)
  {
  }
}
