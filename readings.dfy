/**
 * The reading records of `hive_data.py`: one object per hive reading and one
 * per weather-station reading. Python creates attributes on assignment, so an
 * attribute that was never assigned is `None` here and reading it raises
 * `AttributeError`; Python's own `None` is `Value.Null`.
 */
module Readings {
  import opened Base

  /** Reading an attribute that was never assigned. */
  datatype AttributeError = AttributeError(name: string)

  /**
   * Reads the attributes `names`, whose values are `vals` (`None` for one never
   * assigned), from left to right as a tuple display does, and fails on the
   * first one that was never assigned.
   */
  function Collect(names: seq<string>, vals: seq<Option<Value>>): (r: Result<seq<Value>, AttributeError>)
    requires |names| == |vals|
    ensures r.Ok? <==> None !in vals
    ensures r.Ok? ==> |r.value| == |vals| && forall k :: 0 <= k < |vals| ==> vals[k] == Some(r.value[k])
    ensures r.Err? ==> exists k :: 0 <= k < |vals| && vals[k].None? && r.error == AttributeError(names[k])
                                   && forall j :: 0 <= j < k ==> vals[j].Some?
  {
    if |vals| == 0 then Ok([])
    else if vals[0].None? then Err(AttributeError(names[0]))
    else
      match Collect(names[1..], vals[1..])
      case Err(e) => Err(e)
      case Ok(vs) => Ok([vals[0].value] + vs)
  }

  /** An integer attribute as a value, when it was assigned. */
  function IntAttribute(o: Option<int>): Option<Value>
  {
    if o.Some? then Some(Int(o.value)) else None
  }

  /** The short tuple of a hive reading without extra sensors. */
  const ShortHiveColumns: seq<string> := ["time", "hive_number", "temperature_1"]

  /** The full tuple of a hive reading, in the order `get_data` lists it. */
  const FullHiveColumns: seq<string> :=
    ["time", "hive_number", "temperature_1", "temperature_2", "temperature_3", "accelerometer",
     "scale", "bees_out", "bees_in", "weight", "frequency"]

  class HiveData {
    var hiveNumber: int
    var temperature1: Value
    var time: Option<int>
    var temperature2: Option<Value>
    var temperature3: Option<Value>
    var accelerometer: Option<Value>
    var scale: Option<Value>
    var beesOut: Option<Value>
    var beesIn: Option<Value>
    var weight: Option<Value>
    var frequency: Option<Value>
    var humidity: Option<Value>

    /**
     * The live two-argument constructor: it is the later of the two `__init__`
     * definitions, so it replaces the ten-argument one and sets only these two.
     */
    constructor (hiveNumber: int, temperature1: Value)
      ensures this.hiveNumber == hiveNumber && this.temperature1 == temperature1
      ensures time.None? && temperature2.None? && temperature3.None? && accelerometer.None?
      ensures scale.None? && beesOut.None? && beesIn.None? && weight.None? && frequency.None? && humidity.None?
    {
      this.hiveNumber := hiveNumber;
      this.temperature1 := temperature1;
      time := None;
      temperature2 := None;
      temperature3 := None;
      accelerometer := None;
      scale := None;
      beesOut := None;
      beesIn := None;
      weight := None;
      frequency := None;
      humidity := None;
    }

    /** The attributes of the full tuple, in the order of `FullHiveColumns`. */
    function FullValues(): (r: seq<Option<Value>>)
      reads this
    {
      [IntAttribute(time), Some(Int(hiveNumber)), Some(temperature1), temperature2, temperature3,
       accelerometer, scale, beesOut, beesIn, weight, frequency]
    }

    /** `set_time`: only the reading's time changes. */
    method SetTime(t: int)
      modifies this`time
      ensures time == Some(t)
    {
      time := Some(t);
    }

    /**
     * `is_more_recent_version_of`: the same hive and a strictly later time.
     * Both times are read first, so an unset time raises whatever the hive numbers are.
     */
    function IsMoreRecentVersionOf(other: HiveData): (r: Result<bool, AttributeError>)
      reads this, other
      ensures time.None? ==> r == Err(AttributeError("time"))
      ensures other.time.None? ==> r == Err(AttributeError("time"))
      ensures time.Some? && other.time.Some? ==>
                r.Ok? && (r.value <==> hiveNumber == other.hiveNumber && time.value > other.time.value)
    {
      if time.None? || other.time.None? then Err(AttributeError("time"))
      else Ok(time.value > other.time.value && hiveNumber == other.hiveNumber)
    }

    /**
     * `get_data`: the short tuple when `temperature_2` is Python's None, the full
     * tuple otherwise; reading `temperature_2` itself raises when it was never set.
     */
    function GetData(): (r: Result<seq<Value>, AttributeError>)
      reads this
      ensures temperature2.None? ==> r == Err(AttributeError("temperature_2"))
      ensures temperature2 == Some(Null) ==> (r.Ok? <==> time.Some?)
      ensures temperature2 == Some(Null) && r.Ok? ==> r.value == [Int(time.value), Int(hiveNumber), temperature1]
      ensures temperature2.Some? && temperature2 != Some(Null) ==>
                (r.Ok? <==> time.Some? && temperature3.Some? && accelerometer.Some? && scale.Some?
                            && beesOut.Some? && beesIn.Some? && weight.Some? && frequency.Some?)
      ensures temperature2.Some? && temperature2 != Some(Null) && r.Ok? ==>
                r.value == [Int(time.value), Int(hiveNumber), temperature1, temperature2.value,
                            temperature3.value, accelerometer.value, scale.value, beesOut.value,
                            beesIn.value, weight.value, frequency.value]
      ensures r.Err? ==> r.error.name in FullHiveColumns
    {
      if temperature2.None? then Err(AttributeError("temperature_2"))
      else if temperature2.value == Null then
        Collect(ShortHiveColumns, [IntAttribute(time), Some(Int(hiveNumber)), Some(temperature1)])
      else Collect(FullHiveColumns, FullValues())
    }
  }

  class WeatherStationData {
    var outsideHumidity: Value
    var outsideTemperature: Value
    var serialNumber: Option<int>

    constructor (outsideHumidity: Value, outsideTemperature: Value)
      ensures this.outsideHumidity == outsideHumidity && this.outsideTemperature == outsideTemperature
      ensures serialNumber.None?
    {
      this.outsideHumidity := outsideHumidity;
      this.outsideTemperature := outsideTemperature;
      serialNumber := None;
    }

    /** `set_serial_number`: only the serial number changes. */
    method SetSerialNumber(serial: int)
      modifies this`serialNumber
      ensures serialNumber == Some(serial)
    {
      serialNumber := Some(serial);
    }

    /** `get_data`: serial number, then humidity, then temperature. */
    function GetData(): (r: Result<seq<Value>, AttributeError>)
      reads this
      ensures serialNumber.None? ==> r == Err(AttributeError("serial_number"))
      ensures serialNumber.Some? ==> r.Ok?
      ensures r.Ok? ==> r.value == [Int(serialNumber.value), outsideHumidity, outsideTemperature]
    {
      var vals := [IntAttribute(serialNumber), Some(outsideHumidity), Some(outsideTemperature)];
      assert serialNumber.Some? ==> None !in vals;
      Collect(["serial_number", "outside_humidity", "outside_temperature"], vals)
    }
  }

  /** A reading is never more recent than itself: equal times favour neither side. */
  lemma RecencyIrreflexive(a: HiveData)
    requires a.time.Some?
    ensures a.IsMoreRecentVersionOf(a) == Ok(false)
  {
  }

  /** Of two readings at most one is the more recent version of the other. */
  lemma RecencyAsymmetric(a: HiveData, b: HiveData)
    requires a.IsMoreRecentVersionOf(b) == Ok(true)
    ensures b.IsMoreRecentVersionOf(a) == Ok(false)
  {
  }

  /** Recency chains: it is a strict order among the readings of one hive. */
  lemma RecencyTransitive(a: HiveData, b: HiveData, c: HiveData)
    requires a.IsMoreRecentVersionOf(b) == Ok(true) && b.IsMoreRecentVersionOf(c) == Ok(true)
    ensures a.IsMoreRecentVersionOf(c) == Ok(true)
  {
  }

  /** Readings of different hives are never versions of one another, whatever their times. */
  lemma RecencyNeedsSameHive(a: HiveData, b: HiveData)
    requires a.hiveNumber != b.hiveNumber
    ensures a.IsMoreRecentVersionOf(b).Ok? ==> a.IsMoreRecentVersionOf(b) == Ok(false)
    ensures b.IsMoreRecentVersionOf(a).Ok? ==> b.IsMoreRecentVersionOf(a) == Ok(false)
  {
  }

  /**
   * A hive reading fresh from the constructor cannot be reported: `get_data`
   * raises on `temperature_2`, which only the ten-argument constructor (dead
   * code, replaced by the later definition) would have set.
   */
  lemma FreshHiveCannotReport(h: HiveData)
    requires h.temperature2.None?
    ensures h.GetData() == Err(AttributeError("temperature_2"))
  {
  }
}
