/**
 * The telemetry table of `database.py`: ingestion of an uplink into rows keyed
 * by (SerNo, SeqNo), and the whitelisted, time-filtered column query.
 */
module DataStore {
  import opened Base
  import opened EncodedData

  // ---------------------------------------------------------------------------
  // UTC epoch of a parsed `DateUTC` (`calendar.timegm` of a `time.strptime` result)
  // ---------------------------------------------------------------------------

  /** A `DateUTC` value after its `'%Y-%m-%d %H:%M:%S'` fields have been split out. */
  datatype DateTime = DateTime(year: int, month: int, day: int, hour: int, minute: int, second: int)

  predicate IsLeap(y: int)
  {
    y % 4 == 0 && (y % 100 != 0 || y % 400 == 0)
  }

  function DaysInMonth(y: int, m: int): (r: int)
    requires 1 <= m <= 12
    ensures 28 <= r <= 31
  {
    if m == 2 then (if IsLeap(y) then 29 else 28)
    else if m == 4 || m == 6 || m == 9 || m == 11 then 30
    else 31
  }

  function DaysInYear(y: int): int
  {
    if IsLeap(y) then 366 else 365
  }

  /**
   * The dates `time.strptime` accepts: a year of four digits that the Gregorian
   * calendar can place, a day that exists in its month, and seconds up to 61.
   */
  predicate ValidDate(d: DateTime)
  {
    1 <= d.year <= 9999 && 1 <= d.month <= 12 && 1 <= d.day <= DaysInMonth(d.year, d.month)
    && 0 <= d.hour <= 23 && 0 <= d.minute <= 59 && 0 <= d.second <= 61
  }

  /** Days from 0001-01-01 to 1 January of year `y`, by the closed formula of the proleptic Gregorian calendar. */
  function DaysBeforeYear(y: int): int
    requires y >= 1
  {
    var p := y - 1;
    p * 365 + p / 4 - p / 100 + p / 400
  }

  /** Days from 1 January to the first day of month `m` of year `y`. */
  function DaysBeforeMonth(y: int, m: int): int
    requires 1 <= m <= 12
  {
    [0, 31, 59, 90, 120, 151, 181, 212, 243, 273, 304, 334][m - 1] + (if m > 2 && IsLeap(y) then 1 else 0)
  }

  /** The proleptic Gregorian ordinal of 1970-01-01, counting 0001-01-01 as day 1. */
  const EpochOrdinal: int := 719163

  /** Seconds since 1970-01-01 00:00:00 UTC, with no time-zone offset applied. */
  function Epoch(d: DateTime): int
    requires ValidDate(d)
  {
    (DaysBeforeYear(d.year) + DaysBeforeMonth(d.year, d.month) + d.day - EpochOrdinal) * 86400
    + d.hour * 3600 + d.minute * 60 + d.second
  }

  /** Reference count: the lengths of the years 1 .. y - 1 added one by one. */
  function YearsDays(y: int): int
    requires y >= 1
    decreases y
  {
    if y == 1 then 0 else YearsDays(y - 1) + DaysInYear(y - 1)
  }

  /** Reference count: the lengths of months 1 .. m - 1 of year `y` added one by one. */
  function MonthsDays(y: int, m: int): int
    requires 1 <= m <= 13
    decreases m
  {
    if m == 1 then 0 else MonthsDays(y, m - 1) + DaysInMonth(y, m - 1)
  }

  /** One year on, the closed formula grows by the length of that year. */
  lemma DaysBeforeYearStep(y: int)
    requires y >= 1
    ensures DaysBeforeYear(y + 1) == DaysBeforeYear(y) + DaysInYear(y)
  {
    var p := y - 1;
    var a, b, c := y / 4 - p / 4, y / 100 - p / 100, y / 400 - p / 400;
    assert a == (if y % 4 == 0 then 1 else 0);
    assert b == (if y % 100 == 0 then 1 else 0);
    assert c == (if y % 400 == 0 then 1 else 0);
    assert y % 400 == 0 ==> y % 100 == 0;
    assert y % 100 == 0 ==> y % 4 == 0;
    assert a - b + c == (if IsLeap(y) then 1 else 0);
  }

  /** The closed formula for the days before a year agrees with counting the years. */
  lemma {:induction false} DaysBeforeYearCounts(y: int)
    requires y >= 1
    ensures DaysBeforeYear(y) == YearsDays(y)
    decreases y
  {
    if y > 1 {
      DaysBeforeYearCounts(y - 1);
      DaysBeforeYearStep(y - 1);
    }
  }

  /** The month table agrees with counting the months. */
  lemma DaysBeforeMonthCounts(y: int, m: int)
    requires 1 <= m <= 12
    ensures DaysBeforeMonth(y, m) == MonthsDays(y, m)
  {
    assert MonthsDays(y, 1) == 0;
    assert MonthsDays(y, 2) == 31;
    assert MonthsDays(y, 3) == 59 + (if IsLeap(y) then 1 else 0);
    assert MonthsDays(y, 4) == 90 + (if IsLeap(y) then 1 else 0);
    assert MonthsDays(y, 5) == 120 + (if IsLeap(y) then 1 else 0);
    assert MonthsDays(y, 6) == 151 + (if IsLeap(y) then 1 else 0);
    assert MonthsDays(y, 7) == 181 + (if IsLeap(y) then 1 else 0);
    assert MonthsDays(y, 8) == 212 + (if IsLeap(y) then 1 else 0);
    assert MonthsDays(y, 9) == 243 + (if IsLeap(y) then 1 else 0);
    assert MonthsDays(y, 10) == 273 + (if IsLeap(y) then 1 else 0);
    assert MonthsDays(y, 11) == 304 + (if IsLeap(y) then 1 else 0);
    assert MonthsDays(y, 12) == 334 + (if IsLeap(y) then 1 else 0);
  }

  /**
   * The epoch is the number of whole days between 1970-01-01 and the date,
   * counted year by year and month by month, times 86400, plus the time of day.
   */
  lemma EpochCountsDays(d: DateTime)
    requires ValidDate(d)
    ensures Epoch(d) == (YearsDays(d.year) - YearsDays(1970) + MonthsDays(d.year, d.month) + d.day - 1) * 86400
                        + d.hour * 3600 + d.minute * 60 + d.second
  {
    DaysBeforeYearCounts(d.year);
    DaysBeforeYearCounts(1970);
    DaysBeforeMonthCounts(d.year, d.month);
    assert DaysBeforeYear(1970) == EpochOrdinal - 1;
  }

  /** The epoch starts at 1970-01-01 00:00:00, and earlier dates are negative. */
  lemma EpochOrigin()
    ensures Epoch(DateTime(1970, 1, 1, 0, 0, 0)) == 0
    ensures Epoch(DateTime(1969, 12, 31, 23, 59, 59)) == -1
  {
    assert DaysBeforeYear(1970) == 719162;
    assert DaysBeforeYear(1969) == 718797;
  }

  // ---------------------------------------------------------------------------
  // Ingestion (`__process_data`)
  // ---------------------------------------------------------------------------

  /** One tag of a field; `Data` holds the tag's payload, already base64-decoded. */
  datatype Tag = Tag(data: Option<seq<Byte>>)

  /** One entry of a record's `Fields`; `tags` is `None` when it has no `Tags` key. */
  datatype Field = Field(tags: Option<seq<Tag>>)

  datatype Record = Record(seqNo: int, date: DateTime, fields: seq<Field>)

  /** The JSON body of one uplink: the device serial and its records. */
  datatype Uplink = Uplink(serNo: int, records: seq<Record>)

  /** The primary key of the `Data` table. */
  type Key = (int, int)

  /** A row of the `Data` table, column by column. */
  datatype Row = Row(serNo: int, seqNo: int, time: int, outsideTemp: real, outsideHumidity: int,
                     temp1: int, temp2: int, temp3: int, accelerometer: int, entrance: int, weight: int, frequency: int)

  /**
   * The row ingestion writes: the seven hive columns (Temp_1 .. Frequency) are
   * zeros, since no hive decoder exists in this code.
   */
  function WeatherRow(serNo: int, seqNo: int, time: int, outsideTemp: real, outsideHumidity: nat): Row
  {
    Row(serNo, seqNo, time, outsideTemp, outsideHumidity, 0, 0, 0, 0, 0, 0, 0)
  }

  /** Why ingestion of an uplink stopped. */
  datatype IngestError =
    | BadDate                          // `strptime` rejects `DateUTC`
    | TagsEmpty                        // `data_dict[0]` on an empty `Tags` list
    | DataMissing                      // the first tag has no `Data`
    | Decode(cause: ExtractError)      // the payload is not text, or too short for the ELA RHT layout
    | DuplicateKey(serNo: int, seqNo: int)  // the primary key (SerNo, SeqNo) already exists
    | Deadlock                         // the insert waits for a lock nobody will release

  predicate Tagged(f: Field)
  {
    f.tags.Some?
  }

  /** The weather reading a field carries: none without `Tags`, else its first tag decoded. */
  function FieldReading(f: Field): Result<Option<(nat, real)>, IngestError>
  {
    if f.tags.None? then Ok(None)
    else if |f.tags.value| == 0 then Err(TagsEmpty)
    else if f.tags.value[0].data.None? then Err(DataMissing)
    else
      match ExtractElaRht(f.tags.value[0].data.value)
      case Err(e) => Err(Decode(e))
      case Ok(v) => Ok(Some(v))
  }

  /**
   * The reading left by the field loop from field `i` on, `current` being the
   * reading so far: each tagged field overwrites it, and the first failure aborts.
   */
  function FieldsWeather(fields: seq<Field>, i: nat, current: Option<(nat, real)>): (r: Result<Option<(nat, real)>, IngestError>)
    requires i <= |fields|
    ensures r.Err? ==> r.error.TagsEmpty? || r.error.DataMissing? || r.error.Decode?
    decreases |fields| - i
  {
    if i == |fields| then Ok(current)
    else
      match FieldReading(fields[i])
      case Err(e) => Err(e)
      case Ok(None) => FieldsWeather(fields, i + 1, current)
      case Ok(Some(v)) => FieldsWeather(fields, i + 1, Some(v))
  }

  /** The row a record contributes: none when no field is tagged. */
  function RecordRow(serNo: int, rec: Record): (r: Result<Option<Row>, IngestError>)
    ensures r.Err? ==> r.error.BadDate? || r.error.TagsEmpty? || r.error.DataMissing? || r.error.Decode?
    ensures r.Ok? && r.value.Some? ==> r.value.value.serNo == serNo && r.value.value.seqNo == rec.seqNo
  {
    if !ValidDate(rec.date) then Err(BadDate)
    else
      match FieldsWeather(rec.fields, 0, None)
      case Err(e) => Err(e)
      case Ok(None) => Ok(None)
      case Ok(Some(w)) => Ok(Some(WeatherRow(serNo, rec.seqNo, Epoch(rec.date), w.1, w.0)))
  }

  /**
   * The table, the state of the table lock and the error after ingesting
   * records `i..` with the lock `held` or free: rows are added one per record
   * that has a reading, and the first failure stops the remaining records while
   * keeping the rows already inserted. The lock is taken around each insert and
   * released only when the insert succeeds, so a duplicate key leaves it held;
   * reaching an insert while it is held waits forever (`Deadlock`).
   */
  function ProcessFrom(rows: map<Key, Row>, held: bool, serNo: int, records: seq<Record>, i: nat)
    : (map<Key, Row>, bool, Option<IngestError>)
    requires i <= |records|
    decreases |records| - i
  {
    if i == |records| then (rows, held, None)
    else
      match RecordRow(serNo, records[i])
      case Err(e) => (rows, held, Some(e))
      case Ok(None) => ProcessFrom(rows, held, serNo, records, i + 1)
      case Ok(Some(row)) =>
        if held then (rows, true, Some(Deadlock))
        else if (serNo, records[i].seqNo) in rows then (rows, true, Some(DuplicateKey(serNo, records[i].seqNo)))
        else ProcessFrom(rows[(serNo, records[i].seqNo) := row], false, serNo, records, i + 1)
  }

  /** The last tagged field of `fields[i..]` is at `j`. */
  predicate LastTaggedAt(fields: seq<Field>, i: nat, j: nat)
  {
    i <= j < |fields| && Tagged(fields[j]) && forall l :: j < l < |fields| ==> !Tagged(fields[l])
  }

  /** The field loop succeeds exactly when every field from `i` on reads without error. */
  lemma {:induction false} FieldsWeatherOk(fields: seq<Field>, i: nat, current: Option<(nat, real)>)
    requires i <= |fields|
    ensures FieldsWeather(fields, i, current).Ok? <==> forall j :: i <= j < |fields| ==> FieldReading(fields[j]).Ok?
    decreases |fields| - i
  {
    if i < |fields| {
      var r := FieldReading(fields[i]);
      if r.Ok? {
        FieldsWeatherOk(fields, i + 1, if r.value.Some? then r.value else current);
      }
    }
  }

  /** Without a tagged field from `i` on, the loop leaves the reading it had. */
  lemma {:induction false} UntaggedKeepsReading(fields: seq<Field>, i: nat, current: Option<(nat, real)>)
    requires i <= |fields|
    requires forall j :: i <= j < |fields| ==> !Tagged(fields[j])
    ensures FieldsWeather(fields, i, current) == Ok(current)
    decreases |fields| - i
  {
    if i < |fields| {
      UntaggedKeepsReading(fields, i + 1, current);
    }
  }

  /** When the loop succeeds, its reading is the one of the last tagged field. */
  lemma {:induction false} LastTagWins(fields: seq<Field>, i: nat, current: Option<(nat, real)>, j: nat)
    requires LastTaggedAt(fields, i, j)
    requires FieldsWeather(fields, i, current).Ok?
    ensures FieldReading(fields[j]) == FieldsWeather(fields, i, current)
    decreases |fields| - i
  {
    var r := FieldReading(fields[i]);
    if i == j {
      UntaggedKeepsReading(fields, i + 1, r.value);
    } else {
      LastTagWins(fields, i + 1, if r.value.Some? then r.value else current, j);
    }
  }

  /** A record without any `Tags` field contributes no row, and the uplink goes on. */
  lemma RecordWithoutTagsSkipped(serNo: int, rec: Record)
    requires ValidDate(rec.date)
    requires forall j :: 0 <= j < |rec.fields| ==> !Tagged(rec.fields[j])
    ensures RecordRow(serNo, rec) == Ok(None)
  {
    UntaggedKeepsReading(rec.fields, 0, None);
  }

  /**
   * A record whose fields all decode and whose last tagged field is `j` gives the row
   * (SerNo, SeqNo, epoch, temperature, humidity, seven zeros) read from that field;
   * a temperature of 0 is stored like any other.
   */
  lemma RecordRowFromLastTag(serNo: int, rec: Record, j: nat)
    requires ValidDate(rec.date)
    requires forall k :: 0 <= k < |rec.fields| ==> FieldReading(rec.fields[k]).Ok?
    requires LastTaggedAt(rec.fields, 0, j)
    ensures FieldReading(rec.fields[j]).Ok? && FieldReading(rec.fields[j]).value.Some?
    ensures var w := FieldReading(rec.fields[j]).value.value;
            RecordRow(serNo, rec) == Ok(Some(WeatherRow(serNo, rec.seqNo, Epoch(rec.date), w.1, w.0)))
  {
    FieldsWeatherOk(rec.fields, 0, None);
    LastTagWins(rec.fields, 0, None, j);
  }

  /** Rows already in the table are never changed or removed by ingestion. */
  lemma {:induction false} ProcessKeepsRows(rows: map<Key, Row>, held: bool, serNo: int, records: seq<Record>, i: nat)
    requires i <= |records|
    ensures forall k :: k in rows ==> k in ProcessFrom(rows, held, serNo, records, i).0
                                      && ProcessFrom(rows, held, serNo, records, i).0[k] == rows[k]
    decreases |records| - i
  {
    if i < |records| {
      var r := RecordRow(serNo, records[i]);
      if r.Ok? && r.value.Some? && !held && (serNo, records[i].seqNo) !in rows {
        ProcessKeepsRows(rows[(serNo, records[i].seqNo) := r.value.value], false, serNo, records, i + 1);
      } else if r.Ok? && r.value.None? {
        ProcessKeepsRows(rows, held, serNo, records, i + 1);
      }
    }
  }

  /** Every new row is the row of some record of the uplink, stored under (SerNo, SeqNo). */
  lemma {:induction false} ProcessNewRows(rows: map<Key, Row>, held: bool, serNo: int, records: seq<Record>, i: nat)
    requires i <= |records|
    ensures forall k :: k in ProcessFrom(rows, held, serNo, records, i).0 && k !in rows ==>
              exists j :: i <= j < |records| && k == (serNo, records[j].seqNo)
                          && RecordRow(serNo, records[j]) == Ok(Some(ProcessFrom(rows, held, serNo, records, i).0[k]))
    decreases |records| - i
  {
    if i < |records| {
      var r := RecordRow(serNo, records[i]);
      var key := (serNo, records[i].seqNo);
      if r.Ok? && r.value.Some? && !held && key !in rows {
        var rows' := rows[key := r.value.value];
        ProcessNewRows(rows', false, serNo, records, i + 1);
        ProcessKeepsRows(rows', false, serNo, records, i + 1);
      } else if r.Ok? && r.value.None? {
        ProcessNewRows(rows, held, serNo, records, i + 1);
      }
    }
  }

  /** At most one row is written per record of the uplink. */
  lemma {:induction false} ProcessRowCount(rows: map<Key, Row>, held: bool, serNo: int, records: seq<Record>, i: nat)
    requires i <= |records|
    ensures |ProcessFrom(rows, held, serNo, records, i).0| <= |rows| + (|records| - i)
    decreases |records| - i
  {
    if i < |records| {
      var r := RecordRow(serNo, records[i]);
      var key := (serNo, records[i].seqNo);
      if r.Ok? && r.value.Some? && !held && key !in rows {
        var rows' := rows[key := r.value.value];
        assert |rows'| == |rows| + 1;
        ProcessRowCount(rows', false, serNo, records, i + 1);
      } else if r.Ok? && r.value.None? {
        ProcessRowCount(rows, held, serNo, records, i + 1);
      }
    }
  }

  /**
   * When ingestion ends without error, every record yielded a row or no row,
   * and every record's row is in the table under its key, which was new.
   */
  lemma {:induction false} ProcessCompletes(rows: map<Key, Row>, held: bool, serNo: int, records: seq<Record>, i: nat)
    requires i <= |records|
    ensures ProcessFrom(rows, held, serNo, records, i).2.None? ==>
              forall j :: i <= j < |records| ==>
                RecordRow(serNo, records[j]).Ok?
                && (RecordRow(serNo, records[j]).value.Some? ==>
                      (serNo, records[j].seqNo) in ProcessFrom(rows, held, serNo, records, i).0
                      && ProcessFrom(rows, held, serNo, records, i).0[(serNo, records[j].seqNo)]
                         == RecordRow(serNo, records[j]).value.value
                      && (serNo, records[j].seqNo) !in rows)
    decreases |records| - i
  {
    if i < |records| {
      var r := RecordRow(serNo, records[i]);
      var key := (serNo, records[i].seqNo);
      if r.Ok? && r.value.Some? && !held && key !in rows {
        var rows' := rows[key := r.value.value];
        ProcessCompletes(rows', false, serNo, records, i + 1);
        ProcessKeepsRows(rows', false, serNo, records, i + 1);
      } else if r.Ok? && r.value.None? {
        ProcessCompletes(rows, held, serNo, records, i + 1);
      }
    }
  }

  /** A record whose key is already in the table stops ingestion with an error. */
  lemma DuplicateStops(rows: map<Key, Row>, held: bool, serNo: int, records: seq<Record>, j: nat)
    requires j < |records|
    requires RecordRow(serNo, records[j]).Ok? && RecordRow(serNo, records[j]).value.Some?
    requires (serNo, records[j].seqNo) in rows
    ensures ProcessFrom(rows, held, serNo, records, 0).2.Some?
  {
    ProcessCompletes(rows, held, serNo, records, 0);
  }

  /**
   * While the lock is held, ingestion changes no row, the lock stays held, and
   * the call finishes only when no record from `i` on has a reading to insert.
   */
  lemma {:induction false} HeldLockFreezesTable(rows: map<Key, Row>, serNo: int, records: seq<Record>, i: nat)
    requires i <= |records|
    ensures ProcessFrom(rows, true, serNo, records, i).0 == rows
    ensures ProcessFrom(rows, true, serNo, records, i).1
    ensures ProcessFrom(rows, true, serNo, records, i).2 == None <==>
              forall j :: i <= j < |records| ==> RecordRow(serNo, records[j]) == Ok(None)
    decreases |records| - i
  {
    if i < |records| && RecordRow(serNo, records[i]) == Ok(None) {
      HeldLockFreezesTable(rows, serNo, records, i + 1);
    }
  }

  /**
   * Starting with the lock free, ingestion never waits on it, and it leaves the
   * lock held exactly when a duplicate key stopped it.
   */
  lemma {:induction false} LockLeaksOnDuplicate(rows: map<Key, Row>, serNo: int, records: seq<Record>, i: nat)
    requires i <= |records|
    ensures ProcessFrom(rows, false, serNo, records, i).2 != Some(Deadlock)
    ensures ProcessFrom(rows, false, serNo, records, i).1 <==>
              ProcessFrom(rows, false, serNo, records, i).2.Some?
              && ProcessFrom(rows, false, serNo, records, i).2.value.DuplicateKey?
    decreases |records| - i
  {
    if i < |records| {
      var r := RecordRow(serNo, records[i]);
      var key := (serNo, records[i].seqNo);
      if r.Ok? && r.value.None? {
        LockLeaksOnDuplicate(rows, serNo, records, i + 1);
      } else if r.Ok? && key !in rows {
        assert ProcessFrom(rows, false, serNo, records, i)
            == ProcessFrom(rows[key := r.value.value], false, serNo, records, i + 1);
        LockLeaksOnDuplicate(rows[key := r.value.value], serNo, records, i + 1);
      }
    }
  }

  /** A record dated `date` whose only field has one tag of at least 23 bytes, which the debug print accepts, yields a row. */
  lemma OneTagRecordReads(serNo: int, seqNo: int, date: DateTime, payload: seq<Byte>)
    requires ValidDate(date) && |payload| >= 23 && !DebugPrintRaises(payload)
    ensures var r := RecordRow(serNo, Record(seqNo, date, [Field(Some([Tag(Some(payload))]))]));
            r.Ok? && r.value.Some? && r.value.value.seqNo == seqNo
  {
    var fields := [Field(Some([Tag(Some(payload))]))];
    assert FieldReading(fields[0]).Ok?;
    RecordRowFromLastTag(serNo, Record(seqNo, date, fields), 0);
  }

  /**
   * Hawk 7 re-sends record 1, already stored: the insert fails with the lock
   * held, and record 2 of its next uplink then waits forever and is never
   * stored. With the lock released after the failure, record 2 is stored.
   */
  lemma LockLeakCounterexample(rows: map<Key, Row>, payload: seq<Byte>)
    requires (7, 1) in rows && (7, 2) !in rows && |payload| >= 23 && !DebugPrintRaises(payload)
    ensures var date := DateTime(2024, 5, 1, 12, 0, 0);
            var tagged := [Field(Some([Tag(Some(payload))]))];
            var first := ProcessFrom(rows, false, 7, [Record(1, date, tagged)], 0);
            first == (rows, true, Some(DuplicateKey(7, 1)))
            && ProcessFrom(first.0, first.1, 7, [Record(2, date, tagged)], 0) == (rows, true, Some(Deadlock))
            && (7, 2) in ProcessFrom(first.0, false, 7, [Record(2, date, tagged)], 0).0
  {
    var date := DateTime(2024, 5, 1, 12, 0, 0);
    assert ValidDate(date);
    OneTagRecordReads(7, 1, date, payload);
    OneTagRecordReads(7, 2, date, payload);
  }

  /**
   * The inner loop of `__process_data` over a record's fields: each field with a
   * `Tags` key overwrites the reading with its first tag's decoded payload.
   */
  method ReadFields(fields: seq<Field>) returns (r: Result<Option<(nat, real)>, IngestError>)
    ensures r == FieldsWeather(fields, 0, None)
  {
    var weather: Option<(nat, real)> := None;
    var j := 0;
    while j < |fields|
      invariant j <= |fields|
      invariant FieldsWeather(fields, 0, None) == FieldsWeather(fields, j, weather)
    {
      var field := fields[j];
      if field.tags.Some? {
        var tags := field.tags.value;
        if |tags| == 0 {
          return Err(TagsEmpty);
        }
        if tags[0].data.None? {
          return Err(DataMissing);
        }
        var reading := ExtractElaRht(tags[0].data.value);
        if reading.Err? {
          return Err(Decode(reading.error));
        }
        weather := Some(reading.value);
      }
      j := j + 1;
    }
    return Ok(weather);
  }

  /**
   * The `Data` table, a map from primary key to row, and whether the table
   * lock is held.
   */
  class Database {
    var rows: map<Key, Row>
    var lockHeld: bool

    /** Opening the database file: `stored` is what it already holds (empty for a new file). */
    constructor (stored: map<Key, Row>)
      ensures rows == stored && !lockHeld
    {
      rows := stored;
      lockHeld := false;
    }

    /**
     * `__process_data`: ingests the uplink's records in order, as one sequential
     * call, and returns the exception that stopped it, if any; `Deadlock` stands
     * for a call that never returns.
     */
    method ProcessData(uplink: Uplink) returns (err: Option<IngestError>)
      modifies this
      ensures (rows, lockHeld, err) == ProcessFrom(old(rows), old(lockHeld), uplink.serNo, uplink.records, 0)
    {
      var serNo, records := uplink.serNo, uplink.records;
      var i := 0;
      while i < |records|
        invariant i <= |records|
        invariant ProcessFrom(old(rows), old(lockHeld), serNo, records, 0) == ProcessFrom(rows, lockHeld, serNo, records, i)
      {
        var record := records[i];
        if !ValidDate(record.date) {
          return Some(BadDate);
        }
        var epochTime := Epoch(record.date);
        var weather := ReadFields(record.fields);
        if weather.Err? {
          return Some(weather.error);
        }
        if weather.value.Some? {
          if lockHeld {
            return Some(Deadlock);
          }
          lockHeld := true;
          var key := (serNo, record.seqNo);
          if key in rows {
            return Some(DuplicateKey(serNo, record.seqNo));
          }
          rows := rows[key := WeatherRow(serNo, record.seqNo, epochTime, weather.value.value.1, weather.value.value.0)];
          lockHeld := false;
        }
        i := i + 1;
      }
      return None;
    }

    /**
     * `__process_data` with the lock released whatever the insert does (a
     * `finally` clause): ingestion never waits on the lock and never leaves it held.
     */
    method ProcessDataCorrected(uplink: Uplink) returns (err: Option<IngestError>)
      requires !lockHeld
      modifies this
      ensures !lockHeld
      ensures (rows, err) == (ProcessFrom(old(rows), false, uplink.serNo, uplink.records, 0).0,
                              ProcessFrom(old(rows), false, uplink.serNo, uplink.records, 0).2)
      ensures err != Some(Deadlock)
    {
      LockLeaksOnDuplicate(rows, uplink.serNo, uplink.records, 0);
      err := ProcessData(uplink);
      lockHeld := false;
    }

    /**
     * `fetch_data`: the `Time` column and the requested column of every row whose
     * time is strictly after `startTime`, as index-aligned lists. A column name
     * outside the whitelist gives an empty dictionary without a query; `endTime`
     * filters nothing. `order` is the order in which the rows come back.
     */
    method FetchData(field: string, startTime: int, endTime: Option<int>) returns (data: map<string, seq<Value>>, ghost order: seq<Key>)
      ensures field !in ColumnNames ==> data == map[] && order == []
      ensures field in ColumnNames ==> Distinct(order) && forall k :: k in order <==> k in rows && rows[k].time > startTime
      ensures field in ColumnNames ==> Selection(rows, order, field) == data
      ensures field in ColumnNames ==> "Time" in data && field in data
      ensures field in ColumnNames ==> forall v :: v in data["Time"] ==> v.Int? && v.i > startTime
      ensures field in ColumnNames && field != "Time" ==> |data[field]| == |data["Time"]|
    {
      if field !in ColumnNames {
        return map[], [];
      }
      var remaining := set k | k in rows && rows[k].time > startTime;
      data := map["Time" := [], field := []];
      order := [];
      while remaining != {}
        invariant forall k :: k in order || k in remaining <==> k in rows && rows[k].time > startTime
        invariant forall k :: k in remaining ==> k !in order
        invariant Distinct(order)
        invariant Selection(rows, order, field) == data
        decreases |remaining|
      {
        var k :| k in remaining;
        var line := (rows[k].time, Column(rows[k], field));
        SelectionSnoc(rows, order, field, k);
        data := data["Time" := data["Time"] + [Int(line.0)]];
        data := data[field := data[field] + [line.1]];
        order := order + [k];
        remaining := remaining - {k};
      }
      SelectionShape(rows, order, field, startTime);
    }
  }

  /** The columns `fetch_data` may be asked for. */
  const ColumnNames: seq<string> :=
    ["SerNo", "SeqNo", "Time", "Outside_temp", "Outside_humidity", "Temp_1", "Temp_2", "Temp_3",
     "Accelerometer", "Entrance", "Weight", "Frequency"]

  /** The value of column `name` in `row`. */
  function Column(row: Row, name: string): Value
  {
    if name == "SerNo" then Int(row.serNo)
    else if name == "SeqNo" then Int(row.seqNo)
    else if name == "Time" then Int(row.time)
    else if name == "Outside_temp" then Real(row.outsideTemp)
    else if name == "Outside_humidity" then Int(row.outsideHumidity)
    else if name == "Temp_1" then Int(row.temp1)
    else if name == "Temp_2" then Int(row.temp2)
    else if name == "Temp_3" then Int(row.temp3)
    else if name == "Accelerometer" then Int(row.accelerometer)
    else if name == "Entrance" then Int(row.entrance)
    else if name == "Weight" then Int(row.weight)
    else if name == "Frequency" then Int(row.frequency)
    else Null
  }

  predicate Distinct<T(==)>(s: seq<T>)
  {
    forall a, b :: 0 <= a < b < |s| ==> s[a] != s[b]
  }

  /** Column `name` of the rows `order`, in that order. */
  function ColumnOf(rows: map<Key, Row>, order: seq<Key>, name: string): (r: seq<Value>)
    requires forall k :: k in order ==> k in rows
    ensures |r| == |order| && forall j :: 0 <= j < |order| ==> r[j] == Column(rows[order[j]], name)
  {
    if order == [] then [] else ColumnOf(rows, order[..|order| - 1], name) + [Column(rows[order[|order| - 1]], name)]
  }

  /** Each element twice in a row: what one list receives when both appends go to it. */
  function Twice(s: seq<Value>): (r: seq<Value>)
    ensures |r| == 2 * |s|
    ensures forall v :: v in r <==> v in s
    ensures forall j :: 0 <= j < |s| ==> r[2 * j] == s[j] && r[2 * j + 1] == s[j]
  {
    if s == [] then [] else Twice(s[..|s| - 1]) + [s[|s| - 1], s[|s| - 1]]
  }

  /**
   * The dictionary `fetch_data` builds for the rows `order`: `Time` and the field
   * side by side, or, when the field is `Time` itself, the one list that both
   * appends go to, each time twice.
   */
  function Selection(rows: map<Key, Row>, order: seq<Key>, field: string): map<string, seq<Value>>
    requires forall k :: k in order ==> k in rows
  {
    if field == "Time" then map["Time" := Twice(ColumnOf(rows, order, "Time"))]
    else map["Time" := ColumnOf(rows, order, "Time"), field := ColumnOf(rows, order, field)]
  }

  /**
   * Whatever the order, the dictionary has the `Time` list and the field's
   * list, of equal length unless they are the same list, and holds only times
   * after `startTime` when the rows were selected by that condition.
   */
  lemma SelectionShape(rows: map<Key, Row>, order: seq<Key>, field: string, startTime: int)
    requires forall k :: k in order ==> k in rows && rows[k].time > startTime
    ensures var s := Selection(rows, order, field);
            "Time" in s && field in s
            && (field != "Time" ==> |s[field]| == |s["Time"]| == |order|)
            && (field == "Time" ==> |s["Time"]| == 2 * |order|)
            && forall v :: v in s["Time"] ==> v.Int? && v.i > startTime
  {
    var t := ColumnOf(rows, order, "Time");
    forall v | v in t
      ensures v.Int? && v.i > startTime
    {
      var j :| 0 <= j < |t| && t[j] == v;
      assert order[j] in order;
    }
  }

  lemma SelectionSnoc(rows: map<Key, Row>, order: seq<Key>, field: string, k: Key)
    requires forall k :: k in order ==> k in rows
    requires k in rows
    ensures var s := Selection(rows, order, field);
            var s' := Selection(rows, order + [k], field);
            "Time" in s && field in s
            && var s1 := s["Time" := s["Time"] + [Int(rows[k].time)]];
            s' == s1[field := s1[field] + [Column(rows[k], field)]]
  {
    var order' := order + [k];
    assert order'[..|order'| - 1] == order;
    var t, tk := ColumnOf(rows, order, "Time"), Int(rows[k].time);
    assert ColumnOf(rows, order', "Time") == t + [tk];
    if field == "Time" {
      assert Twice(t + [tk]) == Twice(t) + [tk, tk] by {
        assert (t + [tk])[..|t|] == t;
      }
      assert Twice(t) + [tk] + [tk] == Twice(t) + [tk, tk];
    } else {
      var c, ck := ColumnOf(rows, order, field), Column(rows[k], field);
      assert ColumnOf(rows, order', field) == c + [ck];
      var s1 := map["Time" := t, field := c]["Time" := t + [tk]];
      assert s1[field] == c;
      assert s1[field := c + [ck]] == map["Time" := t + [tk], field := c + [ck]];
    }
  }
}
