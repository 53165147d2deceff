/**
 * The `forecasts` table and its two bulk writes: `insert_city_weather`
 * appends one row per upstream sample for a city, `update_city_weather`
 * overwrites the readings of the rows whose (city_id, forecast_time) match
 * a sample. The table has no uniqueness constraint, so it is a sequence of
 * rows in row-id order.
 */
module Forecasts {
  import opened Common

  /** A nullable REAL column: a reading, or NULL. Readings are only copied, never computed with. */
  type Reading = Option<real>

  /** A row of the `cities` table. */
  datatype City = City(id: int, name: string, latitude: real, longitude: real)

  /**
   * The five lists the upstream client returns, in its order: time labels,
   * temperature, humidity, precipitation, wind speed.
   */
  datatype Upstream = Upstream(
    times: seq<string>,
    temperature: seq<Reading>,
    humidity: seq<Reading>,
    precipitation: seq<Reading>,
    windSpeed: seq<Reading>)

  /** One tuple of `zip(time_list, temp_list, humidity_list, precipitation_list, wind_speed_list)`. */
  datatype Sample = Sample(time: string, temperature: Reading, humidity: Reading, precipitation: Reading, windSpeed: Reading)

  /** A row of the `forecasts` table (the auto-increment id is the row's place in the sequence). */
  datatype Row = Row(
    cityId: int,
    forecastTime: string,
    temperature: Reading,
    windSpeed: Reading,
    precipitation: Reading,
    humidity: Reading)

  function Min(a: nat, b: nat): nat {
    if a <= b then a else b
  }

  /** How many tuples `zip` yields: the length of the shortest list. */
  function ZipLength(up: Upstream): nat {
    Min(Min(Min(Min(|up.times|, |up.temperature|), |up.humidity|), |up.precipitation|), |up.windSpeed|)
  }

  /** `zip` of the five lists: the i-th sample carries the i-th entry of every list. */
  function Zip5(up: Upstream): (r: seq<Sample>)
    ensures |r| == ZipLength(up)
    ensures forall i | 0 <= i < |r| ::
      r[i] == Sample(up.times[i], up.temperature[i], up.humidity[i], up.precipitation[i], up.windSpeed[i])
    decreases |up.times|
  {
    if ZipLength(up) == 0 then []
    else
      var rest := Upstream(up.times[1..], up.temperature[1..], up.humidity[1..], up.precipitation[1..], up.windSpeed[1..]);
      [Sample(up.times[0], up.temperature[0], up.humidity[0], up.precipitation[0], up.windSpeed[0])] + Zip5(rest)
  }

  /** The row one INSERT statement adds: each reading in its same-named column. */
  function NewRow(cityId: int, s: Sample): (r: Row)
    ensures Matches(r, cityId, s.time)
    ensures && r.temperature == s.temperature && r.windSpeed == s.windSpeed
            && r.precipitation == s.precipitation && r.humidity == s.humidity
  {
    Row(cityId, s.time, s.temperature, s.windSpeed, s.precipitation, s.humidity)
  }

  /** The row one UPDATE statement writes: the four readings replaced, the key kept. */
  function WithReadings(row: Row, s: Sample): Row {
    row.(temperature := s.temperature, windSpeed := s.windSpeed, humidity := s.humidity, precipitation := s.precipitation)
  }

  /** `WHERE city_id = ? AND forecast_time = ?` */
  predicate Matches(row: Row, cityId: int, time: string) {
    row.cityId == cityId && row.forecastTime == time
  }

  /** The table after one INSERT per sample, in order. */
  function Inserted(rows: seq<Row>, cityId: int, samples: seq<Sample>): (r: seq<Row>)
    ensures |r| == |rows| + |samples|
    ensures r[..|rows|] == rows
    ensures forall i | 0 <= i < |samples| :: r[|rows| + i] == NewRow(cityId, samples[i])
  {
    if samples == [] then rows
    else Inserted(rows, cityId, samples[..|samples| - 1]) + [NewRow(cityId, samples[|samples| - 1])]
  }

  /** The table after one UPDATE statement for `cityId` and sample `s`. */
  function ApplyEntry(rows: seq<Row>, cityId: int, s: Sample): (r: seq<Row>)
    ensures |r| == |rows|
    ensures forall i | 0 <= i < |rows| ::
      && r[i].cityId == rows[i].cityId && r[i].forecastTime == rows[i].forecastTime
      && (Matches(rows[i], cityId, s.time) ==>
            && r[i].temperature == s.temperature && r[i].windSpeed == s.windSpeed
            && r[i].precipitation == s.precipitation && r[i].humidity == s.humidity)
      && (!Matches(rows[i], cityId, s.time) ==> r[i] == rows[i])
  {
    seq(|rows|, i requires 0 <= i < |rows| =>
      if Matches(rows[i], cityId, s.time) then WithReadings(rows[i], s) else rows[i])
  }

  /** The table after one UPDATE per sample, in order (`executemany`). */
  function Updated(rows: seq<Row>, cityId: int, samples: seq<Sample>): (r: seq<Row>)
    ensures |r| == |rows|
    ensures forall i | 0 <= i < |rows| ::
      r[i].cityId == rows[i].cityId && r[i].forecastTime == rows[i].forecastTime
  {
    if samples == [] then rows
    else ApplyEntry(Updated(rows, cityId, samples[..|samples| - 1]), cityId, samples[|samples| - 1])
  }

  /** The last sample labelled `time`, the one whose UPDATE runs last. */
  function LastSampleAt(samples: seq<Sample>, time: string): (r: Option<Sample>)
    ensures r.Some? ==> r.value in samples && r.value.time == time
    ensures r.Some? ==> exists k | 0 <= k < |samples| ::
      samples[k] == r.value && forall j | k < j < |samples| :: samples[j].time != time
    ensures r.None? ==> forall j | 0 <= j < |samples| :: samples[j].time != time
  {
    if samples == [] then None
    else if samples[|samples| - 1].time == time then Some(samples[|samples| - 1])
    else LastSampleAt(samples[..|samples| - 1], time)
  }

  /**
   * What a bulk update does to one row: a row of `cityId` whose time is the
   * label of some sample takes the readings of the last such sample; every
   * other row, of another city or at a time no sample names, is unchanged.
   */
  lemma {:induction false} UpdatedRowAt(rows: seq<Row>, cityId: int, samples: seq<Sample>, i: nat)
    requires i < |rows|
    ensures Updated(rows, cityId, samples)[i] ==
      match LastSampleAt(samples, rows[i].forecastTime)
      case Some(s) => if rows[i].cityId == cityId then WithReadings(rows[i], s) else rows[i]
      case None => rows[i]
  {
    if samples != [] {
      UpdatedRowAt(rows, cityId, samples[..|samples| - 1], i);
    }
  }

  /** An update whose samples match no row leaves the table as it was. */
  lemma UpdateWithoutMatchIsNoOp(rows: seq<Row>, cityId: int, samples: seq<Sample>)
    requires forall i, j | 0 <= i < |rows| && 0 <= j < |samples| :: !Matches(rows[i], cityId, samples[j].time)
    ensures Updated(rows, cityId, samples) == rows
  {
    forall i | 0 <= i < |rows|
      ensures Updated(rows, cityId, samples)[i] == rows[i]
    {
      UpdatedRowAt(rows, cityId, samples, i);
    }
  }

  /** The index of the first row matching (cityId, time): what `fetchone` returns. */
  function FirstMatch(rows: seq<Row>, cityId: int, time: string): (r: Option<nat>)
    ensures r.Some? ==> r.value < |rows| && Matches(rows[r.value], cityId, time)
    ensures r.Some? ==> forall j | 0 <= j < r.value :: !Matches(rows[j], cityId, time)
    ensures r.None? ==> forall j | 0 <= j < |rows| :: !Matches(rows[j], cityId, time)
  {
    if rows == [] then None
    else if Matches(rows[0], cityId, time) then Some(0)
    else match FirstMatch(rows[1..], cityId, time)
      case None => None
      case Some(k) => Some(k + 1)
  }

  /** No two rows share a (city_id, forecast_time) key. The schema does not enforce this. */
  ghost predicate UniqueKeys(rows: seq<Row>) {
    forall i, j | 0 <= i < j < |rows| ::
      rows[i].cityId != rows[j].cityId || rows[i].forecastTime != rows[j].forecastTime
  }

  /** No row belongs to `cityId`. */
  predicate NoRowsFor(rows: seq<Row>, cityId: int) {
    forall i | 0 <= i < |rows| :: rows[i].cityId != cityId
  }

  /** No two samples carry the same time label. */
  predicate DistinctTimes(samples: seq<Sample>) {
    forall i, j | 0 <= i < j < |samples| :: samples[i].time != samples[j].time
  }

  /** Inserting a city that has no rows yet, with distinct labels, keeps keys unique. */
  lemma InsertFreshKeepsKeysUnique(rows: seq<Row>, cityId: int, samples: seq<Sample>)
    requires UniqueKeys(rows) && NoRowsFor(rows, cityId) && DistinctTimes(samples)
    ensures UniqueKeys(Inserted(rows, cityId, samples))
  {
    var r := Inserted(rows, cityId, samples);
    forall i, j | 0 <= i < j < |r|
      ensures r[i].cityId != r[j].cityId || r[i].forecastTime != r[j].forecastTime
    {
      if j < |rows| {
        assert r[i] == rows[i] && r[j] == rows[j];
      } else if i < |rows| {
        assert r[i] == rows[i] && r[j] == NewRow(cityId, samples[j - |rows|]);
      } else {
        assert r[i] == NewRow(cityId, samples[i - |rows|]) && r[j] == NewRow(cityId, samples[j - |rows|]);
      }
    }
  }

  /** Inserting the same non-empty forecast twice for a city duplicates its keys. */
  lemma InsertTwiceDuplicatesKeys(rows: seq<Row>, cityId: int, samples: seq<Sample>)
    requires samples != []
    ensures !UniqueKeys(Inserted(Inserted(rows, cityId, samples), cityId, samples))
  {
    var once := Inserted(rows, cityId, samples);
    var twice := Inserted(once, cityId, samples);
    assert twice[|rows|] == once[|rows|] == NewRow(cityId, samples[0]);
    assert twice[|once|] == NewRow(cityId, samples[0]);
  }

  /** An update never changes a key, so it keeps keys unique. */
  lemma UpdateKeepsKeysUnique(rows: seq<Row>, cityId: int, samples: seq<Sample>)
    requires UniqueKeys(rows)
    ensures UniqueKeys(Updated(rows, cityId, samples))
  {
  }

  /** Bulk update leaves the first match of every key at the same row. */
  lemma {:induction false} UpdateKeepsFirstMatch(rows: seq<Row>, cityId: int, samples: seq<Sample>, c: int, time: string)
    ensures FirstMatch(Updated(rows, cityId, samples), c, time) == FirstMatch(rows, c, time)
  {
    var u := Updated(rows, cityId, samples);
    var a := FirstMatch(u, c, time);
    var b := FirstMatch(rows, c, time);
    if a.Some? && b.Some? && a.value != b.value {
      if a.value < b.value {
        assert Matches(rows[a.value], c, time);
      } else {
        assert Matches(u[b.value], c, time);
      }
    } else if a.Some? && b.None? {
      assert Matches(rows[a.value], c, time);
    } else if a.None? && b.Some? {
      assert Matches(u[b.value], c, time);
    }
  }

  /**
   * After inserting a city that had no rows, with distinct labels, the first
   * row matching the city and the i-th label is the i-th inserted row.
   */
  lemma FirstMatchAfterInsert(rows: seq<Row>, cityId: int, samples: seq<Sample>, i: nat)
    requires NoRowsFor(rows, cityId) && DistinctTimes(samples) && i < |samples|
    ensures FirstMatch(Inserted(rows, cityId, samples), cityId, samples[i].time) == Some(|rows| + i)
  {
    var r := Inserted(rows, cityId, samples);
    var t := samples[i].time;
    forall j | 0 <= j < |rows| + i
      ensures !Matches(r[j], cityId, t)
    {
      if j < |rows| {
        assert r[..|rows|][j] == rows[j];
      } else {
        assert r[|rows| + (j - |rows|)] == NewRow(cityId, samples[j - |rows|]);
      }
    }
    assert Matches(r[|rows| + i], cityId, t);
  }

  /** The same, stated for the upstream lists the samples were zipped from. */
  lemma InsertedSlotRow(rows: seq<Row>, cityId: int, up: Upstream, i: nat)
    requires NoRowsFor(rows, cityId) && DistinctTimes(Zip5(up)) && i < ZipLength(up)
    ensures var table := Inserted(rows, cityId, Zip5(up));
      && FirstMatch(table, cityId, up.times[i]) == Some(|rows| + i)
      && table[|rows| + i] == NewRow(cityId, Zip5(up)[i])
  {
    var samples := Zip5(up);
    assert samples[i].time == up.times[i];
    FirstMatchAfterInsert(rows, cityId, samples, i);
  }

  lemma InsertedStep(rows: seq<Row>, cityId: int, samples: seq<Sample>, i: nat)
    requires i < |samples|
    ensures Inserted(rows, cityId, samples[..i + 1]) == Inserted(rows, cityId, samples[..i]) + [NewRow(cityId, samples[i])]
  {
    assert samples[..i + 1][..i] == samples[..i];
  }

  lemma UpdatedStep(rows: seq<Row>, cityId: int, samples: seq<Sample>, j: nat)
    requires j < |samples|
    ensures Updated(rows, cityId, samples[..j + 1]) == ApplyEntry(Updated(rows, cityId, samples[..j]), cityId, samples[j])
  {
    assert samples[..j + 1][..j] == samples[..j];
  }

  /** The forecasts table: a sequence of rows that the bulk writes change in place. */
  class ForecastTable {
    var rows: seq<Row>

    /** `init_db`: the table starts empty. */
    constructor ()
      ensures rows == []
    {
      rows := [];
    }

    /**
     * The write of `insert_city_weather`: one INSERT per zipped sample, in
     * order, appended after the existing rows.
     */
    method Insert(cityId: int, up: Upstream)
      modifies this
      ensures rows == Inserted(old(rows), cityId, Zip5(up))
    {
      ghost var start := rows;
      var samples := Zip5(up);
      var i := 0;
      while i < |samples|
        invariant 0 <= i <= |samples|
        invariant rows == Inserted(start, cityId, samples[..i])
      {
        InsertedStep(start, cityId, samples, i);
        rows := rows + [NewRow(cityId, samples[i])];
        i := i + 1;
      }
      assert samples[..i] == samples;
    }

    /**
     * The write of `update_city_weather`: one UPDATE per zipped sample, in
     * order; each overwrites the readings of every row matching the city
     * and the sample's label, and matches nothing when no such row exists.
     */
    method Update(cityId: int, up: Upstream)
      modifies this
      ensures rows == Updated(old(rows), cityId, Zip5(up))
      ensures |rows| == |old(rows)|
    {
      ghost var start := rows;
      var samples := Zip5(up);
      var j := 0;
      while j < |samples|
        invariant 0 <= j <= |samples|
        invariant rows == Updated(start, cityId, samples[..j])
      {
        UpdatedStep(start, cityId, samples, j);
        rows := ApplyEntry(rows, cityId, samples[j]);
        j := j + 1;
      }
      assert samples[..j] == samples;
    }
  }
}
