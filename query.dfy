/**
 * The read path of `city_weather`: resolve the requested time to a slot
 * key, select the requested fields, find the city by name, fetch the first
 * forecast row for (city, key) and answer a map from field name to reading.
 */
module Query {
  import opened Common
  import opened Slots
  import opened Fields
  import opened Forecasts

  /** The answers `city_weather` gives. */
  datatype Response =
    | InvalidDate        // 400 "Invalid date provided"
    | InvalidParameters  // 400 "Invalid parameters provided"
    | NameRequired       // 400 "Name is required"
    | CityNotFound       // 404 "City not found"
    | SlotNotFound       // no forecast row for the slot
    | ServerError        // an exception escapes the handler
    | Weather(values: map<Field, Reading>)

  /** The column of `row` that field `f` names. */
  function Column(row: Row, f: Field): Reading {
    match f
    case Temperature => row.temperature
    case WindSpeed => row.windSpeed
    case Humidity => row.humidity
    case Precipitation => row.precipitation
  }

  /** The upstream list that feeds field `f`, at index `i`. */
  function UpstreamReading(up: Upstream, f: Field, i: nat): Reading
    requires i < ZipLength(up)
  {
    match f
    case Temperature => up.temperature[i]
    case WindSpeed => up.windSpeed[i]
    case Humidity => up.humidity[i]
    case Precipitation => up.precipitation[i]
  }

  /** The reading a sample carries for field `f`. */
  function SampleReading(s: Sample, f: Field): Reading {
    match f
    case Temperature => s.temperature
    case WindSpeed => s.windSpeed
    case Humidity => s.humidity
    case Precipitation => s.precipitation
  }

  /** An inserted row carries each sample reading in the column of the same name. */
  lemma ColumnOfNewRow(cityId: int, s: Sample, f: Field)
    ensures Column(NewRow(cityId, s), f) == SampleReading(s, f)
  {
  }

  /** An updated row carries each sample reading in the column of the same name. */
  lemma ColumnWithReadings(row: Row, s: Sample, f: Field)
    ensures Column(WithReadings(row, s), f) == SampleReading(s, f)
  {
  }

  /** The i-th zipped sample carries, for each field, the i-th entry of that field's list. */
  lemma SampleReadingOfZip(up: Upstream, i: nat, f: Field)
    requires i < ZipLength(up)
    ensures SampleReading(Zip5(up)[i], f) == UpstreamReading(up, f, i)
  {
  }

  /**
   * The nullable REAL column of the `forecasts` schema with name `c`, read
   * from `row`; None for a name that is not one of those columns.
   */
  function ColumnNamed(row: Row, c: string): Option<Reading> {
    if c == "temperature" then Some(row.temperature)
    else if c == "wind_speed" then Some(row.windSpeed)
    else if c == "precipitation" then Some(row.precipitation)
    else if c == "humidity" then Some(row.humidity)
    else None
  }

  /** `SELECT {', '.join(fields)} ...`: the selected columns of `row`, in the order asked. */
  function Project(row: Row, fields: seq<Field>): seq<Reading> {
    seq(|fields|, i requires 0 <= i < |fields| => Column(row, fields[i]))
  }

  /**
   * The SELECT reads, for each field asked for, the column whose schema name
   * is the name the field was requested by.
   */
  lemma ProjectByName(row: Row, fields: seq<Field>)
    ensures |Project(row, fields)| == |fields|
    ensures forall i | 0 <= i < |fields| :: ColumnNamed(row, Name(fields[i])) == Some(Project(row, fields)[i])
  {
  }

  /** `dict(zip(keys, values))`: pairs taken in order, a later key overriding an earlier one. */
  function ZipToDict(keys: seq<Field>, values: seq<Reading>): map<Field, Reading> {
    var n := Min(|keys|, |values|);
    if n == 0 then map[]
    else ZipToDict(keys[..n - 1], values[..n - 1])[keys[n - 1] := values[n - 1]]
  }

  /** `dict(zip(keys, values))` has a key for each key paired with a value, up to the shorter list. */
  lemma {:induction false} ZipToDictKeys(keys: seq<Field>, values: seq<Reading>)
    ensures ZipToDict(keys, values).Keys == FieldSet(keys[..Min(|keys|, |values|)])
    decreases |keys|
  {
    var n := Min(|keys|, |values|);
    if n > 0 {
      var ks, vs := keys[..n - 1], values[..n - 1];
      ZipToDictKeys(ks, vs);
      assert ks[..Min(|ks|, |vs|)] == keys[..n - 1];
      assert keys[..n] == keys[..n - 1] + [keys[n - 1]];
    }
  }

  /** A key that occurs more than once in `dict(zip(keys, values))` takes the value of its last occurrence. */
  lemma {:induction false} ZipToDictLastWins(keys: seq<Field>, values: seq<Reading>, i: nat)
    requires i < Min(|keys|, |values|)
    requires forall j | i < j < Min(|keys|, |values|) :: keys[j] != keys[i]
    ensures keys[i] in ZipToDict(keys, values) && ZipToDict(keys, values)[keys[i]] == values[i]
    decreases |keys|
  {
    var n := Min(|keys|, |values|);
    if i < n - 1 {
      var ks, vs := keys[..n - 1], values[..n - 1];
      assert keys[n - 1] != keys[i];
      ZipToDictLastWins(ks, vs, i);
    }
  }

  /**
   * The answer built from a row holds exactly the requested fields, each
   * mapped to that field's column of the row.
   */
  lemma {:induction false} AnswerFromRow(row: Row, fields: seq<Field>)
    ensures ZipToDict(fields, Project(row, fields)).Keys == FieldSet(fields)
    ensures forall f | f in fields :: ZipToDict(fields, Project(row, fields))[f] == Column(row, f)
  {
    if fields != [] {
      var n := |fields|;
      assert Project(row, fields)[..n - 1] == Project(row, fields[..n - 1]);
      AnswerFromRow(row, fields[..n - 1]);
      assert forall f :: f in fields <==> f in fields[..n - 1] || f == fields[n - 1];
    }
  }

  /** `SELECT id FROM cities WHERE name = ?` with `fetchone`: the first city of that name. */
  function FindCity(cities: seq<City>, name: string): (r: Option<int>)
    ensures r.Some? ==> exists i | 0 <= i < |cities| ::
      && cities[i].name == name && cities[i].id == r.value
      && forall j | 0 <= j < i :: cities[j].name != name
    ensures r.None? <==> forall i | 0 <= i < |cities| :: cities[i].name != name
  {
    if cities == [] then None
    else if cities[0].name == name then Some(cities[0].id)
    else
      var r := FindCity(cities[1..], name);
      assert forall i | 1 <= i < |cities| :: cities[i] == cities[1..][i - 1];
      r
  }

  /** A request that passed every check, ready for the forecast lookup. */
  datatype Lookup = Lookup(cityId: int, key: string, fields: seq<Field>)

  datatype Checked = Reject(response: Response) | Accept(lookup: Lookup)

  /**
   * The checks of `city_weather`, in its order: the time, the fields, the
   * name, the city.
   */
  function Check(cities: seq<City>, name: Option<string>, time: Option<string>, params: seq<string>): (r: Checked)
    ensures r.Accept? ==> time.Some? && Resolve(time.value) == Some(r.lookup.key)
    ensures r.Accept? ==> r.lookup.fields == Selected(params) && r.lookup.fields != []
    ensures r.Accept? ==> name.Some? && name.value != [] && FindCity(cities, name.value) == Some(r.lookup.cityId)
    ensures r.Reject? ==> !r.response.Weather? && !r.response.SlotNotFound? && !r.response.ServerError?
    ensures time.None? || Resolve(time.value).None? ==> r == Reject(InvalidDate)
    ensures time.Some? && Resolve(time.value).Some? && Selected(params) == [] ==> r == Reject(InvalidParameters)
    ensures (time.Some? && Resolve(time.value).Some? && Selected(params) != [] && (name.None? || name.value == []))
            ==> r == Reject(NameRequired)
    ensures (time.Some? && Resolve(time.value).Some? && Selected(params) != [] && name.Some? && name.value != []
             && FindCity(cities, name.value).None?) ==> r == Reject(CityNotFound)
    ensures (time.Some? && Resolve(time.value).Some? && Selected(params) != [] && name.Some? && name.value != []
             && FindCity(cities, name.value).Some?)
            ==> r == Accept(Lookup(FindCity(cities, name.value).value, Resolve(time.value).value, Selected(params)))
  {
    if time.None? || Resolve(time.value).None? then Reject(InvalidDate)
    else
      match SelectFields(params)
      case None => Reject(InvalidParameters)
      case Some(fields) =>
        if name.None? || name.value == [] then Reject(NameRequired)
        else
          match FindCity(cities, name.value)
          case None => Reject(CityNotFound)
          case Some(id) => Accept(Lookup(id, Resolve(time.value).value, fields))
  }

  /**
   * `SELECT {fields} FROM forecasts WHERE city_id = ? AND forecast_time = ?`
   * with `fetchone`: the selected columns of the first matching row, or None.
   */
  function SelectRow(rows: seq<Row>, q: Lookup): (r: Option<seq<Reading>>)
    ensures r.None? <==> forall j | 0 <= j < |rows| :: !Matches(rows[j], q.cityId, q.key)
    ensures r.Some? ==> exists k | 0 <= k < |rows| ::
      && Matches(rows[k], q.cityId, q.key)
      && (forall j | 0 <= j < k :: !Matches(rows[j], q.cityId, q.key))
      && r.value == Project(rows[k], q.fields)
  {
    match FirstMatch(rows, q.cityId, q.key)
    case None => None
    case Some(k) => Some(Project(rows[k], q.fields))
  }

  /**
   * `city_weather` as written: with no forecast row, `zip(fields, None)`
   * raises and the request fails with a server error.
   */
  function CityWeatherAsWritten(cities: seq<City>, rows: seq<Row>, name: Option<string>, time: Option<string>, params: seq<string>): (r: Response)
    ensures r.ServerError? <==>
      (Check(cities, name, time, params).Accept? &&
       var q := Check(cities, name, time, params).lookup;
       forall j | 0 <= j < |rows| :: !Matches(rows[j], q.cityId, q.key))
  {
    match Check(cities, name, time, params)
    case Reject(response) => response
    case Accept(q) =>
      match SelectRow(rows, q)
      case None => ServerError
      case Some(values) => Weather(ZipToDict(q.fields, values))
  }

  /**
   * `city_weather` with the missing row answered as "not found". An answer
   * holds exactly the selected fields, read from the first row whose key is
   * the resolved slot.
   */
  function CityWeather(cities: seq<City>, rows: seq<Row>, name: Option<string>, time: Option<string>, params: seq<string>): (r: Response)
    ensures !r.ServerError?
    ensures r.SlotNotFound? <==>
      (Check(cities, name, time, params).Accept? &&
       var q := Check(cities, name, time, params).lookup;
       forall j | 0 <= j < |rows| :: !Matches(rows[j], q.cityId, q.key))
    ensures r.Weather? <==>
      (Check(cities, name, time, params).Accept? &&
       var q := Check(cities, name, time, params).lookup;
       FirstMatch(rows, q.cityId, q.key).Some?)
    ensures r.Weather? ==>
      (Check(cities, name, time, params).Accept? &&
       var q := Check(cities, name, time, params).lookup;
       && FirstMatch(rows, q.cityId, q.key).Some?
       && r.values.Keys == FieldSet(Selected(params))
       && forall f | f in r.values :: r.values[f] == Column(rows[FirstMatch(rows, q.cityId, q.key).value], f))
  {
    match Check(cities, name, time, params)
    case Reject(response) => response
    case Accept(q) =>
      match SelectRow(rows, q)
      case None => SlotNotFound
      case Some(values) =>
        AnswerFromRow(rows[FirstMatch(rows, q.cityId, q.key).value], q.fields);
        Weather(ZipToDict(q.fields, values))
  }

  /** A request that passes every check is accepted with its city, slot key and fields. */
  lemma CheckAccepts(cities: seq<City>, name: string, time: string, params: seq<string>)
    requires Resolve(time).Some? && Selected(params) != [] && name != [] && FindCity(cities, name).Some?
    ensures Check(cities, Some(name), Some(time), params)
      == Accept(Lookup(FindCity(cities, name).value, Resolve(time).value, Selected(params)))
  {
    SelectedNonEmpty(params);
  }

  /** An accepted request whose slot has a row is answered from the first such row. */
  lemma AnswerOf(cities: seq<City>, rows: seq<Row>, name: Option<string>, time: Option<string>, params: seq<string>, q: Lookup, k: nat)
    requires Check(cities, name, time, params) == Accept(q)
    requires FirstMatch(rows, q.cityId, q.key) == Some(k)
    ensures var r := CityWeather(cities, rows, name, time, params);
      && r.Weather?
      && r.values.Keys == FieldSet(q.fields)
      && forall f | f in q.fields :: r.values[f] == Column(rows[k], f)
  {
    AnswerFromRow(rows[k], q.fields);
  }

  /**
   * The only difference between the code as written and the corrected
   * query: where the slot has no row, one crashes and the other says so.
   */
  lemma MissingSlotCrashesAsWritten(cities: seq<City>, rows: seq<Row>, name: Option<string>, time: Option<string>, params: seq<string>)
    ensures CityWeatherAsWritten(cities, rows, name, time, params) == ServerError
      <==> CityWeather(cities, rows, name, time, params) == SlotNotFound
    ensures CityWeather(cities, rows, name, time, params) != SlotNotFound ==>
      CityWeatherAsWritten(cities, rows, name, time, params) == CityWeather(cities, rows, name, time, params)
  {
  }

  /** A registered city with an empty forecast table: the code as written fails with a server error. */
  lemma MissingSlotExample()
    ensures var cities := [City(1, "Test City", 12.34, 56.78)];
      && CityWeatherAsWritten(cities, [], Some("Test City"), Some("2026-10-15T21:08"), ["temperature"]) == ServerError
      && CityWeather(cities, [], Some("Test City"), Some("2026-10-15T21:08"), ["temperature"]) == SlotNotFound
  {
    var cities := [City(1, "Test City", 12.34, 56.78)];
    var dt := DateTimes.DateTime(2026, 10, 15, 21, 8);
    FormatExample(dt, "2026-10-15T21:08");
    ResolveInstant(dt);
    assert FieldNamed("temperature") == Some(Temperature);
    assert Selected(["temperature"]) == [Temperature];
    assert FindCity(cities, "Test City") == Some(1);
    CheckAccepts(cities, "Test City", "2026-10-15T21:08", ["temperature"]);
  }

  /** No `params` at all (`''.split(',') == ['']`) selects nothing and is refused. */
  lemma NoParamsRefused(cities: seq<City>, rows: seq<Row>, name: Option<string>, time: string)
    requires Resolve(time).Some?
    ensures CityWeather(cities, rows, name, Some(time), [""]) == InvalidParameters
  {
    assert Selected([""]) == [];
  }

  /**
   * A request for hour 55 is refused as an invalid date, whatever the city,
   * the table and the fields.
   */
  lemma BadHourRefused(cities: seq<City>, rows: seq<Row>, name: Option<string>, params: seq<string>)
    ensures CityWeather(cities, rows, name, Some("2026-10-15T55:08"), params) == InvalidDate
  {
    ResolveExampleRejectsHour();
  }

  /**
   * After a city with no rows has its forecast inserted (distinct labels),
   * asking for any time that resolves to its i-th label answers each
   * requested field with the i-th entry of that field's upstream list.
   */
  lemma QueryAfterInsert(cities: seq<City>, rows: seq<Row>, name: string, up: Upstream, i: nat, time: string, params: seq<string>)
    requires name != [] && FindCity(cities, name).Some?
    requires NoRowsFor(rows, FindCity(cities, name).value)
    requires DistinctTimes(Zip5(up)) && i < |Zip5(up)|
    requires Resolve(time) == Some(up.times[i])
    requires Selected(params) != []
    ensures var answer := CityWeather(cities, Inserted(rows, FindCity(cities, name).value, Zip5(up)), Some(name), Some(time), params);
      && answer.Weather?
      && answer.values.Keys == FieldSet(Selected(params))
      && forall f | f in answer.values :: answer.values[f] == UpstreamReading(up, f, i)
  {
    var c := FindCity(cities, name).value;
    var table := Inserted(rows, c, Zip5(up));
    var q := Lookup(c, up.times[i], Selected(params));
    var sample := Zip5(up)[i];
    CheckAccepts(cities, name, time, params);
    InsertedSlotRow(rows, c, up, i);
    forall f ensures Column(table[|rows| + i], f) == SampleReading(sample, f) {
      ColumnOfNewRow(c, sample, f);
    }
    AnswerFromSample(cities, table, Some(name), Some(time), params, q, |rows| + i, sample);
    forall f ensures SampleReading(sample, f) == UpstreamReading(up, f, i) {
      SampleReadingOfZip(up, i, f);
    }
  }

  /**
   * After a bulk update for city `c`, a query whose slot row belongs to `c`
   * and is labelled by some sample answers with the readings of the last
   * such sample.
   */
  lemma QueryAfterUpdate(cities: seq<City>, rows: seq<Row>, samples: seq<Sample>, name: string, time: string, params: seq<string>)
    requires Check(cities, Some(name), Some(time), params).Accept?
    requires var q := Check(cities, Some(name), Some(time), params).lookup;
      FirstMatch(rows, q.cityId, q.key).Some? && LastSampleAt(samples, q.key).Some?
    ensures var q := Check(cities, Some(name), Some(time), params).lookup;
      var answer := CityWeather(cities, Updated(rows, q.cityId, samples), Some(name), Some(time), params);
      && answer.Weather?
      && answer.values.Keys == FieldSet(Selected(params))
      && forall f | f in answer.values :: answer.values[f] == SampleReading(LastSampleAt(samples, q.key).value, f)
  {
    var q := Check(cities, Some(name), Some(time), params).lookup;
    var k := FirstMatch(rows, q.cityId, q.key).value;
    var s := LastSampleAt(samples, q.key).value;
    var table := Updated(rows, q.cityId, samples);
    UpdatedRowAt(rows, q.cityId, samples, k);
    assert table[k] == WithReadings(rows[k], s);
    UpdateKeepsFirstMatch(rows, q.cityId, samples, q.cityId, q.key);
    forall f ensures Column(table[k], f) == SampleReading(s, f) {
      ColumnWithReadings(rows[k], s, f);
    }
    AnswerFromSample(cities, table, Some(name), Some(time), params, q, k, s);
  }

  /** An accepted request whose first slot row carries the readings of sample `s` answers those readings. */
  lemma AnswerFromSample(cities: seq<City>, rows: seq<Row>, name: Option<string>, time: Option<string>, params: seq<string>,
                         q: Lookup, k: nat, s: Sample)
    requires Check(cities, name, time, params) == Accept(q)
    requires FirstMatch(rows, q.cityId, q.key) == Some(k)
    requires forall f :: Column(rows[k], f) == SampleReading(s, f)
    ensures var r := CityWeather(cities, rows, name, time, params);
      && r.Weather?
      && r.values.Keys == FieldSet(q.fields)
      && forall f | f in r.values :: r.values[f] == SampleReading(s, f)
  {
    AnswerOf(cities, rows, name, time, params, q, k);
  }

  /** A bulk update for city `c` does not change the answer for any other city. */
  lemma QueryOtherCityUnchanged(cities: seq<City>, rows: seq<Row>, c: int, samples: seq<Sample>, name: Option<string>, time: Option<string>, params: seq<string>)
    requires Check(cities, name, time, params).Accept? ==> Check(cities, name, time, params).lookup.cityId != c
    ensures CityWeather(cities, Updated(rows, c, samples), name, time, params) == CityWeather(cities, rows, name, time, params)
  {
    if Check(cities, name, time, params).Accept? {
      var q := Check(cities, name, time, params).lookup;
      UpdateKeepsFirstMatch(rows, c, samples, q.cityId, q.key);
      match FirstMatch(rows, q.cityId, q.key)
      case None =>
      case Some(k) =>
        UpdatedRowAt(rows, c, samples, k);
    }
  }
}
