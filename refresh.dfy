/**
 * One pass of `periodic_weather_update`: for every row of the `cities`
 * table, in table order, `update_city_weather` logs the city id, asks the
 * upstream client for that city's coordinates, and bulk-updates its rows.
 * Nothing catches an upstream failure, so the first one ends the pass; the
 * cities already updated keep their committed updates.
 */
module Refresh {
  import opened Common
  import opened Forecasts

  /**
   * The upstream client during one pass: the five lists for a coordinate,
   * or None where the request or the response's shape fails.
   */
  type Fetch = (real, real) -> Option<Upstream>

  predicate Fetched(fetch: Fetch, city: City) {
    fetch(city.latitude, city.longitude).Some?
  }

  /** The ids of `cities`, in order. */
  function Ids(cities: seq<City>): (r: seq<int>)
    ensures |r| == |cities| && forall i | 0 <= i < |cities| :: r[i] == cities[i].id
  {
    if cities == [] then [] else Ids(cities[..|cities| - 1]) + [cities[|cities| - 1].id]
  }

  /** How many cities are updated before the first upstream failure. */
  function FirstFailure(cities: seq<City>, fetch: Fetch): (k: nat)
    ensures k <= |cities|
    ensures forall i | 0 <= i < k :: Fetched(fetch, cities[i])
    ensures k < |cities| ==> !Fetched(fetch, cities[k])
  {
    if cities == [] || !Fetched(fetch, cities[0]) then 0
    else 1 + FirstFailure(cities[1..], fetch)
  }

  /** The table after updating every city of `cities` in order, each fetch having succeeded. */
  function Refreshed(rows: seq<Row>, cities: seq<City>, fetch: Fetch): (r: seq<Row>)
    requires forall i | 0 <= i < |cities| :: Fetched(fetch, cities[i])
    ensures |r| == |rows|
    ensures forall i | 0 <= i < |rows| ::
      r[i].cityId == rows[i].cityId && r[i].forecastTime == rows[i].forecastTime
  {
    if cities == [] then rows
    else
      var last := cities[|cities| - 1];
      assert Fetched(fetch, last);
      var before := Refreshed(rows, cities[..|cities| - 1], fetch);
      Updated(before, last.id, Zip5(fetch(last.latitude, last.longitude).value))
  }

  /** Extending a pass by one more city is one more bulk update. */
  lemma RefreshedStep(rows: seq<Row>, cities: seq<City>, fetch: Fetch, i: nat)
    requires i < FirstFailure(cities, fetch)
    ensures Refreshed(rows, cities[..i + 1], fetch)
      == Updated(Refreshed(rows, cities[..i], fetch), cities[i].id, Zip5(fetch(cities[i].latitude, cities[i].longitude).value))
  {
    assert cities[..i + 1][..i] == cities[..i];
  }

  /** A row of a city the pass did not reach is left as it was. */
  lemma {:induction false} RefreshedLeavesOtherCities(rows: seq<Row>, cities: seq<City>, fetch: Fetch, i: nat)
    requires forall j | 0 <= j < |cities| :: Fetched(fetch, cities[j])
    requires i < |rows| && forall j | 0 <= j < |cities| :: cities[j].id != rows[i].cityId
    ensures Refreshed(rows, cities, fetch)[i] == rows[i]
  {
    if cities != [] {
      var last := cities[|cities| - 1];
      var before := Refreshed(rows, cities[..|cities| - 1], fetch);
      RefreshedLeavesOtherCities(rows, cities[..|cities| - 1], fetch, i);
      UpdatedRowAt(before, last.id, Zip5(fetch(last.latitude, last.longitude).value), i);
    }
  }

  /**
   * A row of a city the pass reached holds what that city's bulk update
   * wrote: the readings of the last sample labelled with the row's time, or
   * its old readings where no sample has that label. City ids are distinct,
   * as the `cities` table's primary key makes them.
   */
  lemma {:induction false} RefreshedRowAt(rows: seq<Row>, cities: seq<City>, fetch: Fetch, j: nat, i: nat)
    requires forall k | 0 <= k < |cities| :: Fetched(fetch, cities[k])
    requires forall a, b | 0 <= a < b < |cities| :: cities[a].id != cities[b].id
    requires j < |cities| && i < |rows| && rows[i].cityId == cities[j].id
    ensures Refreshed(rows, cities, fetch)[i] ==
      match LastSampleAt(Zip5(fetch(cities[j].latitude, cities[j].longitude).value), rows[i].forecastTime)
      case Some(s) => WithReadings(rows[i], s)
      case None => rows[i]
  {
    var n := |cities|;
    var last := cities[n - 1];
    var front := cities[..n - 1];
    var before := Refreshed(rows, front, fetch);
    if j == n - 1 {
      RefreshedLeavesOtherCities(rows, front, fetch, i);
    } else {
      RefreshedRowAt(rows, front, fetch, j, i);
    }
    UpdatedRowAt(before, last.id, Zip5(fetch(last.latitude, last.longitude).value), i);
  }

  /** A pass changes no key, so it keeps keys unique. */
  lemma RefreshedKeepsKeysUnique(rows: seq<Row>, cities: seq<City>, fetch: Fetch)
    requires forall i | 0 <= i < |cities| :: Fetched(fetch, cities[i])
    requires UniqueKeys(rows)
    ensures UniqueKeys(Refreshed(rows, cities, fetch))
  {
  }

  /** How a pass ended: every city updated, or the upstream failed at the city of that index. */
  datatype CycleOutcome = Completed | Aborted(failedAt: nat)

  /**
   * `update_city_weather(city_id, latitude, longitude)`: logs the city id,
   * fetches the forecast, and bulk-updates the city's rows; `fetched` is
   * false where the fetch raised, and then nothing is written.
   */
  method UpdateCityWeather(table: ForecastTable, city: City, fetch: Fetch) returns (fetched: bool, logged: int)
    modifies table
    ensures logged == city.id
    ensures fetched == Fetched(fetch, city)
    ensures fetched ==> table.rows == Updated(old(table.rows), city.id, Zip5(fetch(city.latitude, city.longitude).value))
    ensures !fetched ==> table.rows == old(table.rows)
  {
    logged := city.id;
    var up := fetch(city.latitude, city.longitude);
    if up.None? {
      return false, logged;
    }
    table.Update(city.id, up.value);
    fetched := true;
  }

  /**
   * One pass over the cities, in table order. It stops at the first city
   * whose fetch fails; every city before it has been updated exactly once,
   * in order, and the failing city's id has been logged. No row is added or
   * removed.
   */
  method RefreshCycle(table: ForecastTable, cities: seq<City>, fetch: Fetch) returns (outcome: CycleOutcome, log: seq<int>)
    modifies table
    ensures outcome == if FirstFailure(cities, fetch) == |cities| then Completed else Aborted(FirstFailure(cities, fetch))
    ensures table.rows == Refreshed(old(table.rows), cities[..FirstFailure(cities, fetch)], fetch)
    ensures log == Ids(cities[..if outcome.Completed? then |cities| else outcome.failedAt + 1])
    ensures |table.rows| == |old(table.rows)|
  {
    ghost var start := table.rows;
    ghost var k := FirstFailure(cities, fetch);
    var i := 0;
    log := [];
    while i < |cities|
      invariant 0 <= i <= k
      invariant table.rows == Refreshed(start, cities[..i], fetch)
      invariant log == Ids(cities[..i])
    {
      var fetched, logged := UpdateCityWeather(table, cities[i], fetch);
      IdsStep(cities, i);
      log := log + [logged];
      if !fetched {
        outcome := Aborted(i);
        return;
      }
      assert i < k;
      RefreshedStep(start, cities, fetch, i);
      i := i + 1;
    }
    outcome := Completed;
    assert cities[..i] == cities;
  }

  lemma IdsStep(cities: seq<City>, i: nat)
    requires i < |cities|
    ensures Ids(cities[..i + 1]) == Ids(cities[..i]) + [cities[i].id]
  {
    assert cities[..i + 1][..i] == cities[..i];
  }

  /**
   * No isolation between cities: when the pass stops at city k, a city that
   * comes after k (and not before it) keeps its old readings.
   */
  lemma AbortLeavesLaterCitiesStale(rows: seq<Row>, cities: seq<City>, fetch: Fetch, i: nat)
    requires FirstFailure(cities, fetch) < |cities|
    requires i < |rows|
    requires forall j | 0 <= j < FirstFailure(cities, fetch) :: cities[j].id != rows[i].cityId
    ensures Refreshed(rows, cities[..FirstFailure(cities, fetch)], fetch)[i] == rows[i]
  {
    var k := FirstFailure(cities, fetch);
    RefreshedLeavesOtherCities(rows, cities[..k], fetch, i);
  }
}
