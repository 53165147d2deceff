# meteo_server forecast slots, modelled in Dafny

meteo_server is a small aiohttp service. It keeps a SQLite `forecasts`
table of quarter-hourly weather readings per registered city, and answers
`GET /city_weather?name=…&time=…&params=…` from that table. This project
models the part of `script.py` that decides what such a request answers and
how the table changes. It covers four pieces:

- **The time-slot resolver** (module `Slots`). It reads the last two
  characters of the requested `YYYY-MM-DDTHH:MM` as a Python `int`, floors
  the minute to a quarter hour with `(m // 15) * 15`, and rebuilds the key as
  `time[:-2]` plus the `:02d` rendering of that minute. It then requires the
  key to be a real calendar date-time. Module `DateTimes` models the strict
  `%Y-%m-%dT%H:%M` layout, with leap years and days per month.
- **Field selection and the answer** (module `Fields`, module `Query`). The
  requested names are filtered to `temperature`, `wind_speed`, `humidity` and
  `precipitation`, in request order. An empty selection is refused. The
  answer is the `dict(zip(fields, row))` of the first forecast row for the
  city and slot key.
- **The forecast table** (module `Forecasts`). It is a `ForecastTable` class
  whose `rows` field is the table in row-id order. The schema has no
  uniqueness constraint on `(city_id, forecast_time)`, so the table is a
  sequence and "one row per key" is a proved invariant, not a given.
  - `Insert` appends one row per index of the `zip` of the five upstream
    lists (`insert_city_weather`).
  - `Update` runs one `UPDATE … WHERE city_id = ? AND forecast_time = ?` per
    zipped entry (`update_city_weather`).
  - Both are loops whose effect is specified by the functions `Inserted` and
    `Updated`.
- **One refresh cycle** (module `Refresh`). This is one pass of
  `periodic_weather_update`: it calls the update for each city in table
  order. The upstream service is a function from coordinates to the five
  lists, or to nothing when the call fails. The code has no `try`, so a
  failure ends the pass. Earlier cities keep their new readings and later
  cities are not visited. The exception also leaves the `while True` loop,
  so it ends the periodic task itself, and no later pass ever runs.

`Query.CityWeather` is the read path with the missing-row defect corrected
(see Findings). `Query.CityWeatherAsWritten` is the code as it stands.

## Model

| member | source | states |
|---|---|---|
| DateTimes.Format | script.py:171 | a valid date-time renders in the fixed `%Y-%m-%dT%H:%M` layout, with each two-digit field reading back as the date-time's own field |
| DateTimes.Parse | script.py:171 | a string is accepted only if it is the rendering of a valid date-time (years 1-9999, real month, day within the month's length including leap years, hour < 24, minute < 60) |
| DateTimes.DaysInMonth | script.py:171 | every month has 28-31 days; it has 29 exactly when it is February of a leap year, and 28 exactly when it is February of a common year |
| DateTimes.ParseFormat | script.py:171 | every valid date-time is accepted back from its own rendering |
| DateTimes.ParseInjective | script.py:171 | two strings accepted as the same date-time are the same string |
| Slots.LastTwo | script.py:168 | `time[-2:]` has two characters (all of a shorter string), and `time[:-2]` followed by it is the whole string |
| Slots.DropLastTwo | script.py:170 | `time[:-2]` is the prefix of the string that is two characters shorter, or empty |
| Slots.Strip | script.py:168 | with the white space `int()` skips (tab, line feed, vertical tab, form feed, carriage return, space, U+0085, U+00A0) removed from both ends, the text is no longer than the input, neither starts nor ends with such white space, and is the input itself when it has none |
| Slots.StripTrims | script.py:168 | the input is the stripped text with white space only before and after it |
| Slots.ParseInt | script.py:168 | `int()` refuses exactly the strings that, once stripped, are not an optional sign followed by one or more ASCII digits; otherwise it gives the digits' decimal value, negated after a minus; the magnitude is below 10 to the input's length |
| Slots.Format02d | script.py:170 | `:02d` of a minute 0-99 is its two-digit zero-padded rendering; a negative number renders with a leading minus |
| Slots.ParseIntFormat02d | script.py:168-170 | `int()` of the `:02d` rendering of any integer gives that integer back |
| Slots.FloorTo15 | script.py:169 | the floored minute is a multiple of 15, at most the minute and within 15 of it; for minutes 0-59 it is one of 0, 15, 30, 45 |
| Slots.Resolve | script.py:167-173 | an accepted request resolves to a key that is itself a valid date-time |
| Slots.ResolvedSlot | script.py:167-171 | an accepted request is 16 characters long, its first 14 characters are kept, and the key's minute is the quarter hour at or below the requested minute |
| Slots.ResolveRejects | script.py:167-173 | a request is refused when its last two characters are not an integer, when the floored minute is 60 or more, when the rebuilt key is not a valid date-time, or when it is not 16 characters long |
| Slots.ResolveIdempotent | script.py:168-171 | resolving an accepted key again gives the same key |
| Slots.ResolveInstant | script.py:167-171 | the rendering of every valid date-time is accepted, and resolves to that date-time with its minute floored to a quarter hour |
| Slots.ResolvedHour | script.py:171 | an accepted request carries an hour below 24 in characters 11-12 |
| Slots.ResolveExampleFloors | script.py:167-171 | 2024-01-01T08:47 resolves to 2024-01-01T08:45 |
| Slots.ResolveExampleRejectsHour | test_app.py:219-222 | requests with hour 25 or hour 55 are refused |
| Fields.FieldNamed | script.py:183 | a name is recognised exactly when it is the name of one of the four fields |
| Fields.SelectedAppend | script.py:184 | the filter distributes over concatenation of the request list, so it keeps request order |
| Fields.SelectedMembers | script.py:184 | a field is selected exactly when its name was requested |
| Fields.Selected | script.py:184 | the comprehension keeps at most as many names as were requested, and every kept field's name was requested |
| Fields.SelectFields | script.py:183-187 | the selection is refused exactly when no requested name is a known field; otherwise it is the filtered list and is non-empty |
| Fields.SelectedNonEmpty | script.py:184-186 | the filtered list is empty exactly when no requested name is a known field |
| Forecasts.Zip5 | script.py:263 | the zip of the five upstream lists has the length of the shortest list, and entry i takes the i-th element of each list in its own slot |
| Forecasts.NewRow | script.py:273-274 | one INSERT gives a row keyed by the city and the sample's time label, with each reading in the column of the same name |
| Forecasts.Inserted | script.py:272-276 | the insert keeps every existing row and appends one row per sample, row i carrying sample i's label and readings in the same-named columns |
| Forecasts.Updated | script.py:260-264 | the update keeps the row count and never changes a row's city or time |
| Forecasts.ApplyEntry | script.py:261-262 | one UPDATE keeps the row count and every row's key, writes the sample's four readings into each row of the city with that time, and leaves every other row unchanged |
| Forecasts.UpdatedRowAt | script.py:260-264 | a row of the city whose time is labelled by some sample takes the readings of the last such sample; every other row is unchanged |
| Forecasts.UpdateWithoutMatchIsNoOp | script.py:260-264 | an update none of whose entries matches a row leaves the table as it was |
| Forecasts.LastSampleAt | script.py:260-264 | the sample found for a time carries that time and is the last one in the list to carry it; none is found only when no sample has that time |
| Forecasts.FirstMatch | script.py:202-203 | the row found is the first row in row-id order with the city and time; none is found only when no row has them |
| Forecasts.InsertFreshKeepsKeysUnique | script.py:32-42 | inserting distinct labels for a city that has no rows keeps (city, time) unique |
| Forecasts.InsertTwiceDuplicatesKeys | script.py:32-42 | inserting the same non-empty forecast twice breaks (city, time) uniqueness, since the schema does not forbid it |
| Forecasts.UpdateKeepsKeysUnique | script.py:32-42 | an update preserves (city, time) uniqueness |
| Forecasts.UpdateKeepsFirstMatch | script.py:260-264 | an update does not change which row a lookup finds |
| Forecasts.FirstMatchAfterInsert | script.py:268-277 | after a fresh city's insert, looking up its i-th label finds exactly the i-th appended row |
| Forecasts.InsertedSlotRow | script.py:268-277 | after a fresh city's insert, the row found for its i-th label holds the i-th upstream values |
| Forecasts.ForecastTable.Insert | script.py:268-277 | the loop leaves the table equal to the old rows with one new row appended per zipped entry |
| Forecasts.ForecastTable.Update | script.py:252-265 | the loop leaves the table equal to the old rows with every entry's update applied in order, and keeps the row count |
| Refresh.FirstFailure | script.py:283-286 | the cities before the first upstream failure were all fetched, and the city at that index was not |
| Refresh.Refreshed | script.py:283-286 | applying the updates of a list of cities keeps the row count and every row's city and time |
| Refresh.RefreshedRowAt | script.py:283-286 | with distinct city ids, a row of a city the pass reached holds the readings of the last sample of that city's upstream lists labelled with the row's time, or its old readings where no sample has that label |
| Refresh.RefreshedLeavesOtherCities | script.py:283-286 | a row of a city that is not in the list is untouched by the pass |
| Refresh.RefreshedKeepsKeysUnique | script.py:283-286 | a pass preserves (city, time) uniqueness |
| Refresh.UpdateCityWeather | script.py:252-265 | one city's update logs that city's id, and applies the update exactly when its upstream call succeeds |
| Refresh.RefreshCycle | script.py:283-286 | the pass visits the cities in table order, updating each city before the first failure exactly once and logging every id up to and including the failing one; it completes only when every call succeeds; it never adds or removes rows |
| Refresh.AbortLeavesLaterCitiesStale | script.py:283-286 | after an aborted pass, the rows of cities the pass did not reach keep their old readings |
| Query.ProjectByName | script.py:200-203 | the SELECT gives one reading per selected field, in the order asked, and each is the column of the `forecasts` schema (script.py:36-39) whose name is the field's request name |
| Query.ZipToDictKeys | script.py:205 | `dict(zip(keys, values))` has a key for each key paired with a value, up to the shorter list |
| Query.ZipToDictLastWins | script.py:205 | a key occurring more than once takes the value paired with its last occurrence |
| Query.SelectRow | script.py:200-203 | `fetchone` finds nothing exactly when no row has the city and slot; otherwise it gives the selected columns of the first such row in row-id order |
| Query.AnswerFromRow | script.py:200-205 | the answer holds exactly the selected fields, each mapped to that field's column of the row |
| Query.FindCity | script.py:193-198 | the id found belongs to the first city in table order with the requested name; none is found exactly when no city has that name |
| Query.Check | script.py:166-198 | the checks run in the handler's order: a missing or unresolvable time is "Invalid date provided", then an empty selection is "Invalid parameters provided", then a missing or empty name is "Name is required", then an unknown name is "City not found"; a request passing all four is accepted with that city, key and selection |
| Query.CityWeatherAsWritten | script.py:158-207 | the handler as written fails with a server error exactly when an accepted request's slot has no row |
| Query.CityWeather | script.py:158-207 | the corrected handler never fails with a server error; it answers "not found" exactly when an accepted request's slot has no row, and otherwise answers the selected fields of the first matching row |
| Query.AnswerOf | script.py:200-205 | an accepted request whose slot has a row is answered with exactly the selected fields, each mapped to its column of the first such row |
| Query.AnswerFromSample | script.py:200-205 | when that first row carries a sample's readings, each answered field holds the sample's reading for it |
| Query.MissingSlotCrashesAsWritten | script.py:203-205 | the code as written fails with a server error exactly where the corrected handler answers "not found", and agrees with it everywhere else |
| Query.MissingSlotExample | script.py:203-205 | a registered city with no forecast rows, asked for 2026-10-15T21:08, crashes as written and is answered "not found" when corrected |
| Query.BadHourRefused | test_app.py:219-222 | a request for hour 55 is answered "Invalid date provided" whatever the city, table and fields |
| Query.NoParamsRefused | test_app.py:238-240 | a request without `params`, which splits to `[""]`, is refused with "Invalid parameters provided" |
| Query.QueryAfterInsert | test_app.py:198-206 | after a fresh city's insert, any time resolving to its i-th label answers each requested field with the i-th value of that field's upstream list |
| Query.QueryAfterUpdate | script.py:252-265 | after an update for the city, its slot answers the readings of the last update entry for that key |
| Query.QueryOtherCityUnchanged | script.py:252-265 | an update for one city changes no answer about another city |

## Left out

- HTTP routing and JSON handling in `fetch_weather`, `add_city`, `city_list` and `get_user_id` (script.py:62-225) are request plumbing. Requests are modelled as their decoded query values, and answers as a `Response` value.
- `validate_coordinates` (script.py:291-301) only parses floats and range-checks them. Coordinates are carried as `real` values and never checked.
- `get_forecast_lists` (script.py:228-249) is network I/O. The upstream is a function from coordinates to the five lists. It is fixed for one pass, and `None` stands for a failed call.
- The `while True` loop and `asyncio.sleep` (script.py:282-288), and the task's start and cancellation (script.py:304-315), are concurrency and lifecycle. One pass is modelled.
- The `print` of a city id in `update_city_weather` becomes the `logged` result.
- Table creation, `clean_db`, connections and commits (script.py:12-59) are database plumbing. Each executed statement takes effect immediately; atomicity is the engine's.
- The `user_id` filter on the city lookup (script.py:176-180) and the `user_city` table are left out. The lookup takes the first city with the name, in table order.
- The `.split(',')` of `params` (script.py:163) is taken as done: `params` arrives as the list of pieces.
- `fetchone` without `ORDER BY` is taken to return the first matching row in row-id order. Row ids are implicit in the sequence order.
- Readings are floats from JSON. They are `Option<real>` values that are only copied, never computed with.
- `add_city`'s registration of a city and its id assignment are not modelled. A city list with ids is an input.
- DateTimes.Parse: the model accepts only the fixed-width ASCII layout with an upper-case `T`. Python's `strptime` accepts more, and the model refuses all of it:
  - single-digit month, day, hour and minute fields;
  - a space-padded day;
  - literals matched without regard to case, such as a lower-case `t`;
  - non-ASCII decimal digits.
  The code as written accepts such a request (for example `2024-01-01t08:47`) and looks up its rebuilt key. No stored label is written that way, so for a registered city that lookup reaches the missing-row failure under Findings. The model answers "Invalid date provided" instead.
- Slots.ParseInt: Python's `int()` also accepts non-ASCII decimal digits, white space above U+00FF, and underscores between digits. The model accepts ASCII digits, a sign, and around them the white space `int()` skips below U+0100 (tab, line feed, vertical tab, form feed, carriage return, space, U+0085, U+00A0). An underscore cannot sit between two digits in a two-character string anyway.
- Stored labels are written exactly as the upstream service sends them, and the write path applies no resolver. A stored row is found only when its label equals a resolved key.
- Partial-failure isolation is not claimed. The code has no `try` around one city's update, so one failed upstream call ends the whole pass. The exception also leaves the `while True` loop of `periodic_weather_update` (script.py:282-286) and ends the background task, so no later pass ever runs. The model covers one pass and reports the abort as `Aborted`.

## Findings

| source | as written | input that shows it | evidently intended | confidence | as-written member | corrected member |
|---|---|---|---|---|---|---|
| script.py:202-205 | when no forecast row matches the city and slot, `fetchone()` returns `None` and `dict(zip(fields_to_fetch, None))` raises `TypeError`, so the request ends in a server error | city "Test City" registered with no forecast rows; `time=2026-10-15T21:08`, `params=temperature` | a "not found" answer for a slot with no forecast | high; not executed | Query.CityWeatherAsWritten, Query.MissingSlotExample | Query.CityWeather, Query.MissingSlotCrashesAsWritten |
