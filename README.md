# Country currency API — the refresh pipeline and the country table

This project models the core of a small REST service. The service keeps a
`countries` table. A refresh fetches a country list and a currency-rate
table from two external sources. It merges them into flat rows with a
synthetic estimated GDP and upserts each row by name. It then reads a
summary: the row count, the five countries with the highest GDP, and the
latest refresh time. That summary is passed to an image generator. Other
handlers list, look up, delete and count rows.

The model has three parts:

- `DataProcessor` (`data_processor.dfy`) is the pure record transformer:
  - `ExtractCurrencyCode`, `CalculateGdp` and `ProcessCountry`;
  - `ProcessCountryData` over a batch.

  It covers JavaScript truthiness (`value || null`, `!rate`) and
  `Math.round` rounding to cents.
- `CountryModel` (`country.dfy`) is the `countries` table. The class
  `Country` holds it as a map from the unique `name` key to its row. Each
  SQL statement of the model is a method that reads or reassigns that map.
  Each method is specified by a function on the map: `Upserted`,
  `FilteredRows`, `Deleted`, `IsLastRefresh` and `IsTopByGdp`.
  - `RowOrder` (`row_order.dfy`) gives the `ORDER BY` orders, with NULL
    GDPs last when ascending and first when descending, as PostgreSQL
    orders them.
  - The insertion sort `SortRows` stands in for the engine's sort.
  - `Text` (`text.dfy`) gives the string helpers: ASCII `LOWER`,
    code-point order, and substring search.
- `CountryController` (`country_controller.dfy`) is the request handlers
  and the HTTP status each outcome gets. `RefreshCountries` also returns
  the trace of the steps it ran, which states the pipeline order.

Impure inputs become parameters:

- **Fetchers:** each fetcher is an input `Result`, either the data or the
  message of the error it threw.
- **`Math.random()` and `new Date()`:** each is a stream indexed by
  record position. Every record reads the clock. Only a record with a
  non-empty currency code and a non-zero rate calls `calculateGDP` and
  draws a random number; the other records ignore their entry. The
  streams are unconstrained, so indexing by position covers every
  sequence of draws the code can see.
- **Image generator:** a function from the summary to success or a thrown
  message.
- **Image file:** whether it exists is a boolean input.

## Model

| member | source | states |
|---|---|---|
| DataProcessor.OrNull | src/services/dataProcessor.js:28-29 | `value \|\| null` keeps a non-empty string and turns a missing or empty one into null |
| DataProcessor.ExtractCurrencyCode | src/services/dataProcessor.js:1-6 | null for a missing or empty currencies list, otherwise the first entry's code |
| DataProcessor.Round2 | src/services/dataProcessor.js:15 | the result is a whole number of cents and lies within half a cent of its argument (round half up) |
| DataProcessor.Round2Monotone | src/services/dataProcessor.js:15 | rounding to cents preserves order |
| DataProcessor.Round2Exact | src/services/dataProcessor.js:15 | an amount already in whole cents is returned unchanged |
| DataProcessor.Multiplier | src/services/dataProcessor.js:13 | the random multiplier lies in [1000, 2000) for a draw in [0, 1) |
| DataProcessor.CalculateGdp | src/services/dataProcessor.js:8-16 | null exactly when the rate is missing or zero; otherwise a whole number of cents within half a cent of population × multiplier / rate |
| DataProcessor.ExactMonotone | src/services/dataProcessor.js:14 | for a non-negative population and a positive rate, the unrounded GDP grows with the multiplier |
| DataProcessor.CalculateGdpBounds | src/services/dataProcessor.js:8-16 | for a non-negative population and a positive rate, the GDP lies between the rounded values at multipliers 1000 and 2000, whatever the draw |
| DataProcessor.ProcessCountry | src/services/dataProcessor.js:19-37 | name and population are copied; capital, region and flag are `\|\| null`; the code is the first currency's; the rate is present exactly when the code is non-empty and in the rate table; the estimate is 0 when the rate is missing or zero, and otherwise `calculateGDP`; the timestamp is the clock reading |
| DataProcessor.ProcessCountryData | src/services/dataProcessor.js:18-38 | one row per country, in order, each the callback applied with that record's draw and clock reading |
| DataProcessor.NoCurrenciesGivesZero | src/services/dataProcessor.js:20-24 | a country without currencies gets no code, no rate and an estimate of 0 |
| DataProcessor.WakandaExample | src/services/dataProcessor.js:18-38 | population 1000 with one currency at rate 2 gives an estimate in [500000, 1000000] |
| RowOrder.PrecedesTotal | src/models/Country.js:55-61 | every ORDER BY used is total |
| RowOrder.PrecedesTransitive | src/models/Country.js:55-61 | every ORDER BY used is transitive |
| RowOrder.Insert | src/models/Country.js:63-64 | inserting a row into a sorted result keeps the same multiset plus that row |
| RowOrder.InsertSorted | src/models/Country.js:63-64 | inserting into a sorted sequence keeps it sorted |
| RowOrder.SortRows | src/models/Country.js:63-64 | the sorted result is a permutation of its input |
| RowOrder.SortRowsSorted | src/models/Country.js:63-64 | the sorted result is sorted by the requested ORDER BY |
| CountryModel.Upserted | src/models/Country.js:4-36 | after `ON CONFLICT (name) DO UPDATE`, the row under the name is the new row, and no other row changes; the table grows by one exactly when the name was new; rows stay keyed by name |
| CountryModel.UpsertRepeated | src/models/Country.js:4-36 | upserting the same row twice is idempotent; a second row with the same name replaces the first and leaves the count unchanged |
| CountryModel.UpsertAllEffect | src/models/Country.js:4-36 | after a batch of upserts: the keys are the old names plus the batch names; each batch name holds the last batch row with that name; every other row is unchanged |
| CountryModel.SortOrder | src/models/Country.js:55-61 | `gdp_desc` and `gdp_asc` select GDP order; every other value, or none, selects name order |
| CountryModel.BuildFindAllQuery | src/models/Country.js:38-61 | one parameter per condition, the conditions numbered `$1`, `$2`, … in push order, each naming a pushed parameter; the query selects a row exactly when it matches every filter that was given; the ORDER BY is `SortOrder` of `sort` |
| CountryModel.Deleted | src/models/Country.js:73-77 | every row whose name equals the argument ignoring case is removed, and only those; the count drops by their number |
| CountryModel.NameMatches | src/models/Country.js:68 | `LOWER(name) = LOWER($1)` holds between a name and itself, only between names of equal length, and is unchanged when the argument is lower-cased first; also used at line 74 |
| CountryModel.CaseVariantsDeleted | src/models/Country.js:73-77 | two rows whose names differ only in case are two rows, and one delete by a name matching both removes both |
| CountryModel.CaseVariantsBothDeleted | src/models/Country.js:73-77 | rows named "France" and "FRANCE" are both deleted by "france" |
| CountryModel.RatedSorted | src/models/Country.js:91-101 | a GDP-descending sort of the rows with a GDP, taken from a keyed table, has no repeated name |
| CountryModel.TopFromSorted | src/models/Country.js:91-101 | the first `limit` entries of that sort are the top rows by GDP |
| CountryModel.Country.Upsert | src/models/Country.js:4-36 | the table becomes `Upserted` of the old table and the row |
| CountryModel.Country.Select | src/models/Country.js:63-64 | returns each table row satisfying the predicate exactly once |
| CountryModel.Country.FindAll | src/models/Country.js:38-65 | returns exactly the rows matching the filters, each once, sorted by the requested order |
| RowOrder.NameSortedUnique | src/models/Country.js:60 | two name-sorted arrangements of the same rows with distinct names are equal |
| RowOrder.SameHead | src/models/Country.js:60 | two name-sorted arrangements of the same rows with distinct names start with the same row |
| CountryModel.FilteredDistinct | src/models/Country.js:38-65 | no two rows `findAll` selects share a name |
| CountryModel.FindAllByNameDetermined | src/models/Country.js:38-65 | without a GDP sort, `findAll` has exactly one possible answer |
| CountryModel.Country.FindByName | src/models/Country.js:67-71 | undefined exactly when no stored name equals the argument ignoring case; otherwise a table row with such a name |
| CountryModel.Country.DeleteByName | src/models/Country.js:73-77 | the table becomes `Deleted`; true exactly when some row matched; no matching row remains |
| CountryModel.Country.Count | src/models/Country.js:79-83 | the number of rows |
| CountryModel.Country.GetLastRefreshTime | src/models/Country.js:85-89 | null on an empty table, otherwise the largest `last_refreshed_at` of any row |
| CountryModel.Country.GetTopByGdp | src/models/Country.js:91-101 | `min(limit, rows with a GDP)` entries, projected from table rows with a GDP, with GDP non-increasing and distinct names; no omitted row has a GDP above the last entry's |
| CountryController.RefreshFailure | src/controllers/countryController.js:30-44 | 503 exactly when the message contains "Could not fetch", otherwise 500; the message is passed on as `details` |
| CountryController.RefreshFailureStatus | src/controllers/countryController.js:33 | 503 exactly when "Could not fetch" occurs at some position of the message, and 500 exactly when it occurs at none |
| CountryController.Processed | src/controllers/countryController.js:12 | one row per fetched country, in order, the i-th being `ProcessCountry` of the i-th country with the i-th draw and clock reading |
| CountryController.RefreshCountries | src/controllers/countryController.js:7-45 | a failed fetch leaves the table unchanged, stops after that fetch and answers with the failure; otherwise both fetches and the processing run first, and what follows is `Persisted` with the batch processed from the fetched data |
| CountryController.PersistAndReport | src/controllers/countryController.js:14-28 | `Persisted`: the rows are upserted in batch order; then come the count, the top five and the last refresh time, read in that order from the new table; then the image generator runs on them; the answer is 200 with the count and time, or the generator's failure |
| CountryController.PersistedEffect | src/controllers/countryController.js:14-28 | after a successful refresh, the table holds the old names plus the batch names, each batch name holding its last processed row and every other row unchanged; the answer is 200 exactly when the image generator succeeded, and then carries the new row count |
| CountryController.UpsertEach | src/controllers/countryController.js:14-16 | the table becomes the batch upserted one row after another, in order, and the trace holds one upsert per row |
| CountryController.UpsertStepsInOrder | src/controllers/countryController.js:14-16 | the i-th upsert writes the i-th processed row |
| CountryController.ReportRefresh | src/controllers/countryController.js:18-28 | count, top five and last refresh are read in that order, without writes; the image generator gets them; the answer is 200 or the generator's failure |
| CountryController.GetAllCountries | src/controllers/countryController.js:48-66 | 200 with exactly the filtered rows, sorted |
| CountryController.LookupResponse | src/controllers/countryController.js:73-81 | 404 exactly when nothing was found, else 200 with the row |
| CountryController.GetCountryByName | src/controllers/countryController.js:69-89 | 404 exactly when no stored name matches ignoring case; otherwise 200 with a matching table row |
| CountryController.DeleteResponse | src/controllers/countryController.js:96-104 | 204 exactly when a row was deleted, else 404 |
| CountryController.DeleteCountry | src/controllers/countryController.js:92-112 | all case-insensitive matches are deleted; 204 exactly when there was one, otherwise 404 |
| CountryController.GetStatus | src/controllers/countryController.js:115-131 | 200 with the row count and the latest refresh time |
| CountryController.SummaryImageResponse | src/controllers/countryController.js:134-151 | 200 with the cached image exactly when the file exists, else 404 |
| Text.Lower | src/models/Country.js:68 | `LOWER` keeps the length and leaves no upper-case letter |
| Text.LowerIdempotent | src/models/Country.js:68 | lower-casing twice is lower-casing once |
| Text.LexLeTotal | src/models/Country.js:60 | name order is total |
| Text.LexLeTransitive | src/models/Country.js:60 | name order is transitive |
| Text.LexLeAntisymmetric | src/models/Country.js:60 | name order is antisymmetric |
| Text.ContainsAt | src/controllers/countryController.js:33 | `includes` holds exactly when the needle occurs at some position |
| Text.Contains | src/controllers/countryController.js:33 | `includes` finds the empty string in every message, finds any prefix, and never finds a string longer than the message |

## Left out

- Drawing the summary image and writing `cache/summary.png`: `src/services/imageGenerator.js` is not part of this model. The generator is a function from the summary to success or a failure message.
- The HTTP clients of the two external sources: `src/services/externalAPI.js` is not part of this model. Each fetch is an input, either the data or the error message.
- Storage failures: in the model the table is always reachable, so the `catch` blocks that answer 500 because a query threw are not modelled. The exception is `refreshCountries`, where the fetch and image errors take that path.
- Concurrency between requests; each handler runs alone.
- Integer and float width: numbers are unbounded integers and exact reals, so IEEE double rounding, NaN and `parseInt` of the count are not modelled.
- Database text semantics: `LOWER` is ASCII-only, and name order is code-point order. Locale collation and Unicode case mapping are not modelled.
- Column types: the table schema is not part of the repository, so a row keeps exactly the values it was given, with no column rounding or truncation.
- SQL dialect: the statements are PostgreSQL (`$1` placeholders, `ON CONFLICT`, `result.rows`, NULLs last when ascending), and the model follows that dialect. `src/config/database.js` creates a MySQL pool instead, and that mismatch is not modelled. A query is its conditions, parameters and order, not its SQL text.
- Other files: the routes, `src/controllers/statusController.js`, the server, the configuration and the duplicate `src/servvices/dataProcessor.js` are not part of this model.
- Route reachability: `src/routes/countryRoutes.js` binds `GET /` to `refreshCountries`, so `getAllCountries` is unreachable over HTTP. The handler is still modelled.
- Raw input values: a `null` entry in the currencies list, and a currency code that names an inherited property of the rate object, are not modelled. A rate table is a plain map.
- Request fields: `req.query` and `req.params` are already-decoded strings.
- CountryModel.Country.FindByName: `result.rows[0]` is the first match in the engine's scan order. The model promises only some match, because that order is not specified.
- CountryModel.Country.GetTopByGdp: ties at equal GDP may come in any order, as the query has no tie-break. The model does not fix one.

Three behaviours of the code that the model keeps as written:

- **Clock readings:** the code calls `new Date()` once per record (`src/services/dataProcessor.js:35`), so a batch has no shared timestamp.
- **Choosing 503:** the code chooses 503 by whether the error message contains "Could not fetch" (`src/controllers/countryController.js:33`), not by which step failed.
- **Image failure:** when the image generator fails after the upserts, the refresh answers with an error, but the upserted rows stay in the table.
