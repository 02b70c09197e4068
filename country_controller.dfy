/** The request handlers of the country controller: the refresh pipeline
    over the table, and the choice of HTTP status for each outcome.

    The two fetchers are inputs: each either delivered its data or threw
    an error with a message. The random draws and clock readings of the
    transform are streams indexed by record position. The image generator
    is a function from the summary it is given to success or a thrown
    message; drawing and writing the file are not modelled. */
module CountryController {
  import opened Wrappers
  import opened DataProcessor
  import opened RowOrder
  import opened CountryModel
  import Text

  /** The JSON (or file) a handler sends. */
  datatype Body =
    | Refreshed(message: string, totalCountries: nat, lastRefreshedAt: Option<Timestamp>)
    | ErrorBody(error: string, details: Option<string>)
    | CountryBody(country: CountryRow)
    | CountryList(countries: seq<CountryRow>)
    | StatusBody(totalCountries: nat, lastRefreshedAt: Option<Timestamp>)
    | NoContent
    | ImageFile(path: string)

  datatype Response = Response(status: nat, body: Body)

  /** The arguments of `generateSummaryImage`. */
  datatype Summary = Summary(totalCountries: nat, topCountries: seq<TopEntry>, lastRefreshedAt: Option<Timestamp>)

  /** The steps a refresh runs, in the order they ran. */
  datatype Step =
    | FetchCountries
    | FetchExchangeRates
    | ProcessData
    | UpsertRow(name: string)
    | CountRows
    | TopByGdp(limit: nat)
    | LastRefreshTime
    | GenerateImage(summary: Summary)

  /** The text whose presence in an error message marks an unavailable source. */
  const UnavailableMarker: string := "Could not fetch"

  /** How many countries the summary image ranks. */
  const TopLimit: nat := 5

  const ImagePath: string := "cache/summary.png"

  /** The catch block of `refreshCountries`: 503 when the message mentions
      "Could not fetch", 500 for every other failure; the message is passed
      on as `details`. */
  function RefreshFailure(message: string): (resp: Response)
    ensures resp.status == 503 <==> Text.Contains(message, "Could not fetch")
    ensures resp.status != 503 ==> resp.status == 500
    ensures resp.body.ErrorBody? && resp.body.details == Some(message)
  {
    if Text.Contains(message, UnavailableMarker) then
      Response(503, ErrorBody("External data source unavailable", Some(message)))
    else
      Response(500, ErrorBody("Internal server error", Some(message)))
  }

  /** A failure is reported as 503 exactly when "Could not fetch" occurs
      somewhere in its message, whichever step threw it. */
  lemma RefreshFailureStatus(message: string)
    ensures RefreshFailure(message).status == 503 <==>
      exists i :: Text.OccursAt(message, UnavailableMarker, i)
    ensures RefreshFailure(message).status == 500 <==>
      forall i :: !Text.OccursAt(message, UnavailableMarker, i)
  {
    Text.ContainsAt(message, UnavailableMarker);
  }

  /** The rows of one refresh batch: record `i` is processed with the `i`-th
      random draw and the `i`-th clock reading. */
  function Processed(countries: seq<RawCountry>, rates: RateTable, randoms: nat -> real, clock: nat -> Timestamp): (rows: seq<CountryRow>)
    ensures |rows| == |countries|
    ensures forall i :: 0 <= i < |rows| ==> rows[i] == ProcessCountry(countries[i], rates, randoms(i), clock(i))
  {
    ProcessCountryData(
      countries, rates,
      seq(|countries|, i requires 0 <= i < |countries| => randoms(i)),
      seq(|countries|, i requires 0 <= i < |countries| => clock(i)))
  }

  /** The upsert steps of a batch, one per row. */
  function UpsertSteps(rows: seq<CountryRow>): (steps: seq<Step>)
    ensures |steps| == |rows|
  {
    if rows == [] then [] else UpsertSteps(rows[..|rows| - 1]) + [UpsertRow(rows[|rows| - 1].name)]
  }

  /** The `i`-th upsert step writes the `i`-th row: the rows are written
      one at a time, in batch order. */
  lemma {:induction false} UpsertStepsInOrder(rows: seq<CountryRow>, i: int)
    requires 0 <= i < |rows|
    ensures UpsertSteps(rows)[i] == UpsertRow(rows[i].name)
  {
    var init := rows[..|rows| - 1];
    if i < |rows| - 1 {
      UpsertStepsInOrder(init, i);
      assert init[i] == rows[i];
    }
  }

  /** `refreshCountries`. A failed fetch stops the refresh before anything
      is written. Otherwise every processed row is upserted in order, then
      the count, the top five and the last refresh time are read and handed
      to the image generator; the response reports the count and time read
      after the upserts, or the image generator's failure, in which case
      the upserted rows stay in the table. */
  method RefreshCountries(
    table: Country,
    countriesFetch: Result<seq<RawCountry>, string>,
    ratesFetch: Result<RateTable, string>,
    randoms: nat -> real,
    clock: nat -> Timestamp,
    generateImage: Summary -> Outcome<string>)
    returns (resp: Response, steps: seq<Step>)
    requires table.Valid()
    modifies table
    ensures table.Valid()
    ensures countriesFetch.Failure? ==>
      && table.rows == old(table.rows)
      && steps == [FetchCountries]
      && resp == RefreshFailure(countriesFetch.error)
    ensures countriesFetch.Success? && ratesFetch.Failure? ==>
      && table.rows == old(table.rows)
      && steps == [FetchCountries, FetchExchangeRates]
      && resp == RefreshFailure(ratesFetch.error)
    ensures countriesFetch.Success? && ratesFetch.Success? ==>
      && |steps| >= 3
      && steps[..3] == [FetchCountries, FetchExchangeRates, ProcessData]
      && Persisted(old(table.rows), table.rows,
                   Processed(countriesFetch.value, ratesFetch.value, randoms, clock),
                   generateImage, steps[3..], resp)
  {
    steps := [FetchCountries];
    if countriesFetch.Failure? {
      resp := RefreshFailure(countriesFetch.error);
      return;
    }
    var countries := countriesFetch.value;
    steps := steps + [FetchExchangeRates];
    if ratesFetch.Failure? {
      resp := RefreshFailure(ratesFetch.error);
      return;
    }
    var exchangeRates := ratesFetch.value;

    var processedData := Processed(countries, exchangeRates, randoms, clock);
    steps := steps + [ProcessData];

    var persistSteps;
    resp, persistSteps := PersistAndReport(table, processedData, generateImage);
    steps := steps + persistSteps;
  }

  /** What `refreshCountries` does once the batch is processed, from the
      table `before` to the table `after`: `after` is `before` with every row
      of the batch upserted in order; the steps are the upserts in batch
      order, then the count, the top five and the last refresh time, then
      the image generator on a summary of `after`; the response reports
      the count and time read after the upserts, or the image generator's
      failure. */
  ghost predicate Persisted(before: Table, after: Table, batch: seq<CountryRow>,
                            generateImage: Summary -> Outcome<string>, steps: seq<Step>, resp: Response)
  {
    && after == UpsertAll(before, batch)
    && |steps| == |batch| + 4
    && steps[|steps| - 1].GenerateImage?
    && var summary := steps[|steps| - 1].summary;
    && steps == UpsertSteps(batch) + [CountRows, TopByGdp(TopLimit), LastRefreshTime, GenerateImage(summary)]
    && summary.totalCountries == |after|
    && IsTopByGdp(after, TopLimit, summary.topCountries)
    && IsLastRefresh(after, summary.lastRefreshedAt)
    && resp == match generateImage(summary)
               case Pass => Response(200, Refreshed("Countries refreshed successfully",
                                                    |after|, summary.lastRefreshedAt))
               case Fail(message) => RefreshFailure(message)
  }

  /** The part of `refreshCountries` after processing: upsert the batch,
      then report on the table. */
  method PersistAndReport(table: Country, batch: seq<CountryRow>, generateImage: Summary -> Outcome<string>)
    returns (resp: Response, steps: seq<Step>)
    requires table.Valid()
    modifies table
    ensures table.Valid()
    ensures Persisted(old(table.rows), table.rows, batch, generateImage, steps, resp)
  {
    var upsertSteps := UpsertEach(table, batch);
    var reportSteps;
    resp, reportSteps := ReportRefresh(table, generateImage);
    steps := upsertSteps + reportSteps;
  }

  /** After a successful refresh, the table holds exactly the old names
      and the batch's names, each batch name with its last processed row,
      every other row unchanged; the answer is 200 exactly when the image
      generator succeeded, and then reports the new row count. */
  lemma PersistedEffect(before: Table, after: Table, batch: seq<CountryRow>,
                        generateImage: Summary -> Outcome<string>, steps: seq<Step>, resp: Response)
    requires KeyedByName(before)
    requires Persisted(before, after, batch, generateImage, steps, resp)
    ensures KeyedByName(after)
    ensures forall k :: k in after <==> k in before || k in NamesOf(batch)
    ensures forall i :: 0 <= i < |batch| && LastWithName(batch, i) ==>
      batch[i].name in after && after[batch[i].name] == batch[i]
    ensures forall k :: k in before && k !in NamesOf(batch) ==> k in after && after[k] == before[k]
    ensures resp.status == 200 <==> generateImage(steps[|steps| - 1].summary).Pass?
    ensures resp.status == 200 ==> resp.body.Refreshed? && resp.body.totalCountries == |after|
  {
    UpsertAllEffect(before, batch);
  }

  /** The loop of `refreshCountries` that upserts the processed rows one
      after another, in order. */
  method UpsertEach(table: Country, batch: seq<CountryRow>) returns (steps: seq<Step>)
    requires table.Valid()
    modifies table
    ensures table.Valid()
    ensures table.rows == UpsertAll(old(table.rows), batch)
    ensures steps == UpsertSteps(batch)
  {
    steps := [];
    for i := 0 to |batch|
      invariant table.Valid()
      invariant table.rows == UpsertAll(old(table.rows), batch[..i])
      invariant steps == UpsertSteps(batch[..i])
    {
      table.Upsert(batch[i]);
      steps := steps + [UpsertRow(batch[i].name)];
      assert batch[..i + 1][..i] == batch[..i];
    }
    assert batch[..|batch|] == batch;
  }

  /** The steps of `refreshCountries` after the upserts: read the count,
      the top five and the last refresh time, in that order, hand them to
      the image generator, and answer 200 with the count and the time, or
      the generator's failure. Nothing here writes to the table. */
  method ReportRefresh(table: Country, generateImage: Summary -> Outcome<string>)
    returns (resp: Response, steps: seq<Step>)
    requires table.Valid()
    ensures |steps| == 4 && steps[3].GenerateImage?
    ensures steps == [CountRows, TopByGdp(TopLimit), LastRefreshTime, GenerateImage(steps[3].summary)]
    ensures steps[3].summary.totalCountries == |table.rows|
    ensures IsTopByGdp(table.rows, TopLimit, steps[3].summary.topCountries)
    ensures IsLastRefresh(table.rows, steps[3].summary.lastRefreshedAt)
    ensures resp == match generateImage(steps[3].summary)
                    case Pass => Response(200, Refreshed("Countries refreshed successfully",
                                                         |table.rows|, steps[3].summary.lastRefreshedAt))
                    case Fail(message) => RefreshFailure(message)
  {
    var totalCountries := table.Count();
    var topCountries := table.GetTopByGdp(TopLimit);
    var lastRefresh := table.GetLastRefreshTime();
    var summary := Summary(totalCountries, topCountries, lastRefresh);
    steps := [CountRows, TopByGdp(TopLimit), LastRefreshTime, GenerateImage(summary)];

    match generateImage(summary)
    case Pass =>
      resp := Response(200, Refreshed("Countries refreshed successfully", totalCountries, lastRefresh));
    case Fail(message) =>
      resp := RefreshFailure(message);
  }

  /** `getAllCountries`: 200 with the rows `findAll` returns. */
  method GetAllCountries(table: Country, f: Filters) returns (resp: Response)
    requires table.Valid()
    ensures resp.status == 200 && resp.body.CountryList?
    ensures multiset(resp.body.countries) == multiset(FilteredRows(table.rows, f))
    ensures Sorted(SortOrder(f.sort), resp.body.countries)
  {
    var countries := table.FindAll(f);
    resp := Response(200, CountryList(countries));
  }

  /** The status `getCountryByName` chooses: 404 when nothing was found,
      otherwise 200 with the row. */
  function LookupResponse(country: Option<CountryRow>): (resp: Response)
    ensures resp.status == 404 <==> country.None?
    ensures country.Some? ==> resp == Response(200, CountryBody(country.value))
  {
    match country
    case None => Response(404, ErrorBody("Country not found", None))
    case Some(row) => Response(200, CountryBody(row))
  }

  /** `getCountryByName`: 404 exactly when no stored name matches
      case-insensitively, otherwise 200 with one matching row. */
  method GetCountryByName(table: Country, name: string) returns (resp: Response)
    requires table.Valid()
    ensures resp.status == 404 <==> MatchingNames(table.rows, name) == {}
    ensures resp.status != 404 ==>
      && resp.status == 200
      && resp.body.CountryBody?
      && InTable(table.rows, resp.body.country)
      && NameMatches(resp.body.country.name, name)
  {
    var country := table.FindByName(name);
    resp := LookupResponse(country);
  }

  /** The status `deleteCountry` chooses: 204 when a row was deleted, else 404. */
  function DeleteResponse(deleted: bool): (resp: Response)
    ensures resp.status == 204 <==> deleted
    ensures !deleted ==> resp.status == 404
  {
    if deleted then Response(204, NoContent) else Response(404, ErrorBody("Country not found", None))
  }

  /** `deleteCountry`: deletes every case-insensitive match; 204 exactly
      when there was one, otherwise 404. */
  method DeleteCountry(table: Country, name: string) returns (resp: Response)
    requires table.Valid()
    modifies table
    ensures table.Valid()
    ensures table.rows == Deleted(old(table.rows), name)
    ensures resp.status == 204 <==> MatchingNames(old(table.rows), name) != {}
    ensures resp.status != 204 ==> resp.status == 404
  {
    var deleted := table.DeleteByName(name);
    resp := DeleteResponse(deleted);
  }

  /** `getStatus`: 200 with the row count and the latest refresh time. */
  method GetStatus(table: Country) returns (resp: Response)
    ensures resp.status == 200 && resp.body.StatusBody?
    ensures resp.body.totalCountries == |table.rows|
    ensures IsLastRefresh(table.rows, resp.body.lastRefreshedAt)
  {
    var totalCountries := table.Count();
    var lastRefresh := table.GetLastRefreshTime();
    resp := Response(200, StatusBody(totalCountries, lastRefresh));
  }

  /** `getSummaryImage`: the cached image when the file exists, else 404. */
  function SummaryImageResponse(imageExists: bool): (resp: Response)
    ensures resp.status == 200 <==> imageExists
    ensures imageExists ==> resp.body == ImageFile(ImagePath)
    ensures !imageExists ==> resp.status == 404
  {
    if imageExists then Response(200, ImageFile(ImagePath))
    else Response(404, ErrorBody("Summary image not found", None))
  }
}
