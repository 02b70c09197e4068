/** The record transformer: merges the raw country list with the
    currency-to-rate table into flat country rows and computes the
    synthetic estimated GDP.

    The two impure inputs of `dataProcessor.js` are parameters here: `random` is
    the value `Math.random()` returns (a real in [0, 1)), and `now` is the
    value `new Date()` reads from the clock, as milliseconds. Numbers are
    reals; IEEE doubles are not modelled. */
module DataProcessor {
  import opened Wrappers

  /** Milliseconds since the epoch, as a `Date` holds them. */
  type Timestamp = int

  /** One entry of a country's `currencies` list; `code` may be missing. */
  datatype CurrencyDescriptor = CurrencyDescriptor(code: Option<string>)

  /** A country as the countries source delivers it. Missing fields are `None`. */
  datatype RawCountry = RawCountry(
    name: string,
    capital: Option<string>,
    region: Option<string>,
    population: int,
    currencies: Option<seq<CurrencyDescriptor>>,
    flag: Option<string>)

  /** The rates source: currency code to rate against the base currency.
      A code that is not a key has no known rate. */
  type RateTable = map<string, real>

  /** The flat row written to the `countries` table; fields follow its
      columns (name, capital, region, population, currency_code,
      exchange_rate, estimated_gdp, flag_url, last_refreshed_at). */
  datatype CountryRow = CountryRow(
    name: string,
    capital: Option<string>,
    region: Option<string>,
    population: int,
    currencyCode: Option<string>,
    exchangeRate: Option<real>,
    estimatedGdp: Option<real>,
    flagUrl: Option<string>,
    lastRefreshedAt: Timestamp)

  /** JavaScript truthiness of an optional string: `null`, `undefined` and `""` are falsy. */
  predicate Truthy(s: Option<string>) {
    s.Some? && s.value != ""
  }

  /** JavaScript truthiness of an optional number: `null`, `undefined` and `0` are falsy. */
  predicate RateTruthy(r: Option<real>) {
    r.Some? && r.value != 0.0
  }

  /** The expression `value || null`. */
  function OrNull(s: Option<string>): (r: Option<string>)
    ensures r.None? <==> !Truthy(s)
    ensures r.Some? ==> r == s
  {
    if Truthy(s) then s else None
  }

  /** `extractCurrencyCode`: the code of the first descriptor, or null when
      the list is missing or empty. */
  function ExtractCurrencyCode(currencies: Option<seq<CurrencyDescriptor>>): (code: Option<string>)
    ensures currencies.None? || currencies.value == [] ==> code.None?
    ensures currencies.Some? && currencies.value != [] ==> code == currencies.value[0].code
  {
    if currencies.None? || |currencies.value| == 0 then None else currencies.value[0].code
  }

  /** `Math.round(x * 100) / 100`: `Math.round` rounds half-way cases up,
      so it is `floor(y + 0.5)`. The result is a whole number of hundredths
      within half a hundredth of `x`. */
  function Round2(x: real): (r: real)
    ensures (r * 100.0).Floor as real == r * 100.0
    ensures x - 0.005 < r <= x + 0.005
  {
    (x * 100.0 + 0.5).Floor as real / 100.0
  }

  lemma Round2Monotone(x: real, y: real)
    requires x <= y
    ensures Round2(x) <= Round2(y)
  {
    var a, b := (x * 100.0 + 0.5).Floor, (y * 100.0 + 0.5).Floor;
    assert x * 100.0 <= y * 100.0;
    assert a as real < b as real + 1.0;
    assert a <= b;
    assert a as real / 100.0 <= b as real / 100.0;
  }

  /** A value that already is a whole number of hundredths is unchanged by rounding. */
  lemma Round2Exact(x: real)
    requires (x * 100.0).Floor as real == x * 100.0
    ensures Round2(x) == x
  {
    var n := (x * 100.0).Floor;
    assert n as real <= x * 100.0 + 0.5 < n as real + 1.0;
    assert (x * 100.0 + 0.5).Floor == n;
  }

  /** `Math.random() * (2000 - 1000) + 1000`. */
  function Multiplier(random: real): (m: real)
    ensures 0.0 <= random < 1.0 ==> 1000.0 <= m < 2000.0
  {
    random * (2000.0 - 1000.0) + 1000.0
  }

  /** The unrounded estimate `population * multiplier / rate`. */
  function Exact(population: int, multiplier: real, rate: real): real
    requires rate != 0.0
  {
    population as real * multiplier / rate
  }

  /** `calculateGDP`: null when the rate is falsy, otherwise
      `population * multiplier / rate` rounded to hundredths. */
  function CalculateGdp(population: int, exchangeRate: Option<real>, random: real): (gdp: Option<real>)
    ensures gdp.None? <==> !RateTruthy(exchangeRate)
    ensures gdp.Some? ==> (gdp.value * 100.0).Floor as real == gdp.value * 100.0
    ensures gdp.Some? ==>
      var exact := Exact(population, Multiplier(random), exchangeRate.value);
      exact - 0.005 < gdp.value <= exact + 0.005
  {
    if !RateTruthy(exchangeRate) then None
    else Some(Round2(Exact(population, Multiplier(random), exchangeRate.value)))
  }

  lemma ExactMonotone(population: int, m1: real, m2: real, rate: real)
    requires population >= 0 && m1 <= m2 && rate > 0.0
    ensures Exact(population, m1, rate) <= Exact(population, m2, rate)
  {
    var p := population as real;
    assert p * m1 <= p * m2 by {
      assert p * (m2 - m1) >= 0.0;
    }
  }

  /** For a non-negative population, a positive rate and a draw in [0, 1),
      the estimate lies between the estimates with multipliers 1000 and 2000. */
  lemma CalculateGdpBounds(population: int, rate: real, random: real)
    requires population >= 0 && rate > 0.0 && 0.0 <= random < 1.0
    ensures CalculateGdp(population, Some(rate), random).Some?
    ensures Round2(Exact(population, 1000.0, rate))
         <= CalculateGdp(population, Some(rate), random).value
         <= Round2(Exact(population, 2000.0, rate))
  {
    var m := Multiplier(random);
    assert CalculateGdp(population, Some(rate), random).value == Round2(Exact(population, m, rate));
    ExactMonotone(population, 1000.0, m, rate);
    ExactMonotone(population, m, 2000.0, rate);
    Round2Monotone(Exact(population, 1000.0, rate), Exact(population, m, rate));
    Round2Monotone(Exact(population, m, rate), Exact(population, 2000.0, rate));
  }

  /** The body of the `countries.map` callback: one raw country to one row.
      Only the currency code and the rate decide the estimate; a missing,
      unmapped or zero rate gives 0, never null. */
  function ProcessCountry(c: RawCountry, rates: RateTable, random: real, now: Timestamp): (row: CountryRow)
    ensures row.name == c.name && row.population == c.population
    ensures row.capital == OrNull(c.capital) && row.region == OrNull(c.region)
    ensures row.flagUrl == OrNull(c.flag)
    ensures row.currencyCode == ExtractCurrencyCode(c.currencies)
    ensures row.exchangeRate.Some? <==> Truthy(row.currencyCode) && row.currencyCode.value in rates
    ensures row.exchangeRate.Some? ==> row.exchangeRate.value == rates[row.currencyCode.value]
    ensures row.estimatedGdp.Some?
    ensures !RateTruthy(row.exchangeRate) ==> row.estimatedGdp == Some(0.0)
    ensures RateTruthy(row.exchangeRate) ==>
      row.estimatedGdp == CalculateGdp(c.population, row.exchangeRate, random)
    ensures row.lastRefreshedAt == now
  {
    var currencyCode := ExtractCurrencyCode(c.currencies);
    var exchangeRate :=
      if Truthy(currencyCode) && currencyCode.value in rates then Some(rates[currencyCode.value]) else None;
    var estimatedGdp :=
      if Truthy(currencyCode) && RateTruthy(exchangeRate) then CalculateGdp(c.population, exchangeRate, random)
      else Some(0.0);
    CountryRow(
      c.name,
      OrNull(c.capital),
      OrNull(c.region),
      c.population,
      currencyCode,
      exchangeRate,
      estimatedGdp,
      OrNull(c.flag),
      now)
  }

  /** `processCountryData`: one row per raw country, in the same order.
      `clock[i]` is the clock reading made while processing the i-th
      country; `randoms[i]` is the random draw it makes, used only when
      the country has a non-empty code and a non-zero rate. */
  function ProcessCountryData(countries: seq<RawCountry>, rates: RateTable, randoms: seq<real>, clock: seq<Timestamp>): (rows: seq<CountryRow>)
    requires |randoms| == |countries| && |clock| == |countries|
    ensures |rows| == |countries|
    ensures forall i :: 0 <= i < |rows| ==> rows[i] == ProcessCountry(countries[i], rates, randoms[i], clock[i])
  {
    if countries == [] then []
    else [ProcessCountry(countries[0], rates, randoms[0], clock[0])]
         + ProcessCountryData(countries[1..], rates, randoms[1..], clock[1..])
  }

  /** A country with no currencies gets no code, no rate and an estimate of 0. */
  lemma NoCurrenciesGivesZero(c: RawCountry, rates: RateTable, random: real, now: Timestamp)
    requires c.currencies.None? || c.currencies == Some([])
    ensures var row := ProcessCountry(c, rates, random, now);
      row.currencyCode.None? && row.exchangeRate.None? && row.estimatedGdp == Some(0.0)
  {
  }

  /** The worked example: population 1000, one currency "WKD" at rate 2.0.
      The estimate lies in [500000, 1000000] whatever the draw. */
  lemma WakandaExample(random: real, now: Timestamp)
    requires 0.0 <= random < 1.0
    ensures var rows := ProcessCountryData(
        [RawCountry("Wakanda", None, None, 1000, Some([CurrencyDescriptor(Some("WKD"))]), None)],
        map["WKD" := 2.0], [random], [now]);
      && |rows| == 1
      && rows[0].currencyCode == Some("WKD")
      && rows[0].exchangeRate == Some(2.0)
      && rows[0].estimatedGdp.Some?
      && 500000.0 <= rows[0].estimatedGdp.value <= 1000000.0
      && rows[0].lastRefreshedAt == now
  {
    var c := RawCountry("Wakanda", None, None, 1000, Some([CurrencyDescriptor(Some("WKD"))]), None);
    var rows := ProcessCountryData([c], map["WKD" := 2.0], [random], [now]);
    assert rows[0] == ProcessCountry(c, map["WKD" := 2.0], random, now);
    assert ExtractCurrencyCode(c.currencies) == Some("WKD");
    CalculateGdpBounds(1000, 2.0, random);
    assert Exact(1000, 1000.0, 2.0) == 500000.0;
    assert Exact(1000, 2000.0, 2.0) == 1000000.0;
    Round2Exact(500000.0);
    Round2Exact(1000000.0);
  }
}
