/** The `countries` table and the statements the `Country` model runs on it.
    The table is held in memory as a map from the (case-sensitive) `name`
    key to its row; each static method of the model becomes a method of the
    class `Country`, which owns the table. */
module CountryModel {
  import opened Wrappers
  import opened DataProcessor
  import opened RowOrder
  import Text

  /** Rows by their `name`, the unique key that `ON CONFLICT (name)` relies on. */
  type Table = map<string, CountryRow>

  /** Every row is stored under its own name. */
  ghost predicate KeyedByName(rows: Table) {
    forall k :: k in rows ==> rows[k].name == k
  }

  /** `r` is one of the rows of the table. */
  ghost predicate InTable(rows: Table, r: CountryRow) {
    r.name in rows && rows[r.name] == r
  }

  // ---------------------------------------------------------------- upsert

  /** The table after `INSERT ... ON CONFLICT (name) DO UPDATE SET` every
      other column: the row keyed by `r.name` becomes `r`; no other row
      changes; the table grows by one row exactly when the name was absent. */
  function Upserted(rows: Table, r: CountryRow): (t: Table)
    ensures r.name in t && t[r.name] == r
    ensures forall k :: k != r.name ==> (k in t <==> k in rows)
    ensures forall k :: k != r.name && k in rows ==> t[k] == rows[k]
    ensures |t| == if r.name in rows then |rows| else |rows| + 1
    ensures KeyedByName(rows) ==> KeyedByName(t)
  {
    var t := rows[r.name := r];
    assert t.Keys == rows.Keys + {r.name};
    t
  }

  /** Upserting a row a second time changes nothing; upserting a second row
      with the same name leaves only the second one, and the count unchanged. */
  lemma UpsertRepeated(rows: Table, a: CountryRow, b: CountryRow)
    requires a.name == b.name
    ensures Upserted(Upserted(rows, a), a) == Upserted(rows, a)
    ensures Upserted(Upserted(rows, a), b) == Upserted(rows, b)
    ensures |Upserted(Upserted(rows, a), b)| == |Upserted(rows, a)|
  {
  }

  /** The table after upserting `rs` one after another. */
  function UpsertAll(rows: Table, rs: seq<CountryRow>): Table
  {
    if rs == [] then rows else Upserted(UpsertAll(rows, rs[..|rs| - 1]), rs[|rs| - 1])
  }

  /** The names that occur in `rs`. */
  function NamesOf(rs: seq<CountryRow>): set<string> {
    set i | 0 <= i < |rs| :: rs[i].name
  }

  /** No later element of `rs` has the name of `rs[i]`. */
  predicate LastWithName(rs: seq<CountryRow>, i: int)
    requires 0 <= i < |rs|
  {
    forall j :: i < j < |rs| ==> rs[j].name != rs[i].name
  }

  /** After a batch of upserts, the table holds the old names and the batch's
      names; a name of the batch holds the last row of the batch with that
      name; every other row is as it was. */
  lemma {:induction false} UpsertAllEffect(rows: Table, rs: seq<CountryRow>)
    ensures forall k :: k in UpsertAll(rows, rs) <==> k in rows || k in NamesOf(rs)
    ensures forall i :: 0 <= i < |rs| && LastWithName(rs, i) ==>
      rs[i].name in UpsertAll(rows, rs) && UpsertAll(rows, rs)[rs[i].name] == rs[i]
    ensures forall k :: k in rows && k !in NamesOf(rs) ==>
      k in UpsertAll(rows, rs) && UpsertAll(rows, rs)[k] == rows[k]
    ensures KeyedByName(rows) ==> KeyedByName(UpsertAll(rows, rs))
  {
    if rs != [] {
      var init, last := rs[..|rs| - 1], rs[|rs| - 1];
      UpsertAllEffect(rows, init);
      assert NamesOf(rs) == NamesOf(init) + {last.name} by {
        forall k | k in NamesOf(rs) ensures k in NamesOf(init) + {last.name} {
          var i :| 0 <= i < |rs| && rs[i].name == k;
          if i < |rs| - 1 { assert init[i] == rs[i]; }
        }
        forall k | k in NamesOf(init) ensures k in NamesOf(rs) {
          var i :| 0 <= i < |init| && init[i].name == k;
          assert rs[i] == init[i];
        }
      }
      forall i | 0 <= i < |rs| && LastWithName(rs, i)
        ensures rs[i].name in UpsertAll(rows, rs) && UpsertAll(rows, rs)[rs[i].name] == rs[i]
      {
        if i < |rs| - 1 {
          assert init[i] == rs[i];
          assert LastWithName(init, i);
        }
      }
    }
  }

  // ---------------------------------------------------------------- findAll

  /** The query-string filters `findAll` receives; absent parameters are `None`. */
  datatype Filters = Filters(region: Option<string>, currency: Option<string>, sort: Option<string>)

  /** One `AND column = $k` clause of the WHERE; `param` is the `k`. */
  datatype Condition = RegionEquals(param: nat) | CurrencyEquals(param: nat)

  /** `SELECT * FROM countries WHERE 1=1 <conditions> ORDER BY <orderBy>`. */
  datatype Query = Query(conditions: seq<Condition>, orderBy: Ordering)

  /** Every placeholder `$k` of the query names one of the parameters. */
  predicate WellFormed(q: Query, params: seq<string>) {
    forall c :: c in q.conditions ==> 1 <= c.param <= |params|
  }

  /** Whether `row` satisfies one condition; a NULL column equals nothing. */
  predicate Holds(c: Condition, params: seq<string>, row: CountryRow) {
    1 <= c.param <= |params| &&
    match c
    case RegionEquals(k) => row.region == Some(params[k - 1])
    case CurrencyEquals(k) => row.currencyCode == Some(params[k - 1])
  }

  /** Whether the WHERE clause of `q` accepts `row`. */
  predicate Selects(q: Query, params: seq<string>, row: CountryRow) {
    forall c :: c in q.conditions ==> Holds(c, params, row)
  }

  /** What `findAll` is meant to select: the region and the currency code
      equal the filters that are given and non-empty. */
  predicate MatchesFilters(row: CountryRow, f: Filters) {
    && (Truthy(f.region) ==> row.region == f.region)
    && (Truthy(f.currency) ==> row.currencyCode == f.currency)
  }

  /** The ordering `findAll` asks for. */
  function SortOrder(sort: Option<string>): (o: Ordering)
    ensures o == GdpDesc <==> sort == Some("gdp_desc")
    ensures o == GdpAsc <==> sort == Some("gdp_asc")
  {
    if sort == Some("gdp_desc") then GdpDesc
    else if sort == Some("gdp_asc") then GdpAsc
    else NameAsc
  }

  /** The query text and parameter list `findAll` assembles clause by
      clause: each placeholder refers to the right parameter, the WHERE
      clause accepts exactly the rows matching the filters, and the ORDER BY
      follows `sort`. */
  method BuildFindAllQuery(f: Filters) returns (q: Query, params: seq<string>)
    ensures WellFormed(q, params)
    ensures |params| == |q.conditions|
    ensures forall i :: 0 <= i < |q.conditions| ==> q.conditions[i].param == i + 1
    ensures forall row :: Selects(q, params, row) <==> MatchesFilters(row, f)
    ensures q.orderBy == SortOrder(f.sort)
  {
    var conditions: seq<Condition> := [];
    params := [];
    var paramIndex := 1;
    if Truthy(f.region) {
      conditions := conditions + [RegionEquals(paramIndex)];
      params := params + [f.region.value];
      paramIndex := paramIndex + 1;
    }
    if Truthy(f.currency) {
      conditions := conditions + [CurrencyEquals(paramIndex)];
      params := params + [f.currency.value];
      paramIndex := paramIndex + 1;
    }
    q := Query(conditions, SortOrder(f.sort));
    forall row ensures Selects(q, params, row) <==> MatchesFilters(row, f) {
      if Truthy(f.region) && !Truthy(f.currency) {
        assert q.conditions == [RegionEquals(1)] && params == [f.region.value];
        assert Selects(q, params, row) <==> Holds(RegionEquals(1), params, row);
      } else if Truthy(f.region) && Truthy(f.currency) {
        assert q.conditions == [RegionEquals(1), CurrencyEquals(2)];
        assert params == [f.region.value, f.currency.value];
        assert Selects(q, params, row) <==>
          Holds(RegionEquals(1), params, row) && Holds(CurrencyEquals(2), params, row);
      } else if Truthy(f.currency) {
        assert q.conditions == [CurrencyEquals(1)] && params == [f.currency.value];
        assert Selects(q, params, row) <==> Holds(CurrencyEquals(1), params, row);
      } else {
        assert q.conditions == [];
      }
    }
  }

  /** The rows of the table that satisfy `p`. */
  ghost function Where(rows: Table, p: CountryRow -> bool): set<CountryRow> {
    set k | k in rows && p(rows[k]) :: rows[k]
  }

  /** The rows `findAll` must return for filters `f`. */
  ghost function FilteredRows(rows: Table, f: Filters): set<CountryRow> {
    set k | k in rows && MatchesFilters(rows[k], f) :: rows[k]
  }

  // ---------------------------------------------------------------- by name

  /** `LOWER(name) = LOWER($1)`: equality up to case, so it holds between
      a name and itself, only between names of equal length, and is
      unchanged when the argument is lower-cased first. */
  function NameMatches(stored: string, n: string): (m: bool)
    ensures stored == n ==> m
    ensures m ==> |stored| == |n|
    ensures m <==> Text.Lower(stored) == Text.Lower(Text.Lower(n))
  {
    Text.LowerIdempotent(n);
    Text.Lower(stored) == Text.Lower(n)
  }

  /** The names that `n` matches case-insensitively. */
  function MatchingNames(rows: Table, n: string): set<string> {
    set k | k in rows && NameMatches(k, n)
  }

  /** The table after `DELETE ... WHERE LOWER(name) = LOWER($1)`: every
      matching row is gone, every other row is kept, and the number of
      deleted rows is the number of matching names. */
  function Deleted(rows: Table, n: string): (t: Table)
    ensures forall k :: k in t <==> k in rows && !NameMatches(k, n)
    ensures forall k :: k in t ==> t[k] == rows[k]
    ensures |t| == |rows| - |MatchingNames(rows, n)|
    ensures KeyedByName(rows) ==> KeyedByName(t)
  {
    var t := map k | k in rows && !NameMatches(k, n) :: rows[k];
    assert t.Keys == rows.Keys - MatchingNames(rows, n);
    assert rows.Keys == t.Keys + MatchingNames(rows, n);
    t
  }

  /** The key is case-sensitive but lookups are not: two rows whose names
      differ only in case are two rows, and one delete removes both. */
  lemma CaseVariantsDeleted(a: CountryRow, b: CountryRow, n: string)
    requires a.name != b.name && NameMatches(a.name, n) && NameMatches(b.name, n)
    ensures |Upserted(Upserted(map[], a), b)| == 2
    ensures MatchingNames(Upserted(Upserted(map[], a), b), n) == {a.name, b.name}
    ensures Deleted(Upserted(Upserted(map[], a), b), n) == map[]
  {
    var t := Upserted(Upserted(map[], a), b);
    assert t.Keys == {a.name, b.name};
    var d := Deleted(t, n);
    assert d.Keys == {};
  }

  /** "France" and "FRANCE" are two rows, and a delete of "france" removes both. */
  lemma CaseVariantsBothDeleted(a: CountryRow, b: CountryRow)
    requires a.name == "France" && b.name == "FRANCE"
    ensures |Upserted(Upserted(map[], a), b)| == 2
    ensures MatchingNames(Upserted(Upserted(map[], a), b), "france") == {"France", "FRANCE"}
    ensures Deleted(Upserted(Upserted(map[], a), b), "france") == map[]
  {
    FranceSpellings();
    CaseVariantsDeleted(a, b, "france");
  }

  lemma FranceSpellings()
    ensures "France" != "FRANCE"
    ensures NameMatches("France", "france") && NameMatches("FRANCE", "france")
  {
    assert "France"[1] != "FRANCE"[1];
    assert Text.Lower("France") == "france";
    assert Text.Lower("FRANCE") == "france";
    assert Text.Lower("france") == "france";
  }

  // ---------------------------------------------------------------- aggregates

  /** `last` is `MAX(last_refreshed_at)`: NULL on an empty table, otherwise
      a timestamp some row carries and no row exceeds. */
  ghost predicate IsLastRefresh(rows: Table, last: Option<Timestamp>) {
    match last
    case None => rows == map[]
    case Some(t) =>
      && (exists k :: k in rows && rows[k].lastRefreshedAt == t)
      && (forall k :: k in rows ==> rows[k].lastRefreshedAt <= t)
  }

  /** A row of `SELECT name, estimated_gdp`. */
  datatype TopEntry = TopEntry(name: string, estimatedGdp: real)

  /** The rows with a non-null estimate. */
  ghost function RatedRows(rows: Table): set<CountryRow> {
    set k | k in rows && rows[k].estimatedGdp.Some? :: rows[k]
  }

  function EntryNames(top: seq<TopEntry>): set<string> {
    set i | 0 <= i < |top| :: top[i].name
  }

  function Min(a: nat, b: nat): nat {
    if a < b then a else b
  }

  /** `top` is an answer to `WHERE estimated_gdp IS NOT NULL ORDER BY
      estimated_gdp DESC LIMIT limit`: as many entries as the limit allows,
      each the projection of a distinct row with a non-null estimate, in
      non-increasing order, and no row left out has a larger estimate than
      any row taken. Among ties, any choice is allowed. */
  ghost predicate IsTopByGdp(rows: Table, limit: nat, top: seq<TopEntry>) {
    && |top| == Min(limit, |RatedRows(rows)|)
    && (forall i :: 0 <= i < |top| ==>
          top[i].name in rows && rows[top[i].name].estimatedGdp == Some(top[i].estimatedGdp))
    && (forall i, j :: 0 <= i < j < |top| ==>
          top[i].estimatedGdp >= top[j].estimatedGdp && top[i].name != top[j].name)
    && (forall k, i :: k in rows && rows[k].estimatedGdp.Some? && k !in EntryNames(top) && 0 <= i < |top| ==>
          rows[k].estimatedGdp.value <= top[i].estimatedGdp)
  }

  /** The projection `SELECT name, estimated_gdp` of rows with an estimate. */
  function Project(s: seq<CountryRow>): (top: seq<TopEntry>)
    requires forall i :: 0 <= i < |s| ==> s[i].estimatedGdp.Some?
    ensures |top| == |s|
    ensures forall i :: 0 <= i < |s| ==> top[i] == TopEntry(s[i].name, s[i].estimatedGdp.value)
  {
    seq(|s|, i requires 0 <= i < |s| => TopEntry(s[i].name, s[i].estimatedGdp.value))
  }

  /** A sequence holding each rated row once consists of distinct table
      rows with an estimate, as many as there are rated rows. */
  lemma RatedSorted(rows: Table, sorted: seq<CountryRow>)
    requires KeyedByName(rows)
    requires multiset(sorted) == multiset(RatedRows(rows))
    ensures |sorted| == |RatedRows(rows)|
    ensures forall i :: 0 <= i < |sorted| ==> InTable(rows, sorted[i]) && sorted[i].estimatedGdp.Some?
    ensures forall i, j :: 0 <= i < j < |sorted| ==> sorted[i].name != sorted[j].name
  {
    assert |multiset(sorted)| == |sorted|;
    forall i | 0 <= i < |sorted|
      ensures InTable(rows, sorted[i]) && sorted[i].estimatedGdp.Some?
    {
      assert sorted[i] in multiset(sorted);
    }
    forall i, j | 0 <= i < j < |sorted| ensures sorted[i] != sorted[j] {
      if sorted[i] == sorted[j] {
        RepeatedElement(sorted, i, j);
        assert false;
      }
    }
  }

  /** The rows `findAll` selects come from a table keyed by name, so no
      two of them share a name. */
  lemma FilteredDistinct(rows: Table, f: Filters, s: seq<CountryRow>)
    requires KeyedByName(rows)
    requires multiset(s) == multiset(FilteredRows(rows, f))
    ensures DistinctNames(s)
  {
    forall i, j | 0 <= i < j < |s| ensures s[i].name != s[j].name {
      assert s[i] in multiset(s) && s[j] in multiset(s);
      if s[i].name == s[j].name {
        assert s[i] == rows[s[i].name] == s[j];
        RepeatedElement(s, i, j);
        assert false;
      }
    }
  }

  /** With no GDP sort requested, `findAll` has exactly one possible answer:
      names are unique keys, so the name order leaves no ties. */
  lemma FindAllByNameDetermined(rows: Table, f: Filters, s1: seq<CountryRow>, s2: seq<CountryRow>)
    requires KeyedByName(rows) && SortOrder(f.sort) == NameAsc
    requires multiset(s1) == multiset(FilteredRows(rows, f)) && Sorted(NameAsc, s1)
    requires multiset(s2) == multiset(FilteredRows(rows, f)) && Sorted(NameAsc, s2)
    ensures s1 == s2
  {
    FilteredDistinct(rows, f, s1);
    NameSortedUnique(s1, s2);
  }

  /** The first `limit` rows of the rated rows sorted by descending estimate
      are an answer to the top-by-GDP query. */
  lemma TopFromSorted(rows: Table, limit: nat, sorted: seq<CountryRow>)
    requires KeyedByName(rows)
    requires multiset(sorted) == multiset(RatedRows(rows))
    requires Sorted(GdpDesc, sorted)
    ensures forall i :: 0 <= i < |sorted| ==> sorted[i].estimatedGdp.Some?
    ensures IsTopByGdp(rows, limit, Project(sorted[..Min(limit, |sorted|)]))
  {
    RatedSorted(rows, sorted);
    var n := Min(limit, |sorted|);
    var top := Project(sorted[..n]);
    forall i, j | 0 <= i < j < |top|
      ensures top[i].estimatedGdp >= top[j].estimatedGdp && top[i].name != top[j].name
    {
      assert Precedes(GdpDesc, sorted[i], sorted[j]);
    }
    forall k, i | k in rows && rows[k].estimatedGdp.Some? && k !in EntryNames(top) && 0 <= i < |top|
      ensures rows[k].estimatedGdp.value <= top[i].estimatedGdp
    {
      assert rows[k] in RatedRows(rows);
      assert rows[k] in multiset(sorted);
      var j :| 0 <= j < |sorted| && sorted[j] == rows[k];
      if j < n {
        assert false;
      }
      assert Precedes(GdpDesc, sorted[i], sorted[j]);
    }
  }

  // ---------------------------------------------------------------- the table

  class Country {
    var rows: Table

    ghost predicate Valid()
      reads this
    {
      KeyedByName(rows)
    }

    /** An empty `countries` table. */
    constructor ()
      ensures Valid() && rows == map[]
    {
      rows := map[];
    }

    /** `upsert(countryData)`. */
    method Upsert(r: CountryRow)
      requires Valid()
      modifies this
      ensures Valid()
      ensures rows == Upserted(old(rows), r)
    {
      rows := Upserted(rows, r);
    }

    /** Scans the table for the rows satisfying `p`; each comes out once. */
    method Select(p: CountryRow -> bool) returns (selected: seq<CountryRow>)
      requires Valid()
      ensures multiset(selected) == multiset(Where(rows, p))
    {
      selected := [];
      var pending := rows.Keys;
      while pending != {}
        invariant pending <= rows.Keys
        invariant multiset(selected) == multiset(set k | k in rows && k !in pending && p(rows[k]) :: rows[k])
        decreases pending
      {
        var k :| k in pending;
        ghost var before := set k' | k' in rows && k' !in pending && p(rows[k']) :: rows[k'];
        pending := pending - {k};
        ghost var after := set k' | k' in rows && k' !in pending && p(rows[k']) :: rows[k'];
        if p(rows[k]) {
          assert after == before + {rows[k]};
          assert rows[k] !in before;
          selected := selected + [rows[k]];
        } else {
          assert after == before;
        }
      }
      assert (set k | k in rows && k !in pending && p(rows[k]) :: rows[k]) == Where(rows, p);
    }

    /** `findAll(filters)`: every row matching the filters, each once, in
        the order `sort` asks for. */
    method FindAll(f: Filters) returns (result: seq<CountryRow>)
      requires Valid()
      ensures multiset(result) == multiset(FilteredRows(rows, f))
      ensures Sorted(SortOrder(f.sort), result)
    {
      var q, params := BuildFindAllQuery(f);
      var selected := Select(row => Selects(q, params, row));
      assert Where(rows, row => Selects(q, params, row)) == FilteredRows(rows, f);
      result := SortRows(q.orderBy, selected);
      SortRowsSorted(q.orderBy, selected);
    }

    /** `findByName(n)`: some row whose name matches `n` case-insensitively
        (which one, when several match, is not fixed), or nothing exactly
        when no name matches. */
    method FindByName(n: string) returns (found: Option<CountryRow>)
      requires Valid()
      ensures found.None? <==> MatchingNames(rows, n) == {}
      ensures found.Some? ==> InTable(rows, found.value) && NameMatches(found.value.name, n)
    {
      if k :| k in rows && NameMatches(k, n) {
        assert k in MatchingNames(rows, n);
        found := Some(rows[k]);
      } else {
        found := None;
      }
    }

    /** `deleteByName(n)`: removes every row whose name matches `n`
        case-insensitively and reports whether the row count was positive. */
    method DeleteByName(n: string) returns (deleted: bool)
      requires Valid()
      modifies this
      ensures Valid()
      ensures rows == Deleted(old(rows), n)
      ensures deleted <==> MatchingNames(old(rows), n) != {}
      ensures MatchingNames(rows, n) == {}
    {
      var remaining := Deleted(rows, n);
      var rowCount := |rows| - |remaining|;
      rows := remaining;
      deleted := rowCount > 0;
    }

    /** `count()`: the number of rows. */
    method Count() returns (total: nat)
      ensures total == |rows|
    {
      total := |rows|;
    }

    /** `getLastRefreshTime()`: `MAX(last_refreshed_at)`. */
    method GetLastRefreshTime() returns (last: Option<Timestamp>)
      ensures IsLastRefresh(rows, last)
    {
      last := None;
      var pending := rows.Keys;
      while pending != {}
        invariant pending <= rows.Keys
        invariant last.None? <==> pending == rows.Keys
        invariant last.Some? ==>
          && (exists k :: k in rows && k !in pending && rows[k].lastRefreshedAt == last.value)
          && (forall k :: k in rows && k !in pending ==> rows[k].lastRefreshedAt <= last.value)
        decreases pending
      {
        var k :| k in pending;
        var t := rows[k].lastRefreshedAt;
        if last.None? || last.value < t {
          last := Some(t);
        }
        pending := pending - {k};
      }
      if last.None? {
        assert rows.Keys == {};
      }
    }

    /** `getTopByGDP(limit)`. */
    method GetTopByGdp(limit: nat) returns (top: seq<TopEntry>)
      requires Valid()
      ensures IsTopByGdp(rows, limit, top)
    {
      var rated := Select((row: CountryRow) => row.estimatedGdp.Some?);
      assert Where(rows, (row: CountryRow) => row.estimatedGdp.Some?) == RatedRows(rows);
      var sorted := SortRows(GdpDesc, rated);
      SortRowsSorted(GdpDesc, rated);
      TopFromSorted(rows, limit, sorted);
      top := Project(sorted[..Min(limit, |sorted|)]);
    }
  }
}
