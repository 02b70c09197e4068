/** The orderings the `countries` queries ask for (`ORDER BY estimated_gdp
    DESC`, `ORDER BY estimated_gdp ASC`, `ORDER BY name ASC`) and the sort
    the database engine performs for them. Rows that tie under an ordering
    may come out in any order; the sort here picks one such order. */
module RowOrder {
  import opened Wrappers
  import opened DataProcessor
  import Text

  datatype Ordering = GdpDesc | GdpAsc | NameAsc

  /** `x` sorts no later than `y` in ascending order of nullable numbers,
      with NULL after every value, as PostgreSQL sorts by default. */
  predicate GdpLe(x: Option<real>, y: Option<real>) {
    y.None? || (x.Some? && x.value <= y.value)
  }

  /** Row `a` may stand before row `b` under ordering `o`. */
  predicate Precedes(o: Ordering, a: CountryRow, b: CountryRow) {
    match o
    case GdpDesc => GdpLe(b.estimatedGdp, a.estimatedGdp)
    case GdpAsc => GdpLe(a.estimatedGdp, b.estimatedGdp)
    case NameAsc => Text.LexLe(a.name, b.name)
  }

  lemma PrecedesTotal(o: Ordering, a: CountryRow, b: CountryRow)
    ensures Precedes(o, a, b) || Precedes(o, b, a)
  {
    if o == NameAsc {
      Text.LexLeTotal(a.name, b.name);
    }
  }

  lemma PrecedesTransitive(o: Ordering, a: CountryRow, b: CountryRow, c: CountryRow)
    requires Precedes(o, a, b) && Precedes(o, b, c)
    ensures Precedes(o, a, c)
  {
    if o == NameAsc {
      Text.LexLeTransitive(a.name, b.name, c.name);
    }
  }

  predicate Sorted(o: Ordering, s: seq<CountryRow>) {
    forall i, j :: 0 <= i < j < |s| ==> Precedes(o, s[i], s[j])
  }

  /** Inserts `x` before the first element it may precede. */
  function Insert(o: Ordering, x: CountryRow, s: seq<CountryRow>): (r: seq<CountryRow>)
    ensures multiset(r) == multiset(s) + multiset{x}
  {
    if s == [] then [x]
    else if Precedes(o, x, s[0]) then [x] + s
    else
      assert s == [s[0]] + s[1..];
      [s[0]] + Insert(o, x, s[1..])
  }

  /** A row that may precede every element of a sorted sequence may head it. */
  lemma SortedCons(o: Ordering, h: CountryRow, t: seq<CountryRow>)
    requires Sorted(o, t)
    requires forall j :: 0 <= j < |t| ==> Precedes(o, h, t[j])
    ensures Sorted(o, [h] + t)
  {
    var r := [h] + t;
    forall i, j | 0 <= i < j < |r| ensures Precedes(o, r[i], r[j]) {
      assert r[j] == t[j - 1];
      if i > 0 {
        assert r[i] == t[i - 1];
      }
    }
  }

  /** Every element of `Insert(o, x, s)` is `x` or an element of `s`. */
  lemma InsertFrom(o: Ordering, x: CountryRow, s: seq<CountryRow>, j: int)
    requires 0 <= j < |Insert(o, x, s)|
    ensures Insert(o, x, s)[j] == x || Insert(o, x, s)[j] in s
  {
    var y := Insert(o, x, s)[j];
    assert y in multiset(Insert(o, x, s));
    assert y in multiset(s) + multiset{x};
  }

  lemma {:induction false} InsertSorted(o: Ordering, x: CountryRow, s: seq<CountryRow>)
    requires Sorted(o, s)
    ensures Sorted(o, Insert(o, x, s))
  {
    if s == [] {
    } else if Precedes(o, x, s[0]) {
      forall j | 0 <= j < |s| ensures Precedes(o, x, s[j]) {
        if j > 0 {
          PrecedesTransitive(o, x, s[0], s[j]);
        }
      }
      SortedCons(o, x, s);
    } else {
      var tail := Insert(o, x, s[1..]);
      InsertSorted(o, x, s[1..]);
      PrecedesTotal(o, x, s[0]);
      forall j | 0 <= j < |tail| ensures Precedes(o, s[0], tail[j]) {
        InsertFrom(o, x, s[1..], j);
        if tail[j] != x {
          var k :| 0 <= k < |s[1..]| && s[1..][k] == tail[j];
          assert s[k + 1] == tail[j];
        }
      }
      SortedCons(o, s[0], tail);
    }
  }

  /** Sorts rows under `o` by repeated insertion. */
  function SortRows(o: Ordering, s: seq<CountryRow>): (r: seq<CountryRow>)
    ensures multiset(r) == multiset(s)
  {
    if s == [] then []
    else
      assert s == [s[0]] + s[1..];
      Insert(o, s[0], SortRows(o, s[1..]))
  }

  /** The engine's sort puts rows in order under `o`. */
  lemma {:induction false} SortRowsSorted(o: Ordering, s: seq<CountryRow>)
    ensures Sorted(o, SortRows(o, s))
  {
    if s != [] {
      SortRowsSorted(o, s[1..]);
      InsertSorted(o, s[0], SortRows(o, s[1..]));
    }
  }

  /** No two rows of `s` share a name. */
  predicate DistinctNames(s: seq<CountryRow>) {
    forall i, j :: 0 <= i < j < |s| ==> s[i].name != s[j].name
  }

  /** The first row of a sequence sorted by name has the least name. */
  lemma HeadHasLeastName(s: seq<CountryRow>, k: int)
    requires Sorted(NameAsc, s) && 0 <= k < |s|
    ensures Text.LexLe(s[0].name, s[k].name)
  {
    if k == 0 {
      Text.LexLeTotal(s[0].name, s[0].name);
    }
  }

  /** Two arrangements of the same rows that start alike continue alike. */
  lemma SameTails(s1: seq<CountryRow>, s2: seq<CountryRow>)
    requires multiset(s1) == multiset(s2)
    requires s1 != [] && s2 != [] && s1[0] == s2[0]
    ensures multiset(s1[1..]) == multiset(s2[1..])
  {
    assert s1 == [s1[0]] + s1[1..] && s2 == [s2[0]] + s2[1..];
    assert multiset(s1) == multiset{s1[0]} + multiset(s1[1..]);
    assert multiset(s2) == multiset{s2[0]} + multiset(s2[1..]);
    forall x ensures multiset(s1[1..])[x] == multiset(s2[1..])[x] {
      assert multiset(s1)[x] == multiset{s1[0]}[x] + multiset(s1[1..])[x];
      assert multiset(s2)[x] == multiset{s2[0]}[x] + multiset(s2[1..])[x];
    }
  }

  /** Two name-sorted arrangements of the same rows with distinct names
      start with the same row. */
  lemma SameHead(s1: seq<CountryRow>, s2: seq<CountryRow>)
    requires multiset(s1) == multiset(s2) && s1 != [] && s2 != []
    requires Sorted(NameAsc, s1) && Sorted(NameAsc, s2)
    requires DistinctNames(s1)
    ensures s1[0] == s2[0]
  {
    assert s1[0] in multiset(s2) && s2[0] in multiset(s1);
    var j :| 0 <= j < |s2| && s2[j] == s1[0];
    var i :| 0 <= i < |s1| && s1[i] == s2[0];
    HeadHasLeastName(s1, i);
    HeadHasLeastName(s2, j);
    Text.LexLeAntisymmetric(s1[0].name, s2[0].name);
    assert s1[0].name == s1[i].name;
  }

  /** Under `ORDER BY name` the result is determined by its rows when the
      names are distinct: two sorted arrangements of the same rows are equal. */
  lemma {:induction false} NameSortedUnique(s1: seq<CountryRow>, s2: seq<CountryRow>)
    requires multiset(s1) == multiset(s2)
    requires Sorted(NameAsc, s1) && Sorted(NameAsc, s2)
    requires DistinctNames(s1)
    ensures s1 == s2
    decreases |s1|
  {
    assert |s1| == |multiset(s1)| == |multiset(s2)| == |s2|;
    if s1 != [] {
      SameHead(s1, s2);
      SameTails(s1, s2);
      NameSortedUnique(s1[1..], s2[1..]);
      assert s1 == [s1[0]] + s1[1..] && s2 == [s2[0]] + s2[1..];
    }
  }

  /** Two positions holding the same element make it occur at least twice. */
  lemma RepeatedElement<T>(s: seq<T>, i: int, j: int)
    requires 0 <= i < j < |s| && s[i] == s[j]
    ensures multiset(s)[s[i]] >= 2
  {
    assert s == s[..j] + s[j..];
    assert s[i] in s[..j];
    assert s[j] in s[j..];
    assert multiset(s) == multiset(s[..j]) + multiset(s[j..]);
  }
}
