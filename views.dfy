/** The derived views: the year interval, the filtered rows and the aggregates that the
    timeline, the disposition bars and the summary panel are drawn from. */
module Views {
  import opened Wrappers
  import opened Config
  import opened Records
  import opened Tally
  import opened Sorting

  // ---- fullYearRange

  /** fullYearRange([y0, y1]): every year from `y0` to `y1`, ascending; empty when the
      interval is empty (an array of non-positive length). */
  function FullYearRange(y0: int, y1: int): (r: seq<int>)
    ensures |r| == if y0 <= y1 then y1 - y0 + 1 else 0
    ensures forall i :: 0 <= i < |r| ==> r[i] == y0 + i
    ensures forall i, j :: 0 <= i < j < |r| ==> r[i] < r[j]
    ensures forall y :: y in r <==> y0 <= y <= y1
  {
    if y1 < y0 then []
    else
      var r := seq(y1 - y0 + 1, i => y0 + i);
      assert forall y :: y in r <==> y0 <= y <= y1 by {
        forall y | y0 <= y <= y1 ensures y in r {
          assert r[y - y0] == y;
        }
      }
      r
  }

  // ---- filteredData

  /** The filter of filteredData: the year lies in the window and the category is enabled. */
  predicate Selected(r: Record, years: (int, int), fado: set<string>) {
    years.0 <= r.year <= years.1 && r.fado in fado
  }

  /** filteredData(): the selected rows, in their original order. */
  function FilteredData(data: seq<Record>, years: (int, int), fado: set<string>): (rows: seq<Record>)
    ensures |rows| <= |data|
    ensures forall i :: 0 <= i < |rows| ==> Selected(rows[i], years, fado)
  {
    if |data| == 0 then []
    else
      var prefix, last := data[..|data| - 1], data[|data| - 1];
      assert data == prefix + [last];
      FilteredData(prefix, years, fado) + if Selected(last, years, fado) then [last] else []
  }

  /** The indices of the selected rows, ascending. */
  ghost function SelectedIndices(data: seq<Record>, years: (int, int), fado: set<string>): (idx: seq<nat>)
    ensures forall k :: 0 <= k < |idx| ==> idx[k] < |data|
    ensures forall k, l :: 0 <= k < l < |idx| ==> idx[k] < idx[l]
    ensures forall i :: 0 <= i < |data| ==> (i in idx <==> Selected(data[i], years, fado))
  {
    if |data| == 0 then []
    else
      var n := |data| - 1;
      var prefix := data[..n];
      assert forall i :: 0 <= i < n ==> prefix[i] == data[i];
      SelectedIndices(prefix, years, fado) + if Selected(data[n], years, fado) then [n] else []
  }

  /** filteredData is exactly the selected rows in their original order: its k-th row is the
      row at the k-th selected index. */
  lemma {:induction false} FilteredIsOrderedSelection(data: seq<Record>, years: (int, int), fado: set<string>)
    ensures |FilteredData(data, years, fado)| == |SelectedIndices(data, years, fado)|
    ensures forall k :: 0 <= k < |FilteredData(data, years, fado)| ==>
      FilteredData(data, years, fado)[k] == data[SelectedIndices(data, years, fado)[k]]
  {
    if |data| > 0 {
      var n := |data| - 1;
      var prefix, last := data[..n], data[n];
      FilteredIsOrderedSelection(prefix, years, fado);
      assert forall i :: 0 <= i < n ==> prefix[i] == data[i];
      var rows, rest := FilteredData(data, years, fado), FilteredData(prefix, years, fado);
      var idx, restIdx := SelectedIndices(data, years, fado), SelectedIndices(prefix, years, fado);
      if Selected(last, years, fado) {
        assert rows == rest + [last] && idx == restIdx + [n];
        SelectionAppend(data, n, rest, restIdx);
      } else {
        assert rows == rest && idx == restIdx;
        forall k | 0 <= k < |rows| ensures rows[k] == data[idx[k]] {
          assert rows[k] == prefix[restIdx[k]];
        }
      }
    }
  }

  /** Appending the last row to a selection of the earlier rows keeps every row at its index. */
  lemma SelectionAppend(data: seq<Record>, n: nat, rest: seq<Record>, restIdx: seq<nat>)
    requires n == |data| - 1 && |rest| == |restIdx|
    requires forall k :: 0 <= k < |rest| ==> restIdx[k] < n && rest[k] == data[..n][restIdx[k]]
    ensures forall k :: 0 <= k < |rest| + 1 ==> (rest + [data[n]])[k] == data[(restIdx + [n])[k]]
  {
    forall k | 0 <= k < |rest| + 1 ensures (rest + [data[n]])[k] == data[(restIdx + [n])[k]] {
      if k < |rest| {
        assert (rest + [data[n]])[k] == rest[k] && (restIdx + [n])[k] == restIdx[k];
      }
    }
  }

  /** Widening the year window or enabling more categories never drops a row. */
  lemma {:induction false} FilteredMonotone(data: seq<Record>, years: (int, int), fado: set<string>,
                                            wider: (int, int), more: set<string>)
    requires wider.0 <= years.0 && years.1 <= wider.1 && fado <= more
    ensures |FilteredData(data, years, fado)| <= |FilteredData(data, wider, more)|
  {
    if |data| > 0 {
      FilteredMonotone(data[..|data| - 1], years, fado, wider, more);
    }
  }

  /** With no category enabled ("Select None") nothing is selected. */
  lemma {:induction false} FilteredEmptyWithoutCategories(data: seq<Record>, years: (int, int))
    ensures FilteredData(data, years, {}) == []
  {
    if |data| > 0 {
      FilteredEmptyWithoutCategories(data[..|data| - 1], years);
    }
  }

  // ---- byYearFado

  /** The (year, category) of every row, in order. */
  function YearFadoPairs(rows: seq<Record>): (p: seq<(int, string)>)
    ensures |p| == |rows|
    ensures forall i :: 0 <= i < |rows| ==> p[i] == (rows[i].year, rows[i].fado)
  {
    seq(|rows|, i requires 0 <= i < |rows| => (rows[i].year, rows[i].fado))
  }

  /** The number of rows with year `y` and category `f`. */
  function CountYearFado(rows: seq<Record>, y: int, f: string): nat {
    multiset(YearFadoPairs(rows))[(y, f)]
  }

  /** The years of the rows, in order. */
  function YearsOf(rows: seq<Record>): (ys: seq<int>)
    ensures |ys| == |rows|
    ensures forall i :: 0 <= i < |rows| ==> ys[i] == rows[i].year
  {
    seq(|rows|, i requires 0 <= i < |rows| => rows[i].year)
  }

  lemma CountConcat(a: seq<Record>, b: seq<Record>, y: int, f: string)
    ensures CountYearFado(a + b, y, f) == CountYearFado(a, y, f) + CountYearFado(b, y, f)
  {
    assert YearFadoPairs(a + b) == YearFadoPairs(a) + YearFadoPairs(b);
  }

  lemma CountOne(r: Record, y: int, f: string)
    ensures CountYearFado([r], y, f) == if (r.year, r.fado) == (y, f) then 1 else 0
  {
    assert YearFadoPairs([r]) == [(r.year, r.fado)];
  }

  /** `(grouped.get(year) || new Map()).get(f) ?? 0` */
  function Lookup(grouped: map<int, map<string, nat>>, y: int, f: string): nat {
    if y in grouped && f in grouped[y] then grouped[y][f] else 0
  }

  /** The nested d3.rollup by year, then by category, counting rows: the years that occur are
      its keys, the categories that occur in a year are that year's keys, and every lookup,
      present or defaulted to 0, is the number of rows of that year and category. */
  function GroupByYearFado(rows: seq<Record>): (grouped: map<int, map<string, nat>>)
    ensures forall y :: y in grouped <==> y in YearsOf(rows)
    ensures forall y, f :: y in grouped ==> (f in grouped[y] <==> CountYearFado(rows, y, f) > 0)
    ensures forall y, f :: Lookup(grouped, y, f) == CountYearFado(rows, y, f)
  {
    if |rows| == 0 then map[]
    else
      var n := |rows| - 1;
      var prefix, last := rows[..n], rows[n];
      var g := GroupByYearFado(prefix);
      var inner := if last.year in g then g[last.year] else map[];
      assert rows == prefix + [last];
      GroupStep(prefix, last, g);
      g[last.year := inner[last.fado := Lookup(g, last.year, last.fado) + 1]]
  }

  /** One more row adds one to its own (year, category) and changes no other lookup. */
  lemma GroupStep(prefix: seq<Record>, last: Record, g: map<int, map<string, nat>>)
    requires forall y :: y in g <==> y in YearsOf(prefix)
    requires forall y, f :: y in g ==> (f in g[y] <==> CountYearFado(prefix, y, f) > 0)
    requires forall y, f :: Lookup(g, y, f) == CountYearFado(prefix, y, f)
    ensures var inner := if last.year in g then g[last.year] else map[];
      var r := g[last.year := inner[last.fado := Lookup(g, last.year, last.fado) + 1]];
      && (forall y :: y in r <==> y in YearsOf(prefix + [last]))
      && (forall y, f :: y in r ==> (f in r[y] <==> CountYearFado(prefix + [last], y, f) > 0))
      && (forall y, f :: Lookup(r, y, f) == CountYearFado(prefix + [last], y, f))
  {
    var rows := prefix + [last];
    var inner := if last.year in g then g[last.year] else map[];
    var r := g[last.year := inner[last.fado := Lookup(g, last.year, last.fado) + 1]];
    assert YearsOf(rows) == YearsOf(prefix) + [last.year];
    forall y, f | y in r ensures f in r[y] <==> CountYearFado(rows, y, f) > 0 {
      CountStep(prefix, last, y, f);
    }
    forall y, f ensures Lookup(r, y, f) == CountYearFado(rows, y, f) {
      CountStep(prefix, last, y, f);
    }
  }

  lemma CountStep(prefix: seq<Record>, last: Record, y: int, f: string)
    ensures CountYearFado(prefix + [last], y, f) ==
      CountYearFado(prefix, y, f) + (if (y, f) == (last.year, last.fado) then 1 else 0)
  {
    CountConcat(prefix, [last], y, f);
    CountOne(last, y, f);
  }

  /** One point of the stacked series: a year and a count per known category. */
  datatype YearEntry = YearEntry(year: int, counts: map<string, nat>)

  /** The loop of byYearFado that fills one year's object: one field per known category,
      its count or 0. */
  method BuildYearEntry(year: int, fadoMap: map<string, nat>) returns (o: YearEntry)
    ensures o.year == year
    ensures o.counts.Keys == FadoSet
    ensures forall f :: f in FadoSet ==> o.counts[f] == if f in fadoMap then fadoMap[f] else 0
  {
    var counts: map<string, nat> := map[];
    for j := 0 to |FadoOrder|
      invariant counts.Keys == set k | 0 <= k < j :: FadoOrder[k]
      invariant forall k :: 0 <= k < j ==> counts[FadoOrder[k]] == if FadoOrder[k] in fadoMap then fadoMap[FadoOrder[k]] else 0
    {
      var f := FadoOrder[j];
      counts := counts[f := if f in fadoMap then fadoMap[f] else 0];
    }
    assert (set k | 0 <= k < |FadoOrder| :: FadoOrder[k]) == FadoSet;
    o := YearEntry(year, counts);
  }

  /** byYearFado(rows): one entry per year of the global extent `years`, ascending, whatever
      the rows are; each entry counts, for every known category, the rows of that year and
      category (0 when there are none). An undefined extent (empty table) gives no entry. */
  method ByYearFado(rows: seq<Record>, years: Option<(int, int)>) returns (series: seq<YearEntry>)
    ensures years.None? ==> series == []
    ensures years.Some? ==> |series| == |FullYearRange(years.value.0, years.value.1)|
    ensures forall i :: 0 <= i < |series| ==> years.Some? && series[i].year == years.value.0 + i
    ensures forall i :: 0 <= i < |series| ==> series[i].counts.Keys == FadoSet
    ensures forall i, f :: 0 <= i < |series| && f in FadoSet ==>
      series[i].counts[f] == CountYearFado(rows, series[i].year, f)
  {
    var grouped := GroupByYearFado(rows);
    if years.None? {
      return [];
    }
    var range := FullYearRange(years.value.0, years.value.1);
    series := [];
    for i := 0 to |range|
      invariant |series| == i
      invariant forall k :: 0 <= k < i ==> series[k].year == range[k]
      invariant forall k :: 0 <= k < i ==> series[k].counts.Keys == FadoSet
      invariant forall k, f :: 0 <= k < i && f in FadoSet ==>
        series[k].counts[f] == CountYearFado(rows, series[k].year, f)
    {
      var year := range[i];
      var fadoMap := if year in grouped then grouped[year] else map[];
      var o := BuildYearEntry(year, fadoMap);
      assert forall f :: o.counts.Keys == FadoSet && f in FadoSet ==> o.counts[f] == Lookup(grouped, year, f);
      series := series + [o];
    }
  }

  /** A year and category with no row in the selection count 0. */
  lemma CountYearFadoAbsent(rows: seq<Record>, y: int, f: string)
    requires forall i :: 0 <= i < |rows| ==> rows[i].year != y || rows[i].fado != f
    ensures CountYearFado(rows, y, f) == 0
  {
    assert (y, f) !in YearFadoPairs(rows);
  }

  /** What the timeline shows for `(y, f)`: the rows of the whole table with that year and
      category when the year is inside the window and the category is enabled, else 0. */
  lemma {:induction false} FilteredCount(data: seq<Record>, years: (int, int), fado: set<string>, y: int, f: string)
    ensures CountYearFado(FilteredData(data, years, fado), y, f) ==
      if years.0 <= y <= years.1 && f in fado then CountYearFado(data, y, f) else 0
  {
    if |data| > 0 {
      var n := |data| - 1;
      var prefix, last := data[..n], data[n];
      FilteredCount(prefix, years, fado, y, f);
      assert data == prefix + [last];
      var tail := if Selected(last, years, fado) then [last] else [];
      assert FilteredData(data, years, fado) == FilteredData(prefix, years, fado) + tail;
      CountConcat(FilteredData(prefix, years, fado), tail, y, f);
      CountConcat(prefix, [last], y, f);
      CountOne(last, y, f);
      if tail == [] {
        assert CountYearFado(tail, y, f) == 0 by { assert YearFadoPairs(tail) == []; }
      }
    }
  }

  // ---- byDisposition and the counts of the summary panel

  /** The sort key for d3.descending on the count: largest count first. */
  function CountDescending<K>(e: (K, nat)): int {
    0 - e.1 as int
  }

  /** The sort key for d3.ascending on the year: earliest year first. */
  function YearAscending(e: (int, nat)): int {
    e.0
  }

  function KeyOf<K>(e: (K, nat)): K {
    e.0
  }

  /** `s.slice(0, n)` */
  function Take<T>(s: seq<T>, n: nat): (r: seq<T>)
    ensures |r| == if |s| <= n then |s| else n
    ensures r == s[..|r|]
  {
    if |s| <= n then s else s[..n]
  }

  /** The tally of `ks` sorted by count, largest first; equal counts keep the order of first
      appearance. */
  function RankByCount<K(==)>(ks: seq<K>): seq<(K, nat)> {
    SortBy(Rollups(ks), CountDescending)
  }

  /** Inserting an entry adds its count to the total. */
  lemma SumInsert<K>(x: (K, nat), t: seq<(K, nat)>, key: ((K, nat)) -> int)
    ensures Sum(Insert(x, t, key)) == Sum(t) + x.1
  {
    var p := InsertPos(x, t, key);
    var a, b := t[..p], t[p..];
    assert t == a + b;
    SumConcat(a + [x], b);
    SumConcat(a, [x]);
    SumConcat(a, b);
    var empty: seq<(K, nat)> := [];
    assert [x][..0] == empty;
  }

  /** A permutation of a tally has the same total. */
  lemma {:induction false} SumSortBy<K>(s: seq<(K, nat)>, key: ((K, nat)) -> int)
    ensures Sum(SortBy(s, key)) == Sum(s)
  {
    if |s| > 0 {
      SumSortBy(s[1..], key);
      SumInsert(s[0], SortBy(s[1..], key), key);
      SumConcat([s[0]], s[1..]);
      var empty: seq<(K, nat)> := [];
      assert [s[0]][..0] == empty;
      assert s == [s[0]] + s[1..];
    }
  }

  lemma DistinctKeysBy<K>(t: seq<(K, nat)>)
    ensures DistinctKeys(t) <==> DistinctBy(t, KeyOf)
  {
    assert forall i :: 0 <= i < |t| ==> KeyOf(t[i]) == t[i].0;
  }

  lemma RankDistinct<K>(ks: seq<K>)
    ensures |RankByCount(ks)| == |Dedup(ks)|
    ensures DistinctKeys(RankByCount(ks))
  {
    var r := Rollups(ks);
    TallyKeys(ks, r);
    DistinctKeysBy(r);
    SortDistinct(r, CountDescending, KeyOf);
    DistinctKeysBy(RankByCount(ks));
  }

  lemma RankCounts<K>(ks: seq<K>)
    ensures forall i :: 0 <= i < |RankByCount(ks)| ==>
      RankByCount(ks)[i].1 == multiset(ks)[RankByCount(ks)[i].0] > 0
    ensures forall k | k in ks :: k in Keys(RankByCount(ks))
  {
    var s := RankByCount(ks);
    forall i | 0 <= i < |s| ensures s[i].1 == multiset(ks)[s[i].0] > 0 {
      assert s[i] in multiset(Rollups(ks));
      TallyEntry(ks, s[i]);
    }
    forall k | k in ks ensures k in Keys(s) {
      var q := RankPosition(ks, k);
      assert Keys(s)[q] == k;
    }
  }

  /** Where an occurring key stands in the ranking, with its count. */
  lemma RankPosition<K>(ks: seq<K>, k: K) returns (q: nat)
    requires k in ks
    ensures q < |RankByCount(ks)| && RankByCount(ks)[q] == (k, multiset(ks)[k])
  {
    var s := RankByCount(ks);
    TallyHasKey(ks, k);
    assert (k, multiset(ks)[k]) in multiset(s);
    q :| 0 <= q < |s| && s[q] == (k, multiset(ks)[k]);
  }

  lemma RankSorted<K>(ks: seq<K>)
    ensures forall i, j :: 0 <= i < j < |RankByCount(ks)| ==> RankByCount(ks)[i].1 >= RankByCount(ks)[j].1
    ensures Sum(RankByCount(ks)) == |ks|
  {
    RankOrdered(ks);
    SumSortBy(Rollups(ks), CountDescending);
  }

  lemma RankOrdered<K>(ks: seq<K>)
    ensures forall i, j :: 0 <= i < j < |RankByCount(ks)| ==> RankByCount(ks)[i].1 >= RankByCount(ks)[j].1
  {
    var s := RankByCount(ks);
    assert SortedBy(s, CountDescending);
    forall i, j | 0 <= i < j < |s| ensures s[i].1 >= s[j].1 {
      assert CountDescending(s[i]) <= CountDescending(s[j]);
    }
  }

  /** `d3.rollups(rows, v => v.length, key).sort((a, b) => d3.descending(a[1], b[1])).slice(0, n)`:
      at most `n` distinct keys, each with its number of occurrences, largest count first; a
      key left out counts no more than any key shown, and the shown counts add up to all the
      keys when no more than `n` distinct keys occur. */
  function TopByCount<K(==)>(ks: seq<K>, n: nat): (top: seq<(K, nat)>)
    ensures |top| == if |Dedup(ks)| <= n then |Dedup(ks)| else n
    ensures DistinctKeys(top)
    ensures forall i :: 0 <= i < |top| ==> top[i].1 == multiset(ks)[top[i].0] > 0
    ensures forall i, j :: 0 <= i < j < |top| ==> top[i].1 >= top[j].1
    ensures forall k | k in ks && k !in Keys(top) ::
      |top| == n && forall i :: 0 <= i < |top| ==> multiset(ks)[k] <= top[i].1
    ensures Sum(top) <= |ks|
    ensures |Dedup(ks)| <= n ==> Sum(top) == |ks|
  {
    TopShape(ks, n);
    TopLeftOut(ks, n);
    TopSum(ks, n);
    Take(RankByCount(ks), n)
  }

  /** The top-n list is a prefix of the ranking, so it keeps its distinct keys, its counts
      and its order. */
  lemma TopShape<K>(ks: seq<K>, n: nat)
    ensures var top := Take(RankByCount(ks), n);
      && |top| == (if |Dedup(ks)| <= n then |Dedup(ks)| else n)
      && DistinctKeys(top)
      && (forall i :: 0 <= i < |top| ==> top[i].1 == multiset(ks)[top[i].0] > 0)
      && (forall i, j :: 0 <= i < j < |top| ==> top[i].1 >= top[j].1)
  {
    var s := RankByCount(ks);
    RankDistinct(ks);
    RankCounts(ks);
    RankSorted(ks);
    var top := Take(s, n);
    assert forall i :: 0 <= i < |top| ==> top[i] == s[i];
  }

  /** A key left out of the top-n list is only left out when the list is full, and it
      counts no more than any key shown. */
  lemma TopLeftOut<K>(ks: seq<K>, n: nat)
    ensures var top := Take(RankByCount(ks), n);
      forall k | k in ks && k !in Keys(top) ::
        |top| == n && forall i :: 0 <= i < |top| ==> multiset(ks)[k] <= top[i].1
  {
    var top := Take(RankByCount(ks), n);
    forall k | k in ks && k !in Keys(top)
      ensures |top| == n && forall i :: 0 <= i < |top| ==> multiset(ks)[k] <= top[i].1
    {
      TopLeftOutKey(ks, n, k);
    }
  }

  /** The keys of a prefix are the first keys of the whole. */
  lemma PrefixKeys<K>(top: seq<(K, nat)>, s: seq<(K, nat)>)
    requires |top| <= |s| && top == s[..|top|]
    ensures forall i :: 0 <= i < |top| ==> Keys(s)[i] in Keys(top)
  {
    forall i | 0 <= i < |top| ensures Keys(s)[i] in Keys(top) {
      assert Keys(top)[i] == top[i].0 == s[i].0;
    }
  }

  lemma TopLeftOutKey<K>(ks: seq<K>, n: nat, k: K)
    requires k in ks && k !in Keys(Take(RankByCount(ks), n))
    ensures var top := Take(RankByCount(ks), n);
      |top| == n && forall i :: 0 <= i < |top| ==> multiset(ks)[k] <= top[i].1
  {
    var s := RankByCount(ks);
    var top := Take(s, n);
    var q := RankPosition(ks, k);
    assert Keys(s)[q] == k;
    PrefixKeys(top, s);
    assert q >= |top|;
    RankOrdered(ks);
    forall i | 0 <= i < |top| ensures multiset(ks)[k] <= top[i].1 {
      assert top[i] == s[i] && s[i].1 >= s[q].1;
    }
  }

  /** The counts of the top-n list add up to at most the number of keys, and to all of them
      when the list is not cut. */
  lemma TopSum<K>(ks: seq<K>, n: nat)
    ensures Sum(Take(RankByCount(ks), n)) <= |ks|
    ensures |Dedup(ks)| <= n ==> Sum(Take(RankByCount(ks), n)) == |ks|
  {
    var s := RankByCount(ks);
    var top := Take(s, n);
    RankDistinct(ks);
    RankSorted(ks);
    SumConcat(top, s[|top|..]);
    assert s == top + s[|top|..];
  }

  /** Where `a` ends, `b` goes on: `a` is a prefix of `b`. */
  ghost predicate IsPrefix<T>(a: seq<T>, b: seq<T>) {
    |a| <= |b| && a == b[..|a|]
  }

  lemma {:induction false} WithKeyOfPrefix<T>(s: seq<T>, n: nat, key: T -> int, c: int)
    requires n <= |s|
    ensures IsPrefix(WithKey(s[..n], key, c), WithKey(s, key, c))
  {
    if n > 0 {
      assert s[..n][1..] == s[1..][..n - 1];
      WithKeyOfPrefix(s[1..], n - 1, key, c);
    } else {
      assert s[..n] == [];
    }
  }

  /** The ties of a top-n list: the keys shown with one same count are the first ones of
      that count in order of first appearance. */
  lemma TopByCountTies<K>(ks: seq<K>, n: nat, c: int)
    ensures IsPrefix(WithKey(TopByCount(ks, n), CountDescending, c), WithKey(Rollups(ks), CountDescending, c))
  {
    var s := RankByCount(ks);
    WithKeyOfPrefix(s, |TopByCount(ks, n)|, CountDescending, c);
    SortStable(Rollups(ks), CountDescending, c);
  }

  /** The disposition of every row, in order. */
  function Dispositions(rows: seq<Record>): (ds: seq<string>)
    ensures |ds| == |rows|
    ensures forall i :: 0 <= i < |rows| ==> ds[i] == rows[i].dispo
  {
    seq(|rows|, i requires 0 <= i < |rows| => rows[i].dispo)
  }

  /** The category of every row, in order. */
  function Fados(rows: seq<Record>): (fs: seq<string>)
    ensures |fs| == |rows|
    ensures forall i :: 0 <= i < |rows| ==> fs[i] == rows[i].fado
  {
    seq(|rows|, i requires 0 <= i < |rows| => rows[i].fado)
  }

  /** byDisposition(rows): at most twelve distinct labels, largest count first, each with the
      number of rows carrying it; no left-out label has more rows than a shown one; the counts
      add up to at most the number of rows, and to exactly that when twelve or fewer labels
      occur. */
  function ByDisposition(rows: seq<Record>): (bars: seq<(string, nat)>)
    ensures |bars| <= TopDispositions
    ensures DistinctKeys(bars)
    ensures forall i, j :: 0 <= i < j < |bars| ==> bars[i].1 >= bars[j].1
    ensures forall i :: 0 <= i < |bars| ==> bars[i].1 == multiset(Dispositions(rows))[bars[i].0] > 0
    ensures forall j :: 0 <= j < |rows| && rows[j].dispo !in Keys(bars) ==>
      |bars| == TopDispositions && forall i :: 0 <= i < |bars| ==> multiset(Dispositions(rows))[rows[j].dispo] <= bars[i].1
    ensures Sum(bars) <= |rows|
    ensures |Dedup(Dispositions(rows))| <= TopDispositions ==> Sum(bars) == |rows|
  {
    var ds := Dispositions(rows);
    var bars := TopByCount(ds, TopDispositions);
    forall j | 0 <= j < |rows| && rows[j].dispo !in Keys(bars)
      ensures |bars| == TopDispositions
      ensures forall i :: 0 <= i < |bars| ==> multiset(ds)[rows[j].dispo] <= bars[i].1
    {
      assert ds[j] in ds;
    }
    bars
  }

  // ---- renderDetails

  /** d3.greatestIndex on the counts: the first index holding the largest count. */
  function FirstMaxIndex(s: seq<(int, nat)>): (k: nat)
    requires |s| > 0
    ensures k < |s|
    ensures forall j :: 0 <= j < |s| ==> s[j].1 <= s[k].1
    ensures forall j :: 0 <= j < k ==> s[j].1 < s[k].1
  {
    if |s| == 1 then 0
    else
      var k := FirstMaxIndex(s[..|s| - 1]);
      if s[|s| - 1].1 > s[k].1 then |s| - 1 else k
  }

  /** `byYear[d3.greatestIndex(byYear, d => d[1])]` over years in ascending order: the
      entry with the largest count, and the earliest year among those that share it. */
  function PeakYear(byYear: seq<(int, nat)>): (p: (int, nat))
    requires |byYear| > 0
    requires forall i, j :: 0 <= i < j < |byYear| ==> byYear[i].0 < byYear[j].0
    ensures IsPeak(byYear, p)
  {
    var k := FirstMaxIndex(byYear);
    assert forall i :: 0 <= i < |byYear| && byYear[i].0 < byYear[k].0 ==> i < k;
    byYear[k]
  }

  /** `p` is listed, no year has more rows, and every earlier year has strictly fewer. */
  predicate IsPeak(byYear: seq<(int, nat)>, p: (int, nat)) {
    && p in byYear
    && (forall i :: 0 <= i < |byYear| ==> byYear[i].1 <= p.1)
    && (forall i :: 0 <= i < |byYear| && byYear[i].0 < p.0 ==> byYear[i].1 < p.1)
  }

  /** The rows per year: `d3.rollups(rows, v => v.length, d => d.year)` sorted by
      d3.ascending on the year. */
  function YearCounts(rows: seq<Record>): seq<(int, nat)> {
    SortBy(Rollups(YearsOf(rows)), YearAscending)
  }

  /** `byYear` is the table of rows per year: strictly ascending years, each with its
      number of rows, and every year of the rows listed. */
  ghost predicate IsYearTable(rows: seq<Record>, byYear: seq<(int, nat)>) {
    && (forall i, j :: 0 <= i < j < |byYear| ==> byYear[i].0 < byYear[j].0)
    && (forall i :: 0 <= i < |byYear| ==> byYear[i].1 == multiset(YearsOf(rows))[byYear[i].0] > 0)
    && (forall j :: 0 <= j < |rows| ==> rows[j].year in Keys(byYear))
  }

  /** The rows per year are in strictly ascending year order, each year with its number of
      rows, and every year that occurs is listed. */
  lemma YearCountsFacts(rows: seq<Record>)
    ensures IsYearTable(rows, YearCounts(rows))
  {
    YearCountsAscending(rows);
    YearCountsCounts(rows);
    YearCountsComplete(rows);
  }

  lemma YearCountsAscending(rows: seq<Record>)
    ensures forall i, j :: 0 <= i < j < |YearCounts(rows)| ==> YearCounts(rows)[i].0 < YearCounts(rows)[j].0
  {
    var tally := Rollups(YearsOf(rows));
    TallyKeys(YearsOf(rows), tally);
    DistinctKeysBy(tally);
    SortDistinct(tally, YearAscending, KeyOf);
    StrictlyAscending(YearCounts(rows));
  }

  /** Sorted by year with no year twice means strictly ascending years. */
  lemma StrictlyAscending(s: seq<(int, nat)>)
    requires SortedBy(s, YearAscending) && DistinctBy(s, KeyOf)
    ensures forall i, j :: 0 <= i < j < |s| ==> s[i].0 < s[j].0
  {
    forall i, j | 0 <= i < j < |s| ensures s[i].0 < s[j].0 {
      assert YearAscending(s[i]) <= YearAscending(s[j]);
      assert KeyOf(s[i]) != KeyOf(s[j]);
    }
  }

  lemma YearCountsCounts(rows: seq<Record>)
    ensures forall i :: 0 <= i < |YearCounts(rows)| ==>
      YearCounts(rows)[i].1 == multiset(YearsOf(rows))[YearCounts(rows)[i].0] > 0
  {
    var ys := YearsOf(rows);
    var byYear := YearCounts(rows);
    assert multiset(byYear) == multiset(Rollups(ys));
    forall i | 0 <= i < |byYear| ensures byYear[i].1 == multiset(ys)[byYear[i].0] > 0 {
      assert byYear[i] in multiset(Rollups(ys));
      TallyEntry(ys, byYear[i]);
    }
  }

  lemma YearCountsComplete(rows: seq<Record>)
    ensures forall j :: 0 <= j < |rows| ==> rows[j].year in Keys(YearCounts(rows))
  {
    var ys := YearsOf(rows);
    var byYear := YearCounts(rows);
    assert multiset(byYear) == multiset(Rollups(ys));
    forall j | 0 <= j < |rows| ensures rows[j].year in Keys(byYear) {
      assert ys[j] in ys;
      TallyHasKey(ys, ys[j]);
      var e := (ys[j], multiset(ys)[ys[j]]);
      assert e in multiset(byYear);
      var q :| 0 <= q < |byYear| && byYear[q] == e;
      assert Keys(byYear)[q] == rows[j].year;
    }
  }

  /** The figures of the summary panel. */
  datatype Summary = Summary(
    total: nat,
    topFado: seq<(string, nat)>,
    byYear: seq<(int, nat)>,
    peak: Option<(int, nat)>)

  /** The counts of renderDetails: nothing for an empty selection (the empty-state message);
      otherwise the number of rows, the four largest categories, the rows per year in
      ascending year order, and the peak year: the earliest year with the largest count. */
  function Details(rows: seq<Record>): (d: Option<Summary>)
    ensures d.None? <==> rows == []
    ensures d.Some? ==> d.value.total == |rows|
    ensures d.Some? ==> |d.value.topFado| <= TopCategories && d.value.topFado == TopByCount(Fados(rows), TopCategories)
    ensures d.Some? ==> IsYearTable(rows, d.value.byYear)
    ensures d.Some? ==> d.value.peak.Some? && IsPeak(d.value.byYear, d.value.peak.value)
  {
    if |rows| == 0 then None
    else
      var byYear := YearCounts(rows);
      YearCountsFacts(rows);
      var peak := PeakYear(byYear);
      Some(Summary(|rows|, TopByCount(Fados(rows), TopCategories), byYear, Some(peak)))
  }
}
