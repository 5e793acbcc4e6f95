/** d3.rollups with a counting reducer: group a sequence of keys and count each group.
    The groups come out in order of first appearance, as d3's InternMap keeps them. */
module Tally {
  import opened Wrappers

  /** The keys of a tally, in order. */
  function Keys<K>(t: seq<(K, nat)>): (ks: seq<K>)
    ensures |ks| == |t|
    ensures forall i :: 0 <= i < |t| ==> ks[i] == t[i].0
  {
    if |t| == 0 then [] else Keys(t[..|t| - 1]) + [t[|t| - 1].0]
  }

  /** The total of the counts of a tally. */
  function Sum<K>(t: seq<(K, nat)>): nat {
    if |t| == 0 then 0 else Sum(t[..|t| - 1]) + t[|t| - 1].1
  }

  /** No key occurs twice. */
  predicate DistinctKeys<K(==)>(t: seq<(K, nat)>) {
    forall i, j :: 0 <= i < j < |t| ==> t[i].0 != t[j].0
  }

  /** The distinct elements of `ks`, each at the place where it first occurs. */
  function Dedup<K(==)>(ks: seq<K>): (d: seq<K>)
    ensures forall i, j :: 0 <= i < j < |d| ==> d[i] != d[j]
    ensures forall k | k in d :: k in ks
    ensures forall k | k in ks :: k in d
  {
    if |ks| == 0 then []
    else
      var prefix, k := ks[..|ks| - 1], ks[|ks| - 1];
      assert ks == prefix + [k];
      Dedup(prefix) + if k in prefix then [] else [k]
  }

  /** The position of key `k` in the tally, if it has one (a map lookup). */
  function Find<K(==)>(t: seq<(K, nat)>, k: K): (r: Option<nat>)
    ensures r.Some? ==> r.value < |t| && t[r.value].0 == k
    ensures r.None? ==> forall i :: 0 <= i < |t| ==> t[i].0 != k
  {
    if |t| == 0 then None
    else if t[|t| - 1].0 == k then Some(|t| - 1)
    else Find(t[..|t| - 1], k)
  }

  /** Counts one more occurrence of `k`: its entry goes up by one, or a new entry with
      count 1 is appended. */
  function Bump<K(==)>(t: seq<(K, nat)>, k: K): seq<(K, nat)> {
    match Find(t, k)
    case Some(i) => t[i := (k, t[i].1 + 1)]
    case None => t + [(k, 1)]
  }

  /** `t` is the tally of `ks`: its keys are the distinct keys of `ks` in order of first
      appearance, each with its number of occurrences. */
  ghost predicate IsTally<K>(ks: seq<K>, t: seq<(K, nat)>) {
    && Keys(t) == Dedup(ks)
    && (forall i :: 0 <= i < |t| ==> t[i].1 == multiset(ks)[t[i].0])
  }

  /** d3.rollups(ks, v => v.length, key): one entry per distinct key, in order of first
      appearance, whose count is the number of occurrences of the key; the counts add up to
      the length of the input. */
  function Rollups<K(==)>(ks: seq<K>): (r: seq<(K, nat)>)
    ensures Keys(r) == Dedup(ks)
    ensures forall i :: 0 <= i < |r| ==> r[i].1 == multiset(ks)[r[i].0]
    ensures Sum(r) == |ks|
  {
    if |ks| == 0 then []
    else
      var t := Rollups(ks[..|ks| - 1]);
      BumpIsTally(ks, t);
      BumpSum(t, ks[|ks| - 1]);
      Bump(t, ks[|ks| - 1])
  }

  /** The keys of a tally of `ks` are distinct and are exactly the elements of `ks`. */
  lemma TallyKeys<K>(ks: seq<K>, t: seq<(K, nat)>)
    requires Keys(t) == Dedup(ks)
    ensures DistinctKeys(t)
    ensures forall k | k in Keys(t) :: k in ks
    ensures forall k | k in ks :: k in Keys(t)
  {
    assert forall i :: 0 <= i < |t| ==> t[i].0 == Keys(t)[i];
  }

  /** Every entry of the tally of `ks` is a key of `ks` with its number of occurrences. */
  lemma TallyEntry<K>(ks: seq<K>, e: (K, nat))
    requires e in Rollups(ks)
    ensures e.0 in ks && e.1 == multiset(ks)[e.0]
  {
    var r := Rollups(ks);
    TallyKeys(ks, r);
    var p :| 0 <= p < |r| && r[p] == e;
    assert Keys(r)[p] == e.0;
  }

  /** Every key of `ks` has its entry in the tally of `ks`. */
  lemma TallyHasKey<K>(ks: seq<K>, k: K)
    requires k in ks
    ensures (k, multiset(ks)[k]) in Rollups(ks)
  {
    var r := Rollups(ks);
    TallyKeys(ks, r);
    var p :| 0 <= p < |r| && Keys(r)[p] == k;
    assert r[p] == (k, multiset(ks)[k]);
  }

  /** Counting one more key turns the tally of `ks` into the tally of `ks + [k]`. */
  lemma BumpIsTally<K>(ks': seq<K>, t: seq<(K, nat)>)
    requires |ks'| > 0 && IsTally(ks'[..|ks'| - 1], t)
    ensures IsTally(ks', Bump(t, ks'[|ks'| - 1]))
  {
    var ks, k := ks'[..|ks'| - 1], ks'[|ks'| - 1];
    assert ks' == ks + [k];
    assert Dedup(ks') == Dedup(ks) + if k in ks then [] else [k];
    TallyKeys(ks, t);
    BumpKeys(t, k);
    FindInTally(ks, t, k);
    BumpCounts(ks, k, t);
  }

  /** A key has an entry in the tally of `ks` exactly when it occurs in `ks`. */
  lemma FindInTally<K>(ks: seq<K>, t: seq<(K, nat)>, k: K)
    requires Keys(t) == Dedup(ks)
    ensures Find(t, k).None? <==> k !in ks
  {
    TallyKeys(ks, t);
    if k in ks {
      var i :| 0 <= i < |t| && Keys(t)[i] == k;
      assert t[i].0 == k;
    }
  }

  /** Bumping keeps the keys and their order, appending `k` when it is new. */
  lemma BumpKeys<K>(t: seq<(K, nat)>, k: K)
    ensures Find(t, k).Some? ==> Keys(Bump(t, k)) == Keys(t)
    ensures Find(t, k).None? ==> Keys(Bump(t, k)) == Keys(t) + [k]
  {
    var r := Bump(t, k);
    match Find(t, k)
    case Some(i) =>
      assert forall j :: 0 <= j < |r| ==> r[j].0 == t[j].0;
    case None =>
      assert forall j :: 0 <= j < |t| ==> r[j] == t[j];
  }

  lemma BumpCounts<K>(ks: seq<K>, k: K, t: seq<(K, nat)>)
    requires DistinctKeys(t)
    requires Find(t, k).None? ==> k !in ks
    requires forall i :: 0 <= i < |t| ==> t[i].1 == multiset(ks)[t[i].0]
    ensures forall i :: 0 <= i < |Bump(t, k)| ==> Bump(t, k)[i].1 == multiset(ks + [k])[Bump(t, k)[i].0]
  {
    var r, ks' := Bump(t, k), ks + [k];
    assert multiset(ks') == multiset(ks) + multiset{k};
    match Find(t, k)
    case Some(i) =>
      forall j | 0 <= j < |r| ensures r[j].1 == multiset(ks')[r[j].0] {
        if j != i { assert r[j] == t[j] && t[j].0 != k; }
      }
    case None =>
      forall j | 0 <= j < |r| ensures r[j].1 == multiset(ks')[r[j].0] {
        if j < |t| { assert r[j] == t[j] && t[j].0 != k; }
      }
  }

  lemma BumpSum<K>(t: seq<(K, nat)>, k: K)
    ensures Sum(Bump(t, k)) == Sum(t) + 1
  {
    match Find(t, k)
    case Some(i) =>
      SumUpdate(t, i, (k, t[i].1 + 1));
    case None =>
      assert (t + [(k, 1)])[..|t|] == t;
  }

  /** Replacing one count changes the sum by the difference. */
  lemma {:induction false} SumUpdate<K>(t: seq<(K, nat)>, i: nat, e: (K, nat))
    requires i < |t|
    ensures Sum(t[i := e]) == Sum(t) - t[i].1 + e.1
  {
    var n := |t| - 1;
    if i < n {
      assert t[i := e][..n] == t[..n][i := e];
      SumUpdate(t[..n], i, e);
    } else {
      assert t[i := e][..n] == t[..n];
    }
  }

  /** The sum of a concatenation is the sum of the sums. */
  lemma {:induction false} SumConcat<K>(a: seq<(K, nat)>, b: seq<(K, nat)>)
    ensures Sum(a + b) == Sum(a) + Sum(b)
  {
    if |b| > 0 {
      assert (a + b)[..|a + b| - 1] == a + b[..|b| - 1];
      SumConcat(a, b[..|b| - 1]);
    } else {
      assert a + b == a;
    }
  }
}
