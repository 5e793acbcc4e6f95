/** A stable sort by an integer key, standing for `Array.prototype.sort` with a numeric
    comparator (stable since ECMAScript 2019). Sorting by count descending is sorting by
    the negated count. */
module Sorting {

  /** The keys never decrease along `s`. */
  predicate SortedBy<T>(s: seq<T>, key: T -> int) {
    forall i, j :: 0 <= i < j < |s| ==> key(s[i]) <= key(s[j])
  }

  /** The elements of `s` whose key is `c`, in the order of `s`. */
  function WithKey<T>(s: seq<T>, key: T -> int, c: int): (r: seq<T>)
    ensures |r| <= |s|
  {
    if |s| == 0 then []
    else (if key(s[0]) == c then [s[0]] else []) + WithKey(s[1..], key, c)
  }

  /** Where a stable insertion puts `x` into `t`: after every element with a smaller key,
      before the first one whose key is at least `x`'s. */
  function InsertPos<T>(x: T, t: seq<T>, key: T -> int): (p: nat)
    ensures p <= |t|
    ensures forall i :: 0 <= i < p ==> key(t[i]) < key(x)
    ensures p < |t| ==> key(x) <= key(t[p])
  {
    if |t| == 0 || key(x) <= key(t[0]) then 0 else 1 + InsertPos(x, t[1..], key)
  }

  function Insert<T>(x: T, t: seq<T>, key: T -> int): seq<T> {
    var p := InsertPos(x, t, key);
    t[..p] + [x] + t[p..]
  }

  /** Stable insertion sort: a permutation of `s`, sorted by `key`. */
  function SortBy<T>(s: seq<T>, key: T -> int): (r: seq<T>)
    ensures |r| == |s| && multiset(r) == multiset(s)
    ensures SortedBy(r, key)
  {
    if |s| == 0 then []
    else
      var t := SortBy(s[1..], key);
      InsertSorted(s[0], t, key);
      assert s == [s[0]] + s[1..];
      Insert(s[0], t, key)
  }

  /** The elements of `Insert(x, t, key)`: those of `t` before the insertion point, then
      `x`, then the rest of `t`. */
  lemma InsertElements<T>(x: T, t: seq<T>, key: T -> int)
    ensures |Insert(x, t, key)| == |t| + 1
    ensures forall i :: 0 <= i <= |t| ==>
      Insert(x, t, key)[i] == (if i < InsertPos(x, t, key) then t[i] else if i == InsertPos(x, t, key) then x else t[i - 1])
  {
  }

  lemma InsertSorted<T>(x: T, t: seq<T>, key: T -> int)
    requires SortedBy(t, key)
    ensures SortedBy(Insert(x, t, key), key)
    ensures multiset(Insert(x, t, key)) == multiset(t) + multiset{x}
  {
    InsertOrdered(x, t, key);
    InsertPermutes(x, t, key);
  }

  lemma InsertOrdered<T>(x: T, t: seq<T>, key: T -> int)
    requires SortedBy(t, key)
    ensures SortedBy(Insert(x, t, key), key)
  {
    var p := InsertPos(x, t, key);
    var r := Insert(x, t, key);
    InsertElements(x, t, key);
    forall i, j | 0 <= i < j < |r| ensures key(r[i]) <= key(r[j]) {
      if j < p {
        assert key(t[i]) <= key(t[j]);
      } else if j == p {
        assert key(t[i]) < key(x);
      } else if i < p {
        assert key(t[i]) < key(x) <= key(t[p]) <= key(t[j - 1]);
      } else if i == p {
        assert key(x) <= key(t[p]) <= key(t[j - 1]);
      } else {
        assert key(t[i - 1]) <= key(t[j - 1]);
      }
    }
  }

  lemma InsertPermutes<T>(x: T, t: seq<T>, key: T -> int)
    ensures multiset(Insert(x, t, key)) == multiset(t) + multiset{x}
  {
    var p := InsertPos(x, t, key);
    assert t == t[..p] + t[p..];
  }

  lemma {:induction false} WithKeyConcat<T>(a: seq<T>, b: seq<T>, key: T -> int, c: int)
    ensures WithKey(a + b, key, c) == WithKey(a, key, c) + WithKey(b, key, c)
  {
    if |a| == 0 {
      assert a + b == b;
    } else {
      var ab := a + b;
      var head := if key(a[0]) == c then [a[0]] else [];
      assert ab[0] == a[0];
      assert ab[1..] == a[1..] + b;
      assert WithKey(ab, key, c) == head + WithKey(a[1..] + b, key, c);
      WithKeyConcat(a[1..], b, key, c);
      assert WithKey(a, key, c) == head + WithKey(a[1..], key, c);
      assert head + (WithKey(a[1..], key, c) + WithKey(b, key, c))
          == (head + WithKey(a[1..], key, c)) + WithKey(b, key, c);
    }
  }

  lemma {:induction false} WithKeyNone<T>(s: seq<T>, key: T -> int, c: int)
    requires forall i :: 0 <= i < |s| ==> key(s[i]) != c
    ensures WithKey(s, key, c) == []
  {
    if |s| > 0 {
      WithKeyNone(s[1..], key, c);
    }
  }

  /** Inserting `x` puts it in front of every element that shares its key. */
  lemma WithKeyInsert<T>(x: T, t: seq<T>, key: T -> int, c: int)
    ensures WithKey(Insert(x, t, key), key, c) == (if key(x) == c then [x] else []) + WithKey(t, key, c)
  {
    var p := InsertPos(x, t, key);
    var a, b := t[..p], t[p..];
    assert t == a + b;
    WithKeyConcat(a + [x], b, key, c);
    WithKeyConcat(a, [x], key, c);
    WithKeyConcat(a, b, key, c);
    assert WithKey([x], key, c) == if key(x) == c then [x] else [] by {
      assert [x][1..] == [];
    }
    if key(x) == c {
      WithKeyNone(a, key, c);
    }
  }

  /** The sort is stable: the elements that share a key keep their relative order. */
  lemma {:induction false} SortStable<T>(s: seq<T>, key: T -> int, c: int)
    ensures WithKey(SortBy(s, key), key, c) == WithKey(s, key, c)
  {
    if |s| > 0 {
      SortStable(s[1..], key, c);
      WithKeyInsert(s[0], SortBy(s[1..], key), key, c);
    }
  }

  /** No two elements of `s` share a tag. */
  predicate DistinctBy<T, K(==)>(s: seq<T>, tag: T -> K) {
    forall i, j :: 0 <= i < j < |s| ==> tag(s[i]) != tag(s[j])
  }

  /** Inserting an element whose tag no element of `t` has keeps the tags distinct. */
  lemma InsertDistinct<T, K>(x: T, t: seq<T>, key: T -> int, tag: T -> K)
    requires DistinctBy(t, tag)
    requires forall i :: 0 <= i < |t| ==> tag(t[i]) != tag(x)
    ensures DistinctBy(Insert(x, t, key), tag)
  {
    var p := InsertPos(x, t, key);
    var r := Insert(x, t, key);
    assert forall i :: 0 <= i < |r| ==> r[i] == if i < p then t[i] else if i == p then x else t[i - 1];
    forall i, j | 0 <= i < j < |r| ensures tag(r[i]) != tag(r[j]) {
      if i == p || j == p {
      } else {
        var i', j' := if i < p then i else i - 1, if j < p then j else j - 1;
        assert r[i] == t[i'] && r[j] == t[j'] && i' < j';
      }
    }
  }

  /** Every element of the sorted sequence is an element of the input. */
  lemma SortedFrom<T>(s: seq<T>, key: T -> int, e: T)
    requires e in SortBy(s, key)
    ensures e in s
  {
    assert e in multiset(SortBy(s, key));
  }

  /** Sorting never makes two elements share a tag. */
  lemma {:induction false} SortDistinct<T, K>(s: seq<T>, key: T -> int, tag: T -> K)
    requires DistinctBy(s, tag)
    ensures DistinctBy(SortBy(s, key), tag)
  {
    if |s| > 0 {
      var x, t := s[0], SortBy(s[1..], key);
      assert DistinctBy(s[1..], tag);
      SortDistinct(s[1..], key, tag);
      forall i | 0 <= i < |t| ensures tag(t[i]) != tag(x) {
        SortedFrom(s[1..], key, t[i]);
        var k :| 0 <= k < |s[1..]| && s[1..][k] == t[i];
        assert s[k + 1] == t[i];
      }
      InsertDistinct(x, t, key, tag);
    }
  }
}
