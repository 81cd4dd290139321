/**
  Python's `sorted(s, key=...)`: a stable sort. Every sort in the tools uses
  a key that is an integer, or an integer then a string, so keys are pairs
  compared like Python tuples; a descending sort (`reverse=True`, which
  Python also keeps stable) is an ascending sort on the negated integer.
 */
module Sorting {
  import opened Text
  import opened Seqs

  /** A sort key `(primary, secondary)`. */
  datatype Key = Key(primary: int, secondary: string)

  /** Python's `<=` on the tuple `(primary, secondary)`. */
  predicate KeyLe(a: Key, b: Key) {
    a.primary < b.primary || (a.primary == b.primary && StrLe(a.secondary, b.secondary))
  }

  lemma {:induction false} StrLeReflexive(a: string)
    ensures StrLe(a, a)
    decreases |a|
  {
    if a != [] {
      StrLeReflexive(a[1..]);
    }
  }

  lemma KeyLeTotal(a: Key, b: Key)
    ensures KeyLe(a, b) || KeyLe(b, a)
  {
    StrLeTotal(a.secondary, b.secondary);
  }

  lemma KeyLeTransitive(a: Key, b: Key, c: Key)
    requires KeyLe(a, b) && KeyLe(b, c)
    ensures KeyLe(a, c)
  {
    if a.primary == b.primary == c.primary {
      StrLeTransitive(a.secondary, b.secondary, c.secondary);
    }
  }

  predicate Sorted<T>(s: seq<T>, key: T -> Key) {
    forall i, j :: 0 <= i < j < |s| ==> KeyLe(key(s[i]), key(s[j]))
  }

  /** Every element of `s` has a key at most `b`. */
  predicate AllLe<T>(s: seq<T>, b: Key, key: T -> Key) {
    forall i :: 0 <= i < |s| ==> KeyLe(key(s[i]), b)
  }

  lemma SortedSnoc<T>(s: seq<T>, x: T, key: T -> Key)
    requires Sorted(s, key) && AllLe(s, key(x), key)
    ensures Sorted(s + [x], key)
  {
  }

  lemma SortedLastBound<T>(s: seq<T>, key: T -> Key)
    requires Sorted(s, key) && s != []
    ensures AllLe(s, key(s[|s| - 1]), key)
  {
    forall i | 0 <= i < |s|
      ensures KeyLe(key(s[i]), key(s[|s| - 1]))
    {
      if i == |s| - 1 {
        StrLeReflexive(key(s[i]).secondary);
      }
    }
  }

  lemma AllLeWeaken<T>(s: seq<T>, a: Key, b: Key, key: T -> Key)
    requires AllLe(s, a, key) && KeyLe(a, b)
    ensures AllLe(s, b, key)
  {
    forall i | 0 <= i < |s|
      ensures KeyLe(key(s[i]), b)
    {
      KeyLeTransitive(key(s[i]), a, b);
    }
  }

  /**
    Inserts `x` into the sorted `t` after every element whose key is at
    most `x`'s: the step of a stable insertion sort.
   */
  function Insert<T(==)>(t: seq<T>, x: T, key: T -> Key): (r: seq<T>)
    requires Sorted(t, key)
    ensures Sorted(r, key)
    ensures multiset(r) == multiset(t) + multiset{x}
    ensures forall b :: AllLe(t, b, key) && KeyLe(key(x), b) ==> AllLe(r, b, key)
    ensures forall k :: FilterBy(r, key, k) == FilterBy(t, key, k) + (if key(x) == k then [x] else [])
  {
    if t == [] || KeyLe(key(t[|t| - 1]), key(x)) then
      InsertLast(t, x, key);
      t + [x]
    else
      var p, y := t[..|t| - 1], t[|t| - 1];
      assert t == p + [y];
      var q := Insert(p, x, key);
      InsertBeforeSorted(t, x, key, q);
      InsertBeforeBound(t, x, key, q);
      InsertBeforeFilter(t, x, key, q);
      q + [y]
  }

  lemma InsertLast<T>(t: seq<T>, x: T, key: T -> Key)
    requires Sorted(t, key)
    requires t == [] || KeyLe(key(t[|t| - 1]), key(x))
    ensures Sorted(t + [x], key)
    ensures forall k :: FilterBy(t + [x], key, k) == FilterBy(t, key, k) + (if key(x) == k then [x] else [])
  {
    InsertLastSorted(t, x, key);
    forall k
      ensures FilterBy(t + [x], key, k) == FilterBy(t, key, k) + (if key(x) == k then [x] else [])
    {
      FilterBySnoc(t, x, key, k);
    }
  }

  lemma InsertLastSorted<T>(t: seq<T>, x: T, key: T -> Key)
    requires Sorted(t, key)
    requires t == [] || KeyLe(key(t[|t| - 1]), key(x))
    ensures Sorted(t + [x], key)
  {
    if t != [] {
      SortedLastBound(t, key);
      AllLeWeaken(t, key(t[|t| - 1]), key(x), key);
    }
    SortedSnoc(t, x, key);
  }

  lemma InsertBeforeSorted<T>(t: seq<T>, x: T, key: T -> Key, q: seq<T>)
    requires Sorted(t, key) && t != [] && !KeyLe(key(t[|t| - 1]), key(x))
    requires Sorted(q, key)
    requires forall b :: AllLe(t[..|t| - 1], b, key) && KeyLe(key(x), b) ==> AllLe(q, b, key)
    ensures Sorted(q + [t[|t| - 1]], key)
  {
    var p, y := t[..|t| - 1], t[|t| - 1];
    KeyLeTotal(key(x), key(y));
    SortedLastBound(t, key);
    assert AllLe(p, key(y), key);
    assert AllLe(q, key(y), key);
    SortedSnoc(q, y, key);
  }

  lemma InsertBeforeBound<T>(t: seq<T>, x: T, key: T -> Key, q: seq<T>)
    requires t != []
    requires forall b :: AllLe(t[..|t| - 1], b, key) && KeyLe(key(x), b) ==> AllLe(q, b, key)
    ensures forall b :: AllLe(t, b, key) && KeyLe(key(x), b) ==> AllLe(q + [t[|t| - 1]], b, key)
  {
    forall b | AllLe(t, b, key) && KeyLe(key(x), b)
      ensures AllLe(q + [t[|t| - 1]], b, key)
    {
      assert AllLe(t[..|t| - 1], b, key);
    }
  }

  lemma InsertBeforeFilter<T>(t: seq<T>, x: T, key: T -> Key, q: seq<T>)
    requires t != [] && !KeyLe(key(t[|t| - 1]), key(x))
    requires forall k :: FilterBy(q, key, k) == FilterBy(t[..|t| - 1], key, k) + (if key(x) == k then [x] else [])
    ensures forall k :: FilterBy(q + [t[|t| - 1]], key, k) == FilterBy(t, key, k) + (if key(x) == k then [x] else [])
  {
    var y := t[|t| - 1];
    assert key(x) != key(y) by {
      if key(x) == key(y) {
        StrLeReflexive(key(x).secondary);
      }
    }
    forall k
      ensures FilterBy(q + [y], key, k) == FilterBy(t, key, k) + (if key(x) == k then [x] else [])
    {
      assert (q + [y])[..|q|] == q;
    }
  }

  /** Python's `sorted(s, key=key)`: sorted by key, a permutation, and stable. */
  function StableSort<T(==)>(s: seq<T>, key: T -> Key): (r: seq<T>)
    ensures |r| == |s|
    ensures Sorted(r, key)
    ensures multiset(r) == multiset(s)
    ensures forall k :: FilterBy(r, key, k) == FilterBy(s, key, k)
  {
    if s == [] then []
    else
      var p := s[..|s| - 1];
      assert s == p + [s[|s| - 1]];
      var r := Insert(StableSort(p, key), s[|s| - 1], key);
      assert |r| == |multiset(r)|;
      r
  }

  /**
    Stability: two elements with equal keys keep the order they had in the
    input, told apart by any measure that increases along the input.
   */
  lemma StableSortKeepsOrder<T>(s: seq<T>, key: T -> Key, m: T -> int, i: nat, j: nat)
    requires forall a, b :: 0 <= a < b < |s| ==> m(s[a]) < m(s[b])
    requires i < j < |StableSort(s, key)|
    requires key(StableSort(s, key)[i]) == key(StableSort(s, key)[j])
    ensures m(StableSort(s, key)[i]) < m(StableSort(s, key)[j])
  {
    var r := StableSort(s, key);
    var k := key(r[i]);
    var i', j' := FilterByPositions(r, key, i, j);
    assert FilterBy(r, key, k) == FilterBy(s, key, k);
    FilterByIncreasing(s, key, k, m);
  }

  /** Python's `s[:n]`: the first `n` elements, or all of `s` when it is shorter. */
  function Take<T>(s: seq<T>, n: nat): (r: seq<T>)
    ensures |r| == if |s| < n then |s| else n
    ensures r <= s
  {
    if |s| < n then s else s[..n]
  }

  /**
    The first `n` elements of the sorted sequence are the best ones: every
    element left out has a key at least that of every element kept.
   */
  lemma SortedTakeBest<T>(s: seq<T>, key: T -> Key, n: nat)
    ensures multiset(Take(StableSort(s, key), n)) <= multiset(s)
    ensures forall x, y :: x in multiset(s) - multiset(Take(StableSort(s, key), n)) && y in Take(StableSort(s, key), n) ==>
      KeyLe(key(y), key(x))
  {
    var r := StableSort(s, key);
    var t := Take(r, n);
    var m := |t|;
    assert r == t + r[m..];
    assert multiset(s) == multiset(t) + multiset(r[m..]);
    forall x, y | x in multiset(s) - multiset(t) && y in t
      ensures KeyLe(key(y), key(x))
    {
      assert x in multiset(r[m..]);
      var j :| 0 <= j < |r[m..]| && r[m..][j] == x;
      var i :| 0 <= i < m && t[i] == y;
      assert r[i] == y && r[m + j] == x;
    }
  }

  /** Taking a prefix keeps the order of equal keys: the elements with key `k` kept come first among those of the input. */
  lemma SortedTakeStable<T>(s: seq<T>, key: T -> Key, n: nat, k: Key)
    ensures FilterBy(Take(StableSort(s, key), n), key, k) <= FilterBy(s, key, k)
  {
    var r := StableSort(s, key);
    FilterByPrefix(r, |Take(r, n)|, key, k);
    assert Take(r, n) == r[..|Take(r, n)|];
  }

  /** A sequence already in order is left as it is. */
  lemma {:induction false} StableSortSorted<T>(s: seq<T>, key: T -> Key)
    requires Sorted(s, key)
    ensures StableSort(s, key) == s
  {
    if s != [] {
      var p, x := s[..|s| - 1], s[|s| - 1];
      assert s == p + [x];
      assert Sorted(p, key);
      StableSortSorted(p, key);
      StableSortSnoc(p, x, key);
      InsertAtEnd(p, x, key);
    }
  }

  lemma StableSortSnoc<T>(p: seq<T>, x: T, key: T -> Key)
    ensures StableSort(p + [x], key) == Insert(StableSort(p, key), x, key)
  {
    assert (p + [x])[..|p|] == p;
  }

  lemma InsertAtEnd<T>(t: seq<T>, x: T, key: T -> Key)
    requires Sorted(t + [x], key)
    ensures Sorted(t, key) && Insert(t, x, key) == t + [x]
  {
    assert Sorted(t, key) by {
      assert forall i :: 0 <= i < |t| ==> t[i] == (t + [x])[i];
    }
    if t != [] {
      assert KeyLe(key((t + [x])[|t| - 1]), key((t + [x])[|t|]));
    }
  }
}
