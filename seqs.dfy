/** Selecting from a sequence by a key, keeping order. */
module Seqs {
  import opened Wrappers

  /** The elements of `s` whose key is `k`, in their order in `s`. */
  function FilterBy<T(==), K(==)>(s: seq<T>, key: T -> K, k: K): (r: seq<T>)
    ensures |r| <= |s|
    ensures forall x :: x in r ==> x in s && key(x) == k
  {
    if s == [] then []
    else FilterBy(s[..|s| - 1], key, k) + (if key(s[|s| - 1]) == k then [s[|s| - 1]] else [])
  }

  /** One more element at the end is selected after the others, when its key is `k`. */
  lemma FilterBySnoc<T, K>(p: seq<T>, x: T, key: T -> K, k: K)
    ensures FilterBy(p + [x], key, k) == FilterBy(p, key, k) + (if key(x) == k then [x] else [])
  {
    assert (p + [x])[..|p|] == p;
  }

  lemma {:induction false} FilterByConcat<T, K>(a: seq<T>, b: seq<T>, key: T -> K, k: K)
    ensures FilterBy(a + b, key, k) == FilterBy(a, key, k) + FilterBy(b, key, k)
    decreases |b|
  {
    if b == [] {
      assert a + b == a;
    } else {
      var n := |b| - 1;
      assert (a + b)[..|a + b| - 1] == a + b[..n];
      FilterByConcat(a, b[..n], key, k);
    }
  }

  /** Filtering a prefix gives a prefix of the filtered sequence. */
  lemma {:induction false} FilterByPrefix<T, K>(s: seq<T>, m: nat, key: T -> K, k: K)
    requires m <= |s|
    ensures FilterBy(s[..m], key, k) <= FilterBy(s, key, k)
    decreases |s| - m
  {
    if m < |s| {
      FilterByPrefix(s, m + 1, key, k);
      assert s[..m + 1][..m] == s[..m];
    } else {
      assert s[..m] == s;
    }
  }

  /** Every element with key `k` is found in the filtered sequence, and so is the order of two of them. */
  lemma {:induction false} FilterByPositions<T, K>(s: seq<T>, key: T -> K, i: nat, j: nat) returns (i': nat, j': nat)
    requires i < j < |s| && key(s[i]) == key(s[j])
    ensures i' < j' < |FilterBy(s, key, key(s[i]))|
    ensures FilterBy(s, key, key(s[i]))[i'] == s[i] && FilterBy(s, key, key(s[i]))[j'] == s[j]
    decreases |s|
  {
    var k := key(s[i]);
    var p := s[..|s| - 1];
    if j == |s| - 1 {
      i' := FilterByMember(p, key, i);
      j' := |FilterBy(p, key, k)|;
    } else {
      i', j' := FilterByPositions(p, key, i, j);
    }
  }

  lemma {:induction false} FilterByMember<T, K>(s: seq<T>, key: T -> K, i: nat) returns (i': nat)
    requires i < |s|
    ensures i' < |FilterBy(s, key, key(s[i]))| && FilterBy(s, key, key(s[i]))[i'] == s[i]
    decreases |s|
  {
    var p := s[..|s| - 1];
    if i == |s| - 1 {
      i' := |FilterBy(p, key, key(s[i]))|;
    } else {
      i' := FilterByMember(p, key, i);
    }
  }

  /** A filtered sequence keeps a strictly increasing measure strictly increasing. */
  lemma {:induction false} FilterByIncreasing<T, K>(s: seq<T>, key: T -> K, k: K, m: T -> int)
    requires forall i, j :: 0 <= i < j < |s| ==> m(s[i]) < m(s[j])
    ensures forall i, j :: 0 <= i < j < |FilterBy(s, key, k)| ==> m(FilterBy(s, key, k)[i]) < m(FilterBy(s, key, k)[j])
    decreases |s|
  {
    if s != [] {
      var p := s[..|s| - 1];
      FilterByIncreasing(p, key, k, m);
      var f := FilterBy(p, key, k);
      forall x | x in f
        ensures m(x) < m(s[|s| - 1])
      {
        var i :| 0 <= i < |p| && p[i] == x;
        assert s[i] == x;
      }
    }
  }

  /** The results `f(x)` that are present, for the elements `x` of `s` in order: `[f(x) for x in s if f(x)]`. */
  function Collect<T, R>(s: seq<T>, f: T -> Option<R>): (r: seq<R>)
    ensures |r| <= |s|
  {
    if s == [] then []
    else Collect(s[..|s| - 1], f) + (if f(s[|s| - 1]).Some? then [f(s[|s| - 1]).value] else [])
  }

  lemma {:induction false} CollectConcat<T, R>(a: seq<T>, b: seq<T>, f: T -> Option<R>)
    ensures Collect(a + b, f) == Collect(a, f) + Collect(b, f)
    decreases |b|
  {
    if b == [] {
      assert a + b == a;
    } else {
      var n := |b| - 1;
      assert (a + b)[..|a + b| - 1] == a + b[..n];
      CollectConcat(a, b[..n], f);
    }
  }

  /** Every present result is collected. */
  lemma CollectComplete<T, R>(s: seq<T>, f: T -> Option<R>, i: nat)
    requires i < |s| && f(s[i]).Some?
    ensures f(s[i]).value in Collect(s, f)
  {
    assert s == s[..i] + [s[i]] + s[i + 1..];
    CollectConcat(s[..i] + [s[i]], s[i + 1..], f);
    CollectConcat(s[..i], [s[i]], f);
    assert [s[i]][..0] == [];
  }

  /** Everything collected is the result of some element. */
  lemma {:induction false} CollectSound<T, R>(s: seq<T>, f: T -> Option<R>, y: R) returns (i: nat)
    requires y in Collect(s, f)
    ensures i < |s| && f(s[i]) == Some(y)
  {
    var p := s[..|s| - 1];
    if y in Collect(p, f) {
      i := CollectSound(p, f, y);
    } else {
      i := |s| - 1;
    }
  }

  /** Nothing is collected exactly when no element has a result. */
  lemma CollectEmpty<T, R>(s: seq<T>, f: T -> Option<R>)
    ensures Collect(s, f) == [] <==> forall i :: 0 <= i < |s| ==> f(s[i]).None?
  {
    if Collect(s, f) != [] {
      var i := CollectSound(s, f, Collect(s, f)[0]);
    }
    forall i | 0 <= i < |s| && f(s[i]).Some?
      ensures Collect(s, f) != []
    {
      CollectComplete(s, f, i);
    }
  }

  /** `[x] if cond else []`: one list entry, appended only when its condition holds. */
  function When<T>(cond: bool, x: T): (r: seq<T>)
    ensures |r| <= 1
  {
    if cond then [x] else []
  }

  /** The piece holds `x` and nothing else when `cond` holds, and is empty otherwise. */
  lemma WhenMember<T>(cond: bool, x: T, y: T)
    ensures y in When(cond, x) <==> cond && y == x
  {
  }

  /** Strictly increasing in `rank`, with every rank below `r` (so at most `r` elements). */
  predicate RankedBelow<T>(s: seq<T>, rank: T -> nat, r: nat) {
    && (forall i, j :: 0 <= i < j < |s| ==> rank(s[i]) < rank(s[j]))
    && (forall i :: 0 <= i < |s| ==> rank(s[i]) < r)
    && |s| <= r
  }

  lemma RankedEmpty<T>(rank: T -> nat)
    ensures RankedBelow([], rank, 0)
  {
  }

  /** Appending at most one element of rank `r` keeps the order. */
  lemma RankedAppend<T>(s: seq<T>, rank: T -> nat, r: nat, more: seq<T>)
    requires RankedBelow(s, rank, r)
    requires |more| <= 1 && forall i :: 0 <= i < |more| ==> rank(more[i]) == r
    ensures RankedBelow(s + more, rank, r + 1)
  {
  }

  lemma RankedIncreasing<T>(s: seq<T>, rank: T -> nat, r: nat)
    requires RankedBelow(s, rank, r)
    ensures |s| <= r
    ensures forall i, j :: 0 <= i < j < |s| ==> rank(s[i]) < rank(s[j])
  {
  }
}
