/**
  Grouping by a key into an insertion-ordered dictionary, as
  `collections.defaultdict(list)` and `collections.Counter` do: a key's
  entry is created the first time the key is seen and later keys go after
  it. The dictionary is a sequence of `(key, values)` entries.
 */
module Grouping {
  import opened Seqs

  type Groups<K, T> = seq<(K, seq<T>)>

  function Keys<K, T>(groups: Groups<K, T>): (r: seq<K>)
    ensures |r| == |groups| && forall i :: 0 <= i < |groups| ==> r[i] == groups[i].0
  {
    seq(|groups|, i requires 0 <= i < |groups| => groups[i].0)
  }

  predicate DistinctKeys<K(==), T>(groups: Groups<K, T>) {
    forall i, j :: 0 <= i < j < |groups| ==> groups[i].0 != groups[j].0
  }

  /** `groups[k].append(x)`: appends to the entry of `k`, or adds the entry `(k, [x])` last. */
  function AddTo<K(==), T>(groups: Groups<K, T>, k: K, x: T): Groups<K, T> {
    if k in Keys(groups) then
      seq(|groups|, i requires 0 <= i < |groups| => if groups[i].0 == k then (k, groups[i].1 + [x]) else groups[i])
    else
      groups + [(k, [x])]
  }

  /** A key not seen before gets a new entry, last. */
  lemma AddToNew<K, T>(groups: Groups<K, T>, k: K, x: T)
    requires k !in Keys(groups)
    ensures AddTo(groups, k, x) == groups + [(k, [x])]
  {
  }

  /** A key seen before gets `x` appended to its entry; no other entry changes. */
  lemma AddToExisting<K, T>(groups: Groups<K, T>, i: nat, x: T)
    requires i < |groups| && DistinctKeys(groups)
    ensures AddTo(groups, groups[i].0, x) == groups[i := (groups[i].0, groups[i].1 + [x])]
  {
    assert groups[i].0 in Keys(groups);
  }

  /** The entries `key(x) -> [x, ...]` for the elements `x` of `s`, in the order a loop over `s` creates them. */
  function GroupBy<T(==), K(==, !new)>(s: seq<T>, key: T -> K): (groups: Groups<K, T>)
    ensures DistinctKeys(groups)
    ensures forall i :: 0 <= i < |groups| ==> groups[i].1 == FilterBy(s, key, groups[i].0)
    ensures forall k :: k in Keys(groups) <==> FilterBy(s, key, k) != []
  {
    if s == [] then []
    else
      var p, x := s[..|s| - 1], s[|s| - 1];
      var g := GroupBy(p, key);
      AddToStep(p, x, key, g);
      AddTo(g, key(x), x)
  }

  /** No elements, no entries; one more element is one more `append`. */
  lemma GroupBySnoc<T, K(!new)>(s: seq<T>, x: T, key: T -> K)
    ensures GroupBy([], key) == []
    ensures GroupBy(s + [x], key) == AddTo(GroupBy(s, key), key(x), x)
  {
    assert (s + [x])[..|s|] == s;
  }

  /** The keys after `groups[k].append(x)`: unchanged, or `k` added last. */
  lemma AddToKeys<K, T>(g: Groups<K, T>, k: K, x: T)
    requires DistinctKeys(g)
    ensures Keys(AddTo(g, k, x)) == if k in Keys(g) then Keys(g) else Keys(g) + [k]
    ensures forall i :: 0 <= i < |AddTo(g, k, x)| ==>
      AddTo(g, k, x)[i].1 == if i < |g| then g[i].1 + (if g[i].0 == k then [x] else []) else [x]
  {
    if k in Keys(g) {
      var i :| 0 <= i < |g| && g[i].0 == k;
      AddToExisting(g, i, x);
    } else {
      AddToNew(g, k, x);
    }
  }

  /** One more element keeps a grouping of a prefix a grouping of the longer prefix. */
  lemma AddToStep<T, K>(p: seq<T>, x: T, key: T -> K, g: Groups<K, T>)
    requires DistinctKeys(g)
    requires forall i :: 0 <= i < |g| ==> g[i].1 == FilterBy(p, key, g[i].0)
    requires forall k :: k in Keys(g) <==> FilterBy(p, key, k) != []
    ensures DistinctKeys(AddTo(g, key(x), x))
    ensures forall i :: 0 <= i < |AddTo(g, key(x), x)| ==> AddTo(g, key(x), x)[i].1 == FilterBy(p + [x], key, AddTo(g, key(x), x)[i].0)
    ensures forall k :: k in Keys(AddTo(g, key(x), x)) <==> FilterBy(p + [x], key, k) != []
  {
    AddToKeys(g, key(x), x);
    assert key(x) in Keys(g) <==> FilterBy(p, key, key(x)) != [];
    AddToStepValues(p, x, key, g);
    AddToStepKeys(p, x, key, g);
    hide AddTo;
    var g' := AddTo(g, key(x), x);
    assert forall i :: 0 <= i < |g'| ==> g'[i].0 == Keys(g')[i];
  }

  lemma AddToStepValues<T, K>(p: seq<T>, x: T, key: T -> K, g: Groups<K, T>)
    requires DistinctKeys(g)
    requires forall i :: 0 <= i < |g| ==> g[i].1 == FilterBy(p, key, g[i].0)
    requires key(x) !in Keys(g) ==> FilterBy(p, key, key(x)) == []
    ensures forall i :: 0 <= i < |AddTo(g, key(x), x)| ==> AddTo(g, key(x), x)[i].1 == FilterBy(p + [x], key, AddTo(g, key(x), x)[i].0)
  {
    AddToKeys(g, key(x), x);
    hide AddTo;
    var g' := AddTo(g, key(x), x);
    forall i | 0 <= i < |g'|
      ensures g'[i].1 == FilterBy(p + [x], key, g'[i].0)
    {
      assert g'[i].0 == Keys(g')[i];
      FilterBySnoc(p, x, key, g'[i].0);
    }
  }

  lemma AddToStepKeys<T, K>(p: seq<T>, x: T, key: T -> K, g: Groups<K, T>)
    requires DistinctKeys(g)
    requires forall k :: k in Keys(g) <==> FilterBy(p, key, k) != []
    ensures forall k :: k in Keys(AddTo(g, key(x), x)) <==> FilterBy(p + [x], key, k) != []
  {
    AddToKeys(g, key(x), x);
    hide AddTo;
    forall k
      ensures k in Keys(AddTo(g, key(x), x)) <==> FilterBy(p + [x], key, k) != []
    {
      FilterBySnoc(p, x, key, k);
    }
  }

  /** The position of the first element of `s` with key `k`, or `|s|` when there is none. */
  function FirstIndex<T, K(==)>(s: seq<T>, key: T -> K, k: K): (r: nat)
    ensures r <= |s|
    ensures r < |s| ==> key(s[r]) == k
    ensures forall i :: 0 <= i < r ==> key(s[i]) != k
  {
    if s == [] then 0 else if key(s[0]) == k then 0 else 1 + FirstIndex(s[1..], key, k)
  }

  lemma FirstIndexOccurs<T, K>(s: seq<T>, key: T -> K, k: K)
    ensures FirstIndex(s, key, k) < |s| <==> FilterBy(s, key, k) != []
  {
    var r := FirstIndex(s, key, k);
    if r < |s| {
      var i' := FilterByMember(s, key, r);
    }
    var f := FilterBy(s, key, k);
    if f != [] {
      assert f[0] in f;
      var i :| 0 <= i < |s| && s[i] == f[0];
      assert key(s[i]) == k;
    }
  }

  lemma FirstIndexSnoc<T, K>(p: seq<T>, x: T, key: T -> K, k: K)
    ensures FirstIndex(p, key, k) < |p| ==> FirstIndex(p + [x], key, k) == FirstIndex(p, key, k)
    ensures FirstIndex(p, key, k) == |p| && key(x) == k ==> FirstIndex(p + [x], key, k) == |p|
  {
    var s := p + [x];
    var r, r' := FirstIndex(p, key, k), FirstIndex(s, key, k);
    if r < |p| {
      assert s[r] == p[r];
    } else if key(x) == k {
      assert s[|p|] == x;
    }
  }

  /** The keys `ks` are in the order of their first occurrences in `s`. */
  predicate FirstSeenOrder<T, K(==)>(s: seq<T>, key: T -> K, ks: seq<K>) {
    forall i, j :: 0 <= i < j < |ks| ==> FirstIndex(s, key, ks[i]) < FirstIndex(s, key, ks[j])
  }

  /** Entries come in the order their keys first occur in `s`. */
  lemma GroupByOrder<T, K(!new)>(s: seq<T>, key: T -> K)
    ensures forall i, j :: 0 <= i < j < |GroupBy(s, key)| ==>
      FirstIndex(s, key, GroupBy(s, key)[i].0) < FirstIndex(s, key, GroupBy(s, key)[j].0)
  {
    GroupByKeysOrder(s, key);
    var g := GroupBy(s, key);
    assert forall i :: 0 <= i < |g| ==> g[i].0 == Keys(g)[i];
  }

  lemma {:induction false} GroupByKeysOrder<T, K(!new)>(s: seq<T>, key: T -> K)
    ensures FirstSeenOrder(s, key, Keys(GroupBy(s, key)))
  {
    if s != [] {
      var p, x := s[..|s| - 1], s[|s| - 1];
      assert s == p + [x];
      GroupByKeysOrder(p, key);
      GroupByOrderStep(p, x, key);
    }
  }

  lemma GroupByOrderStep<T, K(!new)>(p: seq<T>, x: T, key: T -> K)
    requires FirstSeenOrder(p, key, Keys(GroupBy(p, key)))
    ensures FirstSeenOrder(p + [x], key, Keys(GroupBy(p + [x], key)))
  {
    var g := GroupBy(p, key);
    var ks := Keys(g);
    assert GroupBy(p + [x], key) == AddTo(g, key(x), x) by {
      assert (p + [x])[..|p|] == p;
    }
    AddToKeys(g, key(x), x);
    forall k | k in ks
      ensures FirstIndex(p + [x], key, k) == FirstIndex(p, key, k) < |p|
    {
      FirstIndexOccurs(p, key, k);
      FirstIndexSnoc(p, x, key, k);
    }
    if key(x) !in ks {
      FirstIndexOccurs(p, key, key(x));
      FirstIndexSnoc(p, x, key, key(x));
    }
    hide GroupBy, AddTo;
    FirstSeenExtend(p, x, key, ks, Keys(GroupBy(p + [x], key)));
  }

  /** Keys seen in `p` keep their first positions in `p + [x]`, and a new key is first seen last. */
  lemma FirstSeenExtend<T, K>(p: seq<T>, x: T, key: T -> K, ks: seq<K>, ks': seq<K>)
    requires FirstSeenOrder(p, key, ks)
    requires forall k :: k in ks ==> FirstIndex(p + [x], key, k) == FirstIndex(p, key, k) < |p|
    requires ks' == ks || (ks' == ks + [key(x)] && FirstIndex(p + [x], key, key(x)) == |p|)
    ensures FirstSeenOrder(p + [x], key, ks')
  {
    hide FirstIndex;
    var s := p + [x];
    assert forall i :: 0 <= i < |ks| ==> FirstIndex(s, key, ks[i]) == FirstIndex(p, key, ks[i]) < |p|;
    assert FirstSeenOrder(s, key, ks);
    if ks' != ks {
      FirstSeenAppend(s, key, ks, key(x));
    }
  }

  lemma FirstSeenAppend<T, K>(s: seq<T>, key: T -> K, ks: seq<K>, k: K)
    requires FirstSeenOrder(s, key, ks)
    requires forall i :: 0 <= i < |ks| ==> FirstIndex(s, key, ks[i]) < FirstIndex(s, key, k)
    ensures FirstSeenOrder(s, key, ks + [k])
  {
    hide FirstIndex;
    var ks' := ks + [k];
    forall i, j | 0 <= i < j < |ks'|
      ensures FirstIndex(s, key, ks'[i]) < FirstIndex(s, key, ks'[j])
    {
      assert ks'[i] == ks[i];
      if j < |ks| {
        assert ks'[j] == ks[j];
      }
    }
  }

  /** Python's `len(groups[k])` for every entry: a `Counter` of the keys. */
  function Counts<K, T>(groups: Groups<K, T>): (r: seq<(K, nat)>)
    ensures |r| == |groups|
    ensures forall i :: 0 <= i < |groups| ==> r[i] == (groups[i].0, |groups[i].1|)
  {
    seq(|groups|, i requires 0 <= i < |groups| => (groups[i].0, |groups[i].1|))
  }

  /** The counts keep the groups' first-seen order. */
  lemma CountsOrder<T, K(!new)>(s: seq<T>, key: T -> K)
    ensures forall i, j :: 0 <= i < j < |Counts(GroupBy(s, key))| ==>
      FirstIndex(s, key, Counts(GroupBy(s, key))[i].0) < FirstIndex(s, key, Counts(GroupBy(s, key))[j].0)
  {
    GroupByOrder(s, key);
    hide GroupBy;
  }

  /** The sum of the counts. */
  function Total<K>(counts: seq<(K, nat)>): nat {
    if counts == [] then 0 else Total(counts[..|counts| - 1]) + counts[|counts| - 1].1
  }

  lemma {:induction false} TotalBump<K>(c: seq<(K, nat)>, c': seq<(K, nat)>, n: nat)
    requires |c'| == |c| && n < |c|
    requires c'[n].1 == c[n].1 + 1
    requires forall i :: 0 <= i < |c| && i != n ==> c'[i].1 == c[i].1
    ensures Total(c') == Total(c) + 1
  {
    var m := |c| - 1;
    if n < m {
      TotalBump(c[..m], c'[..m], n);
    } else {
      TotalSame(c[..m], c'[..m]);
    }
  }

  lemma {:induction false} TotalSame<K>(c: seq<(K, nat)>, c': seq<(K, nat)>)
    requires |c'| == |c|
    requires forall i :: 0 <= i < |c| ==> c'[i].1 == c[i].1
    ensures Total(c') == Total(c)
  {
    if c != [] {
      var m := |c| - 1;
      TotalSame(c[..m], c'[..m]);
    }
  }

  /** `groups[k].append(x)` adds one to the total count. */
  lemma TotalAddTo<K, T>(g: Groups<K, T>, k: K, x: T)
    requires DistinctKeys(g)
    ensures Total(Counts(AddTo(g, k, x))) == Total(Counts(g)) + 1
  {
    if k in Keys(g) {
      var n :| 0 <= n < |g| && g[n].0 == k;
      AddToExisting(g, n, x);
      hide AddTo;
      TotalBump(Counts(g), Counts(g[n := (g[n].0, g[n].1 + [x])]), n);
    } else {
      AddToNew(g, k, x);
      hide AddTo;
      var c' := Counts(g + [(k, [x])]);
      assert c'[..|g|] == Counts(g);
    }
  }

  /** Every element is counted once: the counts add up to the length of `s`. */
  lemma {:induction false} CountsTotal<T, K(!new)>(s: seq<T>, key: T -> K)
    ensures Total(Counts(GroupBy(s, key))) == |s|
  {
    if s != [] {
      var p, x := s[..|s| - 1], s[|s| - 1];
      CountsTotal(p, key);
      TotalAddTo(GroupBy(p, key), key(x), x);
    }
  }

  lemma {:induction false} TotalConcat<K>(a: seq<(K, nat)>, b: seq<(K, nat)>)
    ensures Total(a + b) == Total(a) + Total(b)
    decreases |b|
  {
    if b == [] {
      assert a + b == a;
    } else {
      var m := |b| - 1;
      assert (a + b)[..|a + b| - 1] == a + b[..m];
      TotalConcat(a, b[..m]);
    }
  }

  /** Taking one element out of the middle takes its count out of the sum. */
  lemma TotalRemove<K>(b1: seq<(K, nat)>, x: (K, nat), b2: seq<(K, nat)>)
    ensures Total(b1 + [x] + b2) == Total(b1 + b2) + x.1
  {
    assert b1 + [x] + b2 == b1 + ([x] + b2);
    TotalConcat(b1, [x] + b2);
    TotalConcat([x], b2);
    TotalConcat(b1, b2);
    assert Total([x]) == x.1 by {
      assert [x][..0] == [];
    }
  }

  lemma MultisetCancel<T>(p: seq<T>, b1: seq<T>, x: T, b2: seq<T>)
    requires multiset(p + [x]) == multiset(b1 + [x] + b2)
    ensures multiset(p) == multiset(b1 + b2)
  {
    var m, m' := multiset(p), multiset(b1 + b2);
    assert m + multiset{x} == m' + multiset{x};
    forall y
      ensures m[y] == m'[y]
    {
      assert (m + multiset{x})[y] == (m' + multiset{x})[y];
    }
  }

  /** The sum of the counts does not depend on their order. */
  lemma {:induction false} TotalPermutation<K>(a: seq<(K, nat)>, b: seq<(K, nat)>)
    requires multiset(a) == multiset(b)
    ensures Total(a) == Total(b)
    decreases |a|
  {
    if a == [] {
      assert |b| == |multiset(b)| == 0;
    } else {
      var p, x := a[..|a| - 1], a[|a| - 1];
      assert a == p + [x];
      assert x in multiset(b);
      var k :| 0 <= k < |b| && b[k] == x;
      var b1, b2 := b[..k], b[k + 1..];
      assert b == b1 + [x] + b2;
      MultisetCancel(p, b1, x, b2);
      TotalPermutation(p, b1 + b2);
      TotalRemove(b1, x, b2);
    }
  }
}
