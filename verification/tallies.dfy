/** Go maps from a key to an integer count, as the reducer and the combiner use them:
    reading a missing key gives the zero value, and `m[k] += v` creates the key when it is
    missing. A `range` loop over a Go map visits every key exactly once in an unspecified
    order; that order is a parameter here, constrained by `IsEnumeration`. */
module Tallies {

  /** `m[k]` in Go: the stored value, or 0 when `k` is absent. */
  function At<K>(m: map<K, int>, k: K): int {
    if k in m then m[k] else 0
  }

  /** `m[k] += v` in Go. */
  function Bump<K>(m: map<K, int>, k: K, v: int): (r: map<K, int>)
    ensures r.Keys == m.Keys + {k}
    ensures r[k] == At(m, k) + v
    ensures forall j :: j in m && j != k ==> r[j] == m[j]
  {
    m[k := At(m, k) + v]
  }

  /** The key-by-key sum of two tallies over the union of their keys. */
  function Plus<K>(a: map<K, int>, b: map<K, int>): (r: map<K, int>)
    ensures r.Keys == a.Keys + b.Keys
    ensures forall k :: k in r ==> r[k] == At(a, k) + At(b, k)
  {
    map k | k in a.Keys + b.Keys :: At(a, k) + At(b, k)
  }

  lemma PlusAt<K>(a: map<K, int>, b: map<K, int>, k: K)
    ensures At(Plus(a, b), k) == At(a, k) + At(b, k)
  {
  }

  /** Two tallies with the same keys and the same value at each are the same map. */
  lemma SameTally<K>(a: map<K, int>, b: map<K, int>)
    requires a.Keys == b.Keys
    requires forall k :: k in a ==> At(a, k) == At(b, k)
    ensures a == b
  {
  }

  /** The empty tally is the identity of `Plus`, on either side. */
  lemma PlusEmpty<K>(m: map<K, int>)
    ensures Plus(map[], m) == m
    ensures Plus(m, map[]) == m
  {
    SameTally(Plus(map[], m), m);
    SameTally(Plus(m, map[]), m);
  }

  /** `m[k] += v` adds the one-entry tally `{k: v}`. */
  lemma BumpIsPlus<K>(m: map<K, int>, k: K, v: int)
    ensures Bump(m, k, v) == Plus(m, map[k := v])
  {
    var b, p := Bump(m, k, v), Plus(m, map[k := v]);
    forall j | j in b
      ensures At(b, j) == At(p, j)
    {
      PlusAt(m, map[k := v], j);
    }
    SameTally(b, p);
  }

  /** Adding tallies does not depend on which comes first. */
  lemma PlusCommutes<K>(a: map<K, int>, b: map<K, int>)
    ensures Plus(a, b) == Plus(b, a)
  {
    SameTally(Plus(a, b), Plus(b, a));
  }

  /** Adding tallies does not depend on how they are grouped. */
  lemma PlusAssociates<K>(a: map<K, int>, b: map<K, int>, c: map<K, int>)
    ensures Plus(Plus(a, b), c) == Plus(a, Plus(b, c))
  {
    var l, r := Plus(Plus(a, b), c), Plus(a, Plus(b, c));
    forall k | k in l
      ensures At(l, k) == At(r, k)
    {
      PlusAt(Plus(a, b), c, k);
      PlusAt(a, b, k);
      PlusAt(a, Plus(b, c), k);
      PlusAt(b, c, k);
    }
    SameTally(l, r);
  }

  predicate NoDuplicates<K(==)>(order: seq<K>) {
    forall i, j :: 0 <= i < j < |order| ==> order[i] != order[j]
  }

  /** `order` is one possible visiting order of a `range` loop over a map with `keys`:
      each key exactly once. */
  predicate IsEnumeration<K(==)>(order: seq<K>, keys: set<K>) {
    && NoDuplicates(order)
    && (forall i :: 0 <= i < |order| ==> order[i] in keys)
    && (forall k :: k in keys ==> k in order)
    && |order| == |keys|
  }

  /** Two visiting orders of the same keys hold the same elements the same number of times. */
  lemma {:induction false} EnumerationsArePermutations<K>(o1: seq<K>, o2: seq<K>, keys: set<K>)
    requires IsEnumeration(o1, keys) && IsEnumeration(o2, keys)
    ensures multiset(o1) == multiset(o2)
  {
    NoDuplicatesMultiset(o1);
    NoDuplicatesMultiset(o2);
    forall k ensures multiset(o1)[k] == multiset(o2)[k] {
      assert k in o1 <==> k in o2;
    }
  }

  lemma {:induction false} NoDuplicatesMultiset<K>(order: seq<K>)
    requires NoDuplicates(order)
    ensures forall k :: multiset(order)[k] == if k in order then 1 else 0
    decreases |order|
  {
    if |order| > 0 {
      var last := order[|order| - 1];
      var front := order[..|order| - 1];
      assert order == front + [last];
      NoDuplicatesMultiset(front);
      assert last !in front;
      forall k ensures multiset(order)[k] == if k in order then 1 else 0 {
        assert k in order <==> k in front || k == last;
      }
    }
  }

  /** A sequence in which no element occurs twice has no duplicates. */
  lemma SingleCountsNoDuplicates<K>(s: seq<K>)
    requires forall x :: multiset(s)[x] <= 1
    ensures NoDuplicates(s)
  {
    forall i, j | 0 <= i < j < |s|
      ensures s[i] != s[j]
    {
      assert s == s[..j] + [s[j]] + s[j + 1..];
      assert s[..j][i] == s[i];
      assert multiset(s)[s[j]] >= multiset(s[..j])[s[j]] + 1;
    }
  }
}
