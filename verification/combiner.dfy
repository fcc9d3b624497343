/** The merge fold of `Combiner.Start`: every partial tally the reducers send is added key by
    key into one final tally, and after each partial the number of its keys is sent on the
    progress channel. */
module Combiner {
  import opened Seqs
  import opened Tallies
  import opened Chan
  import Reducer

  type Addr = Reducer.Addr

  /** A tally's value at `k`, zero when absent. */
  function ValueAt(k: Addr): map<Addr, int> -> int {
    (m: map<Addr, int>) => At(m, k)
  }

  /** Every key of every partial tally. */
  function KeysOf(partials: seq<map<Addr, int>>): set<Addr> {
    set p, k | p in partials && k in p :: k
  }

  lemma KeysOfSnoc(partials: seq<map<Addr, int>>, p: map<Addr, int>)
    ensures KeysOf(partials + [p]) == KeysOf(partials) + p.Keys
  {
    var all := partials + [p];
    assert forall q :: q in all <==> q in partials || q == p;
  }

  /** The tally after all of `partials` have been merged, one after the other. */
  function Merge(partials: seq<map<Addr, int>>): map<Addr, int>
    decreases |partials|
  {
    if |partials| == 0 then map[]
    else Plus(Merge(partials[..|partials| - 1]), partials[|partials| - 1])
  }

  /** The merged tally's keys are the union of the partials' keys, and at every key it holds
      the sum of their values there (zero where absent). */
  lemma {:induction false} MergeSums(partials: seq<map<Addr, int>>)
    ensures Merge(partials).Keys == KeysOf(partials)
    ensures forall k :: At(Merge(partials), k) == Sum(partials, ValueAt(k))
    decreases |partials|
  {
    if |partials| == 0 {
      assert KeysOf(partials) == {};
    } else {
      var front := partials[..|partials| - 1];
      var last := partials[|partials| - 1];
      assert partials == front + [last];
      MergeSums(front);
      KeysOfSnoc(front, last);
      forall k ensures At(Merge(partials), k) == Sum(partials, ValueAt(k)) {
        PlusAt(Merge(front), last, k);
        assert ValueAt(k)(last) == At(last, k);
        assert Sum(partials, ValueAt(k)) == Sum(front, ValueAt(k)) + ValueAt(k)(last);
      }
    }
  }

  /** The final tally does not depend on the order the partial tallies arrive in. */
  lemma MergeOrderFree(a: seq<map<Addr, int>>, b: seq<map<Addr, int>>)
    requires multiset(a) == multiset(b)
    ensures Merge(a) == Merge(b)
  {
    SameKeysOf(a, b);
    MergeSums(a);
    MergeSums(b);
    forall k | k in Merge(a)
      ensures At(Merge(a), k) == At(Merge(b), k)
    {
      SumPermutation(a, b, ValueAt(k));
    }
    SameTally(Merge(a), Merge(b));
  }

  lemma SameKeysOf(a: seq<map<Addr, int>>, b: seq<map<Addr, int>>)
    requires multiset(a) == multiset(b)
    ensures KeysOf(a) == KeysOf(b)
  {
    assert forall p :: p in a <==> p in b by {
      forall p ensures p in a <==> p in b {
        assert p in a <==> p in multiset(a);
        assert p in b <==> p in multiset(b);
      }
    }
  }

  /** The number of keys of each partial tally, in arrival order. */
  function Sizes(partials: seq<map<Addr, int>>): (sizes: seq<int>)
    ensures |sizes| == |partials|
    ensures forall i :: 0 <= i < |partials| ==> sizes[i] == |partials[i]|
  {
    seq(|partials|, i requires 0 <= i < |partials| => |partials[i]|)
  }

  lemma MergeNext(partials: seq<map<Addr, int>>, p: map<Addr, int>)
    ensures Merge(partials + [p]) == Plus(Merge(partials), p)
  {
    assert (partials + [p])[..|partials|] == partials;
  }

  /** `r` is `final` after adding the values of `sub` at the keys in `done`. */
  ghost predicate PartlyAdded(r: map<Addr, int>, final: map<Addr, int>, sub: map<Addr, int>, done: seq<Addr>) {
    && (forall k :: k in r <==> k in final || k in done)
    && (forall k :: At(r, k) == At(final, k) + if k in done then At(sub, k) else 0)
  }

  lemma AddOne(r: map<Addr, int>, final: map<Addr, int>, sub: map<Addr, int>, done: seq<Addr>, ip: Addr)
    requires PartlyAdded(r, final, sub, done)
    requires ip in sub && ip !in done
    ensures PartlyAdded(Bump(r, ip, sub[ip]), final, sub, done + [ip])
  {
    var r' := Bump(r, ip, sub[ip]);
    forall k ensures At(r', k) == At(final, k) + if k in done + [ip] then At(sub, k) else 0 {
      assert k in done + [ip] <==> k in done || k == ip;
    }
  }

  lemma {:induction false} AllAdded(r: map<Addr, int>, final: map<Addr, int>, sub: map<Addr, int>, order: seq<Addr>)
    requires IsEnumeration(order, sub.Keys)
    requires PartlyAdded(r, final, sub, order)
    ensures r == Plus(final, sub)
  {
    var sum := Plus(final, sub);
    assert r.Keys == sum.Keys;
    forall k | k in r
      ensures r[k] == sum[k]
    {
      assert At(r, k) == At(final, k) + At(sub, k);
    }
  }

  /** The inner loop of `Combiner.Start`, `final[ip] += bytecount` for every key of `sub`
      in the visiting order `order`: whatever the order, `final` ends up as the key-by-key
      sum of itself and `sub`. */
  method AddAll(final: map<Addr, int>, sub: map<Addr, int>, order: seq<Addr>)
    returns (r: map<Addr, int>)
    requires IsEnumeration(order, sub.Keys)
    ensures r == Plus(final, sub)
  {
    r := final;
    var j := 0;
    while j < |order|
      invariant j <= |order|
      invariant PartlyAdded(r, final, sub, order[..j])
    {
      var ip := order[j];
      AddOne(r, final, sub, order[..j], ip);
      r := Bump(r, ip, sub[ip]);
      TakeOneMore(order, j);
      j := j + 1;
    }
    assert order[..j] == order;
    AllAdded(r, final, sub, order);
  }

  /** `Combiner.Start` up to the report: `orders[i]` is the order in which the `range` loop
      visits the keys of `partials[i]`. Whatever those orders, the final tally is the merge
      of the partials, one progress count is sent per partial, and the progress channel is
      closed. */
  method Start(partials: seq<map<Addr, int>>, orders: seq<seq<Addr>>)
    returns (final: map<Addr, int>, progress: Channel<int>)
    requires |orders| == |partials|
    requires forall i :: 0 <= i < |partials| ==> IsEnumeration(orders[i], partials[i].Keys)
    ensures final == Merge(partials)
    ensures progress.sent == Sizes(partials)
    ensures progress.closed
  {
    final := map[];
    progress := Open();
    var n := 0;
    while n < |partials|
      invariant n <= |partials|
      invariant final == Merge(partials[..n])
      invariant !progress.closed && progress.sent == Sizes(partials[..n])
    {
      var sub := partials[n];
      final := AddAll(final, sub, orders[n]);
      progress := Send(progress, |sub|);
      TakeOneMore(partials, n);
      MergeNext(partials[..n], sub);
      assert Sizes(partials[..n + 1]) == Sizes(partials[..n]) + [|sub|];
      n := n + 1;
    }
    assert partials[..n] == partials;
    progress := Close(progress);
  }
}
