/** `Reducer.Reduce`: a batch of records is folded into a tally from local address to bytes
    transferred. An address is local when it starts with `128.252.`; the originating and
    responding address of a record are looked at independently, and each local one is
    credited with the record's whole byte count. */
module Reducer {
  import opened Bytes
  import opened Seqs
  import opened Tallies
  import opened Parser

  type Addr = seq<byte>

  /** The prefix `128.252.` of the local network. */
  const LOCAL_PREFIX: seq<byte> := [49, 50, 56, 46, 50, 53, 50, 46]

  predicate IsLocal(addr: Addr) {
    HasPrefix(addr, LOCAL_PREFIX)
  }

  /** The bytes a record credits to `k`: its count once if `k` originated the connection
      and once more if `k` responded to it. */
  function CreditTo(k: Addr): Conn -> int {
    (c: Conn) => (if c.orig == k then c.bytes else 0) + (if c.resp == k then c.bytes else 0)
  }

  /** The bytes a batch credits to `k`. */
  function Credited(batch: seq<Conn>, k: Addr): int {
    Sum(batch, CreditTo(k))
  }

  function LocalEnds(c: Conn): set<Addr> {
    (if IsLocal(c.orig) then {c.orig} else {}) + (if IsLocal(c.resp) then {c.resp} else {})
  }

  /** The local addresses a batch mentions, as originator or as responder. */
  function LocalAddrs(batch: seq<Conn>): set<Addr> {
    (set c | c in batch && IsLocal(c.orig) :: c.orig) + (set c | c in batch && IsLocal(c.resp) :: c.resp)
  }

  /** One turn of the loop in `Reducer.Reduce`: each local end of `c` gets `c.bytes`. */
  function Account(tt: map<Addr, int>, c: Conn): (r: map<Addr, int>)
    ensures r.Keys == tt.Keys + LocalEnds(c)
    ensures forall k :: At(r, k) == At(tt, k) + if IsLocal(k) then CreditTo(k)(c) else 0
  {
    var withOrig := if IsLocal(c.orig) then Bump(tt, c.orig, c.bytes) else tt;
    if IsLocal(c.resp) then Bump(withOrig, c.resp, c.bytes) else withOrig
  }

  lemma LocalAddrsSnoc(batch: seq<Conn>, c: Conn)
    ensures LocalAddrs(batch + [c]) == LocalAddrs(batch) + LocalEnds(c)
  {
    var all := batch + [c];
    assert forall x :: x in all <==> x in batch || x == c;
  }

  /** `Reducer.Reduce` with the tally it sends as the result. Each local address holds the
      bytes the batch credits to it, so a record whose two ends are the same local address
      counts twice; every other address reads as zero. */
  function Reduce(batch: seq<Conn>): (tt: map<Addr, int>)
    ensures forall k :: At(tt, k) == if IsLocal(k) then Credited(batch, k) else 0
    decreases |batch|
  {
    if |batch| == 0 then map[]
    else
      var front := batch[..|batch| - 1];
      var c := batch[|batch| - 1];
      assert batch == front + [c];
      Account(Reduce(front), c)
  }

  /** The tally's keys are exactly the local addresses the batch mentions. */
  lemma {:induction false} ReduceKeys(batch: seq<Conn>)
    ensures Reduce(batch).Keys == LocalAddrs(batch)
    ensures forall k :: k in Reduce(batch) ==> IsLocal(k)
    decreases |batch|
  {
    if |batch| > 0 {
      var front := batch[..|batch| - 1];
      var c := batch[|batch| - 1];
      assert batch == front + [c];
      ReduceKeys(front);
      LocalAddrsSnoc(front, c);
    }
    assert forall k :: k in LocalAddrs(batch) ==> IsLocal(k);
  }

  lemma SameLocalAddrs(a: seq<Conn>, b: seq<Conn>)
    requires multiset(a) == multiset(b)
    ensures LocalAddrs(a) == LocalAddrs(b)
  {
    assert forall c :: c in a <==> c in b by {
      forall c ensures c in a <==> c in b {
        assert c in a <==> c in multiset(a);
        assert c in b <==> c in multiset(b);
      }
    }
  }

  /** Two batches with the same records give the same tally, whatever their order. */
  lemma ReduceOrderFree(a: seq<Conn>, b: seq<Conn>)
    requires multiset(a) == multiset(b)
    ensures Reduce(a) == Reduce(b)
  {
    var ta, tb := Reduce(a), Reduce(b);
    SameLocalAddrs(a, b);
    ReduceKeys(a);
    ReduceKeys(b);
    forall k | k in ta
      ensures At(ta, k) == At(tb, k)
    {
      SumPermutation(a, b, CreditTo(k));
    }
    SameTally(ta, tb);
  }

  /** The tally of two batches one after the other is the key-by-key sum of their tallies. */
  lemma {:induction false} ReduceConcat(a: seq<Conn>, b: seq<Conn>)
    ensures Reduce(a + b) == Plus(Reduce(a), Reduce(b))
  {
    var tab, sum := Reduce(a + b), Plus(Reduce(a), Reduce(b));
    ReduceConcatKeys(a, b);
    ReduceKeys(a + b);
    forall k | k in tab
      ensures At(tab, k) == At(sum, k)
    {
      ReduceConcatAt(a, b, k);
      PlusAt(Reduce(a), Reduce(b), k);
    }
    SameTally(tab, sum);
  }

  lemma {:induction false} ReduceConcatKeys(a: seq<Conn>, b: seq<Conn>)
    ensures Reduce(a + b).Keys == Plus(Reduce(a), Reduce(b)).Keys
  {
    ReduceKeys(a + b);
    ReduceKeys(a);
    ReduceKeys(b);
    LocalAddrsConcat(a, b);
  }

  lemma ReduceConcatAt(a: seq<Conn>, b: seq<Conn>, k: Addr)
    requires IsLocal(k)
    ensures At(Reduce(a + b), k) == At(Reduce(a), k) + At(Reduce(b), k)
  {
    SumConcat(a, b, CreditTo(k));
  }

  lemma LocalAddrsConcat(a: seq<Conn>, b: seq<Conn>)
    ensures LocalAddrs(a + b) == LocalAddrs(a) + LocalAddrs(b)
  {
    var ab := a + b;
    assert forall c :: c in ab <==> c in a || c in b;
  }

  /** Placeholder records have empty addresses, which are not local: they change nothing. */
  lemma ReducePlaceholders(n: nat, batch: seq<Conn>)
    ensures Reduce(Placeholders(n) + batch) == Reduce(batch)
  {
    ReduceNothingLocal(Placeholders(n));
    ReduceConcat(Placeholders(n), batch);
    PlusEmpty(Reduce(batch));
  }

  /** A batch without local addresses leaves the tally empty. */
  lemma {:induction false} ReduceNothingLocal(batch: seq<Conn>)
    requires forall i :: 0 <= i < |batch| ==> !IsLocal(batch[i].orig) && !IsLocal(batch[i].resp)
    ensures Reduce(batch) == map[]
  {
    ReduceKeys(batch);
    assert LocalAddrs(batch) == {};
  }

  /** A connection from a local address to itself credits that address twice: whatever
      came before it, the record adds twice its byte count at that address and changes
      nothing else. */
  lemma {:induction false} SelfConnectionCountsTwice(batch: seq<Conn>, k: Addr, bytes: int)
    requires IsLocal(k)
    ensures Reduce(batch + [Conn(k, k, bytes)]) == Bump(Reduce(batch), k, 2 * bytes)
  {
    var c := Conn(k, k, bytes);
    var all := batch + [c];
    assert all[..|all| - 1] == batch;
    var r, b := Reduce(all), Bump(Reduce(batch), k, 2 * bytes);
    assert r == Account(Reduce(batch), c);
    forall j | j in r
      ensures At(r, j) == At(b, j)
    {
      assert CreditTo(j)(c) == if j == k then 2 * bytes else 0;
    }
    SameTally(r, b);
  }

}
