/** `Combiner.Report`: the final tally is ranked and at most ten addresses are selected.

    As written, the report builds `swapped`, a map from a value to the first address the
    `range` loop met with that value (a later address with the same value is appended to a
    local copy of the list and lost), and a slice of values that starts with `len(tt)`
    zeros (it is made with that length and then appended to). The values are sorted in
    descending order and each is mapped back through `swapped`. The percentage printed next
    to each address is left out; the selected `(address, value)` pairs and the integer
    grand total are modelled. */
module Ranking {
  import opened Seqs
  import opened Tallies

  /** The number of lines the report prints at most. */
  const TOP_N := 10

  predicate NonIncreasing(s: seq<int>) {
    forall i, j :: 0 <= i < j < |s| ==> s[i] >= s[j]
  }

  function Insert(x: int, s: seq<int>): (r: seq<int>)
    requires NonIncreasing(s)
    ensures NonIncreasing(r)
    ensures multiset(r) == multiset(s) + multiset{x}
    ensures |s| > 0 ==> r[0] == if x >= s[0] then x else s[0]
    decreases |s|
  {
    if |s| == 0 || x >= s[0] then [x] + s
    else
      assert s == [s[0]] + s[1..];
      [s[0]] + Insert(x, s[1..])
  }

  /** `sort.Sort(sort.Reverse(...))` on the values: a non-increasing rearrangement. */
  function SortDescending(s: seq<int>): (r: seq<int>)
    ensures NonIncreasing(r)
    ensures multiset(r) == multiset(s)
    decreases |s|
  {
    if |s| == 0 then []
    else
      assert s == [s[0]] + s[1..];
      Insert(s[0], SortDescending(s[1..]))
  }

  /** There is only one non-increasing arrangement of a multiset of integers, so which
      sorting algorithm the report uses, stable or not, does not matter. */
  lemma {:induction false} SortedIsUnique(a: seq<int>, b: seq<int>)
    requires NonIncreasing(a) && NonIncreasing(b)
    requires multiset(a) == multiset(b)
    ensures a == b
    decreases |a|
  {
    if |a| == 0 {
      assert |multiset(b)| == 0;
    } else {
      SameHead(a, b);
      DropHead(a, b);
      SortedIsUnique(a[1..], b[1..]);
      assert a == [a[0]] + a[1..] && b == [b[0]] + b[1..];
    }
  }

  /** Two non-increasing arrangements of the same values start with the largest one. */
  lemma SameHead(a: seq<int>, b: seq<int>)
    requires NonIncreasing(a) && NonIncreasing(b)
    requires multiset(a) == multiset(b) && |a| > 0
    ensures |b| > 0 && a[0] == b[0]
  {
    assert |b| == |multiset(b)| == |a|;
    assert a[0] in multiset(b) && b[0] in multiset(a);
  }

  lemma DropHead(a: seq<int>, b: seq<int>)
    requires multiset(a) == multiset(b) && |a| > 0 && |b| > 0 && a[0] == b[0]
    ensures multiset(a[1..]) == multiset(b[1..])
  {
    assert a == [a[0]] + a[1..] && b == [b[0]] + b[1..];
    calc {
      multiset(a[1..]);
      multiset(a) - multiset{a[0]};
      multiset(b) - multiset{b[0]};
      multiset(b[1..]);
    }
  }

  /** Sorting gives the one non-increasing arrangement of its input. */
  lemma {:induction false} SortDescendingUnique(s: seq<int>, t: seq<int>)
    requires multiset(s) == multiset(t) && NonIncreasing(t)
    ensures SortDescending(s) == t
  {
    SortedIsUnique(SortDescending(s), t);
  }

  function Zeros(n: nat): (z: seq<int>)
    ensures |z| == n && forall i :: 0 <= i < n ==> z[i] == 0
  {
    seq(n, _ => 0)
  }

  /** The values of `tt` in the visiting order `order`. */
  function Values<K>(tt: map<K, int>, order: seq<K>): (vs: seq<int>)
    requires forall i :: 0 <= i < |order| ==> order[i] in tt
    ensures |vs| == |order| && forall i :: 0 <= i < |order| ==> vs[i] == tt[order[i]]
  {
    seq(|order|, i requires 0 <= i < |order| => tt[order[i]])
  }

  /** `k` is the first key in `order` whose value in `tt` is `v`. */
  ghost predicate FirstWithValue<K>(tt: map<K, int>, order: seq<K>, k: K, v: int)
    requires forall i :: 0 <= i < |order| ==> order[i] in tt
  {
    exists i :: 0 <= i < |order| && order[i] == k && tt[order[i]] == v
      && forall j :: 0 <= j < i ==> tt[order[j]] != v
  }

  /** The `swapped` map as the report's first loop leaves it: every value met is mapped to
      the first key met with it. */
  function Swapped<K>(tt: map<K, int>, order: seq<K>): (sw: map<int, K>)
    requires forall i :: 0 <= i < |order| ==> order[i] in tt
    ensures forall v :: v in sw <==> v in Values(tt, order)
    ensures forall v :: v in sw ==> FirstWithValue(tt, order, sw[v], v)
    decreases |order|
  {
    if |order| == 0 then map[]
    else
      var n := |order| - 1;
      var sw := Swapped(tt, order[..n]);
      var k := order[n];
      ValuesSnoc(tt, order);
      if tt[k] in sw then
        assert forall v :: v in sw ==> FirstWithValue(tt, order, sw[v], v) by {
          forall v | v in sw ensures FirstWithValue(tt, order, sw[v], v) {
            FirstExtends(tt, order, sw[v], v);
          }
        }
        sw
      else
        var sw' := sw[tt[k] := k];
        assert forall v :: v in sw' ==> FirstWithValue(tt, order, sw'[v], v) by {
          forall v | v in sw' ensures FirstWithValue(tt, order, sw'[v], v) {
            if v == tt[k] {
              FirstAtEnd(tt, order);
            } else {
              FirstExtends(tt, order, sw[v], v);
            }
          }
        }
        sw'
  }

  lemma ValuesSnoc<K>(tt: map<K, int>, order: seq<K>)
    requires |order| > 0
    requires forall i :: 0 <= i < |order| ==> order[i] in tt
    ensures Values(tt, order) == Values(tt, order[..|order| - 1]) + [tt[order[|order| - 1]]]
  {
  }

  /** The first key with a value among the keys but the last is the first among all. */
  lemma FirstExtends<K>(tt: map<K, int>, order: seq<K>, k: K, v: int)
    requires |order| > 0
    requires forall i :: 0 <= i < |order| ==> order[i] in tt
    requires FirstWithValue(tt, order[..|order| - 1], k, v)
    ensures FirstWithValue(tt, order, k, v)
  {
    var front := order[..|order| - 1];
    var i :| 0 <= i < |front| && front[i] == k && tt[front[i]] == v
      && forall j :: 0 <= j < i ==> tt[front[j]] != v;
    assert order[i] == k;
    assert forall j :: 0 <= j < i ==> order[j] == front[j];
  }

  /** The last key is the first with its value when no earlier key has that value. */
  lemma FirstAtEnd<K>(tt: map<K, int>, order: seq<K>)
    requires |order| > 0
    requires forall i :: 0 <= i < |order| ==> order[i] in tt
    requires tt[order[|order| - 1]] !in Values(tt, order[..|order| - 1])
    ensures FirstWithValue(tt, order, order[|order| - 1], tt[order[|order| - 1]])
  {
    var n := |order| - 1;
    var front := order[..n];
    forall j | 0 <= j < n ensures tt[order[j]] != tt[order[n]] {
      assert order[j] == front[j];
      assert tt[front[j]] == Values(tt, front)[j];
    }
  }

  /** The values of `lines` never increase from one line to the next. */
  predicate Descending<K>(lines: seq<(K, int)>) {
    forall i, j :: 0 <= i < j < |lines| ==> lines[i].1 >= lines[j].1
  }

  /** The printing loop: walk the sorted values, print the address `swapped` holds for
      each value it has, and stop after `limit` lines. */
  function Select<K>(sorted: seq<int>, sw: map<int, K>, limit: nat): (lines: seq<(K, int)>)
    ensures |lines| <= limit
    ensures forall i :: 0 <= i < |lines| ==> lines[i].1 in sw && lines[i].0 == sw[lines[i].1]
    ensures NonIncreasing(sorted) ==> Descending(lines)
    ensures NonIncreasing(sorted) && |sorted| > 0 ==>
      forall i :: 0 <= i < |lines| ==> lines[i].1 <= sorted[0]
    decreases |sorted|
  {
    if |sorted| == 0 || limit == 0 then []
    else if sorted[0] in sw then [(sw[sorted[0]], sorted[0])] + Select(sorted[1..], sw, limit - 1)
    else Select(sorted[1..], sw, limit)
  }

  datatype Ranked<K> = Ranked(total: int, lines: seq<(K, int)>)

  /** A tally's value at `k`, zero when absent. */
  function ValueIn<K>(tt: map<K, int>): K -> int {
    k => At(tt, k)
  }

  /** `Combiner.Report` with its output as the result: the grand total and the selected
      lines. `order` is the order in which the `range` loop visits the keys of `tt`. At most
      ten lines are selected, in non-increasing order of value; each pairs an address of
      `tt` with its value, and that address is the first one visited with that value. */
  function Report<K>(tt: map<K, int>, order: seq<K>): (r: Ranked<K>)
    requires IsEnumeration(order, tt.Keys)
    ensures r.total == Sum(order, ValueIn(tt))
    ensures |r.lines| <= TOP_N
    ensures Descending(r.lines)
    ensures forall i :: 0 <= i < |r.lines| ==>
      var (k, v) := r.lines[i]; k in tt && tt[k] == v && FirstWithValue(tt, order, k, v)
  {
    var keys := Zeros(|tt|) + Values(tt, order);
    var sw := Swapped(tt, order);
    var lines := Select(SortDescending(keys), sw, TOP_N);
    Ranked(Sum(order, ValueIn(tt)), lines)
  }

  /** The grand total is the sum of all values of `tt`, whatever the visiting order. */
  lemma {:induction false} ReportTotalOrderFree<K>(tt: map<K, int>, o1: seq<K>, o2: seq<K>)
    requires IsEnumeration(o1, tt.Keys) && IsEnumeration(o2, tt.Keys)
    ensures Report(tt, o1).total == Report(tt, o2).total
  {
    EnumerationsArePermutations(o1, o2, tt.Keys);
    SumPermutation(o1, o2, ValueIn(tt));
  }

  /** `v` would still have a place among `lines`: fewer than `limit` lines were selected,
      or `v` is larger than the last selected value. */
  predicate HasRoom<K>(lines: seq<(K, int)>, limit: nat, v: int) {
    |lines| < limit || (|lines| > 0 && v > lines[|lines| - 1].1)
  }

  /** A value `swapped` holds that is larger than the last selected one, or any such value
      when fewer than `limit` lines were selected, is among the selected values. */
  lemma {:induction false} SelectComplete<K>(sorted: seq<int>, sw: map<int, K>, limit: nat, v: int)
    requires NonIncreasing(sorted)
    requires v in sorted && v in sw
    requires HasRoom(Select(sorted, sw, limit), limit, v)
    ensures exists i :: 0 <= i < |Select(sorted, sw, limit)| && Select(sorted, sw, limit)[i].1 == v
    decreases |sorted|
  {
    var lines := Select(sorted, sw, limit);
    var rest := sorted[1..];
    if sorted[0] == v {
      assert lines[0].1 == v;
    } else {
      assert v in rest by {
        assert sorted == [sorted[0]] + rest;
      }
      if sorted[0] in sw {
        var tail := Select(rest, sw, limit - 1);
        assert lines == [(sw[sorted[0]], sorted[0])] + tail;
        assert HasRoom(tail, limit - 1, v) by {
          if |tail| == 0 {
            assert v <= sorted[0];
          } else {
            assert lines[|lines| - 1] == tail[|tail| - 1];
          }
        }
        SelectComplete(rest, sw, limit - 1, v);
        var i :| 0 <= i < |tail| && tail[i].1 == v;
        assert lines[i + 1].1 == v;
      } else {
        assert lines == Select(rest, sw, limit);
        SelectComplete(rest, sw, limit, v);
      }
    }
  }

  /** Every value of `tt` larger than the last selected value, or every value at all when
      fewer than ten lines are selected, is among the selected values. */
  lemma ReportComplete<K>(tt: map<K, int>, order: seq<K>, k: K)
    requires IsEnumeration(order, tt.Keys)
    requires k in tt
    requires HasRoom(Report(tt, order).lines, TOP_N, tt[k])
    ensures exists i :: 0 <= i < |Report(tt, order).lines| && Report(tt, order).lines[i].1 == tt[k]
  {
    var values := Values(tt, order);
    var keys := Zeros(|tt|) + values;
    var sorted := SortDescending(keys);
    var sw := Swapped(tt, order);
    var i :| 0 <= i < |order| && order[i] == k;
    assert values[i] == tt[k];
    assert tt[k] in keys;
    assert tt[k] in multiset(sorted);
    assert tt[k] in sorted;
    assert tt[k] in sw;
    var lines := Select(sorted, sw, TOP_N);
    assert Report(tt, order).lines == lines;
    SelectComplete(sorted, sw, TOP_N, tt[k]);
  }

  function InKeys<K>(sw: map<int, K>): int -> int {
    v => if v in sw then 1 else 0
  }

  lemma {:induction false} SelectLength<K>(sorted: seq<int>, sw: map<int, K>, limit: nat)
    ensures Sum(sorted, InKeys(sw)) >= 0
    ensures var n := Sum(sorted, InKeys(sw));
      |Select(sorted, sw, limit)| == if n < limit then n else limit
    decreases |sorted|
  {
    if |sorted| > 0 {
      assert sorted == [sorted[0]] + sorted[1..];
      SumConcat([sorted[0]], sorted[1..], InKeys(sw));
      assert Sum([sorted[0]], InKeys(sw)) == InKeys(sw)(sorted[0]) by {
        assert [sorted[0]][..0] == [];
      }
      SelectLength(sorted[1..], sw, if sorted[0] in sw && limit > 0 then limit - 1 else limit);
    }
  }

  lemma {:induction false} SumZeros(n: nat, weight: int -> int)
    ensures Sum(Zeros(n), weight) == n * weight(0)
    decreases n
  {
    if n > 0 {
      assert Zeros(n)[..n - 1] == Zeros(n - 1);
      SumZeros(n - 1, weight);
    }
  }

  lemma {:induction false} SumAllIn<K>(s: seq<int>, sw: map<int, K>)
    requires forall i :: 0 <= i < |s| ==> s[i] in sw
    ensures Sum(s, InKeys(sw)) == |s|
    decreases |s|
  {
    if |s| > 0 {
      SumAllIn(s[..|s| - 1], sw);
    }
  }

  /** The number of selected lines: every value of `tt` gives a line, and when some address
      has value 0, each of the `len(tt)` padding zeros gives one more, up to ten. */
  lemma {:induction false} ReportLineCount<K>(tt: map<K, int>, order: seq<K>)
    requires IsEnumeration(order, tt.Keys)
    ensures var n := |tt| + if (exists k :: k in tt && tt[k] == 0) then |tt| else 0;
      |Report(tt, order).lines| == if n < TOP_N then n else TOP_N
  {
    var sorted := SortDescending(Zeros(|tt|) + Values(tt, order));
    var sw := Swapped(tt, order);
    SelectLength(sorted, sw, TOP_N);
    PrintableValues(tt, order);
    ZeroValued(tt, order);
  }

  /** How many of the sorted values `swapped` holds: all of the values of `tt`, and the
      padding zeros too when 0 is one of them. */
  lemma {:induction false} PrintableValues<K>(tt: map<K, int>, order: seq<K>)
    requires IsEnumeration(order, tt.Keys)
    ensures var sw := Swapped(tt, order);
      Sum(SortDescending(Zeros(|tt|) + Values(tt, order)), InKeys(sw)) == |tt| + if 0 in sw then |tt| else 0
  {
    var values := Values(tt, order);
    var keys := Zeros(|tt|) + values;
    var sw := Swapped(tt, order);
    SumPermutation(SortDescending(keys), keys, InKeys(sw));
    SumConcat(Zeros(|tt|), values, InKeys(sw));
    SumZeros(|tt|, InKeys(sw));
    SumAllIn(values, sw);
  }

  /** Some address has value 0 exactly when `swapped` holds 0. */
  lemma ZeroValued<K>(tt: map<K, int>, order: seq<K>)
    requires IsEnumeration(order, tt.Keys)
    ensures (exists k :: k in tt && tt[k] == 0) <==> 0 in Swapped(tt, order)
  {
    var values := Values(tt, order);
    if exists k :: k in tt && tt[k] == 0 {
      var k :| k in tt && tt[k] == 0;
      var i :| 0 <= i < |order| && order[i] == k;
      assert values[i] == 0;
    }
    if 0 in Swapped(tt, order) {
      var i :| 0 <= i < |values| && values[i] == 0;
      assert order[i] in tt && tt[order[i]] == 0;
    }
  }

  /** With two addresses of equal value, the report prints the first one twice and never
      the second: `swapped` keeps one address per value. */
  lemma TieKeepsFirstAddress()
    ensures var tt := map[1 := 5, 2 := 5]; var order := [1, 2];
      && IsEnumeration(order, tt.Keys)
      && Report(tt, order).lines == [(1, 5), (1, 5)]
  {
    TieEnumeration();
    TieKeys();
    TieSorted();
    TieSwapped();
    TieSelect();
  }

  lemma TieEnumeration()
    ensures IsEnumeration([1, 2], map[1 := 5, 2 := 5].Keys)
  {
    assert map[1 := 5, 2 := 5].Keys == {1, 2};
  }

  lemma TieKeys()
    ensures var tt := map[1 := 5, 2 := 5];
      Zeros(|tt|) + Values(tt, [1, 2]) == [0, 0, 5, 5]
  {
    assert map[1 := 5, 2 := 5].Keys == {1, 2};
  }

  lemma {:induction false} TieSorted()
    ensures SortDescending([0, 0, 5, 5]) == [5, 5, 0, 0]
  {
    TieMultiset();
    TieNonIncreasing();
    SortDescendingUnique([0, 0, 5, 5], [5, 5, 0, 0]);
  }

  lemma TieMultiset()
    ensures multiset([0, 0, 5, 5]) == multiset([5, 5, 0, 0])
  {
  }

  lemma TieNonIncreasing()
    ensures NonIncreasing([5, 5, 0, 0])
  {
  }

  lemma TieSwapped()
    ensures Swapped(map[1 := 5, 2 := 5], [1, 2]) == map[5 := 1]
  {
    var tt, order := map[1 := 5, 2 := 5], [1, 2];
    assert order[..1] == [1] && order[..1][..0] == [];
    assert Swapped(tt, order[..1]) == map[5 := 1];
  }

  lemma TieSelect()
    ensures Select([5, 5, 0, 0], map[5 := 1], TOP_N) == [(1, 5), (1, 5)]
  {
    var sw := map[5 := 1];
    assert [5, 5, 0, 0][1..] == [5, 0, 0] && [5, 0, 0][1..] == [0, 0];
    assert [0, 0][1..] == [0] && [0][1..] == [];
    assert Select([0], sw, 8) == [];
    assert Select([0, 0], sw, 8) == [];
  }

  function InsertPair<K>(p: (K, int), s: seq<(K, int)>): (r: seq<(K, int)>)
    requires Descending(s)
    ensures Descending(r)
    ensures multiset(r) == multiset(s) + multiset{p}
    ensures |s| > 0 ==> r[0] == if p.1 >= s[0].1 then p else s[0]
    decreases |s|
  {
    if |s| == 0 || p.1 >= s[0].1 then [p] + s
    else
      assert s == [s[0]] + s[1..];
      var rest := InsertPair(p, s[1..]);
      assert |s[1..]| > 0 ==> s[1].1 <= s[0].1;
      assert forall i :: 0 <= i < |rest| ==> rest[i].1 <= rest[0].1 <= s[0].1;
      [s[0]] + rest
  }

  function SortPairs<K>(s: seq<(K, int)>): (r: seq<(K, int)>)
    ensures Descending(r)
    ensures multiset(r) == multiset(s)
    decreases |s|
  {
    if |s| == 0 then []
    else
      assert s == [s[0]] + s[1..];
      InsertPair(s[0], SortPairs(s[1..]))
  }

  /** Every address of `tt` with its value, in the visiting order. */
  function Pairs<K>(tt: map<K, int>, order: seq<K>): (ps: seq<(K, int)>)
    requires forall i :: 0 <= i < |order| ==> order[i] in tt
    ensures |ps| == |order| && forall i :: 0 <= i < |order| ==> ps[i] == (order[i], tt[order[i]])
  {
    seq(|order|, i requires 0 <= i < |order| => (order[i], tt[order[i]]))
  }

  /** Every line pairs an address of `tt` with its value there. */
  predicate PairedWithValues<K>(tt: map<K, int>, lines: seq<(K, int)>) {
    forall i :: 0 <= i < |lines| ==> lines[i].0 in tt && tt[lines[i].0] == lines[i].1
  }

  /** No address is on two lines. */
  predicate DistinctAddresses<K(==)>(lines: seq<(K, int)>) {
    forall i, j :: 0 <= i < j < |lines| ==> lines[i].0 != lines[j].0
  }

  /** The first `n` lines keep what holds of all of them. */
  lemma TakeLines<K>(tt: map<K, int>, lines: seq<(K, int)>, n: nat)
    requires n <= |lines|
    requires Descending(lines) && PairedWithValues(tt, lines) && DistinctAddresses(lines)
    ensures Descending(lines[..n]) && PairedWithValues(tt, lines[..n]) && DistinctAddresses(lines[..n])
  {
    assert forall i :: 0 <= i < n ==> lines[..n][i] == lines[i];
  }

  /** The ranking the report evidently means: the addresses sorted by value, largest first,
      and the first ten of them, each printed once. */
  function RankDistinct<K>(tt: map<K, int>, order: seq<K>): (r: Ranked<K>)
    requires IsEnumeration(order, tt.Keys)
    ensures r.total == Sum(order, ValueIn(tt))
    ensures |r.lines| == if |tt| < TOP_N then |tt| else TOP_N
    ensures Descending(r.lines)
    ensures PairedWithValues(tt, r.lines)
    ensures DistinctAddresses(r.lines)
  {
    var sorted := SortPairs(Pairs(tt, order));
    PairsOfEnumeration(tt, order);
    var n := if |sorted| < TOP_N then |sorted| else TOP_N;
    TakeLines(tt, sorted, n);
    Ranked(Sum(order, ValueIn(tt)), sorted[..n])
  }

  /** The pairs of an enumeration, sorted, hold each address of `tt` once and with its
      value. */
  lemma {:induction false} PairsOfEnumeration<K>(tt: map<K, int>, order: seq<K>)
    requires IsEnumeration(order, tt.Keys)
    ensures |SortPairs(Pairs(tt, order))| == |tt|
    ensures PairedWithValues(tt, SortPairs(Pairs(tt, order)))
    ensures DistinctAddresses(SortPairs(Pairs(tt, order)))
  {
    var ps := Pairs(tt, order);
    var sorted := SortPairs(ps);
    assert |sorted| == |tt| by {
      assert |multiset(sorted)| == |multiset(ps)|;
    }
    PermutedPairsValid(tt, order, sorted);
    PermutedPairsUnique(tt, order, sorted);
    DistinctKeys(tt, sorted);
  }

  /** A rearrangement of the pairs pairs every address with its value. */
  lemma PermutedPairsValid<K>(tt: map<K, int>, order: seq<K>, sorted: seq<(K, int)>)
    requires forall i :: 0 <= i < |order| ==> order[i] in tt
    requires multiset(sorted) == multiset(Pairs(tt, order))
    ensures PairedWithValues(tt, sorted)
  {
    var ps := Pairs(tt, order);
    forall i | 0 <= i < |sorted|
      ensures sorted[i].0 in tt && tt[sorted[i].0] == sorted[i].1
    {
      assert sorted[i] in multiset(ps);
    }
  }

  /** A rearrangement of the pairs of an enumeration repeats no pair. */
  lemma PermutedPairsUnique<K>(tt: map<K, int>, order: seq<K>, sorted: seq<(K, int)>)
    requires IsEnumeration(order, tt.Keys)
    requires multiset(sorted) == multiset(Pairs(tt, order))
    ensures NoDuplicates(sorted)
  {
    var ps := Pairs(tt, order);
    assert NoDuplicates(ps) by {
      forall i, j | 0 <= i < j < |ps| ensures ps[i] != ps[j] {
        assert ps[i].0 == order[i] && ps[j].0 == order[j];
      }
    }
    NoDuplicatesMultiset(ps);
    SingleCountsNoDuplicates(sorted);
  }

  /** Distinct pairs that each hold an address with its value have distinct addresses. */
  lemma DistinctKeys<K>(tt: map<K, int>, sorted: seq<(K, int)>)
    requires NoDuplicates(sorted)
    requires PairedWithValues(tt, sorted)
    ensures DistinctAddresses(sorted)
  {
  }

  /** An address the corrected ranking leaves out is outranked: ten lines were printed,
      none with a smaller value. */
  lemma RankDistinctComplete<K>(tt: map<K, int>, order: seq<K>, k: K)
    requires IsEnumeration(order, tt.Keys)
    requires k in tt
    requires forall i :: 0 <= i < |RankDistinct(tt, order).lines| ==> RankDistinct(tt, order).lines[i].0 != k
    ensures |RankDistinct(tt, order).lines| == TOP_N
    ensures forall i :: 0 <= i < TOP_N ==> RankDistinct(tt, order).lines[i].1 >= tt[k]
  {
    var sorted := SortPairs(Pairs(tt, order));
    var lines := RankDistinct(tt, order).lines;
    var j := FindPair(tt, order, k);
    RankDistinctIsPrefix(tt, order);
    assert j >= |lines|;
  }

  /** Where address `k` sits among the sorted pairs. */
  lemma FindPair<K>(tt: map<K, int>, order: seq<K>, k: K) returns (j: nat)
    requires IsEnumeration(order, tt.Keys)
    requires k in tt
    ensures j < |SortPairs(Pairs(tt, order))| && SortPairs(Pairs(tt, order))[j] == (k, tt[k])
  {
    var ps := Pairs(tt, order);
    var sorted := SortPairs(ps);
    var i :| 0 <= i < |order| && order[i] == k;
    assert (k, tt[k]) in multiset(sorted) by {
      assert ps[i] == (k, tt[k]);
    }
    j :| 0 <= j < |sorted| && sorted[j] == (k, tt[k]);
  }

  /** The corrected ranking's lines are the first of the sorted pairs. */
  lemma RankDistinctIsPrefix<K>(tt: map<K, int>, order: seq<K>)
    requires IsEnumeration(order, tt.Keys)
    ensures var sorted := SortPairs(Pairs(tt, order));
      var lines := RankDistinct(tt, order).lines;
      && |lines| <= |sorted| == |tt|
      && forall m :: 0 <= m < |lines| ==> lines[m] == sorted[m]
  {
    PairsOfEnumeration(tt, order);
  }
}
