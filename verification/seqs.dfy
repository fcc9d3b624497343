/** Folds over sequences that the pipeline's accounting is stated with: the sum of a
    per-element weight, and the concatenation of a sequence of sequences. */
module Seqs {

  /** The sum of `weight(x)` over the elements `x` of `s`, left to right. */
  function Sum<T>(s: seq<T>, weight: T -> int): int
    decreases |s|
  {
    if |s| == 0 then 0 else Sum(s[..|s| - 1], weight) + weight(s[|s| - 1])
  }

  /** The concatenation of all the sequences in `ss`, in order. */
  function Concat<T>(ss: seq<seq<T>>): seq<T>
    decreases |ss|
  {
    if |ss| == 0 then [] else Concat(ss[..|ss| - 1]) + ss[|ss| - 1]
  }

  lemma {:induction false} SumConcat<T>(a: seq<T>, b: seq<T>, weight: T -> int)
    ensures Sum(a + b, weight) == Sum(a, weight) + Sum(b, weight)
    decreases |b|
  {
    if |b| == 0 {
      assert a + b == a;
    } else {
      assert (a + b)[..|a + b| - 1] == a + b[..|b| - 1];
      SumConcat(a, b[..|b| - 1], weight);
    }
  }

  /** The sum does not depend on the order of the elements. */
  lemma {:induction false} SumPermutation<T>(a: seq<T>, b: seq<T>, weight: T -> int)
    requires multiset(a) == multiset(b)
    ensures Sum(a, weight) == Sum(b, weight)
    decreases |a|
  {
    if |a| == 0 {
      assert |multiset(b)| == 0;
    } else {
      var x := a[|a| - 1];
      var a' := a[..|a| - 1];
      assert a == a' + [x];
      assert x in multiset(b);
      var j :| 0 <= j < |b| && b[j] == x;
      var b' := b[..j] + b[j + 1..];
      assert b == b[..j] + [x] + b[j + 1..];
      assert multiset(b') == multiset(b) - multiset{x};
      assert multiset(a') == multiset(a) - multiset{x};
      SumPermutation(a', b', weight);
      SumConcat(b[..j], [x], weight);
      SumConcat(b[..j] + [x], b[j + 1..], weight);
      SumConcat(b[..j], b[j + 1..], weight);
      SumConcat(a', [x], weight);
    }
  }

  /** The elements of `b` sit in `a + b` after those of `a`. */
  lemma AppendRight<T>(a: seq<T>, b: seq<T>)
    ensures forall i :: 0 <= i < |b| ==> (a + b)[|a| + i] == b[i]
  {
  }

  lemma TakeOneMore<T>(s: seq<T>, n: nat)
    requires n < |s|
    ensures s[..n + 1] == s[..n] + [s[n]]
  {
  }

  lemma {:induction false} ConcatAppend<T>(ss: seq<seq<T>>, tt: seq<seq<T>>)
    ensures Concat(ss + tt) == Concat(ss) + Concat(tt)
    decreases |tt|
  {
    if |tt| == 0 {
      assert ss + tt == ss;
    } else {
      assert (ss + tt)[..|ss + tt| - 1] == ss + tt[..|tt| - 1];
      ConcatAppend(ss, tt[..|tt| - 1]);
    }
  }
}
