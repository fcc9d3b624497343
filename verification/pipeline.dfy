/** The stages composed: each chunk is parsed into a batch, each batch is reduced to a
    partial tally, and the partials are merged. However the chunks are spread over the
    parsers and reducers, the final tally is the tally of all records at once. */
module Pipeline {
  import opened Bytes
  import opened Seqs
  import opened Parser
  import opened Reducer
  import Combiner

  /** The partial tally of each batch, in the order the batches are reduced. */
  function Partials(batches: seq<seq<Conn>>): (ps: seq<map<Addr, int>>)
    ensures |ps| == |batches|
    ensures forall i :: 0 <= i < |batches| ==> ps[i] == Reduce(batches[i])
  {
    seq(|batches|, i requires 0 <= i < |batches| => Reduce(batches[i]))
  }

  /** Reducing batch by batch and merging gives the tally of all their records together. */
  lemma {:induction false} MergeReduced(batches: seq<seq<Conn>>)
    ensures Combiner.Merge(Partials(batches)) == Reduce(Concat(batches))
    decreases |batches|
  {
    if |batches| > 0 {
      var n := |batches| - 1;
      var front := batches[..n];
      assert Partials(batches) == Partials(front) + [Reduce(batches[n])];
      Combiner.MergeNext(Partials(front), Reduce(batches[n]));
      MergeReduced(front);
      ReduceConcat(Concat(front), batches[n]);
    } else {
      assert Partials(batches) == [];
    }
  }

  /** The placeholders `Parse` puts first do not reach the tally: a chunk's partial tally
      is that of its data records alone. */
  lemma ReduceParse(chunk: seq<byte>)
    requires Parsable(chunk)
    ensures Reduce(Parse(chunk)) == Reduce(Records(Split(chunk, NEWLINE)))
  {
    ReducePlaceholders(|Split(chunk, NEWLINE)|, Records(Split(chunk, NEWLINE)));
  }

  /** The final tally does not depend on how the records are grouped into batches, nor on
      the order of the records. */
  lemma {:induction false} BatchingFree(a: seq<seq<Conn>>, b: seq<seq<Conn>>)
    requires multiset(Concat(a)) == multiset(Concat(b))
    ensures Combiner.Merge(Partials(a)) == Combiner.Merge(Partials(b))
  {
    MergeReduced(a);
    MergeReduced(b);
    ReduceOrderFree(Concat(a), Concat(b));
  }
}
