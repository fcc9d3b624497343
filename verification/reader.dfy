/** The reframing loop of `Reader.Start`: blocks read from the (possibly decompressed)
    input are cut after their last newline, and the bytes before it, together with
    whatever was carried from earlier blocks, are sent downstream as one chunk.

    The byte source is a sequence of reads. Each read returns at most `bsize` bytes (the
    `io.Reader` contract) and lands in a fresh buffer of `bsize` zero bytes. The end of the
    sequence stands for end of input, where a reader returns zero bytes. */
module Reader {
  import opened Bytes
  import opened Seqs
  import opened Chan

  /** The buffer after a read of `data` into `make([]byte, bsize)`. */
  function Pad(data: seq<byte>, bsize: nat): (buf: seq<byte>)
    requires |data| <= bsize
    ensures |buf| == bsize
    ensures buf[..|data|] == data
    ensures forall j :: |data| <= j < bsize ==> buf[j] == 0
  {
    data + seq(bsize - |data|, _ => 0 as byte)
  }

  /** The inner loop of the reader: scanning down from `endIt`, the first index holding a
      newline, or 0 when there is none above index 0. Index 0 itself is never examined. */
  function LastNewline(buf: seq<byte>, endIt: nat): (i: nat)
    requires endIt < |buf|
    ensures i <= endIt
    ensures i > 0 ==> buf[i] == NEWLINE
    ensures forall j :: i < j <= endIt ==> buf[j] != NEWLINE
    decreases endIt
  {
    if endIt == 0 then 0
    else if buf[endIt] == NEWLINE then endIt
    else LastNewline(buf, endIt - 1)
  }

  /** What one read does: either the leftovers grow (`Carry`) or a chunk is sent and new
      leftovers start after the newline (`Emit`). */
  datatype Step = Carry(leftovers: seq<byte>) | Emit(chunk: seq<byte>, leftovers: seq<byte>)

  /** The chunks a step sends: none or one. */
  function Sent(st: Step): seq<seq<byte>> {
    if st.Emit? then [st.chunk] else []
  }

  /** The bytes that chunks stand for: each chunk followed by the newline it was cut at. */
  function Framed(chunks: seq<seq<byte>>): seq<byte>
    decreases |chunks|
  {
    if |chunks| == 0 then [] else Framed(chunks[..|chunks| - 1]) + chunks[|chunks| - 1] + [NEWLINE]
  }

  /** Cutting the buffer `buf`, of which the first `length` bytes were just read, after the
      last newline at an index from 1 to `length - 1`. The bytes of `leftovers` and `buf`
      are all accounted for: sent, followed by the newline, or carried. */
  function Cut(leftovers: seq<byte>, buf: seq<byte>, length: nat): (st: Step)
    requires 1 <= length <= |buf|
    ensures st.Carry? <==> forall j :: 1 <= j < length ==> buf[j] != NEWLINE
    ensures st.Carry? ==> st.leftovers == leftovers + buf
    ensures st.Emit? ==>
      exists i :: 1 <= i < length && buf[i] == NEWLINE
        && (forall j :: i < j < length ==> buf[j] != NEWLINE)
        && st.chunk == leftovers + buf[..i]
        && st.leftovers == buf[i + 1..]
    ensures Framed(Sent(st)) + st.leftovers == leftovers + buf
  {
    var i := LastNewline(buf, length - 1);
    if i == 0 then Carry(leftovers + buf)
    else
      CutAt(leftovers, buf, i);
      Emit(leftovers + buf[..i], buf[i + 1..])
  }

  /** Cutting at a newline loses no byte: the chunk, the newline, and what follows it. */
  lemma CutAt(leftovers: seq<byte>, buf: seq<byte>, i: nat)
    requires i < |buf| && buf[i] == NEWLINE
    ensures Framed([leftovers + buf[..i]]) + buf[i + 1..] == leftovers + buf
  {
    assert buf == buf[..i] + [buf[i]] + buf[i + 1..];
    assert Framed([leftovers + buf[..i]]) == leftovers + buf[..i] + [NEWLINE];
  }

  /** One turn of the loop in `Reader.Start` as written: the whole `bsize` buffer, and not
      only the `|data|` bytes read into it, goes into the leftovers. */
  function ReadStep(leftovers: seq<byte>, data: seq<byte>, bsize: nat): (st: Step)
    requires 1 <= |data| <= bsize
    ensures Framed(Sent(st)) + st.leftovers == leftovers + Pad(data, bsize)
    ensures |st.leftovers| >= bsize - |data|
    ensures forall j :: |st.leftovers| - (bsize - |data|) <= j < |st.leftovers| ==> st.leftovers[j] == 0
  {
    Cut(leftovers, Pad(data, bsize), |data|)
  }

  /** Appending a step's chunks after earlier ones keeps every byte accounted for. */
  lemma AccountStep(chunks: seq<seq<byte>>, leftovers: seq<byte>, buf: seq<byte>, st: Step)
    requires Framed(Sent(st)) + st.leftovers == leftovers + buf
    ensures Framed(chunks + Sent(st)) + st.leftovers == Framed(chunks) + leftovers + buf
  {
    if st.Emit? {
      var all := chunks + [st.chunk];
      assert all[..|all| - 1] == chunks;
      assert Framed([st.chunk]) == Framed([]) + st.chunk + [NEWLINE];
      calc {
        Framed(all) + st.leftovers;
        Framed(chunks) + st.chunk + [NEWLINE] + st.leftovers;
        Framed(chunks) + (Framed([st.chunk]) + st.leftovers);
        Framed(chunks) + (leftovers + buf);
      }
    } else {
      assert Sent(st) == [];
      assert chunks + Sent(st) == chunks;
      assert Framed(Sent(st)) == [];
      assert st.leftovers == leftovers + buf;
    }
  }

  datatype Reframed = Reframed(chunks: seq<seq<byte>>, leftovers: seq<byte>)

  predicate NonEmptyReads(blocks: seq<seq<byte>>, bsize: nat) {
    forall i :: 0 <= i < |blocks| ==> 1 <= |blocks[i]| <= bsize
  }

  /** The buffers the blocks land in, one after the other. */
  function Buffers(blocks: seq<seq<byte>>, bsize: nat): seq<byte>
    requires forall i :: 0 <= i < |blocks| ==> |blocks[i]| <= bsize
    decreases |blocks|
  {
    if |blocks| == 0 then [] else Buffers(blocks[..|blocks| - 1], bsize) + Pad(blocks[|blocks| - 1], bsize)
  }

  /** The chunks sent and the leftovers carried after the loop has handled `blocks`, all
      non-empty. Each read sends at most one chunk, and every buffered byte is either in a
      chunk, is the newline after one, or is in the leftovers. */
  function Replay(blocks: seq<seq<byte>>, bsize: nat): (r: Reframed)
    requires NonEmptyReads(blocks, bsize)
    ensures |r.chunks| <= |blocks|
    decreases |blocks|
  {
    if |blocks| == 0 then Reframed([], [])
    else
      var prev := Replay(blocks[..|blocks| - 1], bsize);
      var st := ReadStep(prev.leftovers, blocks[|blocks| - 1], bsize);
      Reframed(prev.chunks + Sent(st), st.leftovers)
  }

  /** Byte conservation: the chunks, each followed by its newline, then the leftovers, spell
      the buffers the reads landed in. */
  lemma {:induction false} ReplayConserves(blocks: seq<seq<byte>>, bsize: nat)
    requires NonEmptyReads(blocks, bsize)
    ensures Framed(Replay(blocks, bsize).chunks) + Replay(blocks, bsize).leftovers == Buffers(blocks, bsize)
    decreases |blocks|
  {
    if |blocks| > 0 {
      var front := blocks[..|blocks| - 1];
      var data := blocks[|blocks| - 1];
      var prev := Replay(front, bsize);
      var st := ReadStep(prev.leftovers, data, bsize);
      ReplayConserves(front, bsize);
      AccountStep(prev.chunks, prev.leftovers, Pad(data, bsize), st);
    }
  }

  lemma ReplayNext(blocks: seq<seq<byte>>, data: seq<byte>, bsize: nat)
    requires NonEmptyReads(blocks, bsize) && 1 <= |data| <= bsize
    ensures NonEmptyReads(blocks + [data], bsize)
    ensures
      var prev := Replay(blocks, bsize);
      var st := ReadStep(prev.leftovers, data, bsize);
      Replay(blocks + [data], bsize) == Reframed(prev.chunks + Sent(st), st.leftovers)
  {
    assert (blocks + [data])[..|blocks|] == blocks;
  }

  /** `ReplayNext` for the reads `blocks[..consumed]` followed by the next one. */
  lemma Advance(blocks: seq<seq<byte>>, consumed: nat, bsize: nat)
    requires consumed < |blocks| && 1 <= |blocks[consumed]| <= bsize
    requires NonEmptyReads(blocks[..consumed], bsize)
    ensures NonEmptyReads(blocks[..consumed + 1], bsize)
    ensures
      var prev := Replay(blocks[..consumed], bsize);
      var st := ReadStep(prev.leftovers, blocks[consumed], bsize);
      Replay(blocks[..consumed + 1], bsize) == Reframed(prev.chunks + Sent(st), st.leftovers)
  {
    ReplayNext(blocks[..consumed], blocks[consumed], bsize);
    TakeOneMore(blocks, consumed);
  }

  /** When every read fills its buffer, the buffers are exactly the bytes read. */
  lemma {:induction false} FullReadsBuffers(blocks: seq<seq<byte>>, bsize: nat)
    requires forall i :: 0 <= i < |blocks| ==> |blocks[i]| == bsize
    ensures Buffers(blocks, bsize) == Concat(blocks)
    decreases |blocks|
  {
    if |blocks| > 0 {
      FullReadsBuffers(blocks[..|blocks| - 1], bsize);
      assert Pad(blocks[|blocks| - 1], bsize) == blocks[|blocks| - 1];
    }
  }

  /** One turn of the reading loop: the chunk the read cuts off, if any, is sent on `out`,
      which stays open. */
  method Turn(out: Channel<seq<byte>>, leftovers: seq<byte>, data: seq<byte>, bsize: nat)
    returns (out': Channel<seq<byte>>, leftovers': seq<byte>)
    requires !out.closed && 1 <= |data| <= bsize
    ensures !out'.closed
    ensures Reframed(out'.sent, leftovers') ==
      var st := ReadStep(leftovers, data, bsize); Reframed(out.sent + Sent(st), st.leftovers)
  {
    var st := ReadStep(leftovers, data, bsize);
    if st.Emit? {
      out' := Send(out, st.chunk);
    } else {
      out' := out;
      assert out.sent + Sent(st) == out.sent;
    }
    leftovers' := st.leftovers;
  }

  /** `Reader.Start`: read until the first zero-length read, sending each chunk on `out`,
      then close `out`. The leftovers at that point are returned only to be stated about:
      they are never sent. `consumed` counts the non-empty blocks handled. */
  method Start(blocks: seq<seq<byte>>, bsize: nat)
    returns (out: Channel<seq<byte>>, leftovers: seq<byte>, consumed: nat)
    requires forall i :: 0 <= i < |blocks| ==> |blocks[i]| <= bsize
    ensures consumed <= |blocks|
    ensures forall i :: 0 <= i < consumed ==> blocks[i] != []
    ensures consumed < |blocks| ==> blocks[consumed] == []
    ensures out.closed
    ensures Reframed(out.sent, leftovers) == Replay(blocks[..consumed], bsize)
    ensures Framed(out.sent) + leftovers == Buffers(blocks[..consumed], bsize)
    ensures (forall i :: 0 <= i < consumed ==> |blocks[i]| == bsize) ==>
      Framed(out.sent) + leftovers == Concat(blocks[..consumed])
  {
    out := Open();
    leftovers := [];
    consumed := 0;
    while consumed < |blocks| && blocks[consumed] != []
      invariant consumed <= |blocks|
      invariant NonEmptyReads(blocks[..consumed], bsize)
      invariant !out.closed
      invariant Reframed(out.sent, leftovers) == Replay(blocks[..consumed], bsize)
    {
      var data := blocks[consumed];
      Advance(blocks, consumed, bsize);
      out, leftovers := Turn(out, leftovers, data, bsize);
      consumed := consumed + 1;
    }
    out := Close(out);
    Consumed(blocks, consumed, bsize, out.sent, leftovers);
  }

  /** What the state after `consumed` reads says about those reads and their bytes. */
  lemma Consumed(blocks: seq<seq<byte>>, consumed: nat, bsize: nat, sent: seq<seq<byte>>, leftovers: seq<byte>)
    requires consumed <= |blocks|
    requires NonEmptyReads(blocks[..consumed], bsize)
    requires Reframed(sent, leftovers) == Replay(blocks[..consumed], bsize)
    ensures forall i :: 0 <= i < consumed ==> blocks[i] != []
    ensures Framed(sent) + leftovers == Buffers(blocks[..consumed], bsize)
    ensures (forall i :: 0 <= i < consumed ==> |blocks[i]| == bsize) ==>
      Framed(sent) + leftovers == Concat(blocks[..consumed])
  {
    ReplayConserves(blocks[..consumed], bsize);
    assert forall i :: 0 <= i < consumed ==> blocks[..consumed][i] == blocks[i];
    if forall i :: 0 <= i < consumed ==> |blocks[i]| == bsize {
      FullReadsBuffers(blocks[..consumed], bsize);
    }
  }

  /** One turn of the loop as it would be with `buffer[:length]` in place of `buffer`:
      only the bytes actually read are carried. */
  function ReadStepExact(leftovers: seq<byte>, data: seq<byte>): Step
    requires 1 <= |data|
  {
    Cut(leftovers, data, |data|)
  }

  /** The loop over `blocks` with `ReadStepExact`: every byte read, whatever the read
      sizes, is in a chunk, is the newline after one, or is in the leftovers. */
  function ReplayExact(blocks: seq<seq<byte>>): (r: Reframed)
    requires forall i :: 0 <= i < |blocks| ==> 1 <= |blocks[i]|
    ensures |r.chunks| <= |blocks|
    ensures Framed(r.chunks) + r.leftovers == Concat(blocks)
    decreases |blocks|
  {
    if |blocks| == 0 then Reframed([], [])
    else
      var prev := ReplayExact(blocks[..|blocks| - 1]);
      var buf := blocks[|blocks| - 1];
      var st := Cut(prev.leftovers, buf, |buf|);
      AccountStep(prev.chunks, prev.leftovers, buf, st);
      Reframed(prev.chunks + Sent(st), st.leftovers)
  }

  /** Cutting with both corrections: only the bytes read, `buf`, are looked at, and the
      scan goes down to index 0 inclusive. A read sends a chunk exactly when it holds a
      newline, and what it carries then holds none. */
  function CutFixed(leftovers: seq<byte>, buf: seq<byte>): (st: Step)
    requires 1 <= |buf|
    ensures st.Carry? <==> NEWLINE !in buf
    ensures st.Carry? ==> st.leftovers == leftovers + buf
    ensures st.Emit? ==> NEWLINE !in st.leftovers
    ensures Framed(Sent(st)) + st.leftovers == leftovers + buf
  {
    var i := LastNewline(buf, |buf| - 1);
    if i == 0 && buf[0] != NEWLINE then
      assert forall j :: 0 <= j < |buf| ==> buf[j] != NEWLINE;
      Carry(leftovers + buf)
    else
      CutAt(leftovers, buf, i);
      Emit(leftovers + buf[..i], buf[i + 1..])
  }

  /** The reading loop with `CutFixed`: every byte read is in a chunk, is the newline after
      one, or is in the leftovers, and the leftovers hold no newline, so every line that a
      newline ends is sent. */
  function ReplayFixed(blocks: seq<seq<byte>>): (r: Reframed)
    requires forall i :: 0 <= i < |blocks| ==> 1 <= |blocks[i]|
    ensures |r.chunks| <= |blocks|
    ensures Framed(r.chunks) + r.leftovers == Concat(blocks)
    ensures NEWLINE !in r.leftovers
    decreases |blocks|
  {
    if |blocks| == 0 then Reframed([], [])
    else
      var prev := ReplayFixed(blocks[..|blocks| - 1]);
      var buf := blocks[|blocks| - 1];
      var st := CutFixed(prev.leftovers, buf);
      AccountStep(prev.chunks, prev.leftovers, buf, st);
      Reframed(prev.chunks + Sent(st), st.leftovers)
  }

  /** A newline at index 0 of a read is never a cut point. With `bsize` 2, the reads `ab`
      and a lone newline end the input with a complete line, yet nothing is sent: the line
      and its newline stay in the leftovers. The corrected loop sends it. */
  lemma LastLineLost()
    ensures
      var blocks := [[97 as byte, 98], [NEWLINE]];
      && NonEmptyReads(blocks, 2)
      && Concat(blocks) == [97 as byte, 98, NEWLINE]
      && Replay(blocks, 2).chunks == []
      && ReplayFixed(blocks).chunks == [[97 as byte, 98]]
  {
    LostLineReads();
    LostLineAsWritten();
    LostLineFixed();
  }

  lemma LostLineReads()
    ensures
      var blocks := [[97 as byte, 98], [NEWLINE]];
      NonEmptyReads(blocks, 2) && Concat(blocks) == [97 as byte, 98, NEWLINE]
  {
    var b0: seq<byte> := [97, 98];
    assert [b0, [NEWLINE]][..1] == [b0] && [b0][..0] == [];
    assert Concat([b0]) == b0;
  }

  lemma LostLineAsWritten()
    ensures Replay([[97 as byte, 98], [NEWLINE]], 2).chunks == []
  {
    var b0: seq<byte>, b1: seq<byte> := [97, 98], [NEWLINE];
    assert [b0, b1][..1] == [b0] && [b0][..0] == [];
    assert Pad(b0, 2) == b0;
    assert LastNewline(b0, 1) == 0;
    assert ReadStep([], b0, 2) == Carry(b0);
    assert Replay([b0], 2) == Reframed([], b0);
    assert LastNewline(Pad(b1, 2), 0) == 0;
    assert ReadStep(b0, b1, 2).Carry?;
  }

  lemma LostLineFixed()
    ensures ReplayFixed([[97 as byte, 98], [NEWLINE]]).chunks == [[97 as byte, 98]]
  {
    var b0: seq<byte>, b1: seq<byte> := [97, 98], [NEWLINE];
    assert [b0, b1][..1] == [b0];
    FixedFirstRead();
    FixedSecondRead();
  }

  lemma FixedFirstRead()
    ensures ReplayFixed([[97 as byte, 98]]) == Reframed([], [97 as byte, 98])
  {
    var b0: seq<byte> := [97, 98];
    assert [b0][..0] == [];
    assert CutFixed([], b0) == Carry(b0);
  }

  lemma FixedSecondRead()
    ensures CutFixed([97 as byte, 98], [NEWLINE]) == Emit([97 as byte, 98], [])
  {
    assert LastNewline([NEWLINE], 0) == 0;
  }

  /** A short read followed by a full one: with `bsize` 4 the reads `a\nc` and `d\nxy`
      send `a` and then `c`, a zero byte, `d`. The zero byte was never read, so the
      chunks and leftovers do not spell the bytes read. */
  lemma ShortReadInjectsZero()
    ensures
      var blocks := [[97 as byte, NEWLINE, 99], [100 as byte, NEWLINE, 120, 121]];
      && Replay(blocks, 4).chunks == [[97 as byte], [99 as byte, 0, 100]]
      && Framed(Replay(blocks, 4).chunks) + Replay(blocks, 4).leftovers != Concat(blocks)
  {
    var b0 := [97 as byte, NEWLINE, 99];
    var b1 := [100 as byte, NEWLINE, 120, 121];
    var blocks := [b0, b1];
    var buf0 := Pad(b0, 4);
    assert buf0 == [97 as byte, NEWLINE, 99, 0];
    assert LastNewline(buf0, 2) == 1;
    assert Cut([], buf0, 3) == Emit([97 as byte], [99 as byte, 0]);
    assert ReadStep([], b0, 4) == Emit([97 as byte], [99 as byte, 0]);
    assert [b0][..0] == [];
    assert Replay([b0][..0], 4) == Reframed([], []);
    assert [] + Sent(Emit([97 as byte], [99 as byte, 0])) == [[97 as byte]];
    var first := Replay([b0], 4);
    assert first == Reframed([[97 as byte]], [99 as byte, 0]);
    var buf1 := Pad(b1, 4);
    assert buf1 == b1;
    assert LastNewline(buf1, 3) == 1;
    assert Cut([99 as byte, 0], buf1, 4) == Emit([99 as byte, 0, 100], [120 as byte, 121]);
    assert ReadStep([99 as byte, 0], b1, 4) == Emit([99 as byte, 0, 100], [120 as byte, 121]);
    assert blocks[..1] == [b0];
    var r := Replay(blocks, 4);
    assert r == Reframed([[97 as byte], [99 as byte, 0, 100]], [120 as byte, 121]);
    assert |Framed(r.chunks) + r.leftovers| == 8;
    assert |Concat(blocks)| == 7 by {
      assert [b0][..0] == [];
      assert Concat([b0]) == b0;
      assert Concat(blocks) == Concat([b0]) + b1;
    }
  }
}
