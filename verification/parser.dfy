/** `Parser.Parse`: a chunk from the reader is split into lines, comment lines (starting
    with `#`) are skipped, and each other line is split into tab-separated fields, of which
    field 2 is the originating address, field 4 the responding address, and fields 16 and
    18 the two byte counts, which are added together. */
module Parser {
  import opened Bytes
  import opened Seqs

  datatype Conn = Conn(orig: seq<byte>, resp: seq<byte>, bytes: int)

  /** The zero value of `conn`, which `make([]conn, n)` fills the slice with. */
  const Placeholder := Conn([], [], 0)

  const ORIG_FIELD := 2
  const RESP_FIELD := 4
  const ORIG_BYTES_FIELD := 16
  const RESP_BYTES_FIELD := 18
  /** Fewer fields than this and reading field 18 goes out of range. */
  const MIN_FIELDS := 19

  predicate IsComment(line: seq<byte>) {
    |line| > 0 && line[0] == HASH
  }

  /** A line the loop body handles without indexing out of range: `line[0]` needs a
      non-empty line, and a non-comment line needs fields 0 to 18. */
  predicate WellFormed(line: seq<byte>) {
    |line| > 0 && (line[0] == HASH || |Split(line, TAB)| >= MIN_FIELDS)
  }

  predicate AllWellFormed(lines: seq<seq<byte>>) {
    forall i :: 0 <= i < |lines| ==> WellFormed(lines[i])
  }

  /** A chunk `Parse` handles without a run-time panic. */
  predicate Parsable(chunk: seq<byte>) {
    AllWellFormed(Split(chunk, NEWLINE))
  }

  /** The record of one data line. */
  function ParseLine(line: seq<byte>): (c: Conn)
    requires WellFormed(line) && !IsComment(line)
    ensures TAB !in c.orig && TAB !in c.resp
  {
    var f := Split(line, TAB);
    Conn(f[ORIG_FIELD], f[RESP_FIELD], Atoi(f[ORIG_BYTES_FIELD]) + Atoi(f[RESP_BYTES_FIELD]))
  }

  /** The lines that are not comments, in their original order. */
  function DataLines(lines: seq<seq<byte>>): (data: seq<seq<byte>>)
    requires AllWellFormed(lines)
    ensures AllWellFormed(data)
    ensures forall i :: 0 <= i < |data| ==> !IsComment(data[i])
    decreases |lines|
  {
    if |lines| == 0 then []
    else
      var last := lines[|lines| - 1];
      DataLines(lines[..|lines| - 1]) + (if IsComment(last) then [] else [last])
  }

  lemma WellFormedConcat(a: seq<seq<byte>>, b: seq<seq<byte>>)
    requires AllWellFormed(a) && AllWellFormed(b)
    ensures AllWellFormed(a + b)
  {
    var ab := a + b;
    forall i | 0 <= i < |ab|
      ensures WellFormed(ab[i])
    {
      if i < |a| {
        assert ab[i] == a[i];
      } else {
        assert ab[i] == b[i - |a|];
      }
    }
  }

  /** One line is kept exactly when it is not a comment. */
  lemma DataLinesOne(line: seq<byte>)
    requires WellFormed(line)
    ensures DataLines([line]) == if IsComment(line) then [] else [line]
  {
    assert [line][..0] == [];
  }

  /** The comment filter works line by line: the data lines of `a + b` are those of `a`
      followed by those of `b`. With `DataLinesOne` this fixes the data lines as every
      non-comment line, once, in line order. */
  lemma {:induction false} DataLinesConcat(a: seq<seq<byte>>, b: seq<seq<byte>>)
    requires AllWellFormed(a) && AllWellFormed(b)
    ensures AllWellFormed(a + b)
    ensures DataLines(a + b) == DataLines(a) + DataLines(b)
    decreases |b|
  {
    WellFormedConcat(a, b);
    var ab := a + b;
    if |b| == 0 {
      assert ab == a;
    } else {
      var front := b[..|b| - 1];
      var last := b[|b| - 1];
      assert AllWellFormed(front) by {
        forall i | 0 <= i < |front| ensures WellFormed(front[i]) {
          assert front[i] == b[i];
        }
      }
      DataLinesConcat(a, front);
      assert ab[..|ab| - 1] == a + front;
      assert ab[|ab| - 1] == last;
    }
  }

  lemma WellFormedSlice(lines: seq<seq<byte>>, lo: nat, hi: nat)
    requires AllWellFormed(lines) && lo <= hi <= |lines|
    ensures AllWellFormed(lines[lo..hi])
  {
    forall j | 0 <= j < hi - lo ensures WellFormed(lines[lo..hi][j]) {
      assert lines[lo..hi][j] == lines[lo + j];
    }
  }

  /** Every non-comment line survives the filter. */
  lemma {:induction false} DataLinesKeep(lines: seq<seq<byte>>, i: nat)
    requires AllWellFormed(lines)
    requires i < |lines| && !IsComment(lines[i])
    ensures lines[i] in DataLines(lines)
  {
    var a, b := lines[..i + 1], lines[i + 1..];
    WellFormedSlice(lines, 0, i + 1);
    WellFormedSlice(lines, i + 1, |lines|);
    assert lines[0..i + 1] == a && lines[i + 1..|lines|] == b;
    assert lines == a + b;
    DataLinesConcat(a, b);
    DataLinesLast(a);
    assert a[|a| - 1] == lines[i];
  }

  lemma DataLinesLast(lines: seq<seq<byte>>)
    requires AllWellFormed(lines) && |lines| > 0 && !IsComment(lines[|lines| - 1])
    ensures lines[|lines| - 1] in DataLines(lines)
  {
    var n := |lines| - 1;
    assert DataLines(lines) == DataLines(lines[..n]) + [lines[n]];
  }

  /** The records the loop appends, one per data line, in line order. */
  function Records(lines: seq<seq<byte>>): (recs: seq<Conn>)
    requires AllWellFormed(lines)
    ensures |recs| == |DataLines(lines)|
    ensures forall i :: 0 <= i < |recs| ==> recs[i] == ParseLine(DataLines(lines)[i])
    decreases |lines|
  {
    if |lines| == 0 then []
    else
      var last := lines[|lines| - 1];
      Records(lines[..|lines| - 1]) + (if IsComment(last) then [] else [ParseLine(last)])
  }

  function Placeholders(n: nat): (ps: seq<Conn>)
    ensures |ps| == n && forall i :: 0 <= i < n ==> ps[i] == Placeholder
  {
    seq(n, _ => Placeholder)
  }

  /** `Parser.Parse` with its batch as the result: `len(lines)` placeholders (the slice is
      made with that length and then appended to), followed by one record per data line. */
  function Parse(chunk: seq<byte>): (batch: seq<Conn>)
    requires Parsable(chunk)
    ensures var lines := Split(chunk, NEWLINE);
      && |batch| == |lines| + |DataLines(lines)|
      && (forall i :: 0 <= i < |lines| ==> batch[i] == Placeholder)
      && (forall i :: 0 <= i < |DataLines(lines)| ==>
            batch[|lines| + i] == ParseLine(DataLines(lines)[i]))
  {
    var lines := Split(chunk, NEWLINE);
    var recs := Records(lines);
    var batch := Placeholders(|lines|) + recs;
    AppendRight(Placeholders(|lines|), recs);
    batch
  }

  /** A record the log format can carry: neither address holds a tab or a newline. */
  predicate Printable(c: Conn) {
    TAB !in c.orig && NEWLINE !in c.orig && TAB !in c.resp && NEWLINE !in c.resp
  }

  /** The fields of a log line carrying `c`, of whose bytes `respBytes` went from the
      responder: the addresses in fields 2 and 4, the originator's bytes
      `c.bytes - respBytes` in field 16, the responder's `respBytes` in field 18, and `-`
      everywhere else. */
  function Fields(c: Conn, respBytes: int): (f: seq<seq<byte>>)
    ensures |f| == MIN_FIELDS
  {
    seq(MIN_FIELDS, i =>
      if i == ORIG_FIELD then c.orig
      else if i == RESP_FIELD then c.resp
      else if i == ORIG_BYTES_FIELD then Itoa(c.bytes - respBytes)
      else if i == RESP_BYTES_FIELD then Itoa(respBytes)
      else [MINUS])
  }

  function FormatLine(c: Conn, respBytes: int): seq<byte> {
    Join(Fields(c, respBytes), TAB)
  }

  lemma FieldsAvoid(c: Conn, respBytes: int, b: byte)
    requires Printable(c) && (b == TAB || b == NEWLINE)
    ensures forall i :: 0 <= i < |Fields(c, respBytes)| ==> b !in Fields(c, respBytes)[i]
  {
    ItoaBytes(c.bytes - respBytes);
    ItoaBytes(respBytes);
  }

  /** Parsing a formatted line gives the record back, however its byte count is shared
      between fields 16 and 18: the parser adds the two. */
  lemma ParseFormatLine(c: Conn, respBytes: int)
    requires Printable(c)
    ensures WellFormed(FormatLine(c, respBytes)) && !IsComment(FormatLine(c, respBytes))
    ensures ParseLine(FormatLine(c, respBytes)) == c
  {
    var f := Fields(c, respBytes);
    FieldsAvoid(c, respBytes, TAB);
    SplitJoin(f, TAB);
    AtoiItoa(c.bytes - respBytes);
    AtoiItoa(respBytes);
    assert FormatLine(c, respBytes)[0] == MINUS;
  }

  /** A chunk made of formatted lines, one per record; `respBytes[i]` of the bytes of
      record `i` are written as the responder's. */
  function FormatChunk(conns: seq<Conn>, respBytes: seq<int>): seq<byte>
    requires |conns| > 0 && |respBytes| == |conns|
  {
    Join(seq(|conns|, i requires 0 <= i < |conns| => FormatLine(conns[i], respBytes[i])), NEWLINE)
  }

  lemma {:induction false} AllDataLines(lines: seq<seq<byte>>)
    requires AllWellFormed(lines)
    requires forall i :: 0 <= i < |lines| ==> !IsComment(lines[i])
    ensures DataLines(lines) == lines
    decreases |lines|
  {
    if |lines| > 0 {
      AllDataLines(lines[..|lines| - 1]);
      assert lines == lines[..|lines| - 1] + [lines[|lines| - 1]];
    }
  }

  /** A formatted line holds no newline and parses back to its record. */
  lemma FormattedLine(c: Conn, respBytes: int)
    requires Printable(c)
    ensures NEWLINE !in FormatLine(c, respBytes)
    ensures WellFormed(FormatLine(c, respBytes)) && !IsComment(FormatLine(c, respBytes))
    ensures ParseLine(FormatLine(c, respBytes)) == c
  {
    FieldsAvoid(c, respBytes, NEWLINE);
    JoinAvoids(Fields(c, respBytes), TAB, NEWLINE);
    ParseFormatLine(c, respBytes);
  }

  /** Parsing a chunk of formatted records gives one placeholder per line followed by the
      records themselves, in order. */
  lemma ParseFormatChunk(conns: seq<Conn>, respBytes: seq<int>)
    requires |conns| > 0 && |respBytes| == |conns|
    requires forall i :: 0 <= i < |conns| ==> Printable(conns[i])
    ensures Parsable(FormatChunk(conns, respBytes))
    ensures Parse(FormatChunk(conns, respBytes)) == Placeholders(|conns|) + conns
  {
    var lines := seq(|conns|, i requires 0 <= i < |conns| => FormatLine(conns[i], respBytes[i]));
    forall i | 0 <= i < |conns|
      ensures NEWLINE !in lines[i]
      ensures WellFormed(lines[i]) && !IsComment(lines[i])
      ensures ParseLine(lines[i]) == conns[i]
    {
      FormattedLine(conns[i], respBytes[i]);
    }
    SplitJoin(lines, NEWLINE);
    AllDataLines(lines);
    assert Records(lines) == conns;
  }

  /** A chunk that ends in a newline has an empty last line, on which `line[0]` panics. */
  lemma TrailingNewlineNotParsable(chunk: seq<byte>)
    requires |chunk| > 0 && chunk[|chunk| - 1] == NEWLINE
    ensures !Parsable(chunk)
  {
    SplitTrailing(chunk, NEWLINE);
  }
}
