# qreader in Dafny

`qreader` tallies the bytes that each local host (an address starting with `128.252.`)
exchanged in a Bro/Zeek-style connection log. It runs as a pipeline:

- a reader cuts the decompressed log into newline-terminated chunks;
- parsers turn each chunk into connection records;
- reducers fold each batch of records into a partial tally;
- a combiner merges the partials and prints up to ten addresses, largest values first, each
  with its percentage of the grand total (the total itself is not printed).

This project models the sequential logic of each stage as pure functions over sequences and
maps, and proves what each stage computes. The goroutines and channels around the stages are
not modelled.

Module layout, one file each:

- `Seqs`: sums of weighted sequences, concatenation, and permutation lemmas.
- `Bytes`: bytes, `strings.Split`/`Join`, and `strconv.Atoi`/`Itoa` on decimal numerals.
- `Tallies`: Go maps used as tallies. `m[k] += v` on a missing key starts from 0. A `range`
  loop's visiting order is an explicit `order` argument, constrained to enumerate the keys.
- `Chan`: a channel as the sequence of values sent and a closed flag. Sending on or closing a
  closed channel panics in Go, so both require an open channel.
- `Reader`: the reframing loop of `Reader.Start`.
- `Parser`: `Parser.Parse`.
- `Reducer`: `Reducer.Reduce`.
- `Combiner`: the merge fold and progress counts of `Combiner.Start`.
- `Ranking`: `Combiner.Report`.
- `Pipeline`: the stages composed.

Go strings and byte slices are both `seq<byte>`. Integers are unbounded.

## Model

| member | source | states |
|---|---|---|
| Reader.Pad | qreader.go:105-106 | The buffer of a read holds `bsize` bytes: the bytes read, then zero bytes up to `bsize`. This is a definition whose ensures restate it; `Reader.ReadStep` and `Reader.ShortReadInjectsZero` state its consequence. |
| Reader.LastNewline | qreader.go:117-130 | The scan moves down from `length-1` and stops at a newline. The result is a newline position with no newline above it, or 0 when no index from 1 up holds one. Index 0 is never examined. |
| Reader.Cut | qreader.go:116-131 | Split rule. A read sends a chunk exactly when its buffer has a newline at an index from 1 to `length-1`. The chunk is the leftovers plus the buffer up to the last such newline. The new leftovers are the buffer after it. Without such a newline, the whole buffer joins the leftovers. In both cases, sent chunk + newline + leftovers spell old leftovers + buffer. |
| Reader.ReadStep | qreader.go:105-131 | One read as written: the chunk sent, if any, its newline and the new leftovers spell the old leftovers plus the whole `bsize` buffer. The new leftovers always end with the `bsize - length` zero bytes that were never read. |
| Reader.Turn | qreader.go:117-131 | One turn of the loop: the chunk the read cuts off, if any, is sent on the output (line 125), which stays open. The new leftovers are the step's leftovers. This is a definition whose ensures restate it; `Reader.Start` keeps `Reader.Replay` as its loop invariant through it. |
| Reader.Replay | qreader.go:103-132 | After any number of non-empty reads, at most one chunk per read has been sent. |
| Reader.ReplayConserves | qreader.go:103-132 | Byte conservation: the chunks, each followed by a newline, then the leftovers, spell exactly the buffers filled so far. |
| Reader.Start | qreader.go:101-135 | Reading stops at the first zero-length read. Every chunk is sent on the output, which is then closed exactly once. The final leftovers are never sent. Bytes are conserved against the buffers. When every read fills its buffer, they are conserved against the bytes read. |
| Reader.FullReadsBuffers | qreader.go:105-106 | When every read fills the `bsize` buffer, the buffers are exactly the bytes read. |
| Reader.ShortReadInjectsZero | qreader.go:120-126 | As written, a short read carries zero bytes that were never read into the next chunk (first finding, below). |
| Reader.ReplayExact | qreader.go:116-131 | With `buffer[:length]` in place of the whole buffer, conservation holds for reads of every size. |
| Reader.LastLineLost | qreader.go:117-121 | As written, a newline at index 0 of a read is never a cut point. With `bsize` 2, reads `ab` then a lone newline send nothing, though the input ends with a complete line (third finding, below). |
| Reader.CutFixed | qreader.go:117-131 | With the scan reaching index 0 and only the bytes read looked at, a read sends a chunk exactly when it holds a newline. Bytes are conserved, and after a send the leftovers hold no newline. |
| Reader.ReplayFixed | qreader.go:103-132 | With both corrections, the chunks and their newlines, then the leftovers, spell the bytes read, and the leftovers hold no newline. So every line a newline ends is sent. |
| Bytes.Split | qreader.go:156 | `strings.Split` gives at least one piece. No piece holds the separator, and joining the pieces gives the input back. |
| Bytes.SplitJoin | qreader.go:163 | Splitting pieces joined by a separator they do not contain gives those pieces back. |
| Bytes.SplitTrailing | qreader.go:156-160 | A string ending in the separator splits into at least two pieces, the last of them empty. |
| Bytes.Atoi | qreader.go:166-167 | A non-zero result comes from a non-empty field, and a negative one from a field starting with `-`. |
| Bytes.AtoiRejects | qreader.go:166-167 | The error is discarded, so a field `strconv.Atoi` rejects counts 0. That covers an empty field, a lone sign, a field starting with neither a digit nor a sign, and a non-digit after the first byte. |
| Bytes.AtoiDigits | qreader.go:166-167 | A non-empty field of digits reads as its decimal value. |
| Bytes.AtoiSigned | qreader.go:166-167 | A sign followed by at least one digit reads as the digits' value, negated for `-`. |
| Bytes.AtoiItoa | qreader.go:166-167 | `Atoi` reads back every integer `Itoa` writes, negative ones included. |
| Parser.DataLines | qreader.go:159-162 | The lines that survive the comment filter are non-comment lines. |
| Parser.DataLinesOne | qreader.go:159-162 | A single line survives exactly when it is not a comment. |
| Parser.DataLinesConcat | qreader.go:158-162 | The filter works line by line. The survivors of `a + b` are those of `a` followed by those of `b`. With `DataLinesOne`, every non-comment line survives exactly once, in line order. |
| Parser.DataLinesKeep | qreader.go:158-162 | Every non-comment line is among the survivors. |
| Parser.ParseLine | qreader.go:163-167 | The per-line parse: the two addresses are tab-separated fields, so they hold no tab. `Parser.ParseFormatLine` proves it inverts the line format for every split of the byte count between fields 16 and 18, so both fields are added. |
| Parser.Records | qreader.go:159-169 | One record per non-comment line, in line order. Each has orig = field 2, resp = field 4 and bytes = `Atoi(field 16) + Atoi(field 18)`. |
| Parser.Parse | qreader.go:155-169 | The batch is `len(lines)` zero-valued records followed by one record per data line, in order. It requires every line to be non-empty, and every non-comment line to have at least 19 tab-separated fields. Otherwise the source indexes out of range. |
| Parser.ParseFormatLine | qreader.go:163-168 | Parsing a log line written from a record gives that record back, however its byte count is split between the originator's field 16 and the responder's field 18: the parser adds the two. |
| Parser.ParseFormatChunk | qreader.go:155-169 | Parsing a chunk of such lines, each with its own split between fields 16 and 18, gives one placeholder per line, then the records themselves. |
| Parser.TrailingNewlineNotParsable | qreader.go:156-160 | A chunk ending in a newline has an empty last line, on which `line[0]` panics. |
| Reducer.IsLocal | qreader.go:209-213 | An address is local when it starts with `128.252.`. This is a definition with no contract of its own. |
| Reducer.Account | qreader.go:205-215 | One record adds its bytes at its originating address if that is local, and again at its responding address if that is local. Nothing else changes. |
| Reducer.Reduce | qreader.go:201-216 | At each local address the tally holds the bytes of records originated there plus the bytes of records answered there. Every other address reads as 0. |
| Reducer.ReduceKeys | qreader.go:209-215 | The tally's keys are exactly the local addresses the batch mentions, as originator or responder, so every key is local. |
| Reducer.ReduceOrderFree | qreader.go:204-216 | The tally does not depend on the order of the records. |
| Reducer.ReduceConcat | qreader.go:202-216 | Reducing two batches in sequence gives the key-by-key sum of their tallies. |
| Reducer.ReduceNothingLocal | qreader.go:209-215 | A batch in which no address is local leaves the tally empty. |
| Reducer.ReducePlaceholders | qreader.go:209-215 | The zero-valued placeholder records change nothing. |
| Reducer.SelfConnectionCountsTwice | qreader.go:209-215 | A record from a local address to itself adds twice its byte count at that address, after any batch, and changes nothing else. |
| Tallies.BumpIsPlus | qreader.go:252 | `final[ip] += bytecount` adds the one-entry tally `{ip: bytecount}` to `final`. |
| Tallies.PlusEmpty | qreader.go:248 | `final` starts as the empty tally, which adds nothing on either side. |
| Tallies.PlusCommutes | qreader.go:250-256 | Adding two tallies does not depend on which comes first. |
| Tallies.PlusAssociates | qreader.go:250-256 | Adding tallies does not depend on how they are grouped. |
| Combiner.AddAll | qreader.go:251-253 | Whatever order the `range` loop takes, adding a partial into `final` leaves `final` as the key-by-key sum. |
| Combiner.Merge | qreader.go:248-256 | The fold itself: `final` starts empty and each partial is added in arrival order. It has no contract of its own. `Combiner.MergeSums` states its contents. |
| Combiner.MergeSums | qreader.go:248-256 | After all partials, `final` has the union of their keys. Each key holds the sum of the partials' values there. |
| Combiner.MergeOrderFree | qreader.go:250-256 | The final tally does not depend on the order the partials arrive in. |
| Combiner.Start | qreader.go:247-259 | For any visiting orders, `final` is the merge of the partials. One progress count equal to each partial's size is sent, in arrival order. The progress channel is then closed. |
| Ranking.SortDescending | qreader.go:286-289 | The sorted values are a non-increasing rearrangement of the values. |
| Ranking.SortedIsUnique | qreader.go:286-289 | Any two non-increasing rearrangements of the same values are equal, so the choice of sort algorithm does not matter. |
| Ranking.SortDescendingUnique | qreader.go:286-289 | Sorting gives exactly the one non-increasing arrangement of its input. |
| Ranking.Zeros | qreader.go:270 | `make([]int64, len(tt))` gives `len(tt)` zeros. `keys` starts with these and the values are appended after them. This is a definition whose ensures restate it; `Ranking.SumZeros` and `Ranking.PrintableValues` state what it contributes. |
| Ranking.Values | qreader.go:274-282 | The values appended to `keys`, one per address, in visiting order. This is a definition whose ensures restate it; `Ranking.ZeroValued` and `Ranking.PrintableValues` state what it holds. |
| Ranking.Swapped | qreader.go:274-280 | `swapped` holds exactly the values of the tally. Each is mapped to the first address visited with that value. |
| Ranking.Select | qreader.go:291-308 | At most `limit` lines, non-increasing when the input is sorted. Each pairs a value with the address `swapped` holds for it. |
| Ranking.Report | qreader.go:269-309 | The total is the sum of all values. At most ten lines, in non-increasing order of value. Each line's address is a key of the tally, paired with its value, and is the first address visited with that value. |
| Ranking.ReportTotalOrderFree | qreader.go:273-284 | The total does not depend on the visiting order. |
| Ranking.SelectComplete | qreader.go:291-308 | A value `swapped` holds is printed when it beats the last printed value or when fewer than `limit` lines were printed. |
| Ranking.ReportComplete | qreader.go:269-308 | Every value of the tally is printed, unless ten lines were printed and it does not exceed the last of them. |
| Ranking.SelectLength | qreader.go:291-308 | The number of lines is the number of sorted values `swapped` holds, capped at the limit. |
| Ranking.ReportLineCount | qreader.go:270-308 | There are `min(10, n)` lines. `n` is `len(tt)`, plus another `len(tt)` when some address has value 0, because the padding zeros at line 270 are printed too. |
| Ranking.TieKeepsFirstAddress | qreader.go:274-280 | As written, two addresses with equal values print the first one twice and never the second (second finding, below). |
| Ranking.RankDistinct | qreader.go:269-309 | The corrected ranking prints `min(10, len(tt))` lines in non-increasing order of value. Each address appears at most once, paired with its value. |
| Ranking.PairsOfEnumeration | qreader.go:274-284 | The sorted `(address, value)` pairs of an enumeration hold every address of the tally exactly once, each with its value. |
| Ranking.RankDistinctComplete | qreader.go:286-308 | An address the corrected ranking leaves out is outranked: ten lines were printed, none with a smaller value. |
| Pipeline.MergeReduced | qreader.go:201-256 | Reducing batch by batch and merging gives the tally of all records at once. |
| Pipeline.ReduceParse | qreader.go:158-215 | A chunk's partial tally is that of its data records alone. |
| Pipeline.BatchingFree | qreader.go:201-256 | The final tally does not depend on how the records are grouped into batches or ordered. |

## Left out

- `GetReader` is not modelled: the `gzcat` process and `os.Open` are I/O. The bytes it yields are a sequence of reads given as input. A read returns at most `bsize` bytes, and the end of the sequence, or an empty read, is end of input.
- The fatal error paths (a read error, a failed open) are I/O failures, so they are not modelled.
- `LogInit`, flag parsing and `main` are not modelled: they are configuration and logging plumbing.
- `Parser.Start`, `Reducer.Start` and the channel plumbing between the stages are not modelled. This covers their goroutines, buffered-channel semaphores and `time.Sleep` polling before close. Each stage is a function applied to each item. `Pipeline` states that the final tally does not depend on how chunks and batches are distributed.
- The progress monitor loop is not modelled: it is terminal output only. `Combiner.Start` states the progress counts it would read.
- The call to `Report` at the end of `Combiner.Start` is modelled separately as `Ranking.Report` on the final tally.
- The percentages printed next to each address are not modelled: they use floating-point division, including division by a zero total. `Ranking.Report` gives the selected `(address, value)` pairs and the integer total.
- Bytes.Atoi: does not model `strconv.Atoi`'s range error for values beyond 64 bits.
- Reducer.Reduce: the `int64` conversions and sums are unbounded integers, so 64-bit overflow is not modelled. The same holds for `Combiner.Start` and `Ranking.Report`.
- Go's randomised map iteration order is an explicit `order` argument. Every property about a `range` loop holds for every order that visits each key once.
- Parser.Parse: requires a parsable chunk (no empty line; every non-comment line has 19 fields) instead of modelling the index-out-of-range panic. The reader can produce chunks that violate this, for example a blank line in the log.
- Ranking.Report: the selected lines of the tie-affected output are stated through their values and `swapped`. `Ranking.ReportComplete` and `Ranking.ReportLineCount` give which values and how many lines. The exact address printed for each duplicate value is stated only as the first one visited.

Where a description of the program and its code differ, the model follows the code:

- a chunk sent by the reader can hold several lines;
- the bytes after the last newline of the input are dropped at end of input, not sent as a final line;
- a newline that lands at index 0 of a read is never a cut point. When no later read has a newline past its index 0, the complete line before that newline is dropped too (third finding, below).

## Findings

| source | as written | input that shows it | evidently intended | confidence | as-written member | corrected member |
|---|---|---|---|---|---|---|
| qreader.go:120-126 | The whole `bsize` buffer, including the zero bytes past `length`, is appended to or kept as the leftovers. | `bsize` 4, reads `a\nc` then `d\nxy`: the second chunk is `c`, a zero byte, `d`. | Carry only `buffer[:length]`, so the chunks and leftovers spell exactly the bytes read. | high; not executed | Reader.ShortReadInjectsZero | Reader.ReplayExact |
| qreader.go:274-280 | A later address with an already-seen value is appended to a local copy of the list and lost. The printing loop prints the first address once per copy of the value. The `len(tt)` padding zeros at line 270 repeat a zero-valued address the same way. | Tally `{1: 5, 2: 5}` visited 1 then 2: the lines are `(1, 5)`, `(1, 5)`, and address 2 is never printed. | Each address printed once, by value, largest first, ten at most. | high; not executed | Ranking.TieKeepsFirstAddress | Ranking.RankDistinct |
| qreader.go:117-121 | The scan stops when `end_it` reaches 0 before testing `buffer[0]`, so a newline at index 0 of a read is never a cut point. | `bsize` 2, reads `ab` then a lone newline: no chunk is sent, and the line `ab` is lost at end of input. | Test index 0 too, so every line a newline ends is sent. | high; not executed | Reader.LastLineLost | Reader.ReplayFixed |

`Reader.Start` and `Ranking.Report` keep the behaviour as written. The corrected definitions
stand beside them with their properties proved: `Reader.ReplayExact` conserves bytes for
reads of any size, `Reader.ReplayFixed` also sends every line a newline ends, and
`Ranking.RankDistinct` prints each address at most once and is complete
(`Ranking.RankDistinctComplete`). `Ranking.TieKeepsFirstAddress` uses integer addresses;
`Ranking.Report` is generic in the address type.
