# libnxz in Dafny

libnxz drives a hardware gzip engine. This project models the parts of the library
that are software and proves what they are for. All statements hold for every input
or for every run; where the C types bound a value, the model computes with their width.

- **Huffman tables** (`Bits`, `Canonical`, `DhtFormat`, `HclenTable`, `DhtEncoder`,
  `DhtDecoder`, `Huffman`, `HuffmanOptimal`, `HuffmanLengths`, `DhtGen`, `DhtRoundTrip`).
  The generator normalises counts, builds a tree with two ring queues, and retries until
  no code is longer than 15 bits. The run-length encoder packs the code lengths into bits,
  and a separate streaming decoder rebuilds canonical codes in one pass
  (section 3.2.2 and section 3.2.7 of RFC 1951). Proved: at most eight passes, each of which
  divides the counts by the least divisor that will do, optimality among all prefix codes
  for the counts they leave (which are the caller's own if and only if these are small enough),
  Kraft sum one, the size bound of 2283 bits, and the round trip.
- **Checksums** (`LinearRegister`, `Crc`, `CrcTables`, `CrcLoops`, `CrcPolynomial`, `Adler`,
  `NxCopy`). The bit-at-a-time CRC is a linear register over GF(2), and what it holds is the one
  remainder of the string's polynomial divided by that of CRC-32. The table loops for both byte
  orders compute it, the squared matrices combine two of them, and Adler-32 with deferred
  reduction equals its definition (section 8.2 of RFC 1950). `nx_copy` folds both over the
  jobs of a long copy.
- **Streaming buffers** (`Buffers`, `Inflate`, `DeflateHistory`, `DeflateStream`). The engine is
  any function that stays within what it is offered. Inflate keeps the last 32 KB of its output
  in front of the tail of `fifo_out` through drains, overflows and compaction. A log of all jobs
  ties both sides of the stream to the engine: what is delivered and pending is what the jobs
  made, what is gone from the input is what they used, and each was given the window and
  the input that follows, of just the expected sizes, and only when a job was due. Deflate keeps
  its history in `fifo_in`; its log says the same of the input side of whole calls, with stored
  blocks for input whose output has expanded.
- **Headers** (`GzipHeader`, `GzipRoundTrip`, `GzipChunks`, `GzipWriter`, `GzipReader`). The
  gzip and zlib header writer against the resumable reader (section 2.3 of RFC 1952), under
  any split of the input and with buffers of any size.
- **Tables and handles** (`NxMap`, `DhtCache`, `Handles`). An open-addressed map, the cache
  of Huffman tables with its clock, and reference-counted device handles.

The source is C that updates structures in place; so are the models: classes with the
source's fields, arrays, and loops with invariants, each method specified by a function or a
predicate over pure values about which the lemmas are proved. `Buffers.Held` and
`LinearRegister.Laws` name one instance of a law so that proofs can say which one they use.
`Wrappers` and `Sequences` hold what all modules share. Proofs hide the bodies of functions
they do not need (`hide`), which keeps them quick.

Eight properties turned out not to hold in general. Each has a concrete case and the exact
condition:

- `nx_map_put` leaves a table that represents the updated map exactly when the key was absent
  (`NxMap.Map.Put`); in a new map, a key put twice keeps its first value (`NxMap.PutTwice`).
- `nx_map_remove` with a NULL key lowers the entry count without taking anything out. A valid
  map stays valid exactly when the key is not NULL or the count was too high before
  (`NxMap.Map.Remove`). In a new map the count wraps around to the largest `size_t`, and
  after the next put it is zero with an entry in the table (`NxMap.CountLost`).
- `nx_close` forgets a saved handle that nobody holds when another handle is closed for the
  last time while credits are low (`Handles.Pool.Close`, `Handles.Forgotten`).
- The extra field of a gzip header is copied to the caller's buffer call by call, and a call
  that starts beyond the end of the buffer copies a negative number of bytes, taken as
  unsigned. So the split of the input matters exactly when some call that brings input starts
  strictly between `extra_max` and the end of the field (`GzipChunks.HeaderRoundTrip`,
  `GzipReader.ReadBack`); 30 bytes of extra field, a buffer of 10 and a split after 20 are such
  a case (`GzipChunks.TenThirtyTwenty`).
- A gzip header with a time of 2^31 or more stops a reader that keeps a record, by an
  assertion (`GzipRoundTrip.LateTimeAborts`, `GzipChunks.HeaderRoundTrip`).
- The overflow of an inflate job is the difference of two `uint32_t` in an `int`. It has the
  right sign exactly when the job leaves at most 2^31 bytes of the caller's buffer empty
  (`Inflate.OverflowLenIs`, `Inflate.Output.TakeOutput`). A call is safe with every engine exactly
  when it starts its first job with no more space than that (`Inflate.Stream.Inflate`,
  `Inflate.SafeForAll`). With 3 GB of space and 40960 bytes made, all 3 GB count as written and
  another gigabyte as waiting (`Inflate.ThreeGigabytes`).
- `nx_inflate_` adds `used_in` and `avail_in` in 32 bits where it decides whether to wait for more
  input. A call that returns `Z_OK` with room in the output has left too little input to go on
  exactly when what is left is less than 2^32 bytes, as it is whenever the call began so
  (`Inflate.Stream.Inflate`). With one byte cached and 2^32 - 1 more, no call makes any progress
  (`Inflate.NoProgress`).
- `nx_deflate` guards `cache_input` with the same sum. Behind the guard, no move reads before
  `fifo_in` exactly when the sum does not wrap or there is as much before the cached input as is
  kept (`DeflateHistory.Input.CacheInput`); the same two inputs are a case
  (`DeflateStream.ReadsBefore`).

`nx_setup_ddl_in` says that it respects its byte limit and gives new input priority over
history; the minimum that would do so is overwritten by the next assignment. The limit holds
exactly when the history is within it (`DeflateHistory.LimitKept`), which its callers make
sure of: stored blocks have no history at all (`DeflateStream.Stream.StoredBlocks`), and a
compression job has 32 KB at most, against `per_job_len` (`DeflateStream.WithinLimit`).

## Model

| member | source | states |
|---|---|---|
| Bits.ReversalOfMsb | lib/nx_dht_decomp.c:227-236 | the code bits written most significant first are the low bits of the reversed code |
| Canonical.BaseIsKraft | lib/nx_dht_decomp.c:591-597 | the smallest code of a length is the Kraft sum of the shorter codes |
| Canonical.CodesFitIffKraft | lib/nx_dht_decomp.c:595-615 | the codes of every length fit in their bits if and only if the Kraft inequality holds |
| Canonical.CanonicalIsPrefixFree | lib/nx_dht_decomp.c:595-642 | base plus index codes are prefix-free whenever the lengths satisfy the Kraft inequality |
| Canonical.RfcExample | lib/nx_dht_decomp.c:591-642 | the codes of the example in section 3.2.2 of RFC 1951 |
| HclenTable.TabIsCanonical | lib/nx_dhtgen.c:610-650 | each hard-coded code of the length alphabet is the reversed canonical code of its length |
| HclenTable.TabIsComplete | lib/nx_dhtgen.c:610-650 | the hard-coded code is complete, so every length and run can be written |
| DhtFormat.OrderIs | lib/nx_dhtgen.c:720 | the lengths of the length alphabet are sent in the order of section 3.2.7 of RFC 1951: the runs and 0, then outwards from 8; the sizes of the alphabets |
| DhtFormat.ExtraIs | lib/nx_dhtgen.c:757-905 | the symbols of the runs, and how many extra bits with which offset follow them |
| DhtEncoder.BitWriter.Append | lib/nx_dhtgen.c:666-678 | the bits in the buffer grow by exactly the appended ones, for every alignment, in the cleared bytes only |
| DhtEncoder.BitWriter.Flush | lib/nx_dhtgen.c:679-686 | every appended bit is in the buffer after the flush |
| DhtEncoder.RunEncoder.Step | lib/nx_dhtgen.c:757-905 | each transition of the five-state encoder keeps tokens written plus run pending equal to the lengths read |
| DhtEncoder.WholeRun | lib/nx_dhtgen.c:757-905 | what a state has sent of a run and has still to write are the tokens of the run: six repeats or 138 zeros at a time, and the rest as one token or, below three, one by one |
| DhtEncoder.EncodeHclen | lib/nx_dhtgen.c:610-650 | the table returned gives every symbol of the length alphabet its canonical code word |
| DhtEncoder.EncodeLengths | lib/nx_dhtgen.c:709-915 | the bits written spell a valid table for exactly the given lengths, in the tokens that run-length encoding run by run gives, at most 14 + 57 + 7 bits per length, 2283 at most, in a 288-byte buffer |
| DhtDecoder.BitReader.ShiftThenGetBits | lib/nx_dht_decomp.c:193-224 | the result is the next bits of the stream after the dropped ones: all that are needed if and only if two refills are enough, otherwise those there are |
| DhtDecoder.Reverse | lib/nx_dht_decomp.c:227-236 | the loop reverses exactly the low n bits |
| DhtDecoder.SearchHclenTree | lib/nx_dht_decomp.c:238-251 | finds the first entry that matches the peeked bits, or -1 when there is none |
| DhtDecoder.OnlyMatch | lib/nx_dht_decomp.c:238-251 | for a prefix-free code the entry whose word comes next is the only one that matches |
| DhtDecoder.CodeMinimums | lib/nx_dht_decomp.c:591-615 | the shift-and-add loop gives the base of every length of the canonical code |
| DhtDecoder.OnePassCodes | lib/nx_dht_decomp.c:463-484 | the index counted while lengths arrive, plus the base of the length, is the two-pass canonical code |
| DhtDecoder.Ctx.DhtDecomp | lib/nx_dht_decomp.c:255-616 | from the bits of any valid table the decoder stores exactly the lengths it describes, literals and distances apart, with complete bases and indices |
| DhtRoundTrip.RoundTrip | lib/nx_dhtgen.c:709-915 | decoding what was encoded returns every length array, with runs of any length and across the literal/distance boundary |
| DhtRoundTrip.Dhtgen | lib/nx_dhtgen.c:945-1033 | the generated buffer holds a valid table of optimal lengths for the counts that the passes leave, the byte and bit counts returned are those of its bits, and the counts are the caller's own divided pass by pass, or the caller's own if and only if they add up to at most 16384 and give a tree at most 15 high |
| DhtRoundTrip.GenerateAndDecode | lib/nx_dhtgen.c:945-1033 | counts to decoded tables: prefix-free, Kraft sum one, a code for exactly the used symbols, and no prefix code takes fewer bits for the normalised counts, nor for the caller's own if they are small enough; with fewer than two distances, one code of one bit |
| DhtRoundTrip.FillZeros | lib/nx_dhtgen.c:235-249 | zero counts become the value given and no other count changes |
| DhtRoundTrip.UniversalTable | lib/nx_dht.c:625-643 | whatever the counts, the table generated for a lookup decodes to a code for every symbol, the best one for the counts with 1 for each zero, divided pass by pass |
| Huffman.DeepIsHeavy | lib/nx_dhtgen.c:418-571 | a greedy tree of height d has weight at least the Fibonacci number d + 2 |
| Huffman.StepOrdered | lib/nx_dhtgen.c:464-549 | one merge keeps both queues sorted and takes the two lightest of all nodes |
| Huffman.BuildGreedy | lib/nx_dhtgen.c:464-549 | the two-queue construction gives a greedy tree |
| Huffman.BuildItems | lib/nx_dhtgen.c:464-549 | the leaves of the tree are exactly the queued ones |
| Huffman.BuildCost | lib/nx_dhtgen.c:464-549 | the cost of the tree is that of the textbook greedy algorithm on the sorted weights |
| HuffmanOptimal.Optimal | lib/nx_dhtgen.c:418-571 | no depths that satisfy the Kraft inequality cost less than the greedy algorithm |
| HuffmanOptimal.KraftInequality | lib/nx_dhtgen.c:418-571 | every prefix code satisfies the Kraft inequality |
| HuffmanOptimal.BestPrefixCode | lib/nx_dhtgen.c:418-571 | no prefix code costs less than the greedy algorithm |
| HuffmanLengths.UsedSymbols | lib/nx_dhtgen.c:360-395 | a symbol has a length of at least one if and only if its count is not zero |
| HuffmanLengths.KraftIsOne | lib/nx_dhtgen.c:360-395 | the Kraft sum of the assigned lengths is exactly one |
| HuffmanLengths.CheapestCode | lib/nx_dhtgen.c:360-571 | no prefix-free code takes fewer bits for the counts than the assigned lengths |
| HuffmanLengths.LightIsShallow | lib/nx_dhtgen.c:295-316 | a total count below 2584 keeps every length within 15 |
| DhtGen.Queue.Del | lib/nx_dhtgen.c:184-194 | the ring queue loses exactly its first element |
| DhtGen.Queue.Add | lib/nx_dhtgen.c:169-183 | the ring queue gains exactly one element at its end |
| HuffmanLengths.SortIsUnique | lib/nx_dhtgen.c:323-355 | a permutation of items with distinct symbols in the order of the comparison is the sorted sequence, so the sorting algorithm does not matter |
| DhtGen.SortLeaves | lib/nx_dhtgen.c:437 | whatever permutation in order `qsort` leaves, the leaves are the sorted ones |
| DhtGen.TakeLightest | lib/nx_dhtgen.c:470-514 | comparing the two heads takes the first node of the merged order, with ties to the leaf queue as in the code |
| DhtGen.HuffmanTree | lib/nx_dhtgen.c:418-571 | the lengths written in place are those of the greedy tree of the counts, and the result is their maximum |
| DhtGen.TreeWalk | lib/nx_dhtgen.c:360-395 | the recursive walk over the node array assigns the depths of the tree it represents |
| DhtGen.NormalizedFacts | lib/nx_dhtgen.c:295-316 | normalising keeps nonzero counts nonzero and brings the sum below limit plus the number of symbols; the divisor is the least that brings the sum within the limit, and each count becomes the least that covers it |
| DhtGen.LengthLimit | lib/nx_dhtgen.c:295-316 | the two in-place loops compute the normalised counts |
| DhtGen.KeptIffFits | lib/nx_dhtgen.c:576-595 | any run of passes that ends with a tree at most 15 high leaves the counts as they were if and only if they add up to at most 16384 and give such a tree themselves |
| DhtGen.Huffmanize | lib/nx_dhtgen.c:576-595 | the retry loop ends within eight passes with every length at most 15, those of an optimal code for the counts it leaves; each pass divides what the one before left, with limits from 16384 down, and there is another one only after a tree over 15 high |
| LinearRegister.ChecksumOfConcat | lib/nx_crc.c:374-424 | the checksum of a concatenation is the first one through the zero bits of the second string, plus the second |
| LinearRegister.ChecksumContinues | lib/nx_crc.c:215-245 | continuing a checksum gives that of the concatenation |
| LinearRegister.FeedFour | lib/nx_crc.c:272-274 | four symbols are one long step when each can be added in advance |
| LinearRegister.TimesIsZeros | lib/nx_crc.c:350-362 | a matrix whose columns are images of single bits, times a vector, is the map itself |
| LinearRegister.SquareDoubles | lib/nx_crc.c:365-371 | the square of a matrix stands for twice as many zero bits |
| Crc.RIsLinear | lib/nx_crc.c:115-131 | the CRC-32 register with its zero-bit step is linear over GF(2) |
| Crc.CrcOfConcat | lib/nx_crc.c:374-424 | CRC-32 of any two strings and of their concatenation |
| Crc.SplitsR | lib/nx_crc.c:350-362 | a register is its lowest bit plus twice its half, and 32 shifts empty it |
| Crc.Gf2MatrixTimes | lib/nx_crc.c:350-362 | the loop while bits are left computes matrix times vector within 32 rows |
| Crc.Gf2MatrixSquare | lib/nx_crc.c:365-371 | if the matrix stands for n zero bits, its square stands for 2n |
| Crc.OneZeroBit | lib/nx_crc.c:385-391 | the starting matrix is the operator of one zero bit |
| Crc.Crc32Combine | lib/nx_crc.c:374-424 | alternating odd and even squarings pass the first CRC through 8 times len2 zero bits; a length of zero or less returns it unchanged |
| Crc.NxCrc32Combine | lib/nx_crc.c:426-430 | combining the CRCs of any two strings gives the CRC of their concatenation |
| CrcTables.ByteStep | lib/nx_crc.c:136-150 | one look-up passes the register through eight zero bits |
| CrcTables.MakePattern | lib/nx_crc.c:122-133 | the loop over the exponents gives the pattern that is written out in the combination |
| CrcTables.MakeCrcTable | lib/nx_crc.c:115-157 | tables 0 to 3 pass a byte through 8, 16, 24 and 32 zero bits and tables 4 to 7 are their byte swaps |
| CrcTables.FeedWord | lib/nx_crc.c:272-274 | feeding four bytes is adding a little-endian word and 32 zero bits |
| CrcTables.WordStep | lib/nx_crc.c:272-274 | four look-ups pass a word through 32 zero bits |
| CrcLoops.DoLit4 | lib/nx_crc.c:272-274 | the little-endian word step equals four byte steps |
| CrcLoops.DoBig4 | lib/nx_crc.c:309-311 | the big-endian word step on the swapped register is the swap of the little-endian one |
| CrcLoops.Crc32Little | lib/nx_crc.c:278-306 | the bit-at-a-time CRC for every buffer, length and alignment, with words read at aligned addresses only |
| CrcLoops.Crc32Big | lib/nx_crc.c:315-343 | the same CRC on a machine of the other byte order |
| CrcLoops.GenericCrc32 | lib/nx_crc.c:215-245 | whatever the build, the CRC of the bytes; 0 for a null buffer |
| CrcPolynomial.PolyIsGenerator | lib/nx_crc.c:90-91 | the pattern has the terms of the polynomial but for the highest |
| CrcPolynomial.StepIsTimesX | lib/nx_crc.c:101-108 | one zero bit multiplies the polynomial in the register by x and reduces it |
| CrcPolynomial.OneRemainder | lib/nx_crc.c:98-100 | a polynomial has one remainder only below the degree of the divisor |
| CrcPolynomial.CrcIsRemainder | lib/nx_crc.c:93-108 | for every string and starting value, the complement of the CRC is the remainder of the string moved up by 32 bits, with the complement of the starting value in front of it, and no other polynomial is |
| CrcPolynomial.CheckValue | lib/nx_crc.c:215-245 | the CRC of the digits 1 to 9 is 0xcbf43926 |
| Adler.ReduceOnce | lib/nx_adler32.c:110-147 | reducing at the end gives what reducing at every byte gives, from any sums |
| Adler.FitsWord | lib/nx_adler32.c:31-32 | from reduced sums, no byte string of at most NMAX bytes takes either sum out of 32 bits |
| Adler.NMaxIsLargest | lib/nx_adler32.c:31-32 | any n bytes can be added to any reduced sums within 32 bits if and only if n is at most NMAX |
| Adler.BaseIsLargestPrime | lib/nx_adler32.c:30 | the base is the largest prime below 65536 |
| Adler.CheckValue | lib/nx_adler32.c:81-147 | the Adler-32 of the nine letters of Wikipedia is 0x11e60398 |
| Adler.Block | lib/nx_adler32.c:118-128 | one NMAX block with a single reduction is the definition on those bytes |
| Adler.NxAdler32 | lib/nx_adler32.c:81-147 | the checksum by the definition for every buffer, length branch and valid starting value; 1 for a null buffer |
| Adler.Combined | lib/nx_adler32.c:154-178 | the sums of a concatenation from those of its parts and one length |
| Adler.NxAdler32Combine | lib/nx_adler32.c:154-178 | the conditional subtractions reduce fully, and combining the checksums of any two strings gives that of their concatenation |
| NxCopy.Fold | lib/nx_zlib.c:1468-1470 | folding in one chunk keeps both checksums those of everything copied so far |
| NxCopy.NxCopy | lib/nx_zlib.c:1440-1479 | the copy is done if and only if no job fails, for every job length; then the checksums of any string so far become those of that string and the copied one. Otherwise the jobs before the first that fails have copied their bytes, and the checksums stay |
| Inflate.AppendKeeps | lib/nx_inflate.c:1634-1648 | output that fits the caller's buffer, its end copied behind the old history |
| Inflate.SpanKeeps | lib/nx_inflate.c:1653-1663 | a short overflow completed from the caller's buffer holds the last 32 KB |
| Inflate.ShiftKeeps | lib/nx_inflate.c:1664-1675 | a short output with overflow: the old history moved down makes the window whole |
| Inflate.OverflowKeeps | lib/nx_inflate.c:1682-1688 | an overflow of 32 KB or more is its own history |
| Inflate.Output.LenCheck | lib/nx_inflate.c:79-83 | compaction keeps pending output and window, and puts the head back within half of the buffer |
| Inflate.Output.Drain | lib/nx_inflate.c:1153-1164 | as much pending output as fits is delivered in order and the window stays |
| Inflate.Output.JobHistory | lib/nx_inflate.c:927-990 | the history of a job, in whole quadwords, ends with the last min(32K, produced) bytes produced |
| Inflate.OverflowLenIs | lib/nx_inflate.c:1633-1634 | the signed difference of the two unsigned lengths is positive just when there is an overflow, if and only if at most 2^31 bytes of the buffer stay empty |
| Inflate.Output.TakeOutput | lib/nx_inflate.c:1633-1691 | for every output that fits what was offered: delivered plus pending is all that was produced, and unless the stream has ended the window holds, with 32K <= cur_out <= len_out/2; all this if and only if at most 2^31 bytes of the buffer stay empty, and otherwise the wrong counts |
| Inflate.Input.CopyToFifo | lib/nx_zlib.h:742-767 | no input is lost by caching, and below the threshold all of it is cached |
| Inflate.Input.Source | lib/nx_inflate.c:1007-1022 | what a job may read is a prefix of the pending input, cached bytes first |
| Inflate.Input.Consume | lib/nx_inflate.c:1616-1626 | consumed plus pending input stays all the input supplied |
| Inflate.Stream.Submit | lib/nx_inflate.c:1262-1307 | the engine is called with a history that ends in the last min(32K, produced) bytes produced and with the next bytes of the pending input, as many as expected |
| Inflate.NextJob | lib/nx_inflate.c:1611-1706 | a job that is fed and settled this way extends both streams by what the engine made and used, with every job before it still fed as it was |
| Inflate.Stream.Settle | lib/nx_inflate.c:1611-1706 | both sides of a job at once: its output is behind all earlier output, and just what it used is gone from the input |
| Inflate.NextRight | lib/nx_inflate.c:1197-1307 | a job that was due, with the sizes expected of it, behind jobs that were, is planned as they are |
| Inflate.Stream.Inflate | lib/nx_inflate.c:1060-1762 | whole calls with any engine, sizes and flush: over all calls the output delivered and pending is the outputs of the logged jobs in order, the input gone is what they used, each job was given its window and its input, and the jobs of this call were answered by this engine, unless the last one went astray, which none does with at most 2^31 bytes of space. Each job of the call was due, got just the expected amounts of input and space as far as there was as much, and followed one that left more input than the engine could not use; there is a first one if and only if one was due. Z_OK means a full output buffer, or too little of the caller's input left to go on, if and only if what is left is less than 2^32 bytes |
| Inflate.SafeForAll | lib/nx_inflate.c:1234-1634 | with more than 2^31 bytes of space an engine that makes nothing yet leads the call astray, so the bound of safe calls is exact |
| Inflate.ThreeGigabytes | lib/nx_inflate.c:1633-1688 | a new stream, 0xC0000000 bytes of space and 40960 made: total_out is 0xC0000000 and used_out 0x4000A000 |
| Inflate.NoProgress | lib/nx_inflate.c:1197-1205 | a new stream, one byte, then 2^32 - 1 more: two more calls run no job and leave all 2^32 bytes |
| DeflateHistory.NextKeeps | lib/nx_deflate.c:1031-1037 | new input behind the old makes the history whole, for inputs shorter and longer than it |
| DeflateHistory.Input.CacheInput | lib/nx_deflate.c:783-806 | behind its 32-bit guard no move reads before the buffer if and only if the sum of the guard does not wrap or cur_in is at least the history that is kept; then no input is lost, and a small one is cached whole with cur_in + used_in <= len_in/2 |
| DeflateHistory.Input.UpdateOffsets | lib/nx_deflate.c:969-1042 | after any job the last min(history, consumed) bytes are before cur_in and the rest of the input is pending |
| DeflateHistory.Input.SetupDdlIn | lib/nx_deflate.c:828-877 | a job gets the last consumed bytes in whole quadwords, then a prefix of the pending input, of the size that the unsigned budget gives |
| DeflateHistory.LimitKept | lib/nx_deflate.c:828-877 | the limit holds if and only if the history of the job is within it |
| DeflateStream.Stream.CompressBlock | lib/nx_deflate.c:1209-1405 | a job joins the log with the history and the input it was given, and just what the engine took of the input is gone |
| DeflateStream.NextRight | lib/nx_deflate.c:1756-1850 | a job of the size its place asks for, behind jobs that are right and did not fail, is right as they are |
| DeflateStream.NextJob | lib/nx_deflate.c:1209-1405 | a job that is fed this way extends the input used by what it took, with every job before it still fed as it was |
| DeflateStream.NextTurn | lib/nx_deflate.c:1721-1895 | a turn behind the turns of a call is one of them |
| DeflateStream.FullHistory | lib/nx_deflate.c:845-861 | a job whose limit exceeds what is waiting has all of the last 32 KB, or of all input used, but for less than a quadword |
| DeflateStream.WithinLimit | lib/nx_deflate.c:1803-1850 | no job exceeds a limit of at least the history that is kept |
| DeflateStream.Stream.StoredBlocks | lib/nx_deflate.c:1756-1799 | the input that a job took is copied in order, in jobs without history that have just the bytes their blocks ask for, 60000 at most, until all is copied, the output is full or a job fails |
| DeflateStream.Stream.Compress | lib/nx_deflate.c:1803-1850 | after a job whose output has expanded, exactly the input it took is repeated in stored blocks of 60000 bytes or what is left, while there is room, and otherwise there is just one job; all is well if and only if the last of them did not fail |
| DeflateStream.Stream.Call | lib/nx_deflate.c:1721-1895 | over whole calls every job got the last bytes used in whole quadwords and the input that follows, all input used is what the jobs took in order, and the jobs of this call were answered by this engine. They come in turns of a job for all that waits and the stored blocks it makes necessary; the call ends in an error if and only if the last of them failed, and none before it did. Small input is cached instead, and fifo_in is read before its start just when the guard wraps with too little before the cached input |
| DeflateStream.ReadsBefore | lib/nx_deflate.c:1729-1739 | a new stream, one byte, then 2^32 - 1 more: fifo_in is read before its start |
| GzipHeader.FeedConcat | lib/nx_inflate.c:330-700 | the reader on a concatenation is the reader on its parts, with what is left over |
| GzipHeader.ChunksDoNotMatter | lib/nx_inflate.c:330-700 | any split of the input leads to the same state and the same bytes left if no call starts beyond the buffer for the extra field, and to an overrun if one does |
| GzipHeader.FixedPartIs | lib/nx_deflate.c:1476-1503 | the first ten bytes by the positions and numbers of section 2.3 of RFC 1952 |
| GzipHeader.Rejects | lib/nx_inflate.c:330-437 | whatever the bytes, the reader fails if and only if magic, method, reserved flags, window size or check bits are not what the two standards allow |
| GzipRoundTrip.ReadHeader | lib/nx_inflate.c:381-626 | the reader consumes exactly the header, whatever follows it |
| GzipRoundTrip.LateTimeAborts | lib/nx_inflate.c:458-464 | a time of 2^31 or more fails the assertion of a reader with a record |
| GzipChunks.BeyondWhere | lib/nx_inflate.c:514-537 | for any header and any prefix of it and what follows, the reader is beyond its buffer exactly between the end of the buffer and that of the extra field |
| GzipChunks.StartsBeyondWhere | lib/nx_inflate.c:514-537 | a sequence of calls runs over the buffer if and only if one that brings input starts there |
| GzipChunks.HeaderRoundTrip | lib/nx_inflate.c:381-626 | under any chunking and with buffers of any size the header is read to its end, with every field recovered as far as its buffer goes, if and only if the time fits and no call starts within the extra field beyond its buffer |
| GzipChunks.TenThirtyTwenty | lib/nx_inflate.c:520-527 | with room for 10 bytes, 30 bytes of extra field overrun the buffer when split after 20 and are cut to 10 when not split |
| GzipRoundTrip.ZlibRoundTrip | lib/nx_inflate.c:628-693 | the zlib header of any window size, level and dictionary is accepted and names the same dictionary |
| GzipRoundTrip.ZlibWordIs | lib/nx_deflate.c:1426-1445 | the check bits make the word a multiple of 31 without touching the fields, and the level bits go up by one at each of the levels 2, 6 and 7 |
| GzipWriter.Writer.PutByte | lib/nx_zlib.h:497-500 | one byte goes behind everything put before, in the caller's buffer or in fifo_out |
| GzipWriter.Writer.AddHeader | lib/nx_deflate.c:1458-1549 | exactly the bytes of the header are emitted, in order, through both buffers, and header_len is their number |
| GzipReader.Reader.TimeByte | lib/nx_inflate.c:447-466 | the byte-wise time, with the assertion on its top bit |
| GzipReader.Reader.CopyExtra | lib/nx_inflate.c:514-539 | copying what is there of the extra field keeps as much as the buffer holds, as reading it a byte at a time does, unless the copy starts beyond the buffer, which overruns it |
| GzipReader.Reader.ExtraStage | lib/nx_inflate.c:514-539 | the stage leads to the same result as the byte-wise reader |
| GzipReader.Reader.NameStage | lib/nx_inflate.c:541-565 | the name loop stops at its NUL or the end of the input, and goes on in the next call |
| GzipReader.Reader.CommentStage | lib/nx_inflate.c:567-592 | the same for the comment |
| GzipReader.Reader.Parse | lib/nx_inflate.c:330-700 | one call does what the byte-wise reader does with the same input, or overruns the extra buffer at its start, and stops with none left or past the header |
| GzipReader.ReadBack | lib/nx_inflate.c:381-626 | the caller's own buffers, of any size, and record hold the fields of the written header after any sequence of calls, exactly when the time fits and no call starts within the extra field beyond its buffer |
| NxMap.AddsWhenAbsent | lib/nx_map.c:148-163 | adding an entry adds to the map if and only if the key was absent |
| NxMap.RepresentsOne | lib/nx_map.c:45-50 | a table represents one map at most |
| NxMap.Map.Get | lib/nx_map.c:117-146 | the look-up of the represented map for every key but NULL, for any start of probing; NULL is always found |
| NxMap.Map.InsertEntry | lib/nx_map.c:148-163 | the entry lands in an empty slot, the first in probing order, and the count grows by one modulo 2^64 |
| NxMap.Map.RehashEntries | lib/nx_map.c:165-170 | the new table holds the same entries, and the count grows by their number again, modulo 2^64 |
| NxMap.Map.Put | lib/nx_map.c:172-202 | the map is updated if and only if the key was absent; a valid map stays valid: at most half of the slots taken, and the count between the number taken and the size, so that it never wraps |
| NxMap.Map.Remove | lib/nx_map.c:204-233 | the key leaves the map with its value returned; a valid map stays valid if and only if the key is not NULL or the count was too high |
| NxMap.PutTwice | lib/nx_map.c:172-202 | a key put twice in a fresh map keeps its first value, for every index function |
| NxMap.CountLost | lib/nx_map.c:162-223 | in a new map, removing NULL takes the count to the largest size_t, and the next put takes it to zero with its entry in the table |
| DhtCache.DhtSort | lib/nx_dht.c:169-246 | the two most frequent symbols, ties to the lower index, -1 when there is none |
| DhtCache.ReplaceHolds | lib/nx_dht.c:649-668 | overwriting one entry with a new key keeps keys distinct and is eviction plus insertion in the map |
| DhtCache.DhtTab.SearchCache | lib/nx_dht.c:434-478 | finds the table of the key if and only if the cache has one, and marks it as used |
| DhtCache.DhtTab.SearchBuiltin | lib/nx_dht.c:401-431 | finds a built-in table with the key whenever there is one |
| DhtCache.DhtTab.UseLast | lib/nx_dht.c:480-566 | the last table is used again if and only if there is one, the last job used some input, and all jobs with it less than 512 KB |
| DhtCache.DhtTab.Sweep | lib/nx_dht.c:608-623 | at most 129 steps; the first entry not accessed since the hand last passed, every access bit before it cleared and nothing else changed |
| DhtCache.DhtTab.Lookup | lib/nx_dht.c:568-670 | over every lookup keys stay distinct; the table comes from the last one used, the cache, the built-in ones or the generator in this order, a generated one replaces at most one other, and the last entry used is the one returned |
| Handles.Pool.Open | lib/nx_zlib.c:509-633 | counts stay right, the saved handle is live, only a saved handle that nobody holds is freed, and nothing is lost |
| Handles.Pool.Close | lib/nx_zlib.c:635-678 | no held handle is freed, and a live handle becomes unreachable in exactly one case |
| Handles.Served | lib/nx_zlib.c:534-552 | a new handle serves its first open and as many more as it may be reused, whether it is closed in between or not, and then a new one does |
| Handles.Forgotten | lib/nx_zlib.c:655-662 | a run that leaves an open window which is neither saved nor held |

## Left out

- DhtDecoder.Ctx.DhtDecomp: only for buffers that start with the bits of some valid table, as every table of the generator does; malformed tables end in the source's assertions or stores out of place, which are not modelled.
- DhtDecoder.BitReader.ShiftThenGetBits: refills that would shift bits out of the 32-bit register, possible only with more than 16 bits held when more than 24 are asked for; every caller asks for at most 16.
- DhtRoundTrip.Dhtgen: the 16-byte header for command blocks (`add_cpb_header`) is not written; the decoder variant that skips no header is the one modelled. Both alphabets have two used symbols at least (the distances may also have at most one position), since the tree of a single leaf has no inner node; the library's own lookup fills in zero counts first, which `DhtRoundTrip.UniversalTable` covers.
- DhtDecoder.Ctx: the arrays of the decoder's context are sequences that its methods reassign.
- CrcTables.MakeCrcTable: the guard against concurrent first use is left out.
- Crc.Crc32Combine: registers are 32 bits wide where the C type may be wider; every value there fits.
- Adler.NxAdler32: the NO_DIVIDE variants of the reductions, which are not compiled by default.
- Inflate.Stream.Submit: page faults and target-space errors, after which the source tries again with other sizes; every job here is the one that succeeded, with any sizes. Preset dictionaries and sync points are left out.
- Inflate.Stream.Inflate: collecting and comparing the trailer after the last block; the call returns the code Checksum there. After a job that went astray the model stops (code Astray) where the source goes on with the wrong counts, and before the moves of a short false overflow, which start 4 GB before fifo_out. Totals of 64 bits are taken not to wrap.
- DeflateStream.Stream.Call: the output side, so that how many turns and stored blocks there is room for is a parameter; the order of the early returns for lack of output; jobs tried again with fewer bytes, which are engines that take fewer.
- DeflateHistory.Input: preset dictionaries, and what is done with the engine's output; `cache_threshold + max_history_len <= len_in/2` is assumed, as in the default configuration.
- GzipReader.Reader: a header CRC ends the model of the reader, since the writer never sets one. What a copy that overruns the extra buffer does to memory is not modelled; the reader stops there.
- GzipWriter.Writer.AddHeader: the space in `fifo_out` that the source takes for granted is a precondition.
- NxMap.Map.Get: the loop counters of the source are of type int, so that a scan of more than 2^31 slots (32 GB) would end early there; the model scans the whole table, in every operation.
- NxMap.Map: the locks, and the hash of `get_index`, which is any function below the table size.
- DhtCache.DhtTab: the atomic build and its locks; the third most frequent symbol, which is no key; generated tables are values, and built-in ones any values.
- Handles.Pool: forked processes, builds with reuse switched off, and the retries while waiting for credits; each outcome is a parameter.
- NxCopy.Job: what the engine reports is taken to be right for its own bytes.
- Device access (ioctl, mmap, paste instructions, time), the vector CRC of POWER, dispatch to software zlib, statistics, logging, configuration, `gz*` files and one-shot wrappers.
