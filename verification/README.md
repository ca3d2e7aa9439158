# A verified model of the compression, coding and ledger code

This project models, in Dafny, the parts of the repository whose correctness is hardest to see by reading, and proves
what each of them is for.

* **DEFLATE** (`miniz.c`). The compressor is modelled as it is written: the ring dictionary with its hash chains and
  mirrored tail, the lazy parser with its saved match, the code buffer with its flag bytes, frequency counts, radix
  sort, in-place minimum-redundancy lengths, the length limit, canonical codes, the run-length coded header, and the
  choice of stored, static or dynamic blocks with the fallback. The decompressor is modelled with its bit buffer, its
  lookup table and overflow tree, the three kinds of block and the match copy. The main result is that decompressing
  what the compressor wrote gives back the input, for every input, streams longer than its 32-bit positions count
  included, every split of it into calls, every flush mode, and every setting of the probes, the parsing and the kinds of
  block.
* **Checksums**: CRC-32C by slicing (`crc.cpp`) equals the bitwise definition; Adler-32 with deferred reduction equals
  the running definition, whatever way the data is split.
* **Archives**: the heap sort and binary search of the zip directory, with the case-insensitive order of names, and the
  scan with its flags and comment.
* **Numbers and digests**: 128-bit arithmetic on two words, its division and text form, the fixed-point `real128`,
  digest shifts, and the 32-bit logarithm of a digest with its inverse.
* **Codecs**: smaz, base 58, and Blowfish with its key schedule and three buffer modes.
* **Contracts**: the award and keephand contracts as state machines over their tables, with results about every run.

`Valid`, `Ready` and the like are the invariants of the classes. Functions and predicates marked `ghost` are the
specifications; methods are the code, with the source's loops, branches and constants. `dafny verify dfyconfig.toml`
checks everything.

## Model

| member | source | states |
|---|---|---|
| RoundTrip.CompressThenDecompress | tools/uoskey/fc/src/compress/miniz.c:2636-2690 | For every list of byte strings, each given with any flush mode but finish, a last one given with finish, and every choice of options: what was written decompresses without error to all of them joined |
| RoundTrip.CompressParts | tools/uoskey/fc/src/compress/miniz.c:2692-2695 | After any sequence of calls the compressor's invariant holds and the bytes it has taken in are the parts joined |
| RoundTrip.Decompress | tools/uoskey/fc/src/compress/miniz.c:1729-1734 | Every byte string that is a finished stream for some data is read without error and gives exactly that data |
| InflateStream.Inflate | tools/uoskey/fc/src/compress/miniz.c:1428-1698 | On any well-formed sequence of stored, static and dynamic blocks ended by a final one: failure exactly when some match reaches before the start of the output, and otherwise the output is the expansion of all operations and only the padding is left unread |
| KnownStreams.StaticStream | tools/uoskey/fc/src/compress/miniz.c:1494-1501 | The bytes 4b 4c 4c 4c 4c 4c 42 25 01 are the block with the fixed codes of six letters and a match of 258 with eight extra bits of distance, and it expands to its literal text |
| KnownStreams.StoredStream | tools/uoskey/fc/src/compress/miniz.c:1460-1489 | The bytes 01 02 00 fd ff 61 62 are the stored block of "ab" |
| KnownStreams.DynamicStream | tools/uoskey/fc/src/compress/miniz.c:1504-1550 | The bytes 05 c0 81 08 00 00 00 00 20 d6 fd 25 4e are a block with codes of its own, repeat items included, that stands for "a" |
| BlockReader.InflateBody | tools/uoskey/fc/src/compress/miniz.c:1552-1668 | The literal and match loop of one block reads exactly its operations up to the end code, appends their expansion, and fails exactly when a distance reaches too far back |
| BlockReader.DecodeLiterals | tools/uoskey/fc/src/compress/miniz.c:1555-1605 | The inner loop, which takes one or two literals a round, stops at the first symbol that is not a literal with all literals before it output |
| BlockReader.GetMatch | tools/uoskey/fc/src/compress/miniz.c:1607-1612 | Length and distance rebuilt from symbols and extra bits are those of the coded match |
| BlockReader.CopyBytes | tools/uoskey/fc/src/compress/miniz.c:1654-1667 | The three-at-a-time copy, with its remainder of one or two, is the byte-by-byte copy, also when source and target overlap |
| StoredReader.ReadStored | tools/uoskey/fc/src/compress/miniz.c:1460-1489 | A stored block is read back whole: padding skipped, the length and its complement accepted, first the bytes still in the bit buffer and then those of the input |
| HeaderReader.ReadHeader | tools/uoskey/fc/src/compress/miniz.c:1504-1550 | The header of a dynamic block gives back the list of code lengths that its items stand for, and the bits after it are untouched; in which places the sizes of the code length symbols stand is BlockHeader.FieldPlaces |
| BlockHeader.FieldPlaces | tools/uoskey/fc/src/compress/miniz.c:1434 | Of the three-bit fields of a header, the first four are the sizes of the symbols 16, 17, 18 and 0, the even ones after them those of 8 to 15 upwards and the odd ones those of 7 to 1 downwards |
| CodeLengthRle.ItemMeaning | tools/uoskey/fc/src/compress/miniz.c:1533-1548 | What each code length symbol stands for: a size, three to six repeats of the last one, three to ten zeros, eleven or more zeros |
| HeaderReader.ReadItems | tools/uoskey/fc/src/compress/miniz.c:1533-1548 | Reading packed code lengths with their repeats gives the list the items unpack to |
| HeaderReader.BuildTable | tools/uoskey/fc/src/compress/miniz.c:1508-1532 | A decoding table is accepted exactly for lengths that form a complete code or use at most one symbol |
| InflateTable.HuffTable.Build | tools/uoskey/fc/src/compress/miniz.c:1508-1532 | Lookup table and overflow tree are built within their fixed room for every list of lengths that is accepted, every code can then be found in them, and the test on the counts accepts exactly the complete codes and those of at most one symbol |
| InflateTable.HuffTable.Decode | tools/uoskey/fc/src/compress/miniz.c:1422-1426 | For every bit buffer whatever, the look-up stays in its arrays, the walk ends within 15 bits, and the result is the symbol whose code comes first with the length of that code, or symbol 0 if no code does |
| CanonicalCode.CompleteIsExhaustive | tools/uoskey/fc/src/compress/miniz.c:1512-1518 | If the lengths form a complete code, any bits start with the code of some symbol |
| InflateTableSteps.CompleteAlwaysDecodes | tools/uoskey/fc/src/compress/miniz.c:1422-1426 | With a complete code every look-up, on any bits, gives a used symbol and takes at least one bit |
| BlockReader.TablesCover | tools/uoskey/fc/src/compress/miniz.c:1607-1611 | Whatever the bits, the symbol looked up has its entries in the tables of lengths and distances, reserved symbols included |
| InflateTable.HuffTable.EnterLongCode | tools/uoskey/fc/src/compress/miniz.c:1524-1531 | Entering a code longer than the lookup keeps all codes entered before and adds nodes only for prefixes that are new |
| InflateTable.HuffTable.EnterShortCode | tools/uoskey/fc/src/compress/miniz.c:1523 | Entering a short code fills each of its slots and disturbs no code entered before |
| InflateTableRoom.NodesFit | tools/uoskey/fc/src/compress/miniz.c:1519-1532 | The nodes of the overflow tree never exceed its array, for any accepted lengths |
| InflateTableRoom.AcceptableIsDecodable | tools/uoskey/fc/src/compress/miniz.c:1512-1518 | Lengths that pass the test of the decompressor satisfy the inequality that codes of every length need |
| HuffmanIo.HuffDecode | tools/uoskey/fc/src/compress/miniz.c:1413-1426 | Decoding takes exactly one code off the unread bits, with a full refill and with the byte-by-byte one near the end of the input |
| HuffmanIo.FillForCode | tools/uoskey/fc/src/compress/miniz.c:1394-1406 | Near the end of the input, bytes are fetched only until the next code is complete, and none beyond it |
| HuffmanIo.PutSymbol | tools/uoskey/fc/src/compress/miniz.c:2141-2147 | Writing a symbol appends its canonical code, first bit first |
| BitIo.BitWriter.PutBits | tools/uoskey/fc/src/compress/miniz.c:1906-1915 | The bit stream written so far is extended by exactly the given bits |
| BitIo.BitReader.GetBits | tools/uoskey/fc/src/compress/miniz.c:1370-1388 | The value read is the next bits of the unread stream, which moves on by as many |
| CanonicalCode.PrefixFree | tools/uoskey/fc/src/compress/miniz.c:1896-1903 | In the codes assigned from lengths, no code is the start of another |
| CanonicalCode.SameLengthDiffer | tools/uoskey/fc/src/compress/miniz.c:1896-1903 | Two symbols of one length get different codes |
| CanonicalCode.CodeFits | tools/uoskey/fc/src/compress/miniz.c:1896 | The codes of each length fit in that many bits |
| CanonicalCode.ReverseBits | tools/uoskey/fc/src/compress/miniz.c:1902 | The loop that reverses a code is the mirror of its bits |
| MinimumRedundancy.CalculateMinimumRedundancy | tools/uoskey/fc/src/compress/miniz.c:1836-1854 | In place, sorted frequencies become code lengths that never increase and fill the Kraft sum exactly; when the frequencies are sorted and their sum does not wrap, no code costs less, none that costs as little has a shorter longest length, and no length exceeds 30 |
| MinimumRedundancy.BuildTree | tools/uoskey/fc/src/compress/miniz.c:1840-1845 | The first pass leaves the parent of every inner node of the merging it carried out |
| MinimumRedundancy.MergeTwo | tools/uoskey/fc/src/compress/miniz.c:1843-1844 | One step takes the two lightest items of leaves and nodes in order, and overwrites only what was read |
| MinimumRedundancy.ComputeDepths | tools/uoskey/fc/src/compress/miniz.c:1846 | The second pass turns parents into depths |
| MinimumRedundancy.EmitLengths | tools/uoskey/fc/src/compress/miniz.c:1847-1853 | The third pass turns depths of nodes into lengths of leaves, one for each leaf of the tree |
| HuffmanOptimality.TreeIsOptimal | tools/uoskey/fc/src/compress/miniz.c:1836-1854 | The lengths from the merging cost no more than those of any prefix code |
| HuffmanOptimality.TreeIsLeastDeep | tools/uoskey/fc/src/compress/miniz.c:1836-1854 | Among the codes that cost the least, the one from the merging has the least depth: a longest length of each is at least as long |
| HuffmanOptimality.EveryCodeCosts | tools/uoskey/fc/src/compress/miniz.c:1836-1854 | Every list of lengths within the Kraft bound costs at least the sum of the merged nodes, and one that costs no more has a length as great as the depth of the merging |
| HuffmanOptimality.TreeIsShallow | tools/uoskey/fc/src/compress/miniz.c:1836-1854 | With 16-bit totals no leaf is deeper than 30, so the 33 counters suffice |
| HuffmanLimit.EnforceMaxCodeSize | tools/uoskey/fc/src/compress/miniz.c:1858-1869 | A complete histogram of lengths becomes a complete one within the limit for as many symbols: what is too long is folded into the limit, and then as often as the sum is too large, one code leaves the limit and the longest shorter one is split; unchanged if it was within the limit |
| HuffmanLimit.RepairOnce | tools/uoskey/fc/src/compress/miniz.c:1864-1868 | One repair takes a code from the limit and splits the longest code below it, which lowers the Kraft sum by one unit and keeps the number of symbols; such a code always exists |
| HuffmanLimit.ShorterCodeExists | tools/uoskey/fc/src/compress/miniz.c:1867 | While the sum is too large, some code is shorter than the limit |
| RadixSort.RadixSortSyms | tools/uoskey/fc/src/compress/miniz.c:1819-1834 | The two-pass sort, which skips a pass when all high bytes agree, gives a stable rearrangement in order of the keys |
| RadixSort.SortedIsStable | tools/uoskey/fc/src/compress/miniz.c:1819-1834 | The result holds the same symbols, in order, equal keys in the order they came |
| HuffmanTable.OptimizeHuffmanTable | tools/uoskey/fc/src/compress/miniz.c:1871-1904 | For all counts, the lengths form a code that the decompressor accepts, only used symbols get a length, within the limit, a more frequent symbol never a longer one, and the codes are the canonical ones. No prefix code for the counts takes fewer bits, unless every code that takes the fewest has a length above the limit |
| HuffmanTable.ChooseLengths | tools/uoskey/fc/src/compress/miniz.c:1885-1889 | Minimum-redundancy lengths of the counts of the used symbols, limited: a complete histogram, and that of the minimum-redundancy lengths themselves if they keep to the limit |
| SymbolCost.LeastOrLong | tools/uoskey/fc/src/compress/miniz.c:1885-1893 | Minimum-redundancy lengths of a rearrangement of the used symbols, handed out again to the symbols, make a code that no prefix code for the counts undercuts, and if one of them exceeds the limit then so does a length of every code that takes the fewest bits |
| HuffmanTable.DistributeSizes | tools/uoskey/fc/src/compress/miniz.c:1891-1893 | Lengths are handed out along the sorted list, each as often as the histogram says |
| HuffmanTable.AssignCodes | tools/uoskey/fc/src/compress/miniz.c:1896-1903 | The running next codes give every symbol its canonical code with the bits reversed |
| HuffmanTableSteps.HistogramIsAcceptable | tools/uoskey/fc/src/compress/miniz.c:1892-1893 | A complete limited histogram handed out to symbols is one that the decompressor accepts |
| CodeLengthRle.Packer.Pack | tools/uoskey/fc/src/compress/miniz.c:1953-1977 | The packed items unpack to exactly the lengths that went in, every repeat within its bounds, and nothing is left that a repeat could take in: no three zeros and no three repeats of a size in a row stand by themselves |
| HeaderWriter.PackSizes | tools/uoskey/fc/src/compress/miniz.c:1953-1979 | The packed bytes are the items, the code built for them covers every item, is accepted by the decompressor, and takes the fewest bits for their counts, unless all such codes exceed seven bits |
| HeaderWriter.PutHeader | tools/uoskey/fc/src/compress/miniz.c:1936-1996 | The header written describes the lengths used up to trailing unused symbols and no further, with as few sizes of code length symbols as there can be, four at least |
| LzSymbols.LenRoundTrip | tools/uoskey/fc/src/compress/miniz.c:2124-2125 | Symbol and extra bits of every match length give that length back by the decompressor's tables |
| LzSymbols.DistRoundTrip | tools/uoskey/fc/src/compress/miniz.c:2127-2137 | Symbol and extra bits of every distance up to 32768 give that distance back by the decompressor's tables |
| LzSymbols.LargeLookUp | tools/uoskey/fc/src/compress/miniz.c:2131-2134 | Looking up the high byte of a large distance gives the symbol of the distance itself |
| LzSymbols.KnownRows | tools/uoskey/fc/src/compress/miniz.c:1430-1433 | Rows of the tables of lengths and distances, at their ends and where extra bits begin |
| Lz.CopyMatch | tools/uoskey/fc/src/compress/miniz.c:2299-2325 | Copying a match that was found in the data, overlapping or not, continues the data |
| LzCodeBuffer.CodeBuffer.RecordLiteral | tools/uoskey/fc/src/compress/miniz.c:2467-2473 | One literal is added to the operations that the buffer encodes, in at most two bytes |
| LzCodeBuffer.CodeBuffer.RecordMatch | tools/uoskey/fc/src/compress/miniz.c:2475-2495 | One match is added to the operations that the buffer encodes, in at most four bytes |
| LzCodeBuffer.CodeBuffer.Close | tools/uoskey/fc/src/compress/miniz.c:2177-2178 | Finishing the flag byte leaves the exact encoding of all operations recorded |
| LzCodeReader.ReadOp | tools/uoskey/fc/src/compress/miniz.c:2114-2121 | Reading the buffer by its flags meets the operations in order |
| HuffCounts.Counts.CountMatch | tools/uoskey/fc/src/compress/miniz.c:2491-2494 | The counts stay those of the recorded operations, short and long distances alike |
| BlockCodec.CompressLzCodes | tools/uoskey/fc/src/compress/miniz.c:2108-2150 | The loop over the code buffer writes the codes and extra bits of its operations and the end code, nothing else |
| BlockWriter.PutHuffmanBlock | tools/uoskey/fc/src/compress/miniz.c:2153-2160 | The block written, static or dynamic, is well formed and holds exactly the recorded operations |
| BlockWriter.PutDynamicBlock | tools/uoskey/fc/src/compress/miniz.c:1936-1996 | A dynamic block's own codes cover all its operations, are accepted by the decompressor, and take the fewest bits for the counts of its symbols, unless all such codes exceed 15 bits |
| BlockWriter.PutStaticBlock | tools/uoskey/fc/src/compress/miniz.c:1998-2017 | The fixed codes cover all recorded operations |
| BlockWriter.PutStoredBlock | tools/uoskey/fc/src/compress/miniz.c:2197-2206 | Padding, length, complement and bytes of a stored block |
| StaticCodes.StaticAcceptable | tools/uoskey/fc/src/compress/miniz.c:1998-2011 | The fixed lengths form complete codes |
| StaticCodes.StaticCodeInNumbers | tools/uoskey/fc/src/compress/miniz.c:1498-1500 | The fixed codes in numbers: 8 bits from 48, 9 bits from 400, 7 bits from 0 and 8 bits from 192, in order |
| StaticCodes.StaticDistInNumbers | tools/uoskey/fc/src/compress/miniz.c:1499 | The fixed distance codes are the five-bit numbers |
| BlockSizes.StaticFits | tools/uoskey/fc/src/compress/miniz.c:2208-2213 | The fixed codes of any operations take at most ten bits for each byte of the code buffer, and seven for the end |
| DeflateFormat.StreamAppend | tools/uoskey/fc/src/compress/miniz.c:2162-2261 | Adding a block adds its bits and its operations to a stream and leaves the others alone |
| RingDict.Dictionary.FindMatch | tools/uoskey/fc/src/compress/miniz.c:2299-2325 | The candidates on the hash chain are visited in order until the lookahead is matched whole, the chain ends or leaves the window, or the probes are used up, three candidates to a probe; what comes back is the nearest of those that agree furthest, if longer than the match in hand |
| HashChain.FoundOnce | tools/uoskey/fc/src/compress/miniz.c:2299-2325 | How many candidates are visited and what is found is determined by chain, bytes, match in hand and probes |
| HashChain.ProbesVisit | tools/uoskey/fc/src/compress/miniz.c:2308-2317 | At most three candidates are visited for each probe but the last, and where neither chain nor lookahead ends the search, at least one; exactly three if none passes the test of two bytes |
| HashChain.FirstIsTried | tools/uoskey/fc/src/compress/miniz.c:2299-2325 | With two probes allowed, the match is at least as long as the first candidate agrees with the lookahead |
| HashChain.CommonIsGreatest | tools/uoskey/fc/src/compress/miniz.c:2318 | The length of a candidate is the greatest for which it is a match |
| RingDict.Dictionary.FindRun | tools/uoskey/fc/src/compress/miniz.c:2548-2553 | The run search returns how far the bytes repeat the one before them |
| RingDict.Dictionary.PutByte | tools/uoskey/fc/src/compress/miniz.c:2526-2531 | One byte enters the ring, the mirrored tail and the lookahead together |
| HashChain.ChainStep | tools/uoskey/fc/src/compress/miniz.c:2521 | With the chains as Refill keeps them, the next candidate after a position is the last one before it with the same hash of three bytes, when that is within the dictionary and no multiple of 65536 |
| RingDict.Dictionary.Refill | tools/uoskey/fc/src/compress/miniz.c:2505-2540 | Bytes enter the lookahead in order until it is full or the input is used up, the window stays the last of the data and gives up no more than it must, and every position with three bytes is linked to the last one with the same hash |
| RingDict.Dictionary.Advance | tools/uoskey/fc/src/compress/miniz.c:2596-2599 | Moving on keeps the window the last bytes of the data, at most its full size, however far the position has gone beyond what its 32 bits count |
| RingDict.SameDistance | tools/uoskey/fc/src/compress/miniz.c:2313 | Distances along the chains come out right though the position is counted in 32 bits and the distance in 16 |
| RingDict.Dictionary.Forget | tools/uoskey/fc/src/compress/miniz.c:2686 | A full flush empties hash and chain tables and the window, so that nothing before it is found again |
| Deflate.Compressor.Search | tools/uoskey/fc/src/compress/miniz.c:2545-2562 | What comes back is what the search for these flags offers, or a literal if that is refused: three bytes from 8 KB or further, a distance equal to the place in the ring, five bytes or less when filtering; a match is a real one |
| Deflate.Compressor.Decide | tools/uoskey/fc/src/compress/miniz.c:2563-2594 | What is recorded, held back and moved over is what the rules of lazy or greedy parsing make of the match offered and the one held back; the operations recorded stand for the bytes moved over |
| ParseRules.RuleCovers | tools/uoskey/fc/src/compress/miniz.c:2563-2594 | By the rules, the operations recorded cover the bytes moved over and the one of a match held back before, but not that of one held back now |
| ParseRules.KnownDecisions | tools/uoskey/fc/src/compress/miniz.c:2563-2594 | The rules of lazy parsing in numbers, on both sides of each limit |
| ParseRules.KnownRefusals | tools/uoskey/fc/src/compress/miniz.c:2559 | Which matches are refused, in numbers |
| Deflate.Compressor.Step | tools/uoskey/fc/src/compress/miniz.c:2544-2608 | One round, which without a flush waits for a full lookahead, searches, decides by the rules, moves on, and ends the block exactly when it is full; blocks written, operations recorded and the saved match together stand for the data parsed, and it makes progress |
| Deflate.Compressor.PutBlock | tools/uoskey/fc/src/compress/miniz.c:2187-2213 | Exactly the block that the flags and sizes call for: raw if asked for or if the codes take no fewer bytes, while the bytes are in the dictionary; fixed codes if asked for, under 48 bytes, or if the block overflows the buffer; otherwise codes of its own of least cost. It stands for the same bytes as the recorded operations, also when the positions have wrapped; from the start of the flush it stays below the size that the output buffer is given |
| Deflate.Compressor.PutChunk | tools/uoskey/fc/src/compress/miniz.c:2177-2233 | Flushing writes one block, the right one for exactly the recorded operations, and clears buffer and counts |
| Deflate.Compressor.FlushBlock | tools/uoskey/fc/src/compress/miniz.c:2162-2261 | After a flush without finish nothing parsed is left unwritten and the invariant holds; one block is written, and for sync and full an empty raw one that ends on a byte boundary |
| Deflate.Compressor.FlushFinal | tools/uoskey/fc/src/compress/miniz.c:2215-2221 | The last block is marked final and padded: the output is a finished stream of all data |
| Deflate.Compressor.CompressNormal | tools/uoskey/fc/src/compress/miniz.c:2497-2613 | All input is taken in and parsed as far as a full lookahead allows; with a flush asked for, the lookahead is used up |
| Deflate.Compressor.Compress | tools/uoskey/fc/src/compress/miniz.c:2636-2690 | After a call with a flush, the bytes written are whole blocks that stand for all data given so far, and after a full flush the dictionary is empty |
| Deflate.Compressor.CompressFinish | tools/uoskey/fc/src/compress/miniz.c:2636-2690 | After the finishing call the output is a finished stream of all data |
| Adler32.Adler32 | tools/uoskey/fc/src/compress/miniz.c:977-990 | Blocks of 5552 reduced at their end, and eight bytes a round, give the checksum reduced at every byte; a null pointer gives 1 |
| Adler32.BlockFits | tools/uoskey/fc/src/compress/miniz.c:979-986 | The sums of a block of 5552 fit 32 bits, and no longer block is safe |
| Adler32.Chunking | tools/uoskey/fc/src/compress/miniz.c:977-990 | Continuing from a checksum is the checksum of the whole |
| Adler32.AdlerNext | tools/uoskey/fc/src/compress/miniz.c:977-990 | One byte more adds to both sums modulo 65521 |
| Adler32.KnownChecksum | tools/uoskey/fc/src/compress/miniz.c:977-990 | The checksum of "abc" is 0x024D0127 |
| Crc32c.Crc32cSlicingBy8 | tools/uoskey/fc/src/crypto/crc.cpp:476-514 | Eight bytes a round by eight tables, with leading bytes up to alignment and trailing ones, equals the bit-by-bit remainder for all data and every address |
| Crc32c.GenerateTables | tools/uoskey/fc/src/crypto/crc.cpp:9-24 | The generator gives tables of one to eight zero bytes following each byte value |
| Crc32c.ByteStepIsLinear | tools/uoskey/fc/src/crypto/crc.cpp:12-13 | One byte of the remainder is linear over exclusive or, on which slicing rests |
| Crc32c.CheckValue | tools/uoskey/fc/src/crypto/crc.cpp:6-14 | The check value of this checksum: from all ones, the digits 1 to 9 give the complement of 0xE3069283 |
| ZipDirectory.SortByFilename | tools/uoskey/fc/src/compress/miniz.c:3127-3166 | The heap sort leaves a rearrangement of the indices in order of the lowered names |
| ZipDirectory.BinarySearch | tools/uoskey/fc/src/compress/miniz.c:3476-3496 | In a sorted directory a match is returned exactly when there is one for the name with its length cut to 32 bits |
| ZipSearch.LinearSearch | tools/uoskey/fc/src/compress/miniz.c:3505-3535 | The scan returns the first entry that is wanted, by name with or without path and case and by comment, or -1 when none is |
| ZipSearch.LocateFile | tools/uoskey/fc/src/compress/miniz.c:3498-3536 | For every directory, flags and comment, by index or by scan, a name shorter than 2^32 is found exactly when an entry is wanted |
| ZipSearch.BaseFollowsLast | tools/uoskey/fc/src/compress/miniz.c:3521-3531 | The name without its path is what follows the last of the three separators |
| ZipSearch.Separators | tools/uoskey/fc/src/compress/miniz.c:3526 | The separators are slash, colon and backslash |
| ZipDirectory.SearchesAgreeIff | tools/uoskey/fc/src/compress/miniz.c:3476-3496 | In a given archive, the exact condition for binary search to answer for the name asked for |
| ZipDirectory.RightInEveryArchiveIff | tools/uoskey/fc/src/compress/miniz.c:3483 | The names for which binary search is right in every archive: those shorter than 2^32, and those whose cut length has more than 16 bits |
| ZipDirectory.EmptyNameTakenForLong | tools/uoskey/fc/src/compress/miniz.c:3483 | A name of 2^32 bytes is taken for the empty one |
| ZipNames.FilenameLess | tools/uoskey/fc/src/compress/miniz.c:3107-3122 | The byte loop is the lexicographic order of the lowered names |
| ZipNames.FilenameCompare | tools/uoskey/fc/src/compress/miniz.c:3460-3474 | Zero exactly on names equal but for case; the sign agrees with the order while the name is shorter than 2^31 |
| ZipNames.LowerCase | tools/uoskey/fc/src/compress/miniz.c:2947 | The 26 capital letters are lowered and nothing else |
| Smaz.CompressThenDecompress | tools/uoskey/fc/src/compress/smaz.cpp:207-222 | The string version throws exactly when the compressed size exceeds the length of the input; otherwise decompressing gives back the input |
| Smaz.Compress | tools/uoskey/fc/src/compress/smaz.cpp:85-161 | The length returned is the compressed size, as longest entries and verbatim runs give it, if the buffer holds that many, and the output then decodes to the input; otherwise it is one more than the buffer. Twice the length of the input always suffices |
| Smaz.CompressString | tools/uoskey/fc/src/compress/smaz.cpp:207-215 | Refused exactly when the compressed size exceeds the length of the input; a result has that size and decodes to the input |
| Smaz.LoneByte | tools/uoskey/fc/src/compress/smaz.cpp:102-158 | A byte by itself takes one byte if the codebook has it, and two if not |
| Smaz.VerbatimSize | tools/uoskey/fc/src/compress/smaz.cpp:130-158 | Text of which the codebook offers nothing takes 258 bytes for each 256, and two more than its length for the rest, or two for a single byte |
| Smaz.Format | tools/uoskey/fc/src/compress/smaz.cpp:146-156 | The format in numbers: 254 before one byte, 255 and the length less one before more |
| Smaz.SlotOfThree | tools/uoskey/fc/src/compress/smaz.cpp:95-109 | The slot of three or more characters, in numbers |
| Smaz.SlotOfY | tools/uoskey/fc/src/compress/smaz.cpp:95-107 | The entry "y" belongs in slot 4 |
| Smaz.SlotOfSComma | tools/uoskey/fc/src/compress/smaz.cpp:95-108 | The entry "s," belongs in slot 0 |
| Smaz.SlotOfHad | tools/uoskey/fc/src/compress/smaz.cpp:95-109 | The entry "had" belongs in slot 1 |
| Smaz.SlotOfFrom | tools/uoskey/fc/src/compress/smaz.cpp:95-109 | The entry "from" belongs in slot 9 |
| Smaz.SlotOfHighByte | tools/uoskey/fc/src/compress/smaz.cpp:95 | A byte above 127 counts as negative |
| Smaz.Decompress | tools/uoskey/fc/src/compress/smaz.cpp:163-203 | Well-formed text decodes as the two-codebook format says |
| Smaz.FindEntry | tools/uoskey/fc/src/compress/smaz.cpp:95-122 | The longest entry of at most seven bytes that starts the rest and is offered by the slots, or none |
| Smaz.BlankIsCodebook | tools/uoskey/fc/src/compress/smaz.cpp:85-161 | The condition on the codebooks can be met by a codebook that is not empty |
| UInt128.UInt128.Add | tools/uoskey/fc/include/fc/uint128.hpp:65 | Addition of the two words with carry is addition modulo 2^128 |
| UInt128.UInt128.Subtract | tools/uoskey/fc/include/fc/uint128.hpp:66 | Adding the negation is subtraction modulo 2^128 |
| UInt128.UInt128.Negated | tools/uoskey/fc/include/fc/uint128.hpp:51 | Complement and increment is negation modulo 2^128 |
| UInt128.UInt128.ShiftLeft | tools/uoskey/fc/src/uint128.cpp:154-187 | Multiplication by a power of two modulo 2^128, for every count |
| UInt128.UInt128.ShiftRight | tools/uoskey/fc/src/uint128.cpp:189-222 | Division by a power of two, for every count |
| UInt128.UInt128.Multiply | tools/uoskey/fc/src/uint128.cpp:257-295 | Partial products in 32-bit parts add up to the product modulo 2^128 |
| UInt128.FullProduct | tools/uoskey/fc/src/uint128.cpp:297-349 | The two results hold the full 256-bit product |
| UInt128Division.Divide | tools/uoskey/fc/src/uint128.cpp:13-45 | Quotient and remainder of shift-and-subtract division satisfy the division law with the remainder below the divisor; failure exactly on zero |
| UInt128Text.PrintThenParse | tools/uoskey/fc/src/uint128.cpp:47-151 | Printing a number and parsing the text gives it back |
| UInt128Text.ParsePrinted | tools/uoskey/fc/src/uint128.cpp:47-117 | The decimal text of any natural number parses to it modulo 2^128 |
| UInt128Text.Parse | tools/uoskey/fc/src/uint128.cpp:47-117 | The value of any string: the sign, the prefix for base 8 or 16, and the digits up to the first character that is not one, modulo 2^128 |
| UInt128Text.ToText | tools/uoskey/fc/src/uint128.cpp:131-151 | The decimal text, without leading zeros |
| UInt128Text.DigitsInNumbers | tools/uoskey/fc/src/uint128.cpp:75-110 | Which characters are digits, and what each stands for |
| UInt128Text.Prefixes | tools/uoskey/fc/src/uint128.cpp:65-76 | 0x is hexadecimal, another zero octal, and anything else decimal |
| Real128.Parse128 | tools/uoskey/fc/src/real128.cpp:53-99 | What any string is read as: digits with their place values, whole part and magnitude held in 64 bits; refused exactly when it starts with neither digit nor point or the magnitude wraps to zero |
| Real128.RoundTripIff | tools/uoskey/fc/src/real128.cpp:53-112 | A printed number is read back as itself exactly when its whole part is below 2^64 |
| Real128.ReadPrinted | tools/uoskey/fc/src/real128.cpp:53-112 | What any printed number is read back as |
| Real128.WholeInUnits | tools/uoskey/fc/src/real128.cpp:53-99 | A text of digits alone denotes its number, modulo 2^64, in units of 10^-18; a sign is refused |
| Real128.WholePartWraps | tools/uoskey/fc/src/real128.cpp:57-68 | The number 2^64 is read back as zero |
| Real128.Real128.DivideBy | tools/uoskey/fc/src/real128.cpp:29-40 | Division of fixed-point numbers, rounded down, modulo 2^128; failure exactly on zero, with nothing changed |
| Real128.Real128.MultiplyBy | tools/uoskey/fc/src/real128.cpp:42-50 | Multiplication through the 256-bit product, rounded down, modulo 2^128 |
| DigestShift.ShiftLeft | tools/uoskey/fc/src/crypto/_digest_common.cpp:14-28 | Multiplication of the big-endian number by a power of two, cut to its width; in place for counts below 8 |
| DigestShift.ShiftRight | tools/uoskey/fc/src/crypto/_digest_common.cpp:38-52 | Division of the big-endian number by a power of two; in place for counts below 8 |
| DigestShift.FirstIsHighest | tools/uoskey/fc/src/crypto/_digest_common.cpp:14-52 | The first byte of a digest is the highest |
| Sha256Log.ApproxLog32 | tools/uoskey/fc/src/crypto/sha256.cpp:110-133 | The loop over digest bytes gives the position of the top bit with the next 24 bits as its fraction |
| Sha256Log.SetToInverse | tools/uoskey/fc/src/crypto/sha256.cpp:135-160 | The digest written is the number that the logarithm stands for |
| Sha256Log.CountLeadingZeros | tools/uoskey/fc/src/crypto/sha256.cpp:172-203 | The number of zero bits at the front, 256 for zero |
| Sha256Log.LogMonotone | tools/uoskey/fc/src/crypto/sha256.cpp:110-133 | A larger digest never has a smaller logarithm |
| Sha256Log.KnownLogs | tools/uoskey/fc/src/crypto/sha256.cpp:110-133 | The logarithms of 0, 1, 2, 3 and 10 |
| Sha256Log.LogOfInverse | tools/uoskey/fc/src/crypto/sha256.cpp:110-160 | For every x, the logarithm of its inverse is x without the fraction bits that a short number cannot hold, and 0 for x below 2^24 |
| Sha256Log.InverseOfLog | tools/uoskey/fc/src/crypto/sha256.cpp:110-160 | The inverse of a logarithm keeps the top 25 bits of the digest and clears the others |
| Base58.DecodeEncoded | tools/uoskey/fc/src/crypto/base58.cpp:505-600 | Decoding an encoding gives back the bytes, leading zeros included |
| Base58.EncodeDecoded | tools/uoskey/fc/src/crypto/base58.cpp:505-600 | Every string of base 58 symbols decodes, and encoding the result gives the string back |
| Base58.Encode | tools/uoskey/fc/src/crypto/base58.cpp:505-544 | Repeated division by 58 on the byte-reversed number gives the digits, with a one for each leading zero |
| Base58.Decode | tools/uoskey/fc/src/crypto/base58.cpp:554-600 | Blanks around, the symbols between, and failure exactly on any other character |
| Base58.Alphabet | tools/uoskey/fc/src/crypto/base58.cpp:502 | The 58 symbols in order |
| Base58.Spaces | tools/uoskey/fc/src/crypto/base58.cpp:561 | The blanks that are skipped |
| Base58.VectorRoundTrip | tools/uoskey/fc/src/crypto/base58.cpp:202-227 | Every integer, negative ones included, survives the byte vector form |
| Base58.PositiveVector | tools/uoskey/fc/src/crypto/base58.cpp:202-214 | The vector holds the bytes lowest first, and a zero byte at its end keeps the number positive |
| BlowfishCipher.DecryptEncrypted | tools/uoskey/fc/src/crypto/blowfish.cpp:355-391 | Deciphering undoes enciphering, for all boxes and every block |
| BlowfishCipher.EncryptDecrypted | tools/uoskey/fc/src/crypto/blowfish.cpp:355-391 | Enciphering undoes deciphering, for all boxes and every block |
| Blowfish.Blowfish.EncryptThenDecrypt | tools/uoskey/fc/src/crypto/blowfish.cpp:448-534 | Encrypting a buffer in place and decrypting it restores it, in all modes and for every length, refused ones included |
| Blowfish.Blowfish.Encrypt | tools/uoskey/fc/src/crypto/blowfish.cpp:538-577 | Done exactly for positive multiples of eight; every block is that of the mode, and bytes past the length are untouched; what the modes are is Blowfish.EncryptedBlocks |
| Blowfish.Blowfish.Decrypt | tools/uoskey/fc/src/crypto/blowfish.cpp:581-622 | Done exactly for positive multiples of eight; every block is that of the mode, in place too |
| Blowfish.EncryptedBlocks | tools/uoskey/fc/src/crypto/blowfish.cpp:450-534 | Each block of a cipher text: in mode 1 the enciphered exclusive or with the block before it, in mode 2 the exclusive or with that block enciphered, otherwise the enciphered block; the chain comes before the first |
| BlowfishCipher.FirstByteIsHighest | tools/uoskey/fc/src/crypto/blowfish.cpp:395-447 | The first byte of a block is its highest |
| BlowfishCipher.FourthBoxAdds | tools/uoskey/fc/src/crypto/blowfish.cpp:20-23 | Only the one word of each box that its byte selects counts, and adding to that of the fourth adds to the result |
| BlowfishCipher.ThirdBoxXors | tools/uoskey/fc/src/crypto/blowfish.cpp:20-23 | Where the fourth word is zero, exclusive or with the third goes over into the result |
| BlowfishCipher.FirstBoxesAdd | tools/uoskey/fc/src/crypto/blowfish.cpp:20-23 | Where the third and fourth words are zero, the result is the sum of the first two |
| BlowfishCipher.KnownBlock | tools/uoskey/fc/src/crypto/blowfish.cpp:356-391 | One block in numbers: under boxes and subkeys given by a rule, (0x01020304, 0x05060708) is enciphered to (0x856cb096, 0x6c63f969), and back |
| Blowfish.DecryptUndoesEncrypt | tools/uoskey/fc/src/crypto/blowfish.cpp:450-622 | In each mode the plain text of a cipher text is the text it came from |
| Blowfish.EncryptUndoesDecrypt | tools/uoskey/fc/src/crypto/blowfish.cpp:450-622 | In each mode encrypting a decrypted text restores it |
| Blowfish.Blowfish.Start | tools/uoskey/fc/src/crypto/blowfish.cpp:306-353 | An empty key is refused; otherwise at most 56 bytes are used and the boxes are those of the key schedule |
| Blowfish.ScheduleUnique | tools/uoskey/fc/src/crypto/blowfish.cpp:306-353 | A key and initial boxes determine the boxes |
| Blowfish.RepeatedKeySameBoxes | tools/uoskey/fc/src/crypto/blowfish.cpp:323-345 | A key of up to 28 bytes and its repetition give the same boxes |
| Blowfish.KeyInNumbers | tools/uoskey/fc/src/crypto/blowfish.cpp:325-345 | The words that a key of five bytes gives, highest byte first and starting over at its end |
| Names.StringToName | tools/name/stringToName.cpp:15-32 | The loop over at most thirteen characters packs their symbols, five bits each and four for the last, into 64 bits |
| Names.SameKeyIff | tools/name/stringToName.cpp:7-32 | Two strings have the same key exactly when their first twelve symbols and four bits of the thirteenth agree |
| Names.SymbolValues | tools/name/stringToName.cpp:7-13 | The values of all characters |
| Names.KeyOfEosio | tools/name/stringToName.cpp:15-32 | The key of "eosio" is 6138663577826885632 |
| Award.EveryRunPaired | contracts/award/award.cpp:13-126 | After any calls, each account has the one deposit row for its key, no two accounts share a key, and no other deposits exist |
| Award.ModDepositAllowed | contracts/award/award.cpp:70-115 | After any calls, a deposit may be changed exactly by authority of the account whose key it is |
| Award.ModDepositReachesOwn | contracts/award/award.cpp:70-115 | After any calls, changing a deposit changes that of the authorised account and nothing else |
| Award.CreateRefusedIff | contracts/award/award.cpp:13-33 | After any calls, an account with a new name is refused exactly when some account's public key has the same 64-bit key |
| Award.DifferentKeysCollide | contracts/award/award.cpp:13-33 | Two different public keys of which the second is refused an account |
| Award.DeleteUndoesCreate | contracts/award/award.cpp:13-55 | Deleting a created account restores both tables |
| Award.CreatedIsEmpty | contracts/award/award.cpp:13-68 | An account that is created is new, has its public key and an empty deposit, and nothing else changes |
| Award.DeleteAllowed | contracts/award/award.cpp:35-55 | After any calls, an account can be deleted exactly by the contract and with its own public key, and its two rows go |
| Award.OthersKeepDeposit | contracts/award/award.cpp:35-55 | After any calls, deleting an account leaves the deposits of all others |
| Award.NothingHappens | contracts/award/award.cpp:8-10 | Greeting and issuing change nothing |
| Award.SameSize | contracts/award/award.cpp:13-126 | The two tables have as many rows as each other |
| Award.AwardContract.Createacnt | contracts/award/award.cpp:13-33 | Both tables change together, or neither does |
| Award.AwardContract.Deleteacnt | contracts/award/award.cpp:35-55 | Both tables change together, or neither does |
| Award.AwardContract.Moddeposit | contracts/award/award.cpp:70-115 | Only the deposit found is changed, or nothing is |
| Award.AwardContract.FindByPubkey | contracts/award/award.cpp:87 | The row with the least name of those with the key, or none |
| Keephand.EveryRunSound | contracts/keephand/keephand.cpp:7-176 | After any calls, accounts and asset rows are the same names and no funds are negative |
| Keephand.TransferConserves | contracts/keephand/keephand.cpp:110-140 | A transfer leaves the total of all funds unchanged, fee and coinciding accounts included |
| Keephand.TransferBalances | contracts/keephand/keephand.cpp:110-140 | Every balance after a transfer, however sender, receiver and owner coincide |
| Keephand.TransferAllowed | contracts/keephand/keephand.cpp:110-140 | After any calls, a transfer goes through exactly when the sender signs and has the amount with a hundredth of it and with 0.01 at least, and receiver and owner have accounts |
| Keephand.TransferInNumbers | contracts/keephand/keephand.cpp:110-140 | Between three different accounts, the owner gains the greater of 0.01 and a hundredth of the amount, the sender loses amount and fee, the receiver gains the amount, and no one else is touched |
| Keephand.OnlySenderLoses | contracts/keephand/keephand.cpp:110-140 | No balance but the sender's falls in a transfer, and that one falls unless all three coincide |
| Keephand.CreateOpens | contracts/keephand/keephand.cpp:7-49 | After any calls, an account is created exactly by the contract under a new name, with no funds |
| Keephand.DeleteCloses | contracts/keephand/keephand.cpp:26-40 | After any calls, an account is deleted exactly by the contract, and its funds leave the total |
| Keephand.SavingAllowed | contracts/keephand/keephand.cpp:51-76 | After any calls, saving succeeds exactly for a positive amount signed by the account, and raises its row alone |
| Keephand.WithdrawalAllowed | contracts/keephand/keephand.cpp:51-98 | After any calls, a withdrawal succeeds exactly when signed and covered with a hundredth more, in numbers; the owner's row becomes that hundredth |
| Keephand.SavingAdds | contracts/keephand/keephand.cpp:75-76 | Saving raises the total by what is saved |
| Keephand.WithdrawalTotal | contracts/keephand/keephand.cpp:77-96 | What a withdrawal does to the total, and exactly when it lowers it by what is paid out |
| Keephand.WithdrawalRightIff | contracts/keephand/keephand.cpp:77-96 | After any calls, an accepted withdrawal keeps the books right exactly when the owner's row is empty and is not the account's own |
| Keephand.WithdrawalDestroysFunds | contracts/keephand/keephand.cpp:77-96 | Two accounts, one saving and two withdrawals after which funds are missing |
| Keephand.KeephandContract.Modasset | contracts/keephand/keephand.cpp:51-98 | The asset table changes as the transition says, or nothing does |
| Keephand.KeephandContract.Createacnt | contracts/keephand/keephand.cpp:7-24 | Both tables get their row, or neither does |
| Keephand.KeephandContract.Deleteacnt | contracts/keephand/keephand.cpp:26-40 | Both rows go, or neither does |
| Keephand.KeephandContract.ApplyFunds | contracts/keephand/keephand.cpp:150-176 | One row is raised or lowered, never below zero |
| Keephand.KeephandContract.TransferFunds | contracts/keephand/keephand.cpp:110-140 | The three updates are made as a whole or not at all |

## Findings

Four properties that one would expect do not hold of the code. For each, an input that shows it and the exact condition
are proved.

* **Award: different public keys collide.** The deposit table is keyed by the 64-bit name of the public key, which sees
  thirteen characters. `Award.DifferentKeysCollide` has an account with the key `EOS6A`, after which one with `EOS6B`
  cannot be created. `Award.CreateRefusedIff`: in every reachable state creation is refused for this reason exactly when
  an account with the same 64-bit key exists; `Names.SameKeyIff` says which keys those are.
* **Keephand: a withdrawal can destroy funds.** The owner's row is set to the fee where the fee should be added
  (`contracts/keephand/keephand.cpp:87`), and with the owner as the account the fee is lost. `Keephand.WithdrawalRightIff`
  gives the exact condition in every reachable state, `Keephand.WithdrawalDestroysFunds` a run of five calls after which
  0.1 of 80 is gone.
* **Real128: large numbers are read back wrongly.** The parser reads the whole part into 64 bits.
  `Real128.RoundTripIff`: printing and reading restores a number exactly when its whole part is below 2^64;
  `Real128.WholePartWraps` reads 2^64 as zero.
* **Zip: very long names.** The binary search cuts the length of the name to 32 bits. `ZipDirectory.SearchesAgreeIff`
  gives the exact condition in an archive, `ZipDirectory.RightInEveryArchiveIff` the names for which the search is right in
  all of them, and `ZipDirectory.EmptyNameTakenForLong` a name that is found although it is not there.

A comment in `miniz.c` (line 843) requires the output buffer to hold one block with the fixed codes.
`Deflate.Compressor.PutBlock` shows that it does: a raw, compressed or rewritten block ends below `TDEFL_OUT_BUF_SIZE`
less 16, counted from the start of the flush.

## Left out

- InflateStream.Inflate: its results are about well-formed streams. On others, what is shown is the refusal of a distance that reaches too far back (here), of lengths that are no code (HeaderReader.BuildTable), and that every look-up stays in its tables and ends (InflateTable.HuffTable.Decode); what a stream with reserved symbols decodes to, which section 3.2.6 of RFC 1951 leaves open, and the further statuses are not modelled.
- Deflate.Compressor.PutChunk: the output buffer is unbounded in the model. The block is shown to end within it; that the few bytes a flush adds after a block with its own codes fit too is not shown, and handing output to the caller in pieces is not modelled.
- HuffmanTable.OptimizeHuffmanTable: where every code of least cost has a length above the limit, how much the limited code costs is not stated.
- HuffmanOptimality.TreeIsShallow: optimality and depth are stated for totals below 2^16. No block reaches more: the code buffer holds fewer operations, as the precondition of Deflate.Compressor.PutBlock says. For larger totals the 16-bit sums wrap, and only that the code is complete is proved.
- The variants for 64-bit registers and unaligned loads (bit refills, match copy, `tdefl_compress_lz_codes`, `tdefl_find_match`, `tdefl_compress_fast`) are left out; the portable ones are modelled.
- The zlib header and trailer around a raw stream are left out; the Adler-32 that the trailer holds is modelled by itself.
- Resumption of the decompressor in the middle of a stream, input and output in pieces, and output into a wrapping window are left out: input and output are whole.
- The static tables of length and distance symbols, extra bits, leading zeros and base 58 digits are given by functions or literal sequences; the codebooks of smaz and the initial boxes of Blowfish are parameters, with what is needed of the codebooks stated as a condition.
- Crc32c.Crc32cSlicingBy8: the tables are a parameter for which the generator's property is required; the literal tables in `crc.cpp` are not compared with it.
- MinimumRedundancy.CalculateMinimumRedundancy: works on an array of keys alone; the symbol beside each key, which the source does not touch there, is kept outside.
- The sixteen unrolled rounds of Blowfish are written as a loop.
- Real128.Parse128: fractions of more digits than 64 bits hold are signed overflow in the source; the model lets them wrap. Printed numbers never have as many.
- DigestShift.ShiftLeft, DigestShift.ShiftRight: the result for shifting in place by 8 and more is not stated, since the source then copies between overlapping ranges.
- Base58.Encode: numbers of the OpenSSL library are integers; its errors and memory are left out.
- Keephand.WithdrawalTotal: funds are reals where the contract uses double, so rounding is left out, in transfers too.
- The contracts' authorities are a set of names given with each call; printing, notification and storage cost are left out, and so is `deldeposit`, which is compiled for debugging only.
- HuffmanLimit.EnforceMaxCodeSize: limits of 17 to 32 are left out; the callers pass 7 and 15.
- Smaz.Decompress: text that is cut short is left out; the source reads past its end then.
- BitIo.BitWriter.PutBits: the source drops bytes once its output buffer is full; the model has no such end. Blocks are shown to end before it (Deflate.Compressor.PutBlock).
- Reading and writing of archives, files, compression levels and allocation are left out, and so are image output, popcount, hashing, bloom filters, elliptic curves and the rest of the library.
