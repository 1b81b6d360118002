# Verified models of avbot

avbot is a chat bot that joins QQ, IRC and XMPP. This project models the algorithms inside it on which the rest relies, and
proves what they promise, for all inputs, runs or reachable states:

- **Deflate** (RFC 1951; `qqwry/miniz.c`). The compressor: match search, lazy parsing, token buffer, symbol statistics,
  Huffman codes of minimum redundancy, length limiting, run-length packed code lengths, blocks with dynamic and fixed codes
  and stored blocks, flushing. The inflater: bit reader, two-level tables, the loops over lengths, literals, copies and
  blocks. `RoundTrip.RoundTrip` puts both together. Beside it: Adler-32 (RFC 1950) and the file index of a ZIP archive.
- **Download ranges** (`rangefield.hpp`, `bitfield.hpp`, `multi_download.ipp`): an interval map that is merged lazily, the
  piece bitmap, and handing out ranges.
- **Formats**: bencoding (BEP 3), JSON property trees (RFC 8259), URLs (section 3 of RFC 3986). Each is written and read
  back; the result says exactly when that is the identity.
- **Coroutine queue** (`async_coro_queue.hpp`): a step system of pushes, pops, waits, cancels, clears and timeouts.
- **SMTP client** (`smtp.hpp`): runs of the sending coroutines against any server and network.

Code that updates arrays, objects or streams is modelled by methods and classes that do the same steps; their contracts tie
them to functions, and the lemmas are about those functions. `dafny verify dfyconfig.toml` checks the project.

## Layout

| modules | about |
|---|---|
| `Bits`, `Common` | bit strings and numbers, shared types |
| `RadixSort`, `HuffmanCost`, `MinRedundancy`, `HuffmanLengths`, `HuffmanLimit`, `HuffmanTable`, `Canonical` | from symbol counts to codes |
| `InflateTable`, `HuffmanAgreement` | the inflater's tables, and their agreement with the compressor's codes |
| `CodeLengthRle`, `LzTokens`, `LzCounts`, `LzBuffer`, `BitWriter`, `LzEmit` | packed lengths, tokens, statistics, output |
| `HeaderFormat`, `DeflateFormat` | the deflate format in numbers |
| `InflateBlock`, `StreamSpec`, `LzExpand` | what the bits of a block and of a stream stand for |
| `DeflateBlock`, `BlockWriter`, `StaticBlock`, `DeflateStream` | writing blocks and streams |
| `Inflater`, `InflateLoop`, `InflateStream` | reading them with tables and buffers |
| `LzMatch`, `Compressor`, `RoundTrip` | match search, the main loop, both directions together |
| `Adler32`, `ZipIndex` | checksum, file index |
| `Ranges`, `RangeField`, `BitField`, `PieceMap`, `Allocator` | download ranges |
| `Bencode`, `BencodeFormat`, `JsonWrite`, `JsonRead`, `JsonRoundTrip`, `JsonGrammar`, `JsonAccept`, `JsonOnly`, `Url`, `UrlGrammar` | formats |
| `CoroQueue`, `CoroCauses`, `Smtp`, `SmtpRun`, `SmtpGuard`, `SmtpReplies`, `SmtpWire` | protocols |

## Findings

Properties one would expect and that the code does not have. Each has a lemma with the exact condition under which it
holds.

- Recording a range can uncover bytes: an update replaces an entry with the same left edge, even by a shorter one
  (`Ranges.OverwriteExample`, `Ranges.PutKeepsIff`).
- Converting ranges to a bitmap can miss complete pieces: the walk leaves at most one range behind per piece, so several
  small ranges delay it (`PieceMap.LateExample`, `PieceMap.ExactIff`).
- A parsed URL need not survive writing: a host with an at sign is taken for user info when read back
  (`Url.AtSignExample`, `Url.RoundTripIff`).
- Two numbers with only blanks between them are read as one (`JsonOnly.SplitNumber`, `JsonAccept.NumberKeptIff`).
- Undefined entries vanish from bencoded lists (`Bencode.UndefinedItemVanishes`, `Bencode.RoundTripIff`).
- Cancelling the queue does not reach a wait when no pop is pending (`CoroQueue.LoneWaitStays`,
  `CoroQueue.CancelReachesAllIff`).
- The SMTP client keeps the encrypted stream of an earlier attempt, so it may send STARTTLS to a server that no longer
  offers it (`SmtpGuard.StaleStream`, `SmtpGuard.StaleIff`).
- It also keeps the write buffer: what a failed write of the credentials or the mail has left there goes out in clear with
  the EHLO of the next attempt (`SmtpGuard.ExposureExample`, `SmtpGuard.GuardedIff`).

## Model

| member | source | states |
|---|---|---|
| `RoundTrip.RoundTrip` | qqwry/miniz.c:2766-2773 | for all data and all settings of the compressor (probes, greedy or lazy, run-length only, filtered, fixed codes only, stored only, plain or unrolled writer), inflating the compressed bytes into any buffer with room gives exactly the data |
| `RoundTrip.Deflate` | qqwry/miniz.c:2726-2733 | the bytes produced are a finished stream that is read as the data, whatever follows it |
| `RoundTrip.Inflate` | qqwry/miniz.c:1729-1734 | if the bytes are a stream that stands for data that fit, the call succeeds with those data, and on no such stream with others |
| `RoundTrip.CompleteReads` | qqwry/miniz.c:1457-1670 | a finished stream is read as its data with nothing behind it |
| `Compressor.Compressor.CompressAll` | qqwry/miniz.c:2497-2613 | after all input has been taken, the finished stream stands for the whole input, whatever the hash chains held |
| `Compressor.Compressor.CompressNormal` | qqwry/miniz.c:2497-2613 | all of the source is taken; the recorded tokens stand for the input up to the position looked at, less a match kept back; with a flush nothing stays uncoded |
| `Compressor.Compressor.Round` | qqwry/miniz.c:2544-2608 | one round of the main loop keeps that invariant and moves on, with the flush that makes room in the token buffer |
| `Compressor.Compressor.Record` | qqwry/miniz.c:2563-2594 | the lazy parser: a longer match turns the one kept back into a literal, otherwise that one is recorded; either way the coded data remain a prefix of the input and the move stays inside the lookahead |
| `Compressor.Compressor.ChooseMatch` | qqwry/miniz.c:2545-2562 | whatever is chosen is no match or a true repetition of at least three bytes inside the dictionary and the lookahead |
| `Compressor.Compressor.RunLength` | qqwry/miniz.c:2546-2554 | a run found in run-length mode is a repetition at distance one |
| `Compressor.Compressor.Fill` | qqwry/miniz.c:2505-2540 | filling the lookahead keeps the ring equal to the last bytes of the input and trims the dictionary so that ring and lookahead never overlap |
| `Compressor.Compressor.FlushBlock` | qqwry/miniz.c:2189-2213 | the bytes of a block, if the ring still holds them, are what its tokens stand for; flushing keeps the coded prefix and never drops anything |
| `Compressor.Compressor.ReadBlock` | qqwry/miniz.c:2203-2206 | reading the block back from the ring gives exactly the bytes that the tokens stand for |
| `LzMatch.FindMatch` | qqwry/miniz.c:2299-2325 | for arbitrary chain contents the search ends, stays inside the ring, and returns the given length with distance zero or a longer length at which the input repeats itself; of all places that the chain leads to, up to its end or until the probes are used up, none has a longer repetition and none before the one chosen has as long a one |
| `LzMatch.FindCandidate` | qqwry/miniz.c:2307-2317 | the candidates are those of the chain in order, up to three for every probe; those passed over differ in one of the two bytes at the end of the best match so far |
| `LzMatch.MissedIsShort` | qqwry/miniz.c:2315-2315 | such a candidate has no longer repetition |
| `LzMatch.Store` | qqwry/miniz.c:2516-2516 | storing a byte with its copy behind the end of the ring keeps the last 32768 bytes of the input |
| `LzMatch.ByteAt` | qqwry/miniz.c:2302-2318 | reading on behind the end of the ring gives the bytes that follow in the input |
| `DeflateStream.Deflater.Flush` | qqwry/miniz.c:2162-2233 | a flushed stream leads to the data of all blocks so far; the last block makes it a finished stream; only the marker of a synchronizing flush can run out of room |
| `DeflateStream.WriteBlock` | qqwry/miniz.c:2187-2213 | whichever of fixed, dynamic and stored is chosen, after restoring the output where needed, the block fits and is read as the data; it is stored if and only if the dictionary still holds the bytes and this is asked for or the block with codes had at least so many bytes less one, otherwise fixed for less than 48 bytes, when asked for, or when dynamic codes did not fit |
| `DeflateStream.WriteStored` | qqwry/miniz.c:2197-2206 | a stored block, padded to a byte boundary, is read as its bytes |
| `DeflateStream.PutSync` | qqwry/miniz.c:2224-2224 | the marker of a synchronizing flush is an empty block |
| `DeflateStream.Deflater.Literal` | qqwry/miniz.c:2467-2473 | recording a literal adds its byte to the data that the tokens stand for |
| `DeflateStream.Deflater.Match` | qqwry/miniz.c:2475-2495 | recording a match adds the repeated bytes, overlapping or not |
| `DeflateStream.LeadsOn` | qqwry/miniz.c:2162-2233 | a block added to a stream that leads to some data makes it lead to those data and the block's |
| `DeflateStream.StoredReads` | qqwry/miniz.c:1460-1488 | stored blocks are read back wherever they start, if the stream ends with a whole byte |
| `StaticBlock.WriteStatic` | qqwry/miniz.c:1998-2014 | the inflater reads a block with fixed codes as exactly the tokens; it needs at most 31/24 of the size of the packed tokens |
| `StaticBlock.StaticAcceptable` | qqwry/miniz.c:1496-1501 | both fixed codes are complete, so the inflater accepts them |
| `BlockWriter.WriteDynamic` | qqwry/miniz.c:1936-1996 | if there is room, the stream grows by a block that the inflater reads as exactly the recorded tokens, whatever follows; its header holds the lengths of the code-length code in the order 16, 17, 18, 0, 8, 7, 9 and so on; the plain writer succeeds exactly when the output has room left |
| `BlockWriter.CountSent` | qqwry/miniz.c:1986-1987 | no more lengths are sent than up to the last in that order that is not zero, and at least four |
| `DeflateBlock.Trim` | qqwry/miniz.c:1945-1946 | no more code lengths are sent than up to the last that is not zero, and at least the least number |
| `HeaderFormat.HeaderReads` | qqwry/miniz.c:1504-1505 | for all numbers and all lengths below 8: the header bits, and three bits for each length, give the lengths to symbols 16, 17, 18, 0, then 8, 7, 9, 6 and so on up to 1, 15, and none to the others |
| `HeaderFormat.BlockIsFormatted` | qqwry/miniz.c:1983-1996 | a block is sent as its kind, the two counts, the number of lengths and the lengths in that order, and then the coded data |
| `HeaderFormat.FieldRead` | qqwry/miniz.c:1376-1388 | a number sent in n bits, the least significant first, is read back |
| `DeflateFormat.BitOfByte` | qqwry/miniz.c:1376-1388 | bits fill a byte from its least significant end |
| `DeflateFormat.BitOfCode` | qqwry/miniz.c:1896-1903 | the bits of a code travel from the most significant one on |
| `DeflateFormat.KindReads` | qqwry/miniz.c:1459-1496 | the first bit of a block marks the last one; 00 are stored bytes, 01 fixed codes, 10 dynamic codes, 11 is an error |
| `DeflateFormat.StoredFormat` | qqwry/miniz.c:1462-1488 | stored bytes stand behind a byte boundary, their number in 16 bits and the same bits negated |
| `DeflateFormat.StoredChecked` | qqwry/miniz.c:1464-1464 | a block in which the second 16 bits are not the negated first ones is an error |
| `DeflateFormat.FixedLitCode` | qqwry/miniz.c:1998-2008 | the fixed codes are those of section 3.2.6 of RFC 1951: 8 bits from 48, 9 from 400, 7 from 0 and 8 from 192 on |
| `DeflateFormat.FixedDistCode` | qqwry/miniz.c:2010-2010 | a distance symbol has itself as its code in 5 bits |
| `DeflateFormat.PlainLength` | qqwry/miniz.c:1535-1539 | a code-length symbol below 16 is a length |
| `DeflateFormat.PackedLength` | qqwry/miniz.c:1540-1545 | symbol 16 repeats the last length 3 to 6 times by two bits, 17 and 18 stand for 3 to 10 and 11 to 138 zeros by three and seven bits |
| `DeflateFormat.NothingToRepeat` | qqwry/miniz.c:1540-1543 | a repetition without a length before it is an error |
| `DeflateFormat.LengthTable` | qqwry/miniz.c:1430-1431 | the lengths start at 3 and each symbol goes on where the one before ends, by 2 to the number of its extra bits; 285 is 258 |
| `DeflateFormat.DistTable` | qqwry/miniz.c:1432-1433 | the distances start at 1 and go on in the same way |
| `DeflateFormat.CopyReads` | qqwry/miniz.c:1604-1618 | a copy is read as these lengths and distances plus the extra bits |
| `DeflateFormat.SymbolOfLength` | qqwry/miniz.c:1767-1781 | the compressor gives every length the symbol that stands for it, and 258 the symbol 285 |
| `DeflateFormat.SymbolOfDistance` | qqwry/miniz.c:1783-1815 | and every distance its symbol |
| `DeflateBlock.BlockRead` | qqwry/miniz.c:1503-1613 | header, packed lengths and tokens of a block are read back and reading stops exactly behind it |
| `DeflateBlock.TokensRead` | qqwry/miniz.c:1552-1613 | tokens written with any acceptable codes are read back |
| `DeflateBlock.LengthsRead` | qqwry/miniz.c:1535-1549 | packed code lengths are unpacked to the lengths that were packed |
| `InflateStream.Inflate` | qqwry/miniz.c:1457-1670 | a stream that stands for bytes that fit is inflated to those bytes and the reader stops behind the last block; if the codes have no gaps and no zeros had to be supplied, nothing else is taken for a stream; it ends on every input, with or without more announced |
| `InflateStream.InflateStored` | qqwry/miniz.c:1460-1488 | stored bytes are copied, first from the bit buffer and then from the input; every failure means a malformed block or one that does not fit |
| `InflateStream.InflateStatic` | qqwry/miniz.c:1496-1501 | with fixed codes and without supplied zeros, success and result are exactly those of the definition |
| `InflateLoop.InflateDynamic` | qqwry/miniz.c:1503-1551 | header, lengths, tables and items together give the bytes that the block stands for; if the codes have no gaps and no zeros had to be supplied, nothing else is taken for a block |
| `InflateLoop.InflateItems` | qqwry/miniz.c:1552-1668 | the loop over literals and copies, with the path that takes two symbols at once, writes the bytes that the bits stand for; with complete codes and without supplied zeros it never succeeds on anything else |
| `InflateLoop.InflateLengths` | qqwry/miniz.c:1535-1549 | the loop over code lengths gives the lengths that the bits stand for, rejects a repeat without a predecessor and a wrong total, and never writes outside its array |
| `InflateLoop.InflateTwo` | qqwry/miniz.c:1565-1603 | decoding two symbols from one refill of four bytes is the same as decoding them one by one |
| `InflateLoop.InflateHeader` | qqwry/miniz.c:1504-1506 | the header is read as defined, or input is missing |
| `LzExpand.CopyBytes` | qqwry/miniz.c:1622-1667 | byte by byte, eight at a time or three at a time: the copy continues the output with the given period, up to the end of the output |
| `LzExpand.CopiedIff` | qqwry/miniz.c:1622-1667 | copying is the only continuation with that period |
| `LzExpand.ExpandConcat` | qqwry/miniz.c:1552-1668 | items one after the other expand as they do together |
| `Inflater.Reader.Decode` | qqwry/miniz.c:1413-1426 | decoding through the tables gives the symbol whose code comes next in the stream and moves on by its length; zeros are supplied behind the end of the input only if it holds no whole code and no more is announced, and with a complete code and without such zeros it succeeds only on a code |
| `Inflater.Reader.FillSlowly` | qqwry/miniz.c:1394-1407 | near the end of the input, bytes are taken until a whole code is at hand; failing, or supplying zeros, means that the input holds none |
| `Inflater.Reader.Get` | qqwry/miniz.c:1368-1388 | reading bits takes exactly those bits; if there are too few it fails, or supplies zeros if no more input is announced, and beyond the end it reads only zeros |
| `InflateTable.BuildTable` | qqwry/miniz.c:1511-1532 | lengths are accepted exactly when they are complete or name at most one symbol; the lookup table and the tree then stand for the canonical codes, within 576 tree slots |
| `InflateTable.DecodeSymbol` | qqwry/miniz.c:1422-1426 | a bit buffer that starts with the code of a symbol decodes to that symbol and its length; any other buffer still gives a symbol of the alphabet and at most 15 bits |
| `InflateTable.TryDecode` | qqwry/miniz.c:1394-1407 | the attempt with few bits succeeds exactly when they hold a whole code |
| `InflateTable.DecidedIff` | qqwry/miniz.c:1394-1407 | the first n bits decide exactly when the code that agrees with them ends within them |
| `InflateTable.CompleteDecodes` | qqwry/miniz.c:1514-1518 | with complete lengths every buffer starts with a code |
| `InflateTable.DecodesUniquely` | qqwry/miniz.c:1519-1532 | a buffer starts with the code of at most one symbol |
| `InflateTable.TreeHasRoom` | qqwry/miniz.c:1524-1531 | the codes of any acceptable lengths need no more tree nodes than there are slots |
| `HuffmanAgreement.StoredCodeDecodes` | qqwry/miniz.c:1896-1903 | a buffer that holds the compressor's stored code of a counted symbol, followed by anything, is answered by tables built from the same lengths with that symbol and its length |
| `HuffmanAgreement.TableAccepted` | qqwry/miniz.c:1514-1518 | the inflater accepts every table that the compressor builds |
| `HuffmanTable.OptimizeTable` | qqwry/miniz.c:1871-1904 | exactly the used symbols get lengths within the limit, the code is complete from two symbols on, more frequent symbols are never longer, lengths of minimum redundancy are kept when they respect the limit, and the stored codes are the reversed canonical ones |
| `HuffmanTable.StaticTable` | qqwry/miniz.c:1874-1877 | given lengths get their canonical codes |
| `HuffmanLengths.MinimumRedundancy` | qqwry/miniz.c:1836-1854 | in place, ascending weights become lengths that fill the code space, and no prefix code for these weights has a smaller total |
| `HuffmanLengths.CostIsMerges` | qqwry/miniz.c:1840-1853 | the weighted length of the code is the total weight of the merges |
| `MinRedundancy.MergePhase` | qqwry/miniz.c:1840-1845 | the first loop builds, in the same cells, the parents of a tree of lightest merges |
| `MinRedundancy.DepthPhase` | qqwry/miniz.c:1846-1846 | the second loop turns parents into depths |
| `MinRedundancy.LevelPhase` | qqwry/miniz.c:1847-1853 | the third loops turn the depths of nodes into depths of leaves that fill the code space and belong to the merges |
| `MinRedundancy.DepthBound` | qqwry/miniz.c:1836-1854 | with weights that add up to less than 65536 no leaf is deeper than 22, so the lengths fit the histogram of 32 |
| `HuffmanLimit.EnforceMaxCodeSize` | qqwry/miniz.c:1858-1869 | from any complete histogram with at most 2^max codes the loop ends with a complete histogram of as many codes, none longer than max; within the limit nothing changes |
| `HuffmanLimit.RepairPossible` | qqwry/miniz.c:1863-1868 | an overfull level always has a code to give up and a shorter one to split, so no count becomes negative |
| `RadixSort.RadixSortSyms` | qqwry/miniz.c:1819-1833 | in one pass or two, the buffer returned is a stable sorted rearrangement of the input |
| `Canonical.PrefixFree` | qqwry/miniz.c:1896-1903 | canonical codes of lengths that fit are prefix-free |
| `Canonical.CompleteCovers` | qqwry/miniz.c:1514-1518 | with complete lengths every long enough bit string starts with a code |
| `Canonical.CanonicalOrder` | qqwry/miniz.c:1896-1903 | codes of one length are ordered as their symbols, and shorter codes precede longer ones |
| `Canonical.EndIsKraftSum` | qqwry/miniz.c:1514-1514 | counting codes level by level computes the Kraft sum |
| `CodeLengthRle.Pack` | qqwry/miniz.c:1954-1977 | the packed bytes and the counts belong to one sequence of symbols that stands for the lengths and takes no more room than they do |
| `LzTokens.LengthRecovered` | qqwry/miniz.c:1767-1781 | base value plus the extra bits written give back every match length, and the extra bits fit |
| `LzTokens.DistanceRecovered` | qqwry/miniz.c:1783-1815 | base value plus the extra bits written give back every distance up to 32768 |
| `LzCounts.SymbolsHaveCodes` | qqwry/miniz.c:2472-2494 | every symbol of a recorded token, and the end of a block, has a code in tables built from the counts |
| `LzCounts.CountsFit` | qqwry/miniz.c:2472-2494 | the counts of a full token buffer stay within 16 bits |
| `LzBuffer.CodeBuffer.RecordLiteral` | qqwry/miniz.c:2467-2473 | the buffer remains the packed form of the tokens with one literal more |
| `LzBuffer.CodeBuffer.RecordMatch` | qqwry/miniz.c:2475-2495 | the buffer remains the packed form of the tokens with one match more |
| `LzBuffer.CodeBuffer.FixUp` | qqwry/miniz.c:2177-2178 | whatever the unfinished flag byte held, the buffer becomes the packed form of exactly the recorded tokens |
| `LzBuffer.CodeBuffer.Reset` | qqwry/miniz.c:2230-2233 | after a block the buffer holds no tokens and the counts agree |
| `LzBuffer.CodeBuffer.TokensFit` | qqwry/miniz.c:2467-2495 | a buffer of 64 KB holds at most 58254 tokens |
| `LzEmit.Compress` | qqwry/miniz.c:2108-2151 | the plain writer emits the codes of the tokens and of the end of the block; it succeeds exactly when the output has room left, and always when the bits fit |
| `LzEmit.CompressFast` | qqwry/miniz.c:2019-2106 | the unrolled writer, with its 64-bit buffer that never overflows, emits the same bits whenever it succeeds, and succeeds when they fit |
| `BitWriter.Writer.PutBits` | qqwry/miniz.c:1906-1915 | the stream grows by exactly the bits unless the output fills up; a single byte always finds room if there was some; what was written before is unchanged |
| `Adler32.Compute` | qqwry/miniz.c:977-990 | deferred reduction over blocks of 5552 bytes gives the byte-by-byte checksum for every buffer and start value, and the initial value without a buffer |
| `Adler32.NoOverflow` | qqwry/miniz.c:983-987 | no 32-bit sum overflows within a block, even from sums that are not reduced |
| `Adler32.ChecksumConcat` | qqwry/miniz.c:977-990 | checksumming two parts in turn is checksumming them together |
| `Adler32.ChecksumClosed` | qqwry/miniz.c:977-990 | from sums a and b, n bytes give a plus all bytes and b plus n times a plus each byte times the number of bytes from it to the end, modulo 65521 |
| `Adler32.LargestPrime` | qqwry/miniz.c:979-987 | the modulus is the largest prime below 65536 |
| `ZipIndex.SortDirectory` | qqwry/miniz.c:3127-3166 | the index is a permutation of the files, sorted by case-folded name |
| `ZipIndex.SortIndices` | qqwry/miniz.c:3127-3166 | heap sort in place gives a sorted rearrangement |
| `ZipIndex.BinarySearch` | qqwry/miniz.c:3476-3496 | the search returns a file with the name, or -1 exactly when there is none |
| `ZipIndex.LinearScan` | qqwry/miniz.c:3498-3536 | the scan with default flags returns the first file with the name, or -1 exactly when there is none |
| `ZipIndex.SearchesAgree` | qqwry/miniz.c:3498-3536 | both searches agree on whether a file is there, and on which one when folded names are distinct |
| `ZipIndex.Compare` | qqwry/miniz.c:3460-3474 | the comparison loop agrees with the order on case-folded names |
| `ZipIndex.Less` | qqwry/miniz.c:3107-3123 | so does the comparison of the sort |
| `ZipIndex.SameNameIff` | qqwry/miniz.c:2947-2947 | names compare as equal if and only if they differ at most in the case of ASCII letters |
| `ZipIndex.BeforeIff` | qqwry/miniz.c:3107-3123 | a name comes before another if and only if the first difference says so, or it is a beginning of it |
| `Ranges.PutKeepsIff` | avhttp/include/avhttp/rangefield.hpp:141-154 | merged or not, an update keeps everything covered if and only if the other entries cover what the replaced entry covered behind the new right edge |
| `Ranges.PutKeepsMerged` | avhttp/include/avhttp/rangefield.hpp:141-154 | on merged ranges: if and only if the new range reaches as far as the entry it replaces |
| `Ranges.OverwriteExample` | avhttp/include/avhttp/rangefield.hpp:141-154 | a concrete update that uncovers a byte |
| `Ranges.NormalUnique` | avhttp/include/avhttp/rangefield.hpp:528-582 | sorted, disjoint, non-touching ranges are determined by the points they cover |
| `RangeField.Field.Update` | avhttp/include/avhttp/rangefield.hpp:141-154 | a range inside the field replaces the entry with its left edge, any other is refused |
| `RangeField.Field.Merge` | avhttp/include/avhttp/rangefield.hpp:528-582 | the ranges become the normal form of what was covered, or the entry (0, 0) if nothing was |
| `RangeField.Field.CheckRange` | avhttp/include/avhttp/rangefield.hpp:170-194 | true exactly when every point of a range inside the field is covered |
| `RangeField.Field.GetRange` | avhttp/include/avhttp/rangefield.hpp:197-225 | the range is cut to the longest covered stretch from its left edge |
| `RangeField.Field.OutSpace` | avhttp/include/avhttp/rangefield.hpp:255-298 | fails only when all is covered; otherwise the stretch is free and starts at the first free point from the offset on, or of the field |
| `RangeField.Field.IsFull` | avhttp/include/avhttp/rangefield.hpp:301-319 | true exactly when a field that is not empty is covered |
| `RangeField.Field.RangeSize` | avhttp/include/avhttp/rangefield.hpp:322-337 | never less than the number of covered points, and equal exactly when the entries are disjoint |
| `RangeField.Field.Inverse` | avhttp/include/avhttp/rangefield.hpp:467-482 | covers exactly what the field does not |
| `RangeField.InverseTwice` | avhttp/include/avhttp/rangefield.hpp:485-525 | inverting twice gives back the merged ranges |
| `PieceMap.ToBitmap` | avhttp/include/avhttp/rangefield.hpp:340-401 | marks the pieces as the walk of the source does, with piece edges computed in 32 bits without wrap-around |
| `PieceMap.MarkedIsComplete` | avhttp/include/avhttp/rangefield.hpp:355-400 | a marked piece is completely covered |
| `PieceMap.ExactIff` | avhttp/include/avhttp/rangefield.hpp:355-400 | all complete pieces are marked if and only if no earlier ranges leave a backlog: a condition on the edges of the ranges alone |
| `PieceMap.AlignedExact` | avhttp/include/avhttp/rangefield.hpp:355-400 | ranges on piece edges leave no backlog, so all complete pieces are marked |
| `PieceMap.LateExample` | avhttp/include/avhttp/rangefield.hpp:383-383 | three small ranges in one piece make the walk miss a complete piece |
| `PieceMap.FromBitmap` | avhttp/include/avhttp/rangefield.hpp:404-451 | the ranges become the runs of set bits, with a short last piece |
| `PieceMap.BitmapRoundTrip` | avhttp/include/avhttp/rangefield.hpp:340-451 | from a bitmap to ranges and back gives the same bits |
| `PieceMap.RangesShrink` | avhttp/include/avhttp/rangefield.hpp:340-451 | from ranges to a bitmap and back covers nothing new |
| `BitField.Bitmap.SetBit` | avhttp/include/avhttp/bitfield.hpp:87-92 | sets one bit and no other |
| `BitField.Bitmap.ClearBit` | avhttp/include/avhttp/bitfield.hpp:80-85 | clears one bit and no other |
| `BitField.Bitmap.Resize` | avhttp/include/avhttp/bitfield.hpp:197-217 | keeps the bits that remain and gives the new ones the value; the bits behind the last one are zero |
| `BitField.Bitmap.Count` | avhttp/include/avhttp/bitfield.hpp:106-130 | the number of set bits |
| `Allocator.Allocate` | avhttp/include/avhttp/impl/multi_download.ipp:1647-1695 | hands out an unused stretch from the first free point on, of the maximum size unless the field or a taken byte ends it before, and fails exactly when all is taken |
| `Allocator.AllocateAll` | avhttp/include/avhttp/impl/multi_download.ipp:1647-1695 | from whatever points, allocating until nothing is left hands out every free byte exactly once, with at most one stretch for every maximum of free bytes, one more for every gap, and one more for every start inside a gap |
| `Allocator.AllocateFrom` | avhttp/include/avhttp/impl/multi_download.ipp:1647-1695 | from one point it takes at most one request for every maximum of free bytes and one more for every gap, or two for the gap the point lies in |
| `Allocator.NextIsUnique` | avhttp/include/avhttp/impl/multi_download.ipp:1647-1695 | what one call hands out is determined by its contract |
| `Allocator.MovingPoint` | avhttp/include/avhttp/impl/multi_download.ipp:1660-1661 | the starts inside gaps are needed: with a moving point all bytes of a gap may be handed out one by one |
| `CoroQueue.PopsMatchPushes` | avboost/include/boost/async_coro_queue.hpp:134-154 | in every interleaving of pushes and pops on an unbounded list the i-th pop completes with the i-th value, and as many complete as there are both |
| `CoroQueue.AlwaysIdle` | avboost/include/boost/async_coro_queue.hpp:303-348 | in every reachable state nobody sleeps while there is a value, so both assertions of push hold |
| `CoroQueue.ValuesAccounted` | avboost/include/boost/async_coro_queue.hpp:303-391 | over every run, with cancels, clears, timeouts and an overwriting ring, every value pushed was delivered, is queued, or was dropped, each once and in order |
| `CoroQueue.CompletesOnce` | avboost/include/boost/async_coro_queue.hpp:134-199 | no pop completes more often than it was requested; a pop whose timer never fires, and every wait, is pending or completed exactly once |
| `CoroQueue.NoLateDelivery` | avboost/include/boost/async_coro_queue.hpp:322-342 | once the timer of a pop has fired, no later step completes it |
| `CoroQueue.CancelReachesAllIff` | avboost/include/boost/async_coro_queue.hpp:353-383 | after a cancel nobody is pending if and only if a pop was pending or no wait was |
| `CoroQueue.LoneWaitStays` | avboost/include/boost/async_coro_queue.hpp:353-383 | a lone wait survives a cancel |
| `CoroQueue.Queue.PushValue` | avboost/include/boost/async_coro_queue.hpp:303-348 | a push does what the step system says, and its assertions hold; what that posts is stated in CoroCauses.PushGives and PushStores |
| `CoroQueue.Queue.AsyncPop` | avboost/include/boost/async_coro_queue.hpp:134-154 | a pop takes the first value or waits |
| `CoroQueue.Queue.CancelAll` | avboost/include/boost/async_coro_queue.hpp:353-383 | cancelling posts a cancellation to those it reaches |
| `CoroCauses.PushGives` | avboost/include/boost/async_coro_queue.hpp:303-342 | in every run a push wakes all pending waits with success, in order and first; then the first pending pop that has not timed out gets the value |
| `CoroCauses.PushStores` | avboost/include/boost/async_coro_queue.hpp:343-347 | without such a pop the waits are woken and the value is stored last; only a full ring loses a value, its oldest |
| `CoroCauses.RingBounded` | avboost/include/boost/async_coro_queue.hpp:343-347 | a ring never holds more than its room |
| `CoroCauses.NothingLost` | avboost/include/boost/async_coro_queue.hpp:343-347 | without clears, a list or a ring with room for all that was pushed loses nothing |
| `CoroCauses.CancelPosts` | avboost/include/boost/async_coro_queue.hpp:353-383 | in every run a cancel with a pop pending completes every wait and then every pop that has not timed out with an error, in order; without one it does nothing |
| `CoroCauses.ClearPosts` | avboost/include/boost/async_coro_queue.hpp:388-392 | a clear is a cancel that also drops what is queued |
| `CoroCauses.EveryCompletionCaused` | avboost/include/boost/async_coro_queue.hpp:134-392 | in every run each completion has its cause: a wait is woken by a push or because there is a value, a pop gets the oldest value or that of a push, and errors come only from a cancel or a clear that reached the request |
| `CoroCauses.NoErrorUncanceled` | avboost/include/boost/async_coro_queue.hpp:353-392 | without a cancel or a clear no request completes with an error |
| `Bencode.RoundTripIff` | avhttp/include/avhttp/bencode.hpp:124-292 | for entries whose numbers and lengths fit the C types, decoding the encoding gives the entry back if and only if it is undefined, or has no undefined part and is nested at most 100 deep |
| `BencodeFormat.EncodeIsText` | avhttp/include/avhttp/bencode.hpp:124-196 | what is written is the text of BEP 3: i, a decimal number without leading zeros and e; a length, a colon and the bytes; l or d, the parts and e |
| `BencodeFormat.AnyKeysRead` | avhttp/include/avhttp/bencode.hpp:236-262 | a dictionary whose keys come in any order, or again, is read with its keys in order, each with the value that came last |
| `BencodeFormat.PutPairAssigns` | avhttp/include/avhttp/bencode.hpp:249-249 | assigning to a key changes what is found under it and nothing else |
| `Bencode.ReadsExactly` | avhttp/include/avhttp/bencode.hpp:172-292 | decoding an encoding followed by any bytes gives the entry and stops exactly behind it |
| `Bencode.NoPrefix` | avhttp/include/avhttp/bencode.hpp:124-169 | no encoding is a proper prefix of another |
| `Bencode.UndefinedItemVanishes` | avhttp/include/avhttp/bencode.hpp:124-169 | an undefined item of a list is lost |
| `Bencode.IntegerToStr` | avhttp/include/avhttp/bencode.hpp:39-56 | for every 64-bit value but the smallest, the digits written backwards are the number, within 21 bytes |
| `Bencode.WriteEntry` | avhttp/include/avhttp/bencode.hpp:124-169 | writes the encoding and returns its exact number of bytes |
| `Bencode.ReadEntry` | avhttp/include/avhttp/bencode.hpp:172-292 | reads as the decoder is defined, including every error |
| `Url.RoundTripIff` | avhttp/include/avhttp/url.hpp:219-419 | a parsed URL is read back from its text, in all fields or under the comparison of the source, if and only if it has a protocol, and user info, a bracketed host, or a host that does not begin like user info |
| `UrlGrammar.AcceptedIff` | avhttp/include/avhttp/url.hpp:298-418 | a text is accepted if and only if it is a scheme, an authority with or without user info and port, and a path, query and fragment that may be missing |
| `UrlGrammar.FormRead` | avhttp/include/avhttp/url.hpp:298-418 | each part becomes its field: the scheme in small letters, a slash for a missing path, nothing for the other missing parts |
| `Url.RoundTrip` | avhttp/include/avhttp/url.hpp:219-419 | in particular with a protocol, and user info or a host without at signs |
| `Url.AtSignExample` | avhttp/include/avhttp/url.hpp:326-341 | a concrete URL whose host is taken for user info when read back |
| `Url.FromString` | avhttp/include/avhttp/url.hpp:298-419 | moving through the string takes the URL apart as defined, or fails exactly then |
| `Url.ToString` | avhttp/include/avhttp/url.hpp:219-268 | appends the components as defined |
| `SmtpRun.SuccessDialogue` | libmailexchange/smtp.hpp:270-355 | success is reported only if the last attempt was the whole dialogue in order: 220, EHLO, 250, STARTTLS with 220 and a handshake if there is an encrypted stream, AUTH, 235, MAIL FROM, 250, the recipients in order with one accepted, DATA, 354, the mail, 250; every command was transferred in full and nothing else was, save that EHLO takes along what an earlier attempt left in the write buffer |
| `SmtpRun.ToldInTime` | libmailexchange/smtp.hpp:241-355 | whatever the network does, the caller has been told after at most 22 * (4n + 16) completions, for n recipients |
| `SmtpRun.ToldOnce` | libmailexchange/smtp.hpp:241-355 | the caller is told at most once, and then nothing happens any more |
| `SmtpRun.FailureExhausts` | libmailexchange/smtp.hpp:249-266 | failure is reported only after 22 attempts, with pauses of 30, 40 up to 230 seconds between them |
| `SmtpGuard.GuardedIff` | libmailexchange/smtp.hpp:268-345 | in every reachable state: private commands were transferred encrypted behind a handshake of the attempt, or the server offers no encryption in it, if and only if it is not the case that encryption is offered and the attempt began with the rest of a private command in the write buffer, whose write had failed and of which less had been transferred since than was left |
| `SmtpGuard.ExposureExample` | libmailexchange/smtp.hpp:283-288 | for every letter, a run in which the credentials of a failed write go out in clear with the next EHLO, to a server that offers encryption |
| `SmtpGuard.UnsentIff` | libmailexchange/smtp.hpp:370-383 | the write buffer holds something secret if and only if the write of a private command has failed and not been made up for |
| `SmtpGuard.StartTlsIff` | libmailexchange/smtp.hpp:294-300 | in every reachable state, STARTTLS was sent in the attempt if and only if EHLO was agreed on in it and there is an encrypted stream |
| `SmtpGuard.StaleIff` | libmailexchange/smtp.hpp:294-300 | STARTTLS is sent although not offered in the attempt if and only if EHLO was agreed on in it, nothing was offered in it, and encryption was offered at an earlier point of the run |
| `SmtpGuard.StreamIff` | libmailexchange/smtp.hpp:441-449 | there is an encrypted stream if and only if a server has offered one at some point of the run, in whatever attempt |
| `SmtpGuard.StaleStream` | libmailexchange/smtp.hpp:294-310 | for every letter, a run in which STARTTLS is sent to a server that does not offer it in that attempt |
| `SmtpRun.RunLogs` | libmailexchange/smtp.hpp:89-147 | in every reachable state the record of the attempt, with the octets transferred, is the prefix of the dialogue that belongs to the phase, and the write buffer holds what belongs there |
| `SmtpReplies.ReplyIff` | libmailexchange/smtp.hpp:411-457 | while the reply to a stage is read, the stage is agreed on if and only if the reply has come with the code 220, 250, 220, 235, 250, 354 or 250, by stage; otherwise the attempt is over |
| `SmtpReplies.RecipientIff` | libmailexchange/smtp.hpp:107-145 | while the reply about a recipient is read, the recipient is counted if and only if it has come with the code 250 |
| `SmtpReplies.SuccessReplies` | libmailexchange/smtp.hpp:270-355 | when success is reported, one attempt has had the accepted replies to all stages, one after the other, and one about a recipient between those to MAIL FROM and DATA |
| `SmtpReplies.OfferIff` | libmailexchange/smtp.hpp:441-449 | the reply to EHLO gives the run its encrypted stream if and only if a line that still belongs to it is 250-STARTTLS or 250 STARTTLS |
| `SmtpReplies.BufferIs` | libmailexchange/smtp.hpp:279-292 | a new connection starts with an empty read buffer, a reply leaves what follows it, and nothing else touches the buffer |
| `SmtpWire.SuccessWire` | libmailexchange/smtp.hpp:286-347 | all that a successful attempt transfers, character by character: with an encrypted stream only EHLO and STARTTLS in clear, behind what an earlier attempt left, and AUTH PLAIN, MAIL FROM, the recipients, DATA and the mail encrypted |
| `SmtpRun.Client.Resume` | libmailexchange/smtp.hpp:241-355 | a completion changes the fields of the coroutines, the write buffer among them, as the step system says |
| `SmtpRun.Client.Play` | libmailexchange/smtp.hpp:241-355 | a sequence of completions is a run of the step system |
| `Smtp.CheckResponse` | libmailexchange/smtp.hpp:27-69 | the loop over the lines computes the result of a reply, the texts of its lines and what is left in the buffer |
| `Smtp.CheckIff` | libmailexchange/smtp.hpp:27-69 | a reply is accepted if and only if its lines, blank ones aside, continue with the code up to one that ends with it |
| `Smtp.CheckStops` | libmailexchange/smtp.hpp:34-69 | the texts are those of the lines up to the one that decides, which is the first that neither is blank nor continues, and what is left is what follows that line |
| `JsonRoundTrip.RoundTripIff` | avboost/include/boost/json_parser_write.hpp:30-158 | the text of any tree, indented or compact, with arbitrary bytes, repeated keys and nested arrays, can be read; it is read as that tree if and only if the writer accepts the tree |
| `JsonRoundTrip.TextMatched` | avboost/include/boost/json_parser_read.hpp:213-305 | the grammar matches the whole text of any tree and calls the actions of the tree |
| `JsonRoundTrip.RootBuilt` | avboost/include/boost/json_parser_read.hpp:51-110 | these actions build what the text keeps of the tree |
| `JsonRoundTrip.EscapeRead` | avboost/include/boost/json_parser_read.hpp:128-190 | every escape sequence written is read as its byte |
| `JsonAccept.EscapedPiece` | avboost/include/boost/json_parser_write.hpp:30-70 | a byte is written as it is from 32 on save for quote, slash and backslash; these and four control characters with a letter, the others with four digits |
| `JsonRoundTrip.StripIff` | avboost/include/boost/json_parser_write.hpp:133-158 | nothing is lost in the text if and only if the tree can be written |
| `JsonWrite.WriteJson` | avboost/include/boost/json_parser_write.hpp:160-175 | a tree that cannot be written is refused, any other gets its text |
| `JsonWrite.WriteHelper` | avboost/include/boost/json_parser_write.hpp:72-131 | the loops append the text of the tree to the stream |
| `JsonWrite.VerifyJson` | avboost/include/boost/json_parser_write.hpp:133-158 | accepts exactly the trees without data beside children and without data at the root |
| `JsonWrite.CreateEscapes` | avboost/include/boost/json_parser_write.hpp:30-70 | the loop appends the escape of each character |
| `JsonRead.ReadJson` | avboost/include/boost/json_parser_read.hpp:336-371 | parses the text and lets the actions build the tree; which texts, and which tree, is stated in JsonOnly.ReadIff |
| `JsonOnly.ReadIff` | avboost/include/boost/json_parser_read.hpp:239-308 | a text is accepted if and only if it is one of the grammar: arrays and objects with strings, escapes, numbers and the words true, false and null, with blanks and comments between the tokens; it is then read as the tree the grammar gives it |
| `JsonAccept.DocRead` | avboost/include/boost/json_parser_read.hpp:239-308 | every text of the grammar is read as its tree |
| `JsonAccept.ValueRead` | avboost/include/boost/json_parser_read.hpp:275-280 | every value is matched up to its end and calls its actions |
| `JsonAccept.LiteralKept` | avboost/include/boost/json_parser_read.hpp:275-291 | a number or a word, behind any blanks and comments and before a comma or what closes an array or object, is kept as it is written |
| `JsonAccept.NumberKeptIff` | avboost/include/boost/json_parser_read.hpp:282-289 | a number is kept as it is written if and only if what follows, blanks aside, does not go on with it |
| `JsonAccept.PieceRead` | avboost/include/boost/json_parser_read.hpp:128-190 | a character, an escape letter or four hexadecimal digits are read as the bytes they stand for |
| `JsonGrammar.CodeDecoded` | avboost/include/boost/json_parser_read.hpp:149-186 | decoding the bytes of an escaped code as UTF-8 gives the code back, with no more bytes than needed except for surrogates |
| `JsonOnly.SplitNumber` | avboost/include/boost/json_parser_read.hpp:282-289 | 1 2 in an array is read as one number |
| `JsonRead.Builder.Perform` | avboost/include/boost/json_parser_read.hpp:51-126 | each action changes string, name, root and stack as defined |

## Left out

- `tdefl_compress_fast`, the word-wise variant of `tdefl_find_match`, the zlib stream calls, PNG and ZIP writing, ZIP extraction, CRC-32: more code for properties of the same kind as those proved.
- The wrapper of RFC 1950 around a stream (two header bytes and a checksum behind it): streams are modelled without it; the checksum itself is in `Adler32`.
- Output buffers that wrap, and resuming the inflater after it has run out of input or room: the model works on one input and one output.
- Inflater.Reader.Decode: what is decoded from supplied zeros is not specified further; a stream that is not cut off never gets there.
- InflateLoop.InflateCopy: rejects the length symbols 286 and 287 and the distance symbols 30 and 31, which section 3.2.6 of RFC 1951 rules out; the original looks their values up in tables that hold zero.
- InflateLoop.InflateDynamic: that malformed blocks are rejected is stated for codes without gaps; a code of a single symbol has gaps, and the original takes bits that are no code for symbol 0.
- Compressor.Compressor.CompressNormal: positions are unbounded, where the original counts them modulo 2^32; that the hash chains hold the earlier places with the same three bytes is not stated; what is found depends on what they hold.
- DeflateStream.Deflater.Flush: writes to the compressor's own buffer and hands it over at once; a caller's output buffer, a callback that fails and the full flush that forgets the dictionary are not modelled.
- ZipIndex.LinearScan: default flags without a comment only; file names are what the directory holds, and its parsing is not modelled.
- Mutexes in the range field and the allocator: operations are sequential, as in the build without threads.
- PieceMap.ToBitmap: field size and piece size together stay within 32 bits, the range in which the original's products do not overflow.
- Bencode.ReadEntry: integers are what `strtoll` makes of the digits; the length of a string is converted in the same way, with saturation at 64 bits, where the original uses `atoi`, which is undefined beyond `int`; locale and stream errors are not modelled.
- Bencode.RoundTripIff: excludes the smallest 64-bit integer, whose negation is undefined in C++, and lengths beyond `int`.
- JsonWrite.WriteHelper: where it puts blanks and ends of lines is defined, and nothing more is stated about it than that the reader skips them.
- The error kinds and line numbers of the JSON reader: every error is the absence of a result. Wide characters are not modelled.
- Url.FromString: strings without a zero character; error codes are the absence of a result.
- The timer callback of the queue's timed pops beyond the flag that it sets, and executing posted completions.
- SmtpRun.Client.Resume: the proxy and TLS layers are not modelled, and the texts of letter and credentials are given; any reply may arrive in any pieces, which includes the pieces the reading rule would wait for. A failed write has transferred any number of octets short of all.
- SmtpGuard.StaleIff: an attempt that sends STARTTLS without an offer does its handshake on a stream that refers to a socket of an earlier attempt, which no longer exists; from there on the original's behaviour is undefined, and the model goes on as if the stream belonged to the connection, with a handshake recorded as not its own.
- Chat protocols, extensions, the database, configuration, logging and all other input and output of the bot.
