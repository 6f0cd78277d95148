# Verification of the DEFLATE codec and ZIP code behind the web UI

`src/http/miniz.c` is compiled into Hadouken to serve its web UI: `src/http/gui_request_handler.cpp` opens a ZIP
archive, extracts every file and keeps the contents by name. This project models that code in Dafny and proves
that it does what it is for: what is compressed decompresses to the same bytes, and what is put into an archive
is served under its name.

The model follows the code layer by layer. For each layer there is a definition on values (a reference decoder for
RFC 1951 in `Inflate.dfy`, the meaning of LZ77 tokens in `LzTokens.dfy`, canonical codes in `CanonicalCode.dfy`,
checksums bit by bit in `Checksums.dfy`, ZIP record layouts in `ZipFormat.dfy`), and methods that update buffers and
fields in place as the code does and are proved against it:

* compressor: the hash chains (`Chains.dfy`), the ring with its mirror and match finders (`Window.dfy`), the lazy and the fast parser
  (`Parser.dfy`), the code buffer (`LzBuffer.dfy`), Huffman tables from counts (`RadixSort.dfy`, `MinRedundancy*.dfy`,
  `LengthLimit.dfy`, `HuffTable.dfy`), both emitters (`LzEmitter.dfy`, `LzEmitterFast.dfy`), block headers
  (`RunLength.dfy`, `BlockStart.dfy`), block choice and flushing (`Flush.dfy`) and the calls (`Deflate.dfy`);
* decompressor: tables (`TinflTable.dfy`), bit reader (`TinflReader.dfy`), copies (`TinflCopy.dfy`), the resumable
  decoder (`Tinfl.dfy`), its zlib states (`TinflZlib.dfy`) and the whole-buffer helpers (`TinflHelpers.dfy`);
* ZIP: sorting and searching names, writing, reading and extracting (`Zip*.dfy`), and the cache (`WebCache.dfy`).

The end results are in `RoundTrip.dfy` and `WebCache.dfy`. What writer and reader have in common, and could both have wrong,
is tied to the standards by `KnownStreams.dfy`: laws for the constants, and whole streams with what they stand for.
`dafny verify dfyconfig.toml` checks everything.

Reads, writes, callbacks and allocations are operations that may fail at any time. The decoders are started on valid
streams: code lengths the code accepts, length symbols up to 285, distance symbols up to 29, distances within the output.

## Findings

* The source calls it "extremely unlikely (if not impossible)" that a block with dynamic codes does not fit the output
  buffer (line 2208). It is impossible, and the assertion at line 2228 always holds: the codes are within 8/5 of a bit a
  symbol of the best (`LimitLoss.SmallLoss`), so a full code buffer takes at most 84704 of 85180 bytes
  (`BlockSize.DynamicFits`), and a flush adds at most 6.
* The writer finishes archives that the reader does not open: when the end record's own fields spell its signature, the
  backward scan stops there (`ZipReader.UnreadableArchive` is one; `ZipReader.ReadCentralDir` says exactly which), and when a
  file is 0xFFFFFFFF bytes long, which the writer allows and the reader takes for a zip64 mark.
* On 64-bit machines the backward scan for the end record subtracts from an unsigned number (line 3196), so it gives up when
  the next window would start before the file instead of scanning from its start. An archive with a long comment is then
  not opened (`ZipReader.MissedEndRecord`); `ZipReader.ScansAllIff` says for which sizes the scan is complete. Archives
  without a comment, as the writer makes them, are not affected.
* The zlib header is written whenever the 32-bit block counter is zero, so a second time after 2^32 flushes; up to then
  (`Deflate.HeadOnce`) the stream decodes.
* `load_cache` looks at entries by index but fetches them by name; it gets every one right exactly if no two names are
  equal but for case and none is cut by `file_stat` (`ZipIndex.AllFoundIff`).

## Model

| member | source | states |
|---|---|---|
| `RoundTrip.CompressThenDecompress` | src/http/miniz.c:2726-2734 | For every byte string and all parsing and block options without the wrapper: if neither the callback nor an allocation refuses, compression is Done and decompression succeeds with the same bytes; and whatever it gives as a success is the same bytes. |
| `RoundTrip.CompressThenDecompressZlib` | src/http/miniz.c:1447-1455 | The same through the zlib wrapper, for fewer than 2^32 - 1 bytes: compression is Done unless the callback refuses, and what was written with header and checksum is read back, header and checksum checked, as the original bytes. |
| `Deflate.DoneDecodes` | src/http/miniz.c:2636-2690 | Over every history of calls, flush modes and buffer sizes: whenever the compressor is Done, all it handed over decodes, by the reference decoder, to all it was given (with the wrapper: for at most 2^32 flushes). |
| `Deflate.CompressMemToOutput` | src/http/miniz.c:2726-2734 | A one-shot compression is Done, or the callback refused some output; when Done, the output decodes to the input. |
| `Deflate.Compressor.Compress` | src/http/miniz.c:2636-2690 | One call keeps the invariant that blocks put out, recorded codes, saved match and lookahead are the input; it refuses exactly the calls that the program refuses. With nothing left over before and none after, all of the source is consumed and the flush is carried out: Finish is Done, and after a sync or full flush what was handed over is whole bytes, the header and blocks for all the input, an empty stored block last, and after a full flush no match reaches back. Output is held back only if the room is used up; each automatic block holds more than 31 KiB. |
| `Deflate.FlushedDecodes` | src/http/miniz.c:2681-2687 | What a sync or full flush handed over can be decoded without waiting: on any stream that goes on from there, the decoder comes to that place with all the input put out. |
| `Deflate.Compressor.BlockWhenFull` | src/http/miniz.c:2601-2606 | A block is flushed exactly if the code buffer is nearly full, or more than 31 KiB are recorded and the codes do not pay or blocks are raw. |
| `Deflate.EndedDecodes` | src/http/miniz.c:2180-2226 | A stream of valid blocks, final block, padding and, if wrapped, checksum decodes to the bytes the blocks stand for. |
| `WebCache.WriteThenLoad` | src/http/miniz.c:4261-4409 | For any files written, finished and loaded by the web UI: if every write and allocation is granted, the archive is made exactly for at most 65535 files with names and level that the writer takes and a layout of at most 4 GiB. It is loaded if and only if the end signature does not recur and no file is 0xFFFFFFFF bytes long; then, with names distinct but for case that pass file_stat whole, the cache holds exactly the files. |
| `WebCache.WriteArchive` | src/http/miniz.c:4261-4409 | The same for writing alone: if all is granted, an archive comes out exactly if the files fit, with the sizes of stored files those of their data; what comes out holds exactly the files. |
| `WebCache.NotArchivable` | src/http/miniz.c:4278-4333 | One file that the writer does not take, whatever comes after it, makes the whole archive impossible. |
| `WebCache.GuiRequestHandler.LoadCache` | src/http/gui_request_handler.cpp:95-144 | For any archive, the cache is used exactly if the archive opens. Its keys are exactly the names file_stat gives, each with the content of an entry that searching for it by name gives; if those find their own entries, each key has the content extracted from its own entry, although content is fetched by name. |
| `Window.Dictionary.FindMatch` | src/http/miniz.c:2265-2297 | A longer match reported is real and none of the links followed has a longer one; if neither the probes nor the lookahead ended the walk, no position in the window that is not hidden behind the end mark has a longer match. |
| `Window.Dictionary.WalkSeesAll` | src/http/miniz.c:2265-2283 | A walk that ends by itself has been at every position of the window with the same hash, up to the end mark. |
| `Window.Dictionary.AllSeen` | src/http/miniz.c:2265-2297 | If no link followed has a longer match, then no position at all has: any with the same three bytes has the same hash, and was seen. |
| `Chains.TrackStep` | src/http/miniz.c:2272-2280 | From any entry the walk goes to the next earlier position of the same hash, and it stops only when none is left in the window or the mark 0 hides the rest. |
| `Chains.ChainedInsert` | src/http/miniz.c:2518-2518 | Inserting a position keeps the chains right: every head is the last position of its hash, and every link in the ring is the position before with the same hash, cut to 16 bits. |
| `Window.CompareWords` | src/http/miniz.c:2284-2286 | The unrolled comparison finds the first differing 16-bit word among 129, or that there is none. |
| `Window.Dictionary.Measure` | src/http/miniz.c:2284-2294 | The length it gives is exact: that many bytes are equal, and the next is not, up to 258 and the lookahead. |
| `Window.RingRead` | src/http/miniz.c:2515-2520 | With ring and mirror in order, reading up to 257 bytes on from any ring position, past its end too, gives consecutive input bytes. |
| `Window.RingWrite` | src/http/miniz.c:2515-2519 | Writing one byte, and its mirror, replaces only the byte 32768 before. |
| `Window.ProbePosition` | src/http/miniz.c:2277-2280 | The 16-bit difference of positions, where it is within reach, is the true distance to the entry linked. |
| `Window.Dictionary.Fill` | src/http/miniz.c:2506-2540 | The lookahead becomes 258 bytes or all that is left, the ring holds the input, and every position whose three bytes are known is in its hash chain. |
| `Window.Dictionary.FillAhead` | src/http/miniz.c:2338-2355 | The same for the fast form, in runs of the ring, up to 4096 bytes. |
| `Window.Dictionary.FastMatch` | src/http/miniz.c:2360-2388 | The one candidate is used exactly if it matches three bytes and is not three bytes from 8 KiB or more away, and its length is the longest up to 258 and the lookahead. |
| `Window.Dictionary.Insert` | src/http/miniz.c:2518-2518 | The link of the position is the old head of its chain, the head is the position, and nothing else changes. |
| `Parsing.Parser.Step` | src/http/miniz.c:2545-2599 | One turn of the lazy parser: it goes by the longest match on the walk, tested by the parser's rules, does what Decide says, and loses nothing of the input. |
| `Parsing.Parser.FastStep` | src/http/miniz.c:2360-2420 | One turn of the fast parser: the match of the hash table if it is worth it, as long as possible, else a literal; nothing of the input is lost. |
| `Parsing.Parser.LiteralStep` | src/http/miniz.c:2433-2447 | Fewer than four bytes left: the next byte is recorded as a literal. |
| `Parsing.DecideConserves` | src/http/miniz.c:2563-2599 | Every decision keeps recorded tokens, saved byte and lookahead equal to the input, and moves forward within it. |
| `Parsing.DecideFits` | src/http/miniz.c:2559-2594 | No run of the parser records or saves a match that its options exclude; a greedy parser never has a saved match. |
| `Parsing.LazyRule` | src/http/miniz.c:2563-2594 | Over two positions: a match of less than 128 bytes waits; without a longer one at the next position it is taken and both turns together move past it, and otherwise its first byte is a literal and the longer one is taken or waits. |
| `Parsing.GreedyRule` | src/http/miniz.c:2584-2594 | With nothing pending, no match means a literal, and a match of 128 bytes, or of a greedy or run parser, is taken at once. |
| `Parsing.NothingPending` | src/http/miniz.c:2502-2503 | Once the lookahead is empty, no match is saved and the tokens stand for all of the input. |
| `Parsing.Parser.FindRun` | src/http/miniz.c:2550-2552 | A run of the previous byte, as long as it goes up to the lookahead; none only if fewer than three bytes repeat. |
| `LzBuffer.LzCodes.RecordLiteral` | src/http/miniz.c:2467-2473 | The code buffer, its flag bytes and the symbol counts afterwards are those of the token list with the literal added. |
| `LzBuffer.LzCodes.RecordMatch` | src/http/miniz.c:2475-2495 | The same for a match. |
| `MinRedundancyOptimal.CalculateMinimumRedundancy` | src/http/miniz.c:1836-1854 | For two or more sorted frequencies, the three passes leave a complete code, no length rising with frequency, of least weighted length among all prefix codes. |
| `MinRedundancyOptimal.MergeBound` | src/http/miniz.c:1839-1845 | Merging two least weights x and y lowers the least possible cost of a code by exactly x + y at most: the step of the optimality proof. |
| `LengthLimit.EnforceMaxCodeSize` | src/http/miniz.c:1858-1869 | From any complete code of at most 2^max symbols: the same number of codes, a Kraft sum of exactly 2^max, none above max, and only codes from one length on touched. |
| `LengthLimit.CanSplit` | src/http/miniz.c:1863-1868 | While the Kraft sum is too large there is a longest code to take and a shorter one to split. |
| `LengthLimit.FrontierStep` | src/http/miniz.c:1865-1866 | Each repair splits codes of one length before any shorter one; what hangs between that length and the limit weighs at most one code. |
| `LimitLoss.SmallLoss` | src/http/miniz.c:1858-1869 | With at most 288 symbols and limit 15, limiting an optimal code adds at most 8/5 of a bit a symbol on the average. |
| `RadixSort.RadixSortSyms` | src/http/miniz.c:1819-1833 | The result is a stable sort: ordered by key, and symbols of equal key in their old order. |
| `HuffTable.OptimizeHuffmanTable` | src/http/miniz.c:1871-1904 | Exactly the used symbols get lengths up to the limit, a complete code, never longer for a more frequent symbol, near to the best; the codes are the canonical ones, bits reversed. |
| `UsedSymbols.TableNearOptimal` | src/http/miniz.c:1871-1895 | No code lengths whatever, limited or not, make the table's symbols smaller by more than 8/5 of a bit each. |
| `CanonicalCode.PrefixFree` | src/http/miniz.c:1897-1903 | Codewords of different symbols never begin the same bits. |
| `CanonicalCode.DecodeCodeword` | src/http/miniz.c:1897-1903 | Where a symbol's codeword stands, canonical decoding gives that symbol. |
| `HuffTable.OptimizedTable` | src/http/miniz.c:1871-1904 | Every table the compressor makes is one that the decompressor takes. |
| `RunLength.PackCodeSizes` | src/http/miniz.c:1949-1977 | The loop gives exactly the packed form of RunLength.Packed, runs as long as they can be; it stands for its input, is never longer, and its symbol counts cover it. |
| `RunLength.InflatePacked` | src/http/miniz.c:1535-1546 | Expanding the packed code lengths with symbols 16, 17 and 18 gives the lengths that were packed. |
| `BlockStart.StartDynamicBlock` | src/http/miniz.c:1936-1996 | The bits written are a header that describes two complete, nearly optimal tables covering all recorded symbols, with no unused length at its end sent. |
| `BlockStart.StartStaticBlock` | src/http/miniz.c:1998-2013 | The tables are those of section 3.2.6 of RFC 1951, and cover all tokens. |
| `BlockFormat.InflateHeader` | src/http/miniz.c:1503-1550 | The header of a dynamic block is read back as the code lengths it was made from. |
| `KnownStreams.ClOrder` | src/http/miniz.c:1505-1505 | The first four 3-bit fields are the code lengths of 16, 17, 18 and 0; field 4 + 2j is that of 8 + j and field 5 + 2j that of 7 - j; lengths not sent are zero (section 3.2.7 of RFC 1951). |
| `KnownStreams.RunRanges` | src/http/miniz.c:1535-1546 | Symbol 16 repeats the last length 3 to 6 times, 17 stands for 3 to 10 zeros and 18 for 11 to 138. |
| `KnownStreams.LengthRanges` | src/http/miniz.c:1430-1431 | The ranges of the length symbols follow one another from 3 on, each as long as its extra bits allow, and the last stands for 258 alone. |
| `KnownStreams.DistRanges` | src/http/miniz.c:1432-1433 | The ranges of the distance symbols follow one another from 1 to 32768. |
| `KnownStreams.StaticCodes` | src/http/miniz.c:1496-1501 | Every symbol of the fixed code has the codeword that section 3.2.6 of RFC 1951 gives it. |
| `KnownStreams.ExampleCode` | src/http/miniz.c:1508-1522 | The canonical code of the example in section 3.2.2 of RFC 1951, codeword by codeword. |
| `KnownStreams.DynamicAnswer` | src/http/miniz.c:1503-1550 | A stream of 14 bytes, a block with its own codes sent with symbols 17 and 18, stands for one letter. |
| `KnownStreams.StaticAnswer` | src/http/miniz.c:1496-1501 | A stream of 8 bytes with literals, two matches and extra bits of both kinds stands for these 28 bytes. |
| `KnownStreams.StoredBlock` | src/http/miniz.c:1460-1486 | A stored block from any byte on, in any stream: LEN and its complement, low byte first, and LEN bytes; anything else is refused. |
| `KnownStreams.ZlibAnswer` | src/http/miniz.c:1447-1455 | A zlib stream, checksum with the high byte first, stands for one letter. |
| `BlockFormat.InflateStream` | src/http/miniz.c:1457-1670 | Any sequence of raw, static and dynamic blocks decodes to the concatenation of what they stand for. |
| `Blocks.InflateCodesOfTokens` | src/http/miniz.c:1551-1668 | The coded tokens of a block decode to the bytes the tokens stand for, and decoding stops after the end-of-block symbol. |
| `BitWriter.Writer.PutBits` | src/http/miniz.c:1906-1915 | The bits are appended to the stream; the buffer holds all whole bytes of it unless it was full. |
| `LzEmitter.CompressLzCodesSimple` | src/http/miniz.c:2108-2150 | Exactly the codes of the tokens are written; it succeeds exactly if they fit. |
| `LzEmitterFast.CompressLzCodes` | src/http/miniz.c:2019-2106 | The 64-bit form meets the same contract as the simple one: the same bits, success on the same inputs. |
| `LzEmitterFast.PutMatchFast` | src/http/miniz.c:2039-2058 | A match adds at most 48 bits to the register, those of the simple form. |
| `BlockSize.CodesSize` | src/http/miniz.c:2153-2160 | The codes of any block, all symbols and extra bits, take at most 161/125 of the bits of the code buffer it came from, and 8. |
| `BlockSize.DynamicFits` | src/http/miniz.c:2207-2213 | A dynamic block of a full code buffer takes at most 84704 bytes; the output buffer has 85180. |
| `FlushBlock.StaticFits` | src/http/miniz.c:2207-2213 | So does a static block, with room to spare. |
| `FlushBlock.CompressBlock` | src/http/miniz.c:2153-2160 | Compressing a block never fails: the last resort of compressing it again is never needed. |
| `FlushBlock.EmitBlock` | src/http/miniz.c:2185-2213 | The block on the stream stands for exactly the bytes due and leaves room. It is raw exactly if its bytes are in the ring and raw is asked for or the coded form has grown as long; coded, it is static exactly if that is asked for or it holds fewer than 48 bytes. |
| `FlushBlock.PutStored` | src/http/miniz.c:2196-2207 | LEN, NLEN and the ring's bytes are a stored block of exactly the bytes due; the length comes out of the double XOR as it went in. |
| `FlushBlock.WindowMeans` | src/http/miniz.c:2167-2167 | The 32-bit comparison holds exactly if the whole block is still in the ring. |
| `Deflate.Compressor.FlushBlock` | src/http/miniz.c:2162-2261 | Unless the callback refuses: the stream grew by a block for exactly the recorded input, the assertion on room held, and what was delivered and kept is all of it. |
| `Deflate.Compressor.CompressNormal` | src/http/miniz.c:2497-2613 | The source is consumed up to a stop for lack of room; with a flush the lookahead ends empty; the invariant holds at every turn. |
| `Deflate.Compressor.CompressFast` | src/http/miniz.c:2329-2465 | The same for the fast form. |
| `Tinfl.Inflator.Decompress` | src/http/miniz.c:1428-1680 | One call with any piece of input and any room: it asks for input only when the stream has more, for room only when the buffer is full, and Done means all output so far is the reference decoding of the whole stream. |
| `Tinfl.SameOutput` | src/http/miniz.c:1363-1366 | Two runs over one stream, cut and buffered in any two ways: the output of one is always a prefix of the other's, and at the end they are equal and what the stream means. |
| `Tinfl.Inflator.OutputIsPrefix` | src/http/miniz.c:1457-1670 | At every suspension point the output is a prefix of the whole, and a strict one where room is asked for. |
| `Tinfl.Inflator.SameView` | src/http/miniz.c:1437-1445 | What holds at a suspension point does not look at the buffers: the saved state is enough. |
| `TinflZlib.ZlibInflator.Decompress` | src/http/miniz.c:1447-1455 | On zlib streams, resumable at any byte: it fails exactly on an unsound header or too large a window, is Done exactly if the checksum in the stream is that of the output, and reports a mismatch otherwise. |
| `TinflZlib.DecompressZlibMemToMem` | src/http/miniz.c:1729-1734 | It succeeds exactly if header, checksum and room are right, with the reference decoding as output. |
| `TinflTable.Build` | src/http/miniz.c:1508-1532 | The tables are built exactly for complete codes and those of at most one symbol, and then hold the code; tree nodes are never shared and stay within the array. |
| `TinflTable.LookUp` | src/http/miniz.c:1418-1423 | On such tables the 10-bit table and the tree lead to the symbol whose codeword the bits begin with, and its length. |
| `TinflTable.LookUpDecodes` | src/http/miniz.c:1418-1423 | For every complete code and any fifteen bits: the symbol found is the one canonical decoding gives, and the only one whose codeword is there. |
| `Covering.CompleteCovers` | src/http/miniz.c:1511-1515 | Under a Kraft sum of exactly one, any fifteen bits begin with one and only one codeword. |
| `Covering.InnerNodesBound` | src/http/miniz.c:1523-1531 | The tree of a code of at most 288 symbols never needs more than its 576 entries. |
| `TinflReader.BitReader.GetBits` | src/http/miniz.c:1386-1388 | The next bits of the stream, or, out of input, nothing lost. |
| `TinflReader.BitReader.Decodable` | src/http/miniz.c:1394-1405 | Bits missing from the register mislead nobody: a whole code is reported exactly if it is there. |
| `TinflReader.BitReader.HuffDecode` | src/http/miniz.c:1413-1426 | The next symbol of the reference decoder; it waits only if the stream has more. |
| `TinflCopy.CopyAny` | src/http/miniz.c:1614-1667 | For every distance in reach and length from 3 up, whichever path is taken: the bytes of the one-at-a-time definition, flat or ring; a stop for room can be taken up again. |
| `TinflCopy.CopyEights` | src/http/miniz.c:1632-1652 | Eight bytes at a time, where length is at most distance, is the same copy. |
| `TinflCopy.CopyThrees` | src/http/miniz.c:1654-1667 | So is three at a time, overlapping. |
| `TinflHelpers.DecompressMemToMem` | src/http/miniz.c:1729-1734 | It succeeds exactly if the output fits, and gives the whole output. |
| `TinflHelpers.DecompressMemToHeap` | src/http/miniz.c:1701-1727 | It fails only if an allocation is denied; otherwise the buffer holds the whole output. |
| `TinflHelpers.DecompressMemToCallback` | src/http/miniz.c:1736-1765 | The pieces through the 32 KiB ring make up the whole output, unless the callback refused one; then a prefix. |
| `Checksums.ComputeAdler32` | src/http/miniz.c:977-991 | Taking the modulus once in 5552 bytes never overflows 32 bits and equals the definition. |
| `Checksums.AdlerSplits` | src/http/miniz.c:977-991 | Adler-32 of a concatenation is that of the second part started with that of the first. |
| `Checksums.AdlerClosed` | src/http/miniz.c:977-991 | Adler-32 is the sum of the bytes, and the sum of that sum after every byte, both modulo 65521. |
| `Checksums.AdlerOfWikipedia` | src/http/miniz.c:977-991 | A known value of Adler-32. |
| `Checksums.ComputeCrc32` | src/http/miniz.c:993-1001 | Two nibble look-ups a byte are division by the reflected polynomial, bit by bit. |
| `Checksums.CrcSplits` | src/http/miniz.c:993-1001 | CRC-32 can be taken piece by piece, cut anywhere. |
| `Checksums.CrcResidue` | src/http/miniz.c:998-1000 | Data followed by their CRC-32, low byte first, have the CRC-32 0x2144DF1C, whatever they are. |
| `Checksums.CrcOfDigits` | src/http/miniz.c:998-1000 | The check value of CRC-32 is 0xCBF43926. |
| `Checksums.CrcSeesOneByte` | src/http/miniz.c:993-1001 | Any change within one byte changes the checksum. |
| `ZipSort.SortByFilename` | src/http/miniz.c:3127-3166 | The indices end as a permutation sorted by lower-cased name. |
| `ZipIndex.LocateBinary` | src/http/miniz.c:3476-3496 | An entry equal but for case, or none at all; it terminates. |
| `ZipIndex.SearchAgrees` | src/http/miniz.c:3476-3536 | Binary search succeeds exactly when the linear scan does, on names equal but for case, and on the same entry if no two are. |
| `ZipIndex.AllFoundIff` | src/http/miniz.c:3399-3438 | Every entry is found under the name file_stat gives for it if and only if no two names are equal but for case and all are free of NUL and below 260 bytes. |
| `ZipIndex.StatNames` | src/http/miniz.c:3424-3425 | A name comes through file_stat whole exactly if it has at most 259 bytes and no NUL; one that is too long is cut after 259. |
| `ZipNames.FilenameCompare` | src/http/miniz.c:3460-3474 | The sign is that of the order by lower-cased bytes, and zero exactly for names equal but for case. |
| `ZipNames.CaseOfBytes` | src/http/miniz.c:2947-2947 | Two bytes are equal but for case exactly if they are equal or one is a letter A to Z and the other the same small letter. |
| `ZipWriter.ZipWriter.AddMem` | src/http/miniz.c:4261-4409 | If every write and allocation of the call is granted, it succeeds exactly if the archive is open and not full, the name is valid, level and sizes are in range, no data come with a directory, and entry and record stay within 4 GiB. Success adds exactly this record and content, aligned; failure leaves files, size, directory and old bytes as they were. |
| `ZipWriter.ZipWriter.AddToCentralDir` | src/http/miniz.c:4196-4222 | All of the record and its offset, or nothing. |
| `ZipWriter.ZipWriter.Finalize` | src/http/miniz.c:4713-4760 | If every write is granted, it succeeds exactly if the archive is open and stays within 4 GiB; then it ends with the directory of all entries and an end record pointing to it, every entry in place. |
| `ZipFormat.CentralFields` | src/http/miniz.c:4175-4194 | Every field of the central header, read at its place, is that of the entry. |
| `ZipFormat.LocalFields` | src/http/miniz.c:4157-4172 | So is every field of the local header. |
| `ZipReader.ReadCentralDir` | src/http/miniz.c:3168-3260 | Any archive is opened exactly if its last signature in reach is that of a sound end record and there are so many sound records one after another, and then as those. Of a finished archive, records, order and offsets are read back, if and only if the end signature does not recur in the last 18 bytes and no size is 0xFFFFFFFF. |
| `ZipReader.ReadRecords` | src/http/miniz.c:3235-3259 | The index is made exactly if there are as many sound records one after another; and it is theirs. |
| `ZipReader.OneIndex` | src/http/miniz.c:3235-3259 | There is one way only to go through a directory record by record. |
| `ZipReader.FindEnd` | src/http/miniz.c:3180-3199 | The last place of the signature in the whole archive, exactly if it is not below the lowest window scanned. |
| `ZipReader.ScansAllIff` | src/http/miniz.c:3180-3199 | Every place where an end record can start is scanned exactly if the archive is at most 4096 bytes long, or at least 69584, or 4096 and a multiple of 4093. |
| `ZipReader.MissedEndRecord` | src/http/miniz.c:3196-3196 | An archive of 5000 bytes, with a sound end record and a comment, that is not opened. |
| `ZipReader.UnreadableArchive` | src/http/miniz.c:3180-3213 | An archive that the writer finishes in good order and the reader refuses. |
| `ZipReader.OffsetSpellsSignature` | src/http/miniz.c:4741-4747 | Every non-empty archive whose directory starts at byte 0x06054b50 is one of them. |
| `ZipReader.Extract` | src/http/miniz.c:3538-3665 | The result is that of ZipReader.Extracted, which ZipReader.ExtractedIff and ExtractedNothing say the meaning of. |
| `ZipReader.ExtractedIff` | src/http/miniz.c:3562-3655 | Data come out of an entry that has some exactly if it is neither encrypted nor a patch, its local header is there, and the data stored or deflated after that have the length and the CRC-32 recorded. |
| `ZipReader.ExtractedNothing` | src/http/miniz.c:3553-3560 | A directory or an entry without data gives memory of the length recorded. |
| `ZipReader.ExtractsContent` | src/http/miniz.c:3538-3665 | Every file that was added comes out of the finished archive with the content that went in. |

## Left out

- Malformed streams in the decompressor (length symbols 286 and 287, distance symbols 30 and 31, lengths that overrun, cut-off input padded with zeros): the decoders are proved on valid streams only, with the header and checksum of the zlib wrapper right or wrong.
- Tinfl.Inflator.Decompress: says nothing of how much input is consumed beyond what is needed, because the code reads ahead.
- TinflHelpers.DecompressMemToHeap: a failed allocation is the only failure, because the stream is valid.
- Deflate.DoneDecodes: with the zlib wrapper, for at most 2^32 flushes, because the header is then written again.
- RoundTrip.CompressThenDecompressZlib: for fewer than 2^32 - 1 bytes, for the same reason.
- LimitLoss.SmallLoss: 8/5 of a bit is not the least bound; a sharper one would need the depth of the merge tree.
- Machines other than little-endian ones with unaligned access: there `tdefl_compress_fast` and the 16-bit forms are not compiled in, and the byte form of `tdefl_find_match` (lines 2299-2325) is used, which is not modelled.
- `TDEFL_NONDETERMINISTIC_PARSING_FLAG` at `tdefl_init`: the hash starts as zeros.
- The compressor's single struct is split into dictionary, code buffer, parser, writer and compressor, and the decompressor's into reader, output and decoder; fields that the code copies to locals during a loop are updated in place.
- Bit-wise OR, AND and shifts on registers are written as sums, remainders and powers of two with their bounds; register widths appear as bounds on pending bits (61 of 64, 48 + 7 in the emitter).
- Lookup tables for length and distance symbols are functions by range; the ring mask is a remainder, for buffer sizes that are powers of two.
- The output that goes straight to the caller's buffer, and the buffers of callbacks, are sequences; what aliasing of caller memory would do is not modelled.
- FlushBlock.CompressBlock: the retry with static codes after it (lines 2209-2213) is an assertion that it is never reached.
- tdefl_get_prev_return_status, tdefl_compress_buffer, the PNG writer, the zlib-style shims (mz_deflate, mz_inflate, mz_compress and others), mz_deflateBound, version and error strings.
- stdio, files on disk, file times and DOS dates: archives are byte sequences; times and dates are parameters.
- Adding data that is compressed already (`MZ_ZIP_FLAG_COMPRESSED_DATA`), from files, or from another archive (`mz_zip_writer_add_from_zip_reader`), and converting a reader to a writer.
- ZipIndex.LocateBinary: searches without flags only; ignoring paths, minding case and comparing comments are not modelled, nor are names of 2^31 bytes.
- ZipReader.ReadCentralDir: archives in memory; allocations by the reader always succeed.
- ZipReader.Extract: whole-archive memory path; memory that extraction never writes is shown as zeros, and the decompressor is taken for its result on a whole stream.
- WebCache.GuiRequestHandler.LoadCache: logging, the path test for `.zip` and the entry objects are left out; a file that can not be opened is None.
- The rest of Hadouken: HTTP server, service hosts, JSON-RPC, plugins, wrappers over libtorrent, Duktape and boost.
