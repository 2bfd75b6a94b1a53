# Replay firmware: verified models

Dafny models of eight pieces of algorithmic code in the Replay firmware, with proofs that the
stateful code does what a simple specification over sequences says. Everything is checked by
`dafny verify dfyconfig.toml`. No code of the firmware is executed.

## What is here

- **DEFLATE** (`Bits`, `Huffman`, `HuffTable`, `Adler32`, `InflateSpec`, `InflateSteps`,
  `InflatePrefix`, `InflateEncoder`, `InflateRoundTrip`, `InflateCut`, `InflateNumbers`, `Tinfl`,
  `ZlibInflate`, `ZlibNumbers`). The
  specification is a pure decoder on the bits of the whole stream (RFC 1951 and RFC 1950) that ends
  in an outcome: done, checksum mismatch, failed, starved, or undefined for streams the model does
  not cover. It is proved to undo an encoder that covers the whole format (all kinds of blocks,
  matches, any codes) and to wait for more wherever such a stream is cut off. The decoder is a class
  with one label for every suspension point of the coroutine; its invariant says that the pure
  decoder, continued from the label's point of the stream with the unread bits and the output so
  far, ends as it does from the start. Each step between two labels keeps it, so for every way of
  cutting input and output into calls the output and the final status are those of the pure decoder.
  The tables are proved to decode every complete code before any stream is looked at.
- **Free-list allocator** (`BlockList`, `FreeRing`, `FreeInvariant`, `FreeList`). Addresses count
  headers of eight bytes, headers live in a memory map. The invariant: the headers spell out one
  circular address-ordered list with foreign units between neighbours, and free and live blocks
  partition what was obtained from sbrk.
- **UEF tape** (`UefSpec`, `UefTape`, `UefNumbers`). The specification lays all chunks of the file out as one bit
  string. The cached chunk is proved right whatever the queries were.
- **Directory browser** (`DirOrder`, `NameOrder`, `DirList`, `Filesel`). The specification is the filtered
  directory, sorted. Slots stand for positions relative to one base position.
- **ATA drive** (`FatFile`, `AtaIndex`, `AtaParams`, `AtaDrive`). The specification is one virtual
  disk as a value; the seek caches are compared with walking the cluster chain.
- **Floppy** (`Mfm`, `AdfTrack`, `AdfDrive`, `AdfCopy`, `AdfNumbers`, `ScpDrive`). Acceptance of a received sector
  as a predicate on its bytes; a track copied from drive to drive; flux delivery as a prefix of
  endless turns of the disk.
- **Flasher** (`Crc32`, `Flasher`). The dense image of a sparse record file, with both passes over
  it.

The constants and formats that a specification and the code read in common are stated once more in
plain numbers, from the bytes of a file, a register or a stream, and connected with the operations:
in the modules whose names end in `Numbers`, in `NameOrder`, and in lemmas beside the definitions.

Loops and objects of the source that change state are methods, loops and classes here; the
functions they are proved against are values. Input and output (SPI, SD card, host) are sequences
that grow or shrink.

## What does not hold

Where the code and what one would expect of it disagree, the code is kept; the exact condition is
a lemma or a contract, and so is an input that shows it where the condition does not name one:

- A truncated compressed stream never leaves the loop of `zlib_inflate`: the decoder asks for
  input, the read returns nothing, and so on (`InflateCut.ZlibCutStarves`,
  `InflateSteps.EmptyStarves`, `ZlibInflate.Loop.RunStarved`; `Run` ends for every other stream).
- A request of more than 2^32 - 8 bytes gets a block of one header (`FreeList.UnitsHold`), and for
  requests of 2^32 - 15 to 2^32 - 8 bytes the retry loop of the allocator never gives up by itself
  (`FreeList.UnitsWrap`, `FreeList.RetryGivesUp`).
- A tape of at least 2^32 - 7 bits is reported with a size that does not cover it
  (`UefTape.LongTape`, `UefTape.SizeCovers`).
- Numbers in file names are compared without their top bit, so a number below 2^31 can come behind
  one from 2^31 on, and numbers from 2^32 - 1 on count as equal (`DirOrder.LargeNumbersWrap`,
  `DirOrder.NumbersInOrder`).
- A hard file whose 1024th part is a power of two from 64 kB up, with 512 bytes left over, has a
  last block whose index slot is 1024 (`AtaIndex.LastBlockBeyond`, `AtaIndex.SlotsSuffice`).
- A revolution of a flux image at an odd file offset gets stuck unless it ends before the next
  512-byte boundary (`ScpDrive.OddInputs`, `ScpDrive.DeliversExactly`, `ScpDrive.Drive.PlayStuck`).
- An S-record byte at address 0xFFFFFFFF makes both handlers loop, because the address counter
  wraps before it can pass it (`Flasher.LastAddressLoops`, `Flasher.LoopEnds`).
- A file of S-records without a header, or with an empty one, does not start size and CRC over
  (`Flasher.FirstWithoutHeader`, `Flasher.StartsOver`, `Flasher.Pager.Verify`).
- `VerifyDRAMContents` succeeds whatever the memory holds (`Flasher.Pager.VerifyMemory`).
- The write path of the floppy reads 541 words for a request of 540 that starts with a sync word
  (`AdfDrive.OneWordMissing`, `AdfDrive.ReadsBeyond`).

## Model

| member | source | states |
|---|---|---|
| Huffman.CodeFits | Replay_Boot/tinfl.c:369-378 | With a Kraft sum of exactly 65536, every canonical code number (section 3.2.2 of RFC 1951) fits its length. |
| Huffman.PrefixFree | Replay_Boot/tinfl.c:356-428 | No code of a complete set is a prefix of another symbol's code. |
| Huffman.Covering | Replay_Boot/tinfl.c:205-209 | Every string of at least 15 bits starts with a code of a complete set, so decoding never runs out of table. |
| HuffTable.NodeBound | Replay_Boot/tinfl.c:405-427 | A complete code over n symbols opens at most n tree nodes, so every `m_tree` index stays below 576. |
| HuffTable.CountLengths | Replay_Boot/tinfl.c:361-367 | The count of symbols of each code length. |
| HuffTable.FirstCodes | Replay_Boot/tinfl.c:369-378 | The first code of each length as the standard computes it, the number of used symbols, and the Kraft total. |
| HuffTable.ReverseCode | Replay_Boot/tinfl.c:390-392 | The code read from the other end, as the bit buffer will present it. |
| HuffTable.InsertShort | Replay_Boot/tinfl.c:394-403 | Exactly the lookup slots whose bits start with the code get its length and symbol; all others keep their value. |
| HuffTable.InsertLong | Replay_Boot/tinfl.c:405-427 | The missing nodes on the path of a code longer than 10 bits are opened and its leaf set, keeping the tables right for the symbols so far. |
| HuffTable.BuildTable | Replay_Boot/tinfl.c:356-428 | Accepted exactly for complete codes, and then lookup and tree decode every symbol's bit-reversed code (see LookupStep and TreeStep). |
| HuffTable.LookupStep | Replay_Boot/tinfl.c:205-206 | For a stream that starts with a symbol's code, the lookup entry is that symbol with exactly its length, or points to the node of its first ten bits. |
| HuffTable.TreeStep | Replay_Boot/tinfl.c:208 | One tree step for such a stream stays in range and ends at that symbol after exactly its length. |
| Adler32.BlockFits | Replay_Boot/tinfl.c:680-701 | A block of 5552 bytes can be summed without reduction in 32 bits (section 8.2 of RFC 1950). |
| Adler32.AddBlock | Replay_Boot/tinfl.c:683-698 | One block, eight bytes at a time and then the rest, keeps both sums congruent to the definition and below 2^32. |
| Adler32.Update | Replay_Boot/tinfl.c:676-703 | The register after a call is the Adler-32 of everything produced so far, however the output was split into calls. |
| Adler32.AdlerInNumbers | Replay_Boot/tinfl.c:673-704 | In numbers: the low half is one plus the sum of the bytes, the high half the sum of all values it takes on the way, both modulo 65521 (section 8.2 of RFC 1950). |
| InflateSpec.DecodeIs | Replay_Boot/tinfl.c:196-209 | The pure decoder reads exactly the symbol whose code comes next. |
| InflateSpec.FixedLiteralsComplete | Replay_Boot/tinfl.c:316-337 | The fixed literal/length code fills its code space, so it is decoded through the same tables. |
| InflateSpec.FixedDistancesComplete | Replay_Boot/tinfl.c:320-321 | So does the fixed distance code of 32 symbols. |
| InflateSteps.StoredRun | Replay_Boot/tinfl.c:305-309 | Taking a run of stored bytes at once equals taking them one by one in the pure decoder. |
| InflatePrefix.ResumeExtends | Replay_Boot/tinfl.c:239-664 | From any point of the stream, what was decoded so far is a prefix of the final outcome. |
| InflateEncoder.MatchRepeats | Replay_Boot/tinfl.c:586-592 | Every byte of a match equals the one its distance before, inside the match too. |
| InflateRoundTrip.TokensDecode | Replay_Boot/tinfl.c:486-577 | Literals and matches of every length and distance, written with any complete codes, are read as what they mean. |
| InflateRoundTrip.ListDecodes | Replay_Boot/tinfl.c:431-449 | A list of code lengths with runs of repeated and zero lengths is read as the lengths it stands for. |
| InflateRoundTrip.TablesDecode | Replay_Boot/tinfl.c:340-453 | The header of a dynamic block, for any complete code length code, gives its two codes. |
| InflateRoundTrip.BlocksDecode | Replay_Boot/tinfl.c:256-664 | Any sequence of stored, fixed and dynamic blocks is read as what the blocks mean, from any bit position. |
| InflateRoundTrip.EncodedRoundTrip | Replay_Boot/tinfl.c:239-664 | A raw stream of any blocks inflates to what the blocks mean. |
| InflateRoundTrip.ZlibRoundTrip | Replay_Boot/tinfl.c:239-664 | So does a zlib stream of any blocks, its header and checksum included. |
| InflateRoundTrip.AlwaysCoded | Replay_Boot/tinfl.c:316-353 | Every run of literals and matches in the ranges of the format can be written as a fixed block and as a dynamic one. |
| InflateRoundTrip.StoreRoundTrip | Replay_Boot/tinfl.c:262-310 | Any byte string of any length, put into stored blocks, inflates to itself. |
| InflateRoundTrip.LiteralsRoundTrip | Replay_Boot/tinfl.c:316-337 | Any byte string, written as literals of the fixed code, inflates to itself. |
| InflateNumbers.FixedLiteralCodes | Replay_Boot/tinfl.c:323-337 | The fixed codes in numbers (section 3.2.6 of RFC 1951): 48 + s in 8 bits below 144, 400 + (s - 144) in 9 bits below 256, s - 256 in 7 bits below 280, 192 + (s - 280) in 8 bits up to 287. |
| InflateNumbers.FixedDistanceCodes | Replay_Boot/tinfl.c:318-321 | The fixed code of distance symbol s is s in 5 bits. |
| InflateNumbers.LengthInNumbers | Replay_Boot/tinfl.c:213-214 | The symbol and extra bits of a length without a table: its excess over 3 is halved until below 8, each halving is an extra bit and passes over four symbols. |
| InflateNumbers.DistanceInNumbers | Replay_Boot/tinfl.c:215-216 | The same for a distance and its excess over 1, halved until below 4, passing over two symbols. |
| InflateNumbers.FixedBlockInflates | Replay_Boot/tinfl.c:316-337 | A fixed block written bit by bit with these numbers, for any literals and matches, inflates to what they mean. |
| InflateNumbers.LetterInflates | Replay_Boot/tinfl.c:316-337 | The stream 4B 04 00 inflates to the letter `a`. |
| InflateNumbers.StoredBlockInflates | Replay_Boot/tinfl.c:262-310 | A stored block in bytes, 01, the length and its complement, lowest byte first, and up to 65535 bytes, inflates to these. |
| InflateNumbers.CodeLengthsSent | Replay_Boot/tinfl.c:345-353 | The lengths of the code length code come in the order 16, 17, 18, 0 and then outwards from 8 and 7, three bits each, the lowest first. |
| ZlibNumbers.HeaderDecides | Replay_Boot/tinfl.c:245-256 | Which two header bytes of a zlib stream are refused, by their fields: anything but method 8, a window up to 7, no dictionary and a multiple of 31. |
| ZlibNumbers.FixedStreamInflates | Replay_Boot/tinfl.c:239-664 | A zlib stream of a fixed block, with any such header and its four checksum bytes in numbers, inflates to what the block means. |
| ZlibNumbers.LetterStream | Replay_Boot/tinfl.c:239-664 | The zlib stream 78 9C 4B 04 00 00 62 00 62 inflates to the letter `a`. |
| ZlibNumbers.CallFixed | Replay_Boot/tinfl.c:211-711 | One call of the decoder on such a fixed block: the output is a start of its meaning, all of it when done, and the call neither fails nor asks for input behind the last byte. |
| ZlibNumbers.DecompressFixed | Replay_Boot/fpga.c:1044-1090 | The driver loop hands on the meaning of any fixed block written in numbers, raw or wrapped. |
| Tinfl.Decompressor.constructor | Replay_Boot/tinfl.c:74 | A fresh decoder has consumed and produced nothing and satisfies the invariant kept between calls. |
| Tinfl.Decompressor.GetByte | Replay_Boot/tinfl.c:153-167 | The next byte of the stream, or nothing when this call's input is used up. |
| Tinfl.Decompressor.PushByte | Replay_Boot/tinfl.c:169 | A byte put above the bits in hand leaves the unread bit string unchanged; at most 32 bits are in use. |
| Tinfl.Decompressor.NeedBits | Replay_Boot/tinfl.c:169 | Refilling changes no unread bit and stops short only at the end of the input. |
| Tinfl.Decompressor.TakeBits | Replay_Boot/tinfl.c:171 | Bits taken are the next unread ones, and exactly these are gone. |
| Tinfl.Decompressor.GetBits | Replay_Boot/tinfl.c:171 | The same across a refill; when it has to wait, nothing was consumed. |
| Tinfl.Decompressor.BufferHoldsCode | Replay_Boot/tinfl.c:179-188 | The test through partly filled tables says exactly whether the bits in hand already contain the next code. |
| Tinfl.Decompressor.HuffFill | Replay_Boot/tinfl.c:177-190 | Fills until the next code is in hand or the input ends, loses no bit, and reads no byte more than that: before the last byte read the code was not in hand. |
| Tinfl.Decompressor.HuffDecode | Replay_Boot/tinfl.c:196-209 | The symbol whose code comes next in the unread bits, with exactly its bits consumed, or a wait with nothing lost. |
| Tinfl.Decompressor.SkipToByte | Replay_Boot/tinfl.c:263 | Dropping the odd bits leaves the unread string at the next byte boundary (section 3.2.4 of RFC 1951). |
| Tinfl.Decompressor.NextAlignedByte | Replay_Boot/tinfl.c:265-272 | A header byte comes from the bits in hand first and then from the input: none is lost or repeated. |
| Tinfl.Decompressor.StepStoredHead | Replay_Boot/tinfl.c:262-276 | The length words of a stored block are read and checked as the pure decoder does, and may be resumed. |
| Tinfl.Decompressor.StepStoredCopy | Replay_Boot/tinfl.c:289-310 | Copying a stored block in whatever pieces input and room allow follows the pure decoder byte by byte. |
| Tinfl.Decompressor.StepTableSizes | Replay_Boot/tinfl.c:340-343 | The three counts of a dynamic block. |
| Tinfl.Decompressor.StepClLengths | Replay_Boot/tinfl.c:345-353 | The code length code, in its permuted order. |
| Tinfl.Decompressor.StepLenSymbol | Replay_Boot/tinfl.c:431-442 | One symbol of the code length code, including the end of the list. |
| Tinfl.Decompressor.StepLenRepeat | Replay_Boot/tinfl.c:444-448 | A run of repeated or zero lengths. |
| Tinfl.Decompressor.FastSymbol | Replay_Boot/tinfl.c:488-511 | The unchecked decode of the fast path takes exactly one symbol and at most two input bytes. |
| Tinfl.Decompressor.TwoSymbols | Replay_Boot/tinfl.c:477-551 | Two symbols without buffer checks leave the decoder where two decodes of the slow path would: on the pure decoder's track. |
| Tinfl.Decompressor.StepLenExtra | Replay_Boot/tinfl.c:558-565 | Length base and extra bits of a match. |
| Tinfl.Decompressor.StepDistSymbol | Replay_Boot/tinfl.c:567-569 | The distance symbol of a match. |
| Tinfl.Decompressor.StepDistBits | Replay_Boot/tinfl.c:571-577 | The extra bits of a distance. |
| Tinfl.RingSlot | Replay_Boot/tinfl.c:583 | The masked source slot of the 32 KB ring holds the byte that many places back in the unbounded output. |
| Tinfl.Decompressor.StepMatch | Replay_Boot/tinfl.c:577-595 | The choice between the byte loop and the unrolled copy, both on the pure decoder's track. |
| Tinfl.Decompressor.CopyUnrolled | Replay_Boot/tinfl.c:625-641 | Three bytes a round and the one or two left over give the same bytes as copying from the unbounded history, overlap included. |
| Tinfl.Decompressor.StepMatchFlush | Replay_Boot/tinfl.c:586-592 | One byte of the loop that may wait for room and go on in a later call, through the moving ring offset. |
| Tinfl.Decompressor.StepTrailer | Replay_Boot/tinfl.c:646-661 | The stored checksum, most significant byte first. |
| Tinfl.Decompressor.UpdateCheck | Replay_Boot/tinfl.c:676-703 | The checksum register covers everything written when a call ends. |
| Tinfl.Decompressor.CommonExit | Replay_Boot/tinfl.c:666-710 | The sizes a call reports are what it consumed and produced, and the final status agrees with the pure decoder. |
| Tinfl.Decompressor.HistoryIsPrefix | Replay_Boot/tinfl.c:239-664 | At every suspension point everything written so far is a prefix of the pure decoder's output. |
| Tinfl.Decompressor.Step | Replay_Boot/tinfl.c:146-149 | From every label, the code to the next label keeps the invariant and moves on or has a reason to return. |
| Tinfl.Decompressor.Decompress | Replay_Boot/tinfl.c:211-711 | One call, from any reachable state and for any piece of input and place in the ring: output is appended to the history, and a final status is reported exactly with the pure decoder's outcome on the whole stream; waiting for input means all input was used. |
| InflateCut.BlocksCut | Replay_Boot/tinfl.c:153-167 | Any sequence of blocks, cut at a byte anywhere, leaves the pure decoder waiting. |
| InflateCut.RawCutStarves | Replay_Boot/fpga.c:1064-1072 | A raw stream of any blocks starves when anything is cut off its end. |
| InflateCut.ZlibCutStarves | Replay_Boot/fpga.c:1064-1072 | A prefix of a zlib stream of any blocks starves if and only if it is shorter than the stream, so its length alone tells whether the loop ends. |
| InflateSteps.EmptyStarves | Replay_Boot/fpga.c:1064-1072 | A stream that is cut short: nothing at all. |
| ZlibInflate.Loop.Iterate | Replay_Boot/fpga.c:1064-1087 | One round neither loses nor repeats a byte of input or output; the loop is left only on the pure decoder's verdict or a refused write, so a truncated stream never leaves it. |
| ZlibInflate.Loop.Run | Replay_Boot/fpga.c:1044-1090 | For a stream that is not truncated the loop ends, with the pure decoder's verdict on everything handed on unless a write was refused. |
| ZlibInflate.Loop.RunStarved | Replay_Boot/fpga.c:1044-1090 | For one that is, no number of rounds leaves the loop unless a write is refused. |
| ZlibInflate.Decompress | Replay_Boot/fpga.c:1044-1090 | Everything put together: the sink receives exactly the pure decoder's output, or a prefix when it refused a write. |
| BlockList.InsertHolds | Replay_Boot/freelist.c:117-131 | Returning a block, joined or not, adds exactly its addresses to what the list holds. |
| BlockList.InsertTotal | Replay_Boot/freelist.c:117-131 | Its size, too. |
| BlockList.TakeHolds | Replay_Boot/freelist.c:38-46 | Taking from the end of a block splits what the list holds into the taken units and the rest. |
| BlockList.TakeTotal | Replay_Boot/freelist.c:38-46 | Sizes split in the same way. |
| FreeRing.RankIsSlot | Replay_Boot/freelist.c:112-115 | A block that overlaps no free block has a place in address order. |
| FreeRing.StopsOnlyBefore | Replay_Boot/freelist.c:112-115 | The circular search stops at exactly one position, the predecessor in address order, wrap point included. |
| FreeRing.InsertLinked | Replay_Boot/freelist.c:117-131 | The pointer updates of a release make memory spell out the circular list with the block inserted and joined. |
| FreeRing.TakeLinked | Replay_Boot/freelist.c:38-46 | The pointer updates of an allocation make memory spell out the list with the units taken away. |
| FreeInvariant.FreeKeeps | Replay_Boot/freelist.c:95-134 | Releasing a live block keeps the list circular, address-ordered, fully coalesced, and disjoint from live blocks, the two together covering what was obtained. |
| FreeInvariant.TakeKeeps | Replay_Boot/freelist.c:38-55 | So does allocating, the taken units becoming one more live block. |
| FreeInvariant.GrowKeeps | Replay_Boot/freelist.c:85-86 | So does taking in a new region from sbrk. |
| FreeInvariant.PayloadWrite | Replay_Boot/freelist.c:55 | Whatever the owner writes behind the header of a live block leaves the allocator consistent. |
| FreeList.UnitsHold | Replay_Boot/freelist.c:23 | In units of eight bytes the block is large enough for the request, and less than a unit too large, exactly when rounding up does not wrap in 32 bits. |
| FreeList.UnitsWrap | Replay_Boot/freelist.c:23 | Which requests ask for 2^29 units, whose byte count wraps to zero. |
| FreeList.RetryGivesUp | Replay_Boot/freelist.c:72-78 | The shrinking retry can stop on a refusal exactly when the byte count of the request did not wrap to zero. |
| FreeList.AsksForNothing | Replay_Boot/freelist.c:72-78 | The retry asks sbrk for zero bytes only for a bare header and only after 1024 refusals. |
| FreeList.AskInNumbers | Replay_Boot/freelist.c:54-78 | The d-th try asks for eight bytes times the d-th part of the request, taken as 1024 headers at least. |
| FreeList.Sbrk.Grow | Replay_Boot/freelist.c:76 | What the allocator expects of sbrk: refusal without effect, or a region disjoint from all earlier ones out of a finite budget. |
| FreeList.StaticHeap.Grow | Replay_Boot/ff_malloc.c:26-42 | `ff_sbrk` keeps that contract: 4096 bytes, given once. |
| FreeList.Context.constructor | Replay_Boot/ff_malloc.c:44-49 | The static context, not yet set up, is valid and owns nothing. |
| FreeList.Context.FindPrevious | Replay_Boot/freelist.c:110-115 | The search from the roving pointer ends at the predecessor in address order. |
| FreeList.Context.LinkIn | Replay_Boot/freelist.c:117-131 | The two pointer updates leave in memory exactly what the list lemmas speak about. |
| FreeList.Context.SearchOn | Replay_Boot/freelist.c:36-58 | A block that is too small is passed; back at the roving pointer, all blocks have been seen. |
| FreeList.Context.Free | Replay_Boot/freelist.c:95-134 | The list after a release is the old one with the block inserted and joined; nothing is lost or gained. |
| FreeList.Context.Retry | Replay_Boot/freelist.c:58-83 | Requests shrink in the given sequence until sbrk agrees or refuses less than the request needs. |
| FreeList.Context.Extend | Replay_Boot/freelist.c:58-90 | A new region joins the free list and the byte count; a failure changes nothing. |
| FreeList.Context.Take | Replay_Boot/freelist.c:38-48 | Exact fit or tail split: the block returned is the tail of the free block found. |
| FreeList.Context.Alloc | Replay_Boot/freelist.c:21-92 | Always ends; a block returned has the size asked for and overlaps no live one; while some free block is large enough it is the next fit behind the roving pointer and sbrk is not needed; failure means none was and sbrk refused even less; free and live units equal `heapSize` throughout. |
| FreeList.FreeBlocksAreMaximal | Replay_Boot/freelist.c:117-131 | The free blocks are exactly the maximal stretches that are not live; once everything is freed, the maximal stretches obtained from sbrk. |
| UefSpec.FramedAt | Replay_Boot/fileio_drv02_tape.c:363-383 | Bit i of the framed data is start bit, data bit from the lowest, or stop bit of byte i/10. |
| UefSpec.PackedHoldsTape | Replay_Boot/fileio_drv02_tape.c:448-458 | Unpacking the packed bytes gives the whole tape followed by zeros up to a whole byte. |
| UefTape.SuffixStep | Replay_Boot/fileio_drv02_tape.c:243-283 | Walking over a chunk drops exactly its bits from the front of what is left of the tape. |
| UefTape.ChunkSize | Replay_Boot/fileio_drv02_tape.c:245-272 | The bit count computed for a chunk is the number of bits it holds. |
| UefTape.ChunkBitAt | Replay_Boot/fileio_drv02_tape.c:354-407 | The bit computed from id and position is the bit of the chunk laid out in full: data, gap, tone or carrier with dummy bytes. |
| UefNumbers.CarrierChunk | Replay_Boot/fileio_drv02_tape.c:35-37 | A chunk 10 01 is as many ones as its duration gives, and the next chunk follows. |
| UefNumbers.GapChunk | Replay_Boot/fileio_drv02_tape.c:35-37 | A chunk 12 01 is as many zeros. |
| UefNumbers.DummyChunk | Replay_Boot/fileio_drv02_tape.c:36-36 | A chunk 11 01 is ones, two bytes 41 between start and stop bits, and ones. |
| UefNumbers.DataChunk | Replay_Boot/fileio_drv02_tape.c:34-34 | A chunk 00 01 is its bytes, each framed. |
| UefNumbers.FrameInNumbers | Replay_Boot/fileio_drv02_tape.c:363-383 | A framed byte: 0, the bits from the lowest to the highest, 1. |
| UefNumbers.OtherChunk | Replay_Boot/fileio_drv02_tape.c:33-41 | Any other chunk before the end of the tape carries nothing. |
| UefNumbers.EndInNumbers | Replay_Boot/fileio_drv02_tape.c:191-271 | In bytes, where a tape ends: less than six bytes left, FF FF, or the durations of a chunk cut off. |
| UefNumbers.GetBitOfChunk | Replay_Boot/fileio_drv02_tape.c:338-407 | The bit read at a position inside a chunk, from the bytes of the file: 1 in a carrier 10 01, 0 in a gap 12 01, and so on for 11 01 and 00 01. |
| UefNumbers.PackedInNumbers | Replay_Boot/fileio_drv02_tape.c:449-457 | A byte for the core is 128 times its first tape bit, 64 times the second one and so on. |
| UefTape.Tape.constructor | Replay_Boot/fileio_drv02_tape.c:68 | A tape with a void chunk cache. |
| UefTape.Tape.ReadChunkHeader | Replay_Boot/fileio_drv02_tape.c:193-203 | The header at the file position, or the end mark when the file is too short for one. |
| UefTape.Tape.Measure | Replay_Boot/fileio_drv02_tape.c:245-274 | The bit count as far as the file gives the durations, with the position put back. |
| UefTape.Tape.Rewind | Replay_Boot/fileio_drv02_tape.c:219-231 | Going on behind the cached chunk or starting over, both at a chunk boundary not past the position sought. |
| UefTape.Tape.Scan | Replay_Boot/fileio_drv02_tape.c:233-343 | The walk finds the chunk that holds the position, or what the position exceeds the tape by. |
| UefTape.Tape.GetChunk | Replay_Boot/fileio_drv02_tape.c:205-344 | Whatever chunk is cached: the chunk holding the position and the place in it, and a cache that is right again. |
| UefTape.Tape.GetBit | Replay_Boot/fileio_drv02_tape.c:346-408 | Whatever chunk is cached: the bit of the flattened tape at that position, 0 past its end. |
| UefTape.Tape.Insert | Replay_Boot/fileio_drv02_tape.c:571-612 | One query for position 2^32-1 measures the tape; the reported size is its bit count rounded up to bytes, modulo the 32-bit rounding, so that bit positions below it fit 32 bits. |
| UefTape.Tape.GetByte | Replay_Boot/fileio_drv02_tape.c:449-457 | Eight bits of the flattened tape, the first one highest. |
| UefTape.Tape.Process | Replay_Boot/fileio_drv02_tape.c:412-488 | A write is ignored; for a read the bytes sent are the packed tape from the address on, cut at the reported size, with truncation reported exactly then. |
| UefTape.SizeCovers | Replay_Boot/fileio_drv02_tape.c:610 | The reported size covers the tape exactly unless adding 7 wraps in 32 bits. |
| UefTape.LongTape | Replay_Boot/fileio_drv02_tape.c:610 | Any tape of one data chunk of 429496729 bytes is well formed, has 2^32 - 6 bits, and is given size 0. |
| DirOrder.StrToUL | Replay_Boot/libc/stdlib/strtoul.c:42-109 | The decimal value of the run of digits, saturated at 2^32-1, and where it ends. |
| DirOrder.StrICmpLogical | Replay_Boot/stringlight.c:56-96 | The sign of the result is the lexicographic order of the names as numbers and caseless letters. |
| DirOrder.StrNCmp | Replay_Boot/stringlight.c:112-124 | The sign of the result is the order of the first n characters. |
| DirOrder.Compare | Replay_Boot/filesel.c:39-68 | The sign of the result is the order of the entries. |
| DirOrder.OrderIsTotal | Replay_Boot/filesel.c:39-68 | Entries compare equal only when directory flag and name are the same, and the order is antisymmetric. |
| DirOrder.OrderIsTransitive | Replay_Boot/filesel.c:39-68 | The order is transitive. |
| DirOrder.DirectoriesFirst | Replay_Boot/filesel.c:43-60 | Directories come before files and `..` before everything. |
| DirOrder.KeptExactly | Replay_Boot/stringlight.c:82-84 | A number enters the comparison as itself exactly when it is below 2^31. |
| DirOrder.NumbersDecide | Replay_Boot/stringlight.c:73-86 | Names that agree up to a number in each are ordered by what is kept of the two numbers (32 bits, saturated, without the top bit), and by what follows the numbers where that is the same. |
| DirOrder.NumbersInOrder | Replay_Boot/stringlight.c:73-86 | Natural order, exactly: of such names the one with the smaller number comes first if and only if both numbers lie on the same side of 2^31 and are not both saturated, or the larger is more than 2^31 above the smaller, or what follows decides so where the same is kept of both. |
| DirOrder.LargeNumbersWrap | Replay_Boot/stringlight.c:82-84 | An input out of natural order: `2147483648` comes before `1`. |
| NameOrder.CaseIsIgnored | Replay_Boot/stringlight.c:89 | A name with a capital (codes 65 to 90) compares equal to the one with that letter small. |
| NameOrder.LettersInOrder | Replay_Boot/stringlight.c:89 | Names that agree up to two different letters, capital or not, are in the order of the alphabet. |
| NameOrder.SignsInOrder | Replay_Boot/stringlight.c:89 | Any two other characters that are not digits (48 to 57) are in the order of their codes. |
| NameOrder.DigitsFirst | Replay_Boot/stringlight.c:70-79 | A number comes before any other character. |
| NameOrder.NumberedNames | Replay_Boot/stringlight.c:81-86 | Names that agree up to two numbers below 2147483648, spelled in decimal, are in the order of the numbers. |
| NameOrder.SomeNames | Replay_Boot/filesel.c:39-68 | `apple` comes before `Zebra`, `disk2` before `Disk10`. |
| DirList.SortedUnique | Replay_Boot/filesel.c:156-275 | A strictly sorted list is determined by the entries it holds, whatever order they were enumerated in. |
| DirList.FirstOfInsert | Replay_Boot/filesel.c:200-223 | Keeping only the first twelve before an insertion loses nothing of the first twelve after it. |
| DirList.LargerOnes | Replay_Boot/filesel.c:185-226 | The sorted entries above an entry are what follows it in the whole sorted directory. |
| DirList.SmallerOnes | Replay_Boot/filesel.c:228-267 | The entries below it sorted downwards are what precedes it, read backwards. |
| Filesel.Put | Replay_Boot/filesel.c:187-226 | The bounded insertion loop leaves the first twelve of the sorted list with the entry put in, in either direction. |
| Filesel.Browser.CollectAround | Replay_Boot/filesel.c:156-275 | For every enumeration order: the twelve smallest entries above the reference ascending, the twelve largest below it descending. |
| Filesel.Browser.ScanUpdate | Replay_Boot/filesel.c:156-275 | Around an entry of the directory the window is the slice of the sorted filtered directory on both sides of it. |
| Filesel.Browser.ScanFirst | Replay_Boot/filesel.c:279-364 | The twelve smallest entries overall, the selection on the first, and the count of entries. |
| Filesel.Browser.SlotIs | Replay_Boot/filesel.c:499-527 | Every slot the display can reach is valid exactly when its position exists, and holds the entry of that position. |
| Filesel.Browser.LineIs | Replay_Boot/filesel.c:529-532 | Each display line shows its position of the sorted directory, or nothing. |
| Filesel.Browser.Next | Replay_Boot/filesel.c:571-589 | Selects the immediate successor, or stays on the last entry; the window stays valid. |
| Filesel.Browser.Prev | Replay_Boot/filesel.c:592-609 | Selects the immediate predecessor, or stays on the first entry. |
| Filesel.Browser.NextPage | Replay_Boot/filesel.c:611-630 | Selects the last visible entry and moves the display by eleven lines when the extra line was occupied. |
| Filesel.Browser.PrevPage | Replay_Boot/filesel.c:632-651 | Selects the first visible entry and moves the display back. |
| Filesel.Browser.Update | Replay_Boot/filesel.c:563-656 | Every key leads to its target position and keeps the window a slice of the sorted directory. |
| Filesel.Browser.WalkForward | Replay_Boot/filesel.c:563-590 | k steps after the first scan select entry min(k, n-1). |
| Filesel.Browser.ScanFind | Replay_Boot/filesel.c:425-497 | Jumps to the first directory or file starting with a letter, the kind other than the current one preferred; nothing moves when there is none. |
| Filesel.StartingHas | Replay_Boot/filesel.c:436-445 | The entries it looks at for a capital letter are those of the kind whose first character is that letter, capital or not. |
| FatFile.WriteOne | Replay_Boot/fatfs/ff.c:3861-3899 | Replacing a sector in its cluster replaces that sector of the file and no other. |
| FatFile.File.constructor | Replay_Boot/fatfs/ff.c:3684-3691 | A file just opened is at its start, and its contents are those of its clusters. |
| FatFile.File.Seek | Replay_Boot/fatfs/ff.c:4329-4384 | From a consistent position, position and cluster afterwards agree with walking the chain from the start of the file. |
| FatFile.File.Advance | Replay_Boot/fatfs/ff.c:3759-3777 | At a cluster boundary the chain is followed; the current cluster holds the next sector. |
| FatFile.File.Read | Replay_Boot/fatfs/ff.c:3757-3800 | The sector at the position. |
| FatFile.File.Write | Replay_Boot/fatfs/ff.c:3861-3899 | The sector at the position is replaced, all others kept. |
| AtaIndex.FindIndexSize | Replay_Boot/fileio_drv08_ata.c:1337-1350 | The smallest step from 64 kB up that reaches the 1024th part of the file size. |
| AtaIndex.SlotsSuffice | Replay_Boot/fileio_drv08_ata.c:1344-1350 | Every block of the file has an index slot below 1024 exactly unless the 1024th part is itself the step and half a kilobyte is left over; always for sizes that are multiples of 1024. |
| AtaIndex.LastBlockBeyond | Replay_Boot/fileio_drv08_ata.c:1344-1350 | A size whose last block has slot 1024: 64 MB and 512 bytes. |
| AtaDrive.Drive.constructor | Replay_Boot/fileio_drv08_ata.c:1337-1373 | Mounting leaves an empty index and no remembered position, both consistent, for every size whose blocks all have a slot. |
| AtaDrive.Drive.FillIndex | Replay_Boot/fileio_drv08_ata.c:296-323 | Filling the index lazily up to a slot keeps every entry equal to the cluster found by walking the chain. |
| AtaDrive.Drive.HardFileSeek | Replay_Boot/fileio_drv08_ata.c:191-349 | Through index, remembered position or plain seek: the image is on the block with the cluster of that position; refused exactly below the offset of a naked image. |
| AtaParams.IncParams | Replay_Boot/fileio_drv08_ata.c:519-539 | LBA and cylinder/head/sector step together exactly as long as no register wraps, and stay in the geometry. |
| AtaParams.GetParams | Replay_Boot/fileio_drv08_ata.c:460-492 | Count and address from the registers; 0 stands for 256 sectors. |
| AtaParams.RegisterBytes | Replay_Boot/fileio_drv08_ata.c:460-492 | The registers byte by byte: byte 2 sectors or 256, bit 6 of byte 6 the mode, the first block from bytes 3 to 6. |
| AtaParams.ChsBytes | Replay_Boot/fileio_drv08_ata.c:486-490 | Without that bit the first block is the one with the sector of byte 3, the cylinder of bytes 4 and 5 and the head of byte 6. |
| AtaParams.UpdatedDecodes | Replay_Boot/fileio_drv08_ata.c:494-517 | An address written back to the registers is read again as the same block, in the same mode. |
| AtaParams.UpdatedBytes | Replay_Boot/fileio_drv08_ata.c:494-517 | What is written back is the address in bytes 3 to 6 and nothing else, the high half of byte 6 kept. |
| AtaParams.StepNames | Replay_Boot/fileio_drv08_ata.c:519-539 | In CHS mode the stepped registers keep naming the LBA as long as the next block exists in the geometry. |
| AtaDrive.SliceConcat | Replay_Boot/fileio_drv08_ata.c:802-824 | A stretch of the virtual disk read in two pieces is the stretch, also across the end of the synthesized prefix. |
| AtaDrive.ReadAfterWrite | Replay_Boot/fileio_drv08_ata.c:895-931 | A rewritten stretch of the virtual disk is read back, every other block is as before. |
| AtaDrive.Drive.SendBurst | Replay_Boot/fileio_drv08_ata.c:793-824 | One burst sends the next blocks of the virtual disk and leaves the image positioned behind them. |
| AtaDrive.Drive.StepBlock | Replay_Boot/fileio_drv08_ata.c:778-787 | The address after a block names its last sector. |
| AtaDrive.Drive.SendBlock | Replay_Boot/fileio_drv08_ata.c:792-824 | The bursts of one block send exactly its sectors. |
| AtaDrive.Drive.ReadSectors | Replay_Boot/fileio_drv08_ata.c:664-717 | READ SECTORS sends the addressed stretch of the virtual disk; the registers end up naming its last block. In register bytes: exactly byte 2 blocks, 256 for 0, from the first block of bytes 3 to 6 on. |
| AtaDrive.Drive.ReadMultiple | Replay_Boot/fileio_drv08_ata.c:731-826 | READ MULTIPLE sends the same stretch and leaves the same registers for every block size, and is refused until one is set. In register bytes: exactly byte 2 blocks, 256 for 0, from the first block of bytes 3 to 6 on. |
| AtaDrive.Drive.WriteBurst | Replay_Boot/fileio_drv08_ata.c:1022-1029 | Some blocks are replaced at the position the drive is at. |
| AtaDrive.Drive.ReceiveBlock | Replay_Boot/fileio_drv08_ata.c:1002-1042 | The pieces of at most four sectors of one block replace exactly its stretch. |
| AtaDrive.Drive.WriteSectors | Replay_Boot/fileio_drv08_ata.c:852-931 | WRITE SECTORS replaces the addressed stretch by the blocks sent and nothing else, or is refused without effect: protected, into the prefix, or over the MBR. In register bytes: exactly byte 2 blocks, 256 for 0, from the first block of bytes 3 to 6 on, and no other. |
| AtaDrive.Drive.WriteMultiple | Replay_Boot/fileio_drv08_ata.c:944-1054 | WRITE MULTIPLE makes the same update for every block size, and is refused as well until one is set. In register bytes: exactly byte 2 blocks, 256 for 0, from the first block of bytes 3 to 6 on, and no other. |
| Mfm.EncodeKeepsData | Replay_Boot/fileio_drv01_floppy.c:104-126 | Clock bits leave the data bits alone. |
| Mfm.EncodeSpacesOnes | Replay_Boot/fileio_drv01_floppy.c:104-126 | No two ones in a row in encoded bytes, nor across the border to the byte before. |
| Mfm.EncodeSpacesZeros | Replay_Boot/fileio_drv01_floppy.c:104-126 | No four zeros in a row in two encoded bytes. |
| Mfm.EncodedHalvesDecode | Replay_Boot/fileio_drv01_floppy.c:96-102 | A byte split into odd and even bits decodes to itself whatever the clock bits are. |
| Mfm.LaneFlipIn | Replay_Boot/fileio_drv01_floppy.c:375-379 | A changed byte changes the checksum of its lane by exactly the changed bits. |
| AdfTrack.EmittedIsAccepted | Replay_Boot/fileio_drv01_floppy.c:129-232 | For every sector, track and data: what is emitted passes every test of the write path, names its sector and holds the data. |
| AdfTrack.ClockBitsIgnored | Replay_Boot/fileio_drv01_floppy.c:343-431 | Buffers with the same data bits are accepted alike and store the same sector. |
| AdfTrack.FlipIsRejected | Replay_Boot/fileio_drv01_floppy.c:343-431 | A single flipped bit anywhere in an accepted buffer is rejected exactly when it is a data bit; a clock bit changes neither data nor place. |
| AdfDrive.Drive.constructor | Replay_Boot/fileio_drv01_floppy.c:799-815 | A mounted image whose tracks lie in the file. |
| AdfDrive.Drive.SendFour | Replay_Boot/fileio_drv01_floppy.c:150-165 | Four encoded bytes, each with clock bits made from the one before. |
| AdfDrive.Drive.SendInfo | Replay_Boot/fileio_drv01_floppy.c:150-182 | The header bytes on the wire and the exclusive ors of their halves. |
| AdfDrive.Drive.FoldSector | Replay_Boot/fileio_drv01_floppy.c:202-220 | The data checksum: per lane the exclusive or of the bytes folded onto their even bits. |
| AdfDrive.Drive.SendHeader | Replay_Boot/fileio_drv01_floppy.c:129-232 | Preamble, sync words, header, label and both checksums, in this order. |
| AdfDrive.Drive.Read | Replay_Boot/fileio_drv01_floppy.c:458-574 | The next sector of the requested track from the image, as a whole MFM sector, with the gap behind the last one; the sectors of a track follow each other cyclically. |
| AdfDrive.Drive.SendGap | Replay_Boot/fileio_drv01_floppy.c:552-570 | The gap of 352 bytes, its first word marked, behind the last sector and no other. |
| AdfNumbers.ClockRule | Replay_Boot/fileio_drv01_floppy.c:104-126 | A clock bit is set exactly when both data bits beside it are zero, also across bytes. |
| AdfNumbers.SectorSent | Replay_Boot/fileio_drv01_floppy.c:129-232 | An emitted sector byte by byte: preamble, sync words, header, label, both checksums, odd bits, even bits, at their positions. |
| AdfNumbers.ReadSector | Replay_Boot/fileio_drv01_floppy.c:458-574 | A read request in bytes: those of the sector at 512 times (11 times the track and the sector), with the sync word asked for or 4489 instead of 0000, 8914 and A144, and 352 bytes AA behind sector 10. |
| AdfNumbers.AcceptedBytes | Replay_Boot/fileio_drv01_floppy.c:343-420 | Which received buffers are accepted, by the bits of their header bytes and checksums. |
| AdfNumbers.StoredBytes | Replay_Boot/fileio_drv01_floppy.c:422-448 | Each stored byte from the two bytes it is made of, and the sector it belongs to. |
| AdfDrive.Drive.Hunt | Replay_Boot/fileio_drv01_floppy.c:277-305 | Write state 0 reads up to the first sync word or the whole request, and changes state exactly on a sync word. |
| AdfDrive.Drive.CheckSums | Replay_Boot/fileio_drv01_floppy.c:370-394 | A checksum test succeeds exactly when all four lanes agree with what is stored. |
| AdfDrive.Drive.Check | Replay_Boot/fileio_drv01_floppy.c:343-420 | All tests together are the acceptance the lemmas speak about. |
| AdfDrive.Drive.DecodeInPlace | Replay_Boot/fileio_drv01_floppy.c:428-431 | Decoding over the odd half of its own encoding leaves the sector. |
| AdfDrive.Drive.Receive | Replay_Boot/fileio_drv01_floppy.c:311-448 | Write state 1 stores the sector of an accepted buffer at its place, and nothing otherwise, and takes 0, 1 or 541 words. |
| AdfDrive.ReadsBeyond | Replay_Boot/fileio_drv01_floppy.c:311-339 | It reads more words than were requested if and only if 540 were and the first is the sync word. |
| AdfDrive.OneWordMissing | Replay_Boot/fileio_drv01_floppy.c:311-339 | Such an input: a sync word and 539 more words. |
| AdfDrive.Drive.Write | Replay_Boot/fileio_drv01_floppy.c:234-456 | The state machine: hunting, receiving, and back. |
| AdfDrive.Drive.WriteSector | Replay_Boot/fileio_drv01_floppy.c:234-456 | A sector as emitted, behind a gap and with more to follow, sent back in two requests, is stored where it came from; nothing else changes and what follows is left to be read. |
| AdfDrive.Drive.WriteBack | Replay_Boot/fileio_drv01_floppy.c:234-456 | The same for a sector on its own. |
| AdfCopy.ReadTrack | Replay_Boot/fileio_drv01_floppy.c:458-574 | Request after request, the sectors of the track follow each other from the one under the head, with the gap behind the last. |
| AdfCopy.WriteTrack | Replay_Boot/fileio_drv01_floppy.c:234-456 | All sectors sent back are stored one after the other, across the gap. |
| AdfCopy.PatchedAll | Replay_Boot/fileio_drv01_floppy.c:366-368 | Eleven sectors in any cyclic order make up the whole track and nothing else. |
| AdfCopy.CopyTrack | Replay_Boot/fileio_drv01_floppy.c:234-574 | A track read from one drive, whatever sector is under the head, and written to another is there exactly, and the rest of the other image is as before. |
| ScpDrive.BurstFacts | Replay_Boot/fileio_drv01_floppy.c:663-701 | A burst is even, at most 2048 bytes and within the revolution, and empty exactly when nothing is left or it would start one byte before a 512-byte boundary. |
| ScpDrive.BurstSizes | Replay_Boot/fileio_drv01_floppy.c:663-701 | How long a burst is, in each case: 2048 bytes from a boundary, up to the next boundary, or what is left. |
| ScpDrive.DeliversExactly | Replay_Boot/fileio_drv01_floppy.c:663-706 | Burst after burst, all that is left of a revolution is sent if and only if it starts at an even file offset or ends before the next 512-byte boundary. |
| ScpDrive.OddInputs | Replay_Boot/fileio_drv01_floppy.c:663-706 | At file offset 1, 256 words get stuck and 255 are delivered. |
| ScpDrive.OddGetsStuck | Replay_Boot/fileio_drv01_floppy.c:680-706 | From an odd file offset a burst cut at a boundary leads to a position from which nothing is ever sent. |
| ScpDrive.EvenMovesOn | Replay_Boot/fileio_drv01_floppy.c:680-706 | From an even offset every burst moves on, to an even offset. |
| ScpDrive.Drive.constructor | Replay_Boot/fileio_drv01_floppy.c:845-853 | A mounted flux image, on no track. |
| ScpDrive.Drive.HeaderBytes | Replay_Boot/fileio_drv01_floppy.c:62-75 | A track header in bytes: TRK, the track, and in twelve bytes each the length and the offset of a revolution. |
| ScpDrive.Drive.Step | Replay_Boot/fileio_drv01_floppy.c:598-641 | A changed track is selected from the table and header, or none, near the old offset in the first revolution. |
| ScpDrive.Drive.SendBurst | Replay_Boot/fileio_drv01_floppy.c:663-704 | A burst sends the next flux of the revolution and moves exactly over it. |
| ScpDrive.Drive.Transfer | Replay_Boot/fileio_drv01_floppy.c:643-716 | While the track is unchanged, everything the head passed over was sent exactly once and in order, revolution after revolution, with a sync marker at every call that starts a revolution; a call moves on exactly unless the burst is empty for the boundary reason, and whether the rest can be delivered does not change before the turn ends. |
| ScpDrive.Drive.PlayTurn | Replay_Boot/fileio_drv01_floppy.c:643-716 | Polled again and again, the drive finishes the turn under the head whenever the rest of the revolution can be delivered. |
| ScpDrive.Drive.PlayTurns | Replay_Boot/fileio_drv01_floppy.c:703-716 | With every revolution of the track deliverable any number of turns is finished, and as many turns as there are revolutions lead back to the same one. |
| ScpDrive.Drive.PlayStuck | Replay_Boot/fileio_drv01_floppy.c:643-716 | Where the rest cannot be delivered, no number of calls finishes the turn. |
| Crc32.FeedConcat | Replay_Boot/flash.c:400-420 | The CRC does not depend on how the message is cut into pieces. |
| Crc32.MaskIsStep | Replay_Boot/flash.c:413-416 | The masked form of one bit is the definition. |
| Crc32.TableForm | Replay_Boot/flash.c:409-417 | Eight bits at a time equal the table form of section 8 of RFC 1952. |
| Crc32.Register.FeedPiece | Replay_Boot/flash.c:400-420 | The register after a piece, and the CRC so far as the result. |
| Crc32.FeedInjective | Replay_Boot/flash.c:400-420 | Different registers stay different whatever is fed to both. |
| Crc32.StepOfOne | Replay_Boot/flash.c:413-416 | The polynomial is that of section 8 of RFC 1952, given by its exponents. |
| Crc32.Residue | Replay_Boot/flash.c:400-420 | Every message fed from FFFFFFFF, followed by the four bytes of its CRC, lowest first, leaves the register at DEBB20E3. |
| Crc32.CheckValue | Replay_Boot/flash.c:400-420 | The CRC of the bytes 31 to 39 is CBF43926. |
| Flasher.DenseHolds | Replay_Boot/flash.c:479-491 | In the dense image each byte is found at its address. |
| Flasher.DenseGaps | Replay_Boot/flash.c:479-491 | Every other address below the end holds FF. |
| Flasher.Pager.StoreByte | Replay_Boot/flash.c:481-486 | A byte goes to its place in the page; a complete page is exactly the next whole page of the image. |
| Flasher.Pager.VerifyHeader | Replay_Boot/flash.c:446-457 | A header byte goes to the buffer wherever it comes in the file; after the last one size and CRC start over. |
| Flasher.Pager.VerifyData | Replay_Boot/flash.c:474-493 | A data byte is refused exactly when its address was passed; otherwise the image grows to it with FF in the gap, and size and CRC describe the whole pages. |
| Flasher.Pager.VerifyEnd | Replay_Boot/flash.c:459-472 | At the end size and CRC are those of the whole image. |
| Flasher.Pager.VerifyAll | Replay_Boot/flash.c:440-494 | A run of data records is accepted exactly for ascending addresses from 0x102000, and gives the dense image. |
| Flasher.Pager.Verify | Replay_Boot/flash.c:440-494 | A whole file, with a header or without: success exactly for ascending addresses; then size and CRC-32 are those of the dense image if and only if there is a header or size and register already stood at their start values, and otherwise they go on from what they were. The image followed by that CRC leaves the register at DEBB20E3. |
| Flasher.StartsOver | Replay_Boot/flash.c:440-472 | Size and CRC describe an image on their own if and only if they stood at 0 and FFFFFFFF before it. |
| Flasher.FirstWithoutHeader | Replay_Boot/flash.c:400-420 | Any file without header that is the first one after power-up gets a wrong CRC. |
| Flasher.LoopEnds | Replay_Boot/flash.c:474-493 | The loop that fills up to an address ever ends if and only if the address is not 0xFFFFFFFF. |
| Flasher.LastAddressLoops | Replay_Boot/flash.c:474-493 | A byte at 0xFFFFFFFF makes it loop, from wherever the counter stands. |
| Flasher.Pager.UploadData | Replay_Boot/flash.c:552-571 | The second pass grows the same image and writes its whole pages contiguously. |
| Flasher.Pager.UploadEnd | Replay_Boot/flash.c:542-549 | At the end memory holds the whole image. |
| Flasher.Pager.UploadFile | Replay_Boot/flash.c:534-572 | A whole file: memory holds exactly the dense image the first pass described. |
| Flasher.Pager.VerifyMemory | Replay_Boot/flash.c:574-593 | The CRC of the memory is computed, and success returned whatever it is. |
| Flasher.Pager.VerifySRecords | Replay_Boot/flash.c:497-518 | With a header or from the start values the CRC of the file is that of its dense image, and the flash that holds the image has the same CRC. |
| Flasher.Pager.RebootAndFlash | Replay_Boot/flash.c:681-691 | The memory checked is the dense image when the size of the first pass is still the size of the image. |
| Flasher.Pager.VerifyAndFlash | Replay_Boot/menu.c:1445-1675 | A file verified and then flashed, with a header or from the start values: the memory holds the dense image, and the check sees the CRC that the first pass reported. Memory and CRC together leave the register at DEBB20E3. |

## Left out

- Tinfl.Decompressor.Decompress: only streams on which the pure decoder is defined, that is without incomplete code sets, symbols 286 and 287, distance codes 30 and 31, and distances beyond the output; the flags are fixed as `zlib_inflate` sets them (more input may follow, output wraps in 32 KB), so the paths for a flat output buffer, for missing input padded with zeros and for bad parameters are not modelled.
- HuffTable.BuildTable: code sets with at most one symbol that leave code space unused, which the source accepts, are left to the outcome "undefined".
- Tinfl.Decompressor.BufferHoldsCode: the tables of the running decoder are values taken from the arrays BuildTable filled in place.
- ZlibInflate.Decompress: streams that are cut short, on which the source does not return, and those the pure decoder leaves undefined.
- ZlibInflate.Loop.Run: the read callback returns at least one byte until the file ends, as the file callbacks do.
- FreeList.Context.Alloc: requests of 2^32 - 15 to 2^32 - 8 bytes are excluded, see RetryGivesUp; an sbrk that succeeds for zero bytes is excluded by the contract of Sbrk.Grow.
- FreeList.Context.Retry: unit counts of 2^29, see RetryGivesUp.
- FreeList.Context.Extend: unit counts of 2^29, see RetryGivesUp.
- FreeList.StaticHeap.Grow: a first request of less than one header is granted; the retry only asks for nothing after 1024 refusals (AsksForNothing).
- FreeList.Sbrk.Grow: regions keep clear of the root header and of the unit before it, and all addresses are in phase with the headers.
- The debug build of the allocator (tags, the list of allocated blocks, the fill pattern) and `mallinfo`.
- UefTape.Tape.GetChunk: chunks lie within a file below 2 GB, the tape has fewer than 2^32 - 1 bits, and the conversion of milliseconds to bits is an arbitrary function; one image is mounted at a time. What the length scan prints about other chunks is not modelled.
- UefTape.Tape.Process: sizes as Insert reports them. The RAW tape format is not modelled.
- Filesel.Browser.ScanUpdate: the filter is an arbitrary predicate on entries, of an entry's attributes only the directory flag exists, the directory does not change between scans, and names are terminated.
- Filesel.Browser.Update: the return value, which is the same number for both outcomes.
- Changing the directory and editing the filter string, which reset the browser to the state before ScanFirst.
- AtaDrive.Drive.ReadSectors: requests beyond the end of the disk are excluded; the driver does not check them. Status bits, the error register and the handshake are left out; an aborted command leaves the registers as they are.
- AtaDrive.Drive.ReadMultiple: requests beyond the end of the disk, as for ReadSectors.
- AtaDrive.Drive.WriteSectors: requests beyond the end of the disk, as for ReadSectors.
- AtaDrive.Drive.WriteMultiple: the same.
- AtaDrive.Drive.HardFileSeek: blocks at or beyond the end of the image, on which the following read asserts (fatfs/wrapper.c:594-600); images below 4 GB on the FatFs branch, positions in whole sectors; the FullFAT branch is not modelled.
- FatFile.File.Seek: the branch that neither extends the file nor touches the sector buffer.
- The contents of the synthesized partition blocks, the drive geometry, partition detection and the remaining ATA commands.
- AdfDrive.Drive.constructor: images shorter than one track, which have no track to play.
- AdfDrive.Drive.Read: the interleaving of data bits with clock bits is done by the FPGA as the source describes it (fileio_drv01_floppy.c:538-548).
- ScpDrive.Drive.Step: the track table, the track header and its revolutions lie within the file.
- Flasher.Pager.VerifyData: bytes at address 0xFFFFFFFF, on which the source does not return (LoopEnds).
- Flasher.Pager.UploadData: the same.
- Flasher.Pager.VerifyAll: files in which such a byte is reached; behind a refused byte it is allowed.
- Flasher.Pager.UploadFile: the same.
- Flasher.Pager.Verify: starts from records taken apart into fields, all header bytes before the data; line syntax, record checksums and line numbers are not modelled.
- Programming the flash, the on-screen display, USB, FPGA configuration, clocks, timers, interrupts, FAT and exFAT directories, configuration files, gzip headers, and the Replay applications.
