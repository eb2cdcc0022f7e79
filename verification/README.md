# A verified model of the NEST-OS scheduler and of its image codecs

The project models two groups of code.

**The codecs of `demo/`.** `demo/stb_image_write.h` encodes and `demo/stb_image.h`
decodes. The zlib pair is modelled in three layers and then composed: data to tokens
(literals and length/distance matches), tokens to code words, code words to packed
bytes. The inflater's canonical tables, fast table, pre-shifted slow path and 32-bit
bit buffer are methods on arrays and fields, proved to refine a reference decoder that
reads one more bit at a time and keeps no state but a bit position. Around this pair
stand Adler-32, the PNG row filters, Adam7, the run-length codes of TGA and HDR, and
the non-maximum suppression of `demo/box.c`.

**NEST-OS.** The daemon's registry of partitions and the load/unload protocol that
keeps it in step with every NPU OS; the level-1 scheduler with its table of execution
times and its waiting-time bookkeeping; the level-2 ready queues with their two-level
bitmap, and the executor loop; the runner of task graphs. Objects that the source
updates in place are classes, with the linked lists, bitmaps and bit strings as their
fields; protocols and interleavings are state machines, and their theorems are about
every state of every run.

## Main results

- `Zlib.CompressAndInflate`: inflating the compressor's output returns the input, for
  every input and quality, whatever candidates the hash table offers.
  `Deflater.ZlibCompress` says besides which tokens the output holds.
- `Inflater.ZBuf.ZHuffmanDecode`, `Inflater.ZBuf.ParseZlib`: table decoding is naive
  decoding for every accepted length list, and the whole inflater refines the reference
  decoder on every byte sequence, well-formed or not. `InflateFuel.FuelDecides`: the
  reference decoder's fuel hides nothing; with one unit for every bit of the input, and
  one more, it is a decoder without fuel.
- `DeflateFormat.InflatesExactly`, `Inflater.ZlibDecode`: the inflater accepts exactly the
  streams of RFC 1950 and RFC 1951, whose stored, fixed and dynamic blocks may be written
  in any way that the formats allow, and gives what they stand for.
- `Png.WriteAndRead`, `PngInterlacedImage.InterlacedReadBack`, `TgaReader.WriteAndLoad`,
  `HdrRle.ScanlineReadBack`: the other round trips, each with the exact condition.
  `PngLaws.ImageLaw`: every byte of an image from the data and its neighbours in the image.
- `LoadProtocol.RunsKeepInv`, `LoadProtocol.DaemonAgrees`: the daemon's stale record and
  the echoes in flight always add up to the OS's own set; the fatal exit is unreachable.
- `DagTheorems.TasksRunInOrder`, `DagTheorems.AllTasksRun`, `DagTheorems.RunsEnd`: safety,
  completeness and termination of the graph runner under every interleaving.
- `OsScheduler.OsSched.QPush`, `OsScheduler.OsSched.QRemove`, `Executor.StartsTheHighest`,
  `Executor.AllFinish`: the ready queues refine 256 sequences, and the executor's
  priority and progress guarantees.
- `Scheduler.Mwct`, `Bookkeeping.RunsKeepInv`, `Placement.Place`, `Nms.DoNmsSort`: the
  placement decision, the bookkeeping that it rests on, the two together over every run
  of several OSes, and suppression across all re-sorts.

## Where the code does less than intended

- A load of an empty range (negative `part_num_delta`) sets `loaded` with an empty bit
  string. `LoadProtocol.EmptyLoadIsRecorded` is a run that does it;
  `LoadProtocol.LoadedIffNonEmptyKept` says that this is the only way.
- An echo takes `prev_wcet` off `ewt` only if it is positive, but a prediction adds it
  whatever its sign. `Bookkeeping.NegativeTimeStays` is a run that leaves `ewt` wrong for
  good; `Bookkeeping.EwtIsWorkInFlight` gives the exact condition.
- `scheduler_mwct` and `scheduler_mnt` return -1 also when every eligible OS reaches the
  starting bound (`DBL_MAX`, `INT_MAX`); the contracts of `Scheduler.Mwct` and
  `Scheduler.Mnt` say exactly when, and `SchedulerCorners.AloneAtTheBound` has one OS.
- A task with priority 0 never runs: `Executor.ZeroPriorityStarves`.
- The TGA writer stores sides modulo 65536, so the round trip holds exactly for sides
  below 65536; and since the reader's row order does not depend on the writer's flip
  flag, a flipped file is read upside down (`TgaReader.ImageReadBack`).
  `TgaReader.WideImageIsLost` has a row of 65536 pixels.
- The HDR reader loops for ever exactly when the length bytes up to the end of the input
  announce fewer values than the row needs (`HdrRle.HangsIffShort`,
  `HdrLoop.HangsIffNeverStops`). A row of eight from the one byte 4 never ends; from the
  one byte 8 it is eight zeros (`HdrLoop.ShortAndLongEnough`).
- The inflater goes on for as long as its output buffer can grow when a block meets a
  literal or a copy at or behind the end of the input, and only then
  (`InflateFuel.FuelDecides`, `InflateFuel.EndlessIffNoFuelIsEnough`).
  `InflateLoop.NoFuelIsEnough` gives seven bytes.
- An interlaced PNG whose whole image cannot be allocated is written to through a null
  pointer (`demo/stb_image.h:4553` and `4572`) unless its first pass is rejected
  (`PngInterlacedImage.InterlacedReadBack`). `PngInterlacedImage.HeaderLeaves` says which
  sizes the header's test leaves that do it: at 8 bits a sample only 2^30 grey pixels to
  which alpha is added; at 16 bits a sample 2^30 samples without added alpha, and 2^30 or
  more with it. `PngInterlacedImage.ImagesWithoutMemory` has three such images.
- `src/bit_handler.c:32` shifts an `int`, although a word has 64 bits: the shifts are
  defined exactly for a range that is empty, or in one word and not beyond its bit 30
  (`BitHandler.ShiftsDefinedIff`, `BitHandler.ConvertAsWritten`), and so not for partition
  31 alone (`BitHandler.Bit31Shifts`). The classes use `BitHandler.ConvertToBitstring`,
  which has the 64-bit shift.
- An OS that connects with an id above the next index leaves a gap (`Scheduler.Connect`),
  as does one that disconnects from below the last (`Scheduler.Disconnect`). The
  scheduler's loops up to `npuos_num` miss an OS exactly if there is a gap
  (`Scheduler.GapsAreMissed`); `SchedulerCorners.FirstTakesOne` is a run in which the only
  OS is missed and the next one is refused.

## Assumptions

- Handlers are atomic steps, and so is the decrement with its test at
  `src/nprocess.c:60-62`. A thread of the graph runner may stop between any two steps.
- Messages are not lost; the echoes of one OS arrive in the order in which they were
  sent. Requests may overtake one another.
- Allocation of memory and thread creation succeed, but for sizes that the code itself
  refuses to allocate.
- Every submitted task is a new object. The code does not see to that:
  `os/src/npuos.c:124` frees the task that `sched->current` still points to. A new task
  at the same address that becomes the highest one would equal `current` and not be
  started.
- A task graph is acyclic, its `pred` and `succ` lists mirror each other, all its tasks
  are given to one call of `contain`.
- The variables `bs` at `os/src/sock_handler.c:45`, `121` and `183`, which have no
  initializer, are zero, as at `src/nos_bit.c:92`.
- In the runs of `Bookkeeping`, `Placement` and `LoadProtocol` OSes stay connected. Nothing
  is registered for an index without an OS: the scheduler would follow a null pointer. OS
  numbers are below 32, and partitions of a request are below 128, as the arrays demand.
- `float` and `double` are real numbers. Positions in a buffer do not overflow. The sizes
  that the readers check (`stbi__mad3sizes_valid`) are modelled with their checks; the
  sizes, row places and estimates that the PNG writer computes without a check are
  unbounded, and its results tell whether each of them fits an `int` (`Png.WriterFits`).
  The capacities of buffers that grow are not modelled.

## Reading guide

`basics.dfy` holds what several modules share; `bits.dfy` and `bitstream.dfy` hold words
and streams of bits; words are natural numbers with explicit bounds. `huffman.dfy`,
`bit_reverse.dfy`, `huffman_tables.dfy`, `deflate_tables.dfy`, `inflate_spec.dfy` and
`inflate.dfy` are the inflater; `deflate_spec.dfy`, `bit_writer.dfy`, `adler32.dfy` and
`deflate.dfy` the compressor; `zlib.dfy` joins them. `deflate_format.dfy` is the format
of the streams. `inflate_fuel.dfy` and `inflate_loop.dfy` say when inflating ends.
`png*.dfy` and `adam7.dfy` are PNG, `raster.dfy`, `tga_*.dfy`, `hdr_rle.dfy` and
`hdr_loop.dfy` the other formats, `nms*.dfy` box suppression. `bit_handler.dfy`,
`registry.dfy`, `npu_tasks.dfy` and `load_protocol.dfy` are the partition protocol;
`wcet_list.dfy`, `scheduler.dfy`, `scheduler_corners.dfy`, `bookkeeping.dfy` and
`placement.dfy` level 1; `ready_spec.dfy`, `task_queue.dfy`, `os_sched.dfy`,
`executor.dfy` and `npuos.dfy` level 2; `dag_*.dfy` and `nprocess.dfy` the graph runner.

## Model

| member | source | states |
|---|---|---|
| `Huffman.PrefixFree` | demo/stb_image.h:3836-3848 | no bit string starts with the codes of two different symbols: the canonical codes of a length list are prefix-free |
| `Huffman.RankIncreases` | demo/stb_image.h:3849-3863 | symbols of equal length get increasing codes in symbol order, as section 3.2.2 of RFC 1951 demands |
| `Huffman.BelowEndMatches` | demo/stb_image.h:3919-3925 | a window whose first `s` bits are below the end of the codes of length `s` does start with a code of at most `s` bits: there are no gaps below a bound |
| `Huffman.BelowStaysBelow` | demo/stb_image.h:3919-3925 | once a window is below the bound of one length it is below the first code of every longer one, so a bound search cannot overshoot |
| `Huffman.AcceptedIffKraft` | demo/stb_image.h:3833-3848 | the checks "bad sizes" and "bad codelengths" let a list pass exactly when its Kraft sum is at most 1 |
| `Huffman.NaiveDecode` | demo/stb_image.h:3914-3944 | reference decoder: the result is a symbol whose code starts the window, and -1 only if no code does |
| `Huffman.NaiveDecodeFinds` | demo/stb_image.h:3932-3944 | the symbol whose code starts the window is the one that bit-by-bit decoding returns |
| `BitReversal.BitReverse16Bit` | demo/stb_image.h:3805-3812 | the four mask-and-shift stages put bit 15 - i at bit i |
| `BitReversal.BitReverseIsRev` | demo/stb_image.h:3814-3820 | reversing 16 bits and shifting is the reversal of the low `bits` bits |
| `HuffmanTables.SlotInjective` | demo/stb_image.h:3852-3855 | no two symbols share a slot of the sorted list |
| `HuffmanTables.SymbolFacts` | demo/stb_image.h:3852-3863 | every code fits its length and 16 bits, and its slot is inside the list and not taken by an earlier symbol |
| `HuffmanTables.FastStep` | demo/stb_image.h:3856-3862 | entering one more symbol overwrites no entry of an earlier symbol, because the code is prefix-free |
| `HuffmanTables.FillFast` | demo/stb_image.h:3857-3861 | exactly the indices whose low `s` bits are the reversed code get the entry; all others keep theirs |
| `HuffmanTables.CountSizes` | demo/stb_image.h:3828-3832 | the histogram counts every used length and leaves length 0 at 0 |
| `HuffmanTables.ZHuffman.AssignCodes` | demo/stb_image.h:3836-3847 | fails exactly for the lists that are not accepted; otherwise first codes, first symbols and pre-shifted bounds are those of the canonical code |
| `HuffmanTables.ZHuffman.EnterSorted` | demo/stb_image.h:3852-3855 | symbol and length stand in their slot and no earlier slot changes |
| `HuffmanTables.ZHuffman.EnterSymbols` | demo/stb_image.h:3849-3865 | after the loop the sorted list and the fast table hold every symbol of the code |
| `HuffmanTables.ZHuffman.Build` | demo/stb_image.h:3822-3867 | returns true exactly for the accepted lists, and then all five tables hold the canonical code, with the sentinel behind the bounds |
| `DeflateTables.LengthInterval` | demo/stb_image.h:3965-3971 | writer and reader tables agree, and the length intervals tile 3..258 with extra bits that cover each |
| `DeflateTables.DistInterval` | demo/stb_image.h:3973-3977 | writer and reader tables agree, and the distance intervals tile 1..32767 with extra bits that cover each |
| `InflateSpec.FixedFirstCode` | demo/stb_image.h:4112-4127 | the default length lists have the first codes 0, 0x30 and 0x190 of section 3.2.6 of RFC 1951 and fill their code spaces |
| `InflateSpec.FixedAccepted` | demo/stb_image.h:4157-4159 | the fixed tables can always be built |
| `Inflater.FastHit` | demo/stb_image.h:3936-3942 | a fast entry names the symbol and the length that naive decoding of the window finds |
| `Inflater.FastMiss` | demo/stb_image.h:3936-3943 | an empty fast entry means that no code of at most 9 bits starts the window |
| `Inflater.MaxcodeTest` | demo/stb_image.h:3919-3925 | comparing the 16 reversed bits with a pre-shifted bound is comparing the first `s` bits with the bound |
| `Inflater.SlowSymbol` | demo/stb_image.h:3923-3929 | the slow path's arithmetic lands in the slot of the one symbol that naive decoding finds, and that symbol has length `s` |
| `Inflater.NoCodeAbove` | demo/stb_image.h:3923 | reaching length 16 means that no code at all starts the window |
| `Inflater.FillStep` | demo/stb_image.h:3898-3900 | or-ing in a byte above the buffered bits extends the window by 8 stream bits and never exceeds 32 bits |
| `Inflater.NaiveWindow` | demo/stb_image.h:3935 | decoding from 16 buffered bits gives what decoding from any longer window gives |
| `Inflater.ZBuf.ZGet8` | demo/stb_image.h:3889-3893 | the next byte of the input, 0 for ever after its end |
| `Inflater.ZBuf.FillBits` | demo/stb_image.h:3895-3902 | more than 24 bits are buffered, and the buffer is still exactly the next bits of the stream |
| `Inflater.ZBuf.ZReceive` | demo/stb_image.h:3904-3912 | returns the next `n` bits of the stream, least significant first, and moves on by `n` |
| `Inflater.ZBuf.DecodeSlowpath` | demo/stb_image.h:3914-3930 | if no short code matches: the naive result, with the position moved by its length, or -1 |
| `Inflater.ZBuf.ZHuffmanDecode` | demo/stb_image.h:3932-3944 | table decoding returns what naive bit-by-bit decoding of the stream returns, for every accepted code, every stream and every position |
| `Inflater.ZBuf.CopyBytes` | demo/stb_image.h:4010-4016 | both branches, the run of one byte and the general one, append the bytes from `dist` back, overlaps included |
| `Inflater.ZBuf.ParseToken` | demo/stb_image.h:3982-4017 | one turn of the loop is one token of the reference decoder, with the same errors |
| `Inflater.ZBuf.ParseHuffmanBlock` | demo/stb_image.h:3979-4019 | a compressed block gives what the reference decoder, which uses no tables and no bit buffer, gives: output, end position and error; with a unit of fuel for every bit left, and one more, that is what the decoder without fuel gives |
| `Inflater.ZBuf.ParseUncompressedBlock` | demo/stb_image.h:4070-4097 | a stored block is read from the next byte boundary although up to four of its bytes sit in the bit buffer |
| `InflateSpec.ReadLengths` | demo/stb_image.h:4041-4064 | the run-length coded lengths either add up to exactly the announced number, each at most 15, or are rejected |
| `Inflater.ZBuf.ReadCodeLengthSizes` | demo/stb_image.h:4034-4038 | the 3-bit lengths land in the permuted order that `DeflateFormat.PlaceOnce` gives by rule, missing ones are 0 |
| `Inflater.ZBuf.ReadAllLengths` | demo/stb_image.h:4041-4064 | the loop over symbols, repeats and zero runs gives the reference list of lengths or its error |
| `Inflater.ZBuf.ComputeHuffmanCodes` | demo/stb_image.h:4021-4068 | succeeds exactly when the block's three length lists are well-formed and accepted, and then the tables hold the block's two codes |
| `Inflater.ZBuf.ParseZlibHeader` | demo/stb_image.h:4099-4110 | the header is accepted exactly when its check value, its method and its dictionary flag are right |
| `Inflater.ZBuf.ParseBlocks` | demo/stb_image.h:4148-4165 | blocks are decoded up to the final one, the three kinds dispatched as in the reference decoder; fuel as for one block |
| `Inflater.ZBuf.ParseZlib` | demo/stb_image.h:4141-4167 | the whole decoder refines the reference decoder for every input, and, with more fuel than the input has bits, the decoder without fuel |
| `Inflater.ZlibDecode` | demo/stb_image.h:4195-4214 | the entry point, from a fresh decoder, for every input: status Ok exactly for the streams of RFC 1950 and RFC 1951 written block by block in any way, with the bytes that they stand for; else an error or no end as the decoder without fuel has it |
| `DeflateFormat.LengthTable` | demo/stb_image.h:3965-3971 | the tables of lengths follow the rule of section 3.2.5 of RFC 1951, four symbols to each number of extra bits |
| `DeflateFormat.DistTable` | demo/stb_image.h:3973-3977 | the tables of distances follow the same rule, two symbols to each number of extra bits |
| `DeflateFormat.CopyIsPeriodic` | demo/stb_image.h:4010-4016 | a copy appends its length, each byte being the one a distance before it |
| `DeflateFormat.ItemRead` | demo/stb_image.h:3979-4017 | the bits of a literal or a copy under any two accepted codes, with any extra bits, are read as that item |
| `DeflateFormat.TokenStands` | demo/stb_image.h:3979-4017 | and whatever is read as a token is the bits of an item |
| `DeflateFormat.PlaceOnce` | demo/stb_image.h:4023 | the order of the code-length lengths: 16, 17, 18, 0, and then 8, 7, 9, 6 and so on outwards |
| `DeflateFormat.LengthsRead` | demo/stb_image.h:4041-4064 | lengths written one by one or repeated 3-6, 3-10 or 11-138 times, in any mixture, are read as themselves |
| `DeflateFormat.DynamicRead` | demo/stb_image.h:4021-4068 | however the header of a dynamic block is written for two accepted codes, the decoder finds these codes and the end of the header |
| `DeflateFormat.DynamicStands` | demo/stb_image.h:4021-4068 | and whatever header is accepted was written so |
| `DeflateFormat.StoredRead` | demo/stb_image.h:4070-4097 | a stored block is its padding, its length, the complement and its bytes |
| `DeflateFormat.StoredStands` | demo/stb_image.h:4070-4097 | and whatever is accepted as a stored block is one |
| `DeflateFormat.ZlibHeadIsOk` | demo/stb_image.h:4099-4110 | the header test is: method 8, the two bytes a multiple of 31, bit 5 of the second not set |
| `DeflateFormat.StreamRead` | demo/stb_image.h:4148-4165 | blocks of the three kinds one behind the other, only the last one with its bit set, are decoded to what they stand for |
| `DeflateFormat.StreamStands` | demo/stb_image.h:4148-4165 | and whatever is decoded is such a list of blocks |
| `DeflateFormat.InflatesExactly` | demo/stb_image.h:4141-4167 | the decoder accepts exactly the streams of the format, ends where they end, and gives what they stand for |
| `InflateFuel.MoreFuel` | demo/stb_image.h:4141-4167 | an outcome reached with some fuel is the outcome with any more |
| `InflateFuel.NeverEnds` | demo/stb_image.h:3982-4017 | a token that can be decoded behind the end of the input is followed by another one, for ever |
| `InflateFuel.FuelDecides` | demo/stb_image.h:4141-4167 | with more fuel than the input has bits, the reference decoder is the decoder without fuel, which has no end exactly where it meets a literal or a copy at or behind the end of the input |
| `InflateFuel.EndlessIffNoFuelIsEnough` | demo/stb_image.h:4141-4167 | the decoder without fuel has no end exactly if no fuel is enough for the reference decoder, and else the outcome of any fuel that is |
| `InflateLoop.NinesNeverEnd` | demo/stb_image.h:4021-4068 | a dynamic block whose codes all have nine bits, with only zero bits behind its header, never ends |
| `InflateLoop.NoFuelIsEnough` | demo/stb_image.h:4141-4167 | seven bytes that the decoder accepts and never finishes |
| `DeflateSpec.FixedCode` | demo/stb_image_write.h:797-807 | the formulas 0x30 + n, 0x190 + n - 144, n - 256 and 0xc0 + n - 280 give the canonical codes of the reader's fixed length list |
| `DeflateSpec.FixedDistCode` | demo/stb_image_write.h:882 | writing the distance symbol as 5 reversed bits is writing its canonical code |
| `DeflateSpec.CodeDecodes` | demo/stb_image.h:3932-3944 | wherever the bits of a code stand in a stream, naive decoding reads its symbol |
| `DeflateSpec.TokenDecodes` | demo/stb_image.h:3979-4017 | the bits of a literal or a match are decoded as that token, and the decoder stands behind them |
| `DeflateSpec.TokensDecode` | demo/stb_image.h:3979-4019 | the bits of a token list and the end-of-block symbol decode to what the tokens stand for |
| `DeflateSpec.StreamInflates` | demo/stb_image.h:4141-4167 | any bytes that start with the header, the block header and the bits of a token list inflate to what the tokens stand for |
| `DeflateSpec.CopyReproduces` | demo/stb_image_write.h:845-851 | copying from a place from which the data agrees with itself reproduces the data, even when source and target overlap |
| `DeflateSpec.LengthIndex` | demo/stb_image_write.h:878 | the search ends within the table at the interval that contains the length |
| `DeflateSpec.DistIndex` | demo/stb_image_write.h:881 | the search ends within the table at the interval that contains the distance |
| `BitWriting.BitWriter.constructor` | demo/stb_image_write.h:831-832 | the stream starts with the two bytes of the zlib header |
| `BitWriting.BitWriter.Flush` | demo/stb_image_write.h:757-765 | moving whole bytes out of the bit buffer changes nothing of what is written, and leaves fewer than 8 bits |
| `BitWriting.BitWriter.Add` | demo/stb_image_write.h:797-799 | appends exactly the low bits of the code to the written bits; the 32-bit buffer does not overflow |
| `BitWriting.BitWriter.Pad` | demo/stb_image_write.h:894-896 | the bytes are the bits written and then zero bits up to the next byte boundary, at most seven |
| `BitWriting.BytesHold` | demo/stb_image.h:3895-3912 | a reader of the bytes sees the written bits, whatever bytes follow |
| `Deflater.CountM` | demo/stb_image_write.h:777-783 | the length of the longest common prefix, at most 258 and not past the end of the data |
| `Deflater.FindBest` | demo/stb_image_write.h:845-851 | the longest common prefix of at least 3 bytes among the candidates at most 32767 bytes back, the last of equally long ones; none if there is none |
| `Deflater.NextIsBetter` | demo/stb_image_write.h:859-873 | the match is dropped exactly when some candidate for the next byte, at most 32767 bytes back, agrees with it further |
| `Deflater.BitXor` | demo/stb_image_write.h:787 | a bit of the exclusive or is set exactly if it is set in one of the two |
| `Deflater.OneSlot` | demo/stb_image_write.h:785-795 | the slot of the bytes 0, 64, 0, in which every shift of the hash has a part |
| `Deflater.SlotOfThree` | demo/stb_image_write.h:785-795 | three bytes have one slot of the hash table, wherever they stand |
| `Deflater.Push` | demo/stb_image_write.h:852-857 | a full bucket loses its older half, then gets the position; every entry of the table stays an earlier position with a bounded bucket |
| `Deflater.BitRev` | demo/stb_image_write.h:767-775 | the low bits in reverse order |
| `Deflater.AddSymbol` | demo/stb_image_write.h:800-807 | appends the canonical code of the symbol, most significant bit first |
| `Deflater.AddLength` | demo/stb_image_write.h:878-880 | appends the length symbol and its extra bits |
| `Deflater.AddDist` | demo/stb_image_write.h:881-883 | appends the distance symbol and its extra bits |
| `Deflater.ChooseToken` | demo/stb_image_write.h:840-889 | the token is a match exactly if the longest common prefix of a near candidate has 3 bytes or more and no near candidate for the next byte has a longer one; it is then of that length and of the last such candidate, else a literal; whatever the hash table offers, it stands for the next bytes of the data |
| `Deflater.EmitAll` | demo/stb_image_write.h:839-893 | the bits written are those of a token list that stands for exactly the data, each token found by lazy search in the table as the tokens before it left it, and at most the last three bytes unsearched |
| `Deflater.ZlibCompress` | demo/stb_image_write.h:813-923 | the output inflates to the input for every input and every quality, every match reaches into emitted data, and the output is exactly the bytes 0x78 and 0x5e, the bits of the tokens that lazy search finds, zeros up to a byte, and the Adler-32 number of the plain sums, most significant byte first |
| `Zlib.CompressAndInflate` | demo/stb_image.h:4141-4167 | the inflater's tables and bit buffer, given the compressor's output, return the compressor's input with status Ok |
| `Adler32.BlockFits` | demo/stb_image_write.h:906-909 | in a block of at most 5552 bytes neither sum reaches 2^32, whatever the bytes |
| `Adler32.BlockIsLargest` | demo/stb_image_write.h:906 | a block of 5553 bytes could exceed 32 bits |
| `Adler32.AddBlock` | demo/stb_image_write.h:908-909 | reducing once at the end of a block is reducing after every byte |
| `Adler32.Adler` | demo/stb_image_write.h:904-912 | the blocked sums are the per-byte sums of section 2.2 of RFC 1950 for every input, the empty first block included |
| `Adler32.TrailerIsChecksum` | demo/stb_image_write.h:904-916 | the trailer as a number: 65536 times the weighted sum of the bytes plus their number, and one plus their sum, each modulo 65521 |
| `Deflater.AdlerBytes` | demo/stb_image_write.h:913-916 | the four bytes are that number, most significant byte first |
| `PngFilter.PaethIsNearest` | demo/stb_image_write.h:980-986 | the predictor is the nearest of left, upper and upper left to their estimate, ties broken in this order (section 6.6 of RFC 2083) |
| `PngFilter.UnfilterFiltered` | demo/stb_image.h:4376-4424 | undoing a filter restores the row, for all five filters and every row above |
| `PngFilter.FilterUnfiltered` | demo/stb_image.h:4376-4424 | and every filtered row is the filtered form of what it is undone to: filtering is a bijection |
| `PngFilter.DecodedEncoded` | demo/stb_image.h:4357-4426 | all rows of an image are restored, whatever filter each row was given |
| `PngEncoder.EncodeLine` | demo/stb_image_write.h:989-1020 | the line holds the filtered row, with zeros above for the first row written, flipped or not, for any stride |
| `PngLaws.RowLaw` | demo/stb_image_write.h:994-997 | where the bytes of a row stand in the pixels, flipped or not |
| `PngLaws.StrideLaw` | demo/stb_image_write.h:1029-1030 | a stride of 0 stands for rows without gaps |
| `PngEncoder.ChooseLine` | demo/stb_image_write.h:1040-1064 | a forced filter is used, else the first with the least estimate (filter 0 if none is below the bound), and the line holds the row under this filter; `fits` tells whether every estimate fits an `int` |
| `PngLaws.EstimateLaws` | demo/stb_image_write.h:1050-1054 | the estimate adds up the distances of the bytes from 0 modulo 256 |
| `PngEncoder.EncodeRows` | demo/stb_image_write.h:1031-1068 | the filtered image is every row, in writing order, behind the number of its filter; `fits` tells whether all estimates of all rows fit |
| `PngRows.SyntheticFilters` | demo/stb_image.h:4308-4315 | the first-row filters, which read no row above, compute what the general ones compute with a row of zeros above |
| `PngRows.FlatRow` | demo/stb_image.h:4410-4426 | the in-place loops leave the unfiltered row at its place and change nothing else |
| `PngRows.AlphaRow` | demo/stb_image.h:4427-4457 | the same with opaque alpha behind every pixel: one byte, or two of which the lower ones are written in a pass of their own |
| `PngDecoder.BadLineBad` | demo/stb_image.h:4362-4363 | an unknown filter in any line makes the whole image undecodable |
| `PngDecoder.CreateRaw` | demo/stb_image.h:4331-4457 | the image, of samples of 8 or 16 bits, is decoded or rejected (too large, not enough pixels, invalid filter) exactly as the reference decoding of its lines says |
| `PngLaws.ImageLaw` | demo/stb_image.h:4376-4457 | every byte of a decoded image is undone from its byte of the data and its neighbours in the image itself: none, the left, the upper, the rounded-down mean of the two, or the nearest of three, by the number at the start of its line |
| `PngLaws.AlphaLaw` | demo/stb_image.h:4427-4457 | every byte of added alpha is 255 |
| `PngLaws.DecodedByte` | demo/stb_image.h:4376-4424 | the same for the rows of an image before alpha is added |
| `PngDecoder.SizesInBytes` | demo/stb_image.h:4349 | the test of a row's size at 16 bits a sample is that of a row of twice as many bytes |
| `PngLaws.SizesValidIff` | demo/stb_image.h:4331-4349 | a size is valid exactly when the product and what is added fit 31 bits |
| `Png.FilteredReadBack` | demo/stb_image.h:4331-4457 | filtered data followed by any bytes decodes to the rows exactly when the sizes fit an `int` |
| `Png.WriteAndRead` | demo/stb_image_write.h:1022-1070 | filter choice, compression, inflation and unfiltering return the writer's pixels, with opaque alpha if the reader adds it, exactly when the reader's sizes fit an `int`; `fits` holds exactly when the writer's sizes, row places and estimates do |
| `Adam7.PassClass` | demo/stb_image.h:4555-4558 | the decoder's four tables describe the passes of the standard's pattern |
| `Adam7.PassFits` | demo/stb_image.h:4561-4562 | the rounded-up pass sizes count exactly the columns and rows inside the image |
| `Adam7.Bijection` | demo/stb_image.h:4554-4577 | (pass, i, j) to (x, y) is a bijection between the seven sub-images and the grid |
| `PngInterlace.PlacePixel` | demo/stb_image.h:4569-4575 | one more pixel of the pass is at its place and all pixels placed before stay |
| `PngInterlace.PlacePass` | demo/stb_image.h:4569-4576 | all pixels of the pass are at their places, those of earlier passes untouched |
| `PngInterlace.CreatePngImage` | demo/stb_image.h:4543-4585 | every pixel of the image is the one its pass holds for it, empty passes consume no data, and the first error of a pass is the result; an image that cannot be allocated ends with the first pass's error or is written to through a null pointer |
| `PngInterlacedImage.PassesReadBack` | demo/stb_image.h:4554-4581 | the reader finds the sub-images one behind the other, exactly when no pass is too large |
| `PngInterlacedImage.PixelReadBack` | demo/stb_image.h:4569-4576 | the pixel taken from its pass is the pixel of the image |
| `PngInterlacedImage.InterlacedReadBack` | demo/stb_image.h:4543-4585 | every image of samples of 8 or 16 bits, interlaced and filtered in whatever way, is read as itself exactly when neither the whole nor any pass is too large; the null pointer is written to exactly when the whole is too large and the first pass is not |
| `PngInterlacedImage.HeaderLeaves` | demo/stb_image.h:4773 | the sizes that the header's test lets through and that cannot be allocated: at 8 bits a sample exactly 2^30 pixels of one component to which alpha is added; at 16 bits exactly 2^30 samples without added alpha, and 2^30 or more with it |
| `PngInterlacedImage.ImagesWithoutMemory` | demo/stb_image.h:4553-4577 | 32768 by 32768 grey pixels of 8 bits with added alpha or of 16 bits, and 16384 by 16384 RGB pixels of 16 bits with added alpha, pass the header's test and all their passes are decodable, but the whole cannot be allocated |
| `TgaWriter.WritePixel` | demo/stb_image_write.h:351-382 | blue, green, red and then alpha; one or two components unchanged |
| `TgaWriter.ScanRaw` | demo/stb_image_write.h:488-501 | a raw packet of 1..128 pixels ends where a pixel equals the one two before it, which is left out with its neighbour |
| `TgaWriter.ScanRun` | demo/stb_image_write.h:502-509 | a run of 2..128 equal pixels, as long as possible |
| `TgaWriter.WriteRow` | demo/stb_image_write.h:483-524 | the packets of a row are those that the scans find one behind the other, and stand for this row and nothing else: none crosses its end |
| `TgaWriter.WriteTga` | demo/stb_image_write.h:464-527 | the file is the 18 bytes of the header, each given, and, row by row in writing order, the scanned packets of 1..128 pixels that stand for the row |
| `TgaWriter.OrderLaw` | demo/stb_image_write.h:471-481 | unflipped, the last row is written first; flipped, the first |
| `TgaReader.ReadPixels` | demo/stb_image.h:5545-5600 | the loop over pixels and packets stores the reference decoding of the bytes |
| `Raster.FlipInPlace` | demo/stb_image.h:5602-5616 | exchanging rows from both ends in place reverses the order of the rows |
| `TgaReader.Finish` | demo/stb_image.h:5601-5636 | the flip and the exchange of red and blue |
| `TgaReader.PacketDecodes` | demo/stb_image.h:5548-5599 | the bytes of a packet decode to its pixels and leave the reader at the next packet |
| `TgaReader.PacketsDecode` | demo/stb_image.h:5545-5600 | any packet list decodes to the pixels it stands for |
| `TgaReader.FinishedRows` | demo/stb_image.h:5601-5636 | reading rows bottom up and finishing them gives the picture and the colours back |
| `TgaReader.LoadTga` | demo/stb_image.h:5456-5648 | errors and pixels of a file, for the run-length branch without palette |
| `TgaReader.FileLoads` | demo/stb_image.h:5456-5648 | any run-length coded file without a palette, with an id of any length and packets of any sizes, loads as its rows, which start at the top if bit 5 of byte 17 is set, else at the bottom |
| `TgaReader.WhichFilesLoad` | demo/stb_image.h:5456-5500 | the depths that are refused, and the files that the model does not load |
| `TgaReader.ImageReadBack` | demo/stb_image.h:5456-5648 | a written file loads as the image (turned over if the writer was told to flip) exactly when both sides fit 16 bits and the size fits an `int` |
| `TgaReader.WideImageIsLost` | demo/stb_image.h:5456-5648 | the file of a row of 65536 grey pixels, whose width is stored as 0, does not load as this image |
| `TgaReader.WriteAndLoad` | demo/stb_image_write.h:452-528 | the same, for the writer and the reader run one after the other |
| `HdrRle.FindRun` | demo/stb_image_write.h:644-652 | the first place from which three values are equal, the end of the row if there is none |
| `HdrRle.WriteRow` | demo/stb_image_write.h:639-674 | terminates, with the bytes of the row's runs and dumps: up to each three equal values in dumps, then all equal ones in runs |
| `HdrRle.ChunksStandFor` | demo/stb_image_write.h:639-674 | these runs and dumps, of 1..127 and 1..128 values, stand for exactly the row |
| `HdrRle.ChunksTight` | demo/stb_image_write.h:639-674 | they are as long as can be: a dump ends full or before a run, a run full or before another value, no dump holds three equal values, and a run of less than three only goes on with a full one |
| `HdrRle.ReadRow` | demo/stb_image.h:6768-6787 | values, "bad RLE data", or the endless loop, for every byte sequence; the loop is endless exactly when the lengths up to the end of the input announce fewer values than the row needs |
| `HdrRle.HangsIffShort` | demo/stb_image.h:6768-6787 | the exact condition, from any place in a row and whatever has been read |
| `HdrLoop.HangsIffNeverStops` | demo/stb_image.h:6768-6787 | the loop taken turn by turn: the result `Hangs` says that no number of turns ends it, any other result that some number of turns does and with this result |
| `HdrLoop.ShortAndLongEnough` | demo/stb_image.h:6768-6787 | of two inputs of one byte that both end within a row of eight, the one that announces four values never ends, the one that announces eight ends with eight zeros |
| `HdrRle.ChunksRead` | demo/stb_image.h:6768-6787 | runs and dumps of the allowed sizes are read as what they stand for and never as bad data |
| `HdrRle.RowReadBack` | demo/stb_image.h:6768-6787 | a written row is read back, wherever it stands |
| `HdrRle.WriteScanline` | demo/stb_image_write.h:589-675 | a scanline of 8 <= width < 32768 is 2, 2, its width and four component rows of runs and dumps, any other is its pixels one after the other |
| `HdrRle.ReadScanline` | demo/stb_image.h:6725-6787 | plain pixels for the other widths; else the header checks, with the exact conditions of each, and the four component rows |
| `HdrRle.ScanlineReadBack` | demo/stb_image.h:6725-6787 | a written scanline of any width is read back, wherever it stands in the file |
| `BitHandler.ConvertToBitstring` | src/bit_handler.c:22-34 | adds exactly the partitions of the range to the set that the two words stand for |
| `BitHandler.ShiftsDefinedIff` | src/bit_handler.c:22-34 | the shifts of a range are all defined exactly if the range is empty, or lies in one word and not beyond its bit 30 |
| `BitHandler.Bit31Shifts` | src/bit_handler.c:32 | the shift of the one partition 31 is not defined |
| `BitHandler.ConvertAsWritten` | src/bit_handler.c:22-34 | with the shift of an `int` as written: it tells whether every shift is defined, and then adds exactly the partitions of the range |
| `BitHandler.SetBit` | src/bit_handler.c:36-43 | union of the partition sets |
| `BitHandler.ClrBit` | src/bit_handler.c:45-52 | difference of the partition sets |
| `BitHandler.IsPartbitSet` | src/bit_handler.c:54-66 | true exactly if the sets meet |
| `BitHandler.IsAllbitSet` | src/bit_handler.c:68-80 | true exactly if the second set is included in the first |
| `BitHandler.IsAllbitClr` | src/bit_handler.c:82-94 | true exactly if the sets are disjoint |
| `BitHandler.IsAllbitZero` | src/bit_handler.c:96-105 | true exactly if the set is empty |
| `BitHandler.PartsExt` | src/bit_handler.h:36-41 | two words and a set of partitions determine each other |
| `Registry.NnPos.constructor` | src/nos_bit.c:187-210 | nothing is registered |
| `Registry.NnPos.SetNosBit` | src/nos_bit.c:80-95 | the OS's partitions become the union with the range, all other OSes keep theirs; mask bit, pointer and non-emptiness stay in step unless an empty range is set where nothing is |
| `Registry.NnPos.ClrNosBit` | src/nos_bit.c:97-117 | the difference with the range, bit and pointer dropped with the last partition; exits exactly if the OS has no bit string |
| `Registry.NnPos.IsNosBit` | src/nos_bit.c:119-137 | overlap with the range |
| `Registry.NnPos.IsNosBitMatch` | src/nos_bit.c:139-157 | inclusion of the range; an empty range is included only where there is a bit string |
| `Registry.NnPos.MaskNosBitMatch` | src/nos_bit.c:159-185 | bit `o` of the mask tells whether OS `o` holds the whole range |
| `NpuTasks.NnObject.IsPreloadCheck` | os/src/sock_handler.c:41-52 | true exactly if the network is loaded and the range meets what is loaded |
| `NpuTasks.NnObject.LoadTask` | os/src/sock_handler.c:54-149 | loads exactly if no partition of the range is loaded, and then the range is added; otherwise nothing changes and the echo is an error |
| `NpuTasks.NnObject.UnloadTask` | os/src/sock_handler.c:151-220 | removes the range if anything is loaded, and `loaded` falls with the last partition; otherwise the echo is an error |
| `NpuTasks.HandleRequest` | src/server_comm.c:441-514 | a load is sent on exactly if it overlaps nothing registered for the OS, an unload exactly if the OS has a bit string and all of the range is registered |
| `NpuTasks.HandleEcho` | src/server_comm.c:178-220 | an OK echo adds the range to what is registered for this OS, or takes it off, dropping the bit string with the last partition; the exit happens exactly where there is none; an error echo changes nothing |
| `LoadProtocol.StepKeepsInv` | src/server_comm.c:178-220 | every step of daemon and OS keeps: replaying the echoes in flight turns the daemon's record into the OS's own |
| `LoadProtocol.RunsKeepInv` | os/src/sock_handler.c:54-220 | the same in every state of every run, with tasks in any order and requests checked against a stale record |
| `LoadProtocol.DaemonAgrees` | src/nos_bit.c:97-105 | the exit "nosbit is empty" is never reached, and daemon and OS agree whenever no echo of that OS is in flight |
| `LoadProtocol.LoadsAreDisjoint` | os/src/sock_handler.c:72-123 | in every run a range is loaded exactly if it is disjoint from what is loaded |
| `LoadProtocol.UnloadsRemove` | os/src/sock_handler.c:151-220 | in every run an OS with anything loaded unloads the range, whatever of it is loaded, and its echo says whether anything was |
| `LoadProtocol.RequestsAreChecked` | src/server_comm.c:441-514 | in every run a request goes on its way exactly if the OS is connected and the daemon's record is disjoint from the range, or contains it |
| `LoadProtocol.EchoesAreRecorded` | src/server_comm.c:178-220 | in every run the oldest echo of an OS adds its range to the daemon's record or takes it off, where there always is a record |
| `LoadProtocol.LoadedIffNonEmptyKept` | os/src/sock_handler.c:114-123 | a task keeps `loaded` equivalent to a non-empty bit string exactly unless it loads an empty range where nothing is loaded |
| `LoadProtocol.LoadedIffNonEmpty` | os/src/sock_handler.c:114-190 | in every run in which clients ask for no empty range, `loaded` holds exactly if the bit string is not empty |
| `LoadProtocol.EmptyLoadIsRecorded` | os/src/sock_handler.c:114-123 | a concrete run with an empty range after which a network is recorded as loaded with no partition |
| `DagGraph.Contain` | src/nprocess.c:229-280 | the process's successors are the tasks without predecessors, its predecessors the tasks without successors |
| `DagGraph.IntoIsNumPred` | src/nprocess.c:97-111 | before anything runs the undelivered edges into a task are its `num_pred` |
| `DagRunner.StartInv` | src/nprocess.c:97-111 | the initial counters satisfy the invariant |
| `DagRunner.DeliverKeepsInv` | src/nprocess.c:56-92 | decrementing a successor's counter, and starting it at zero, keeps the invariant: counters are undelivered edges, frames belong to distinct tasks, predecessors come first |
| `DagRunner.MainKeepsInv` | src/nprocess.c:117-151 | so does the loop that starts the heads |
| `DagRunner.StepKeepsInv` | src/nprocess.c:28-151 | every step of every thread keeps it |
| `Nprocess.Process.SetUp` | src/nprocess.c:97-111 | the counters in place are those of the start state |
| `Nprocess.Process.StartHead` | src/nprocess.c:117-151 | one turn of the process's loop on the counters in place is the runner's step: a thread if the counter is above 1, else the inline call, never the error case |
| `Nprocess.Process.Deliver` | src/nprocess.c:56-92 | one turn of a task's loop on the counters in place is the runner's step: the successor waits exactly if its counter was not 1, else gets a thread if the task's own counter is above 1, else the inline call, never the error case |
| `DagTheorems.TasksRunInOrder` | src/nprocess.c:28-95 | in every interleaving each task returns at most once, after all its predecessors, and the case `num_vsucc == 0` never occurs |
| `DagTheorems.InlineCallIsLast` | src/nprocess.c:80-90 | the inline call happens only at the last index of the caller's loop |
| `DagTheorems.AllTasksRun` | src/nprocess.c:28-151 | once no thread is live every task of an acyclic graph has returned exactly once |
| `DagTheorems.StepLowersMeasure` | src/nprocess.c:28-151 | every step lowers the count of returns, deliveries and starts still to come by one |
| `DagTheorems.RunsEnd` | src/nprocess.c:28-151 | no run is longer than the graph allows |
| `DagTheorems.StuckMeansQuiet` | src/nprocess.c:28-151 | a run that cannot go on has no live thread: there is no deadlock |
| `TaskQueue.Queue.Push` | os/src/queue.c:27-54 | the relinked list is well-formed and is the old one with the task at its end |
| `TaskQueue.Queue.Pop` | os/src/queue.c:56-85 | the first task, and the well-formed rest; NULL and no change if empty |
| `TaskQueue.Queue.Delete` | os/src/queue.c:87-123 | the list without the task, wherever it stood, in the old order |
| `TaskQueue.Queue.IsEmpty` | os/src/queue.c:125-128 | true exactly if the list is empty |
| `ReadySpec.HighestIsTop` | os/src/os_sched.c:73-75 | the highest task is the first of the non-empty queue of greatest priority |
| `ReadySpec.HighestNone` | os/src/os_sched.c:73-75 | there is none exactly if all queues are empty |
| `OsScheduler.UnmapIsTop` | os/src/os_sched.c:27-43 | every entry of the table is the greatest set bit of its index |
| `OsScheduler.TopOf` | os/src/os_sched.c:49-69 | one lookup in the upper or the lower byte finds the greatest set bit of a 16-bit word |
| `OsScheduler.BitmapSet` | os/src/os_sched.c:84-88 | setting the two bits keeps the bitmaps right when an empty queue gets a task |
| `OsScheduler.BitmapClear` | os/src/os_sched.c:106-112 | clearing the bit, and the group bit only with the last bit of the word, keeps them right when a queue loses its last task |
| `OsScheduler.TopOfBitmap` | os/src/os_sched.c:45-76 | the two lookups lead to the greatest priority that has a task |
| `OsScheduler.OsSched.constructor` | os/src/os_sched.c:119-151 | 256 empty queues, empty bitmaps, no highest task |
| `OsScheduler.OsSched.CalHighestTask` | os/src/os_sched.c:45-76 | `highest` is the head of the greatest non-empty queue, NULL if all are empty |
| `OsScheduler.OsSched.QPush` | os/src/os_sched.c:78-96 | the task joins the end of its queue, all other queues stay, and bitmaps, lists and `highest` are right again |
| `OsScheduler.OsSched.QRemove` | os/src/os_sched.c:98-117 | the task leaves its queue from any place, all other queues stay, and bitmaps, lists and `highest` are right again |
| `Executor.StepKeepsInv` | os/src/npuos.c:107-173 | every submission, start, return and wake-up keeps the queues in submission order and the running task at the head of its queue |
| `Executor.WhatHappens` | os/src/npuos.c:107-173 | in every run: a new task joins the end of its queue, the highest is started, the one that returns was the head of its queue and leaves it, and the loop ends exactly when `shutdown` is set |
| `Executor.StartsTheHighest` | os/src/npuos.c:166-173 | a task is started only if no ready task has a higher priority, or the same and an earlier submission |
| `Executor.RunningIsHead` | os/src/npuos.c:107-128 | in every state the running task is the head of its queue, the idle task is still queued, and `highest` is not NULL |
| `Executor.ReturnsOnce` | os/src/npuos.c:120-126 | no task returns twice and the idle task never |
| `Executor.HaltedForGood` | os/src/npuos.c:164-175 | after shutdown nothing starts or returns any more |
| `Executor.StepsProgress` | os/src/npuos.c:93-131 | while a task of priority 1 or more waits, some step is possible and every step but a submission lowers the measure: the idle task cannot spin for ever |
| `Executor.AllFinish` | os/src/npuos.c:164-173 | without submissions and shutdown all tasks of priority 1 or more finish within a bounded number of steps |
| `Executor.NothingPending` | os/src/npuos.c:120-126 | nothing is pending exactly if every task of priority 1 or more has finished |
| `Executor.ZeroPriorityStarves` | os/src/npuos.c:150-154 | a task submitted with priority 0 never runs, in any run: the idle task stays before it |
| `NpuOs.NpuOS.constructor` | os/src/npuos.c:150-154 | with the idle task submitted the object is in the initial state of the state machine |
| `NpuOs.NpuOS.Submit` | os/src/sock_handler.c:397-410 | submitting to the class's ready queues is the state machine's submission, and `ntasks` counts the queued tasks other than idle |
| `NpuOs.NpuOS.Pick` | os/src/npuos.c:107-118 | a turn of the loop starts the highest task exactly if the state machine can, and is that step |
| `NpuOs.NpuOS.IdleLeaves` | os/src/npuos.c:93-105 | the idle task returns exactly if the state machine can wake |
| `NpuOs.NpuOS.SuperTask` | os/src/npuos.c:267-279 | setting `shutdown` while a task runs leaves the queues and the state as they are |
| `NpuOs.NpuOS.Return` | os/src/npuos.c:120-126 | removal after a task's return, or nothing after the idle task's, is the state machine's step; the loop ends exactly if `shutdown` was set |
| `WcetList.Queue.Push` | src/queue.c:22-48 | the list with the node at its end, keys still unique |
| `WcetList.Queue.Search` | src/queue.c:81-100 | the node with this key, NULL exactly if there is none |
| `WcetList.TableHoldsMaximum` | src/server_npuos.c:24-57 | for every key ever reported the table holds the greatest time reported for it, and it holds no other keys |
| `WcetList.ServerNpuOS.GetWcet` | src/server_npuos.c:59-82 | the recorded time of the key, 0 if there is none |
| `WcetList.ServerNpuOS.UpdateWcet` | src/server_npuos.c:24-57 | the key's entry is created or becomes the greater of the two, every other entry of every network stays |
| `Scheduler.Connect` | src/server_comm.c:100-141 | an OS takes the next index or the one it names; a full table, a taken index, an index behind the table and an id below -1 change nothing; `npuos_num` stays the number of OSes, and the new OS is below it exactly unless it named an index above it |
| `Scheduler.Disconnect` | src/server_comm.c:146-172 | the index becomes free and `npuos_num` the number of the OSes left; there is no gap afterwards exactly if it was the last index |
| `Scheduler.GapsAreMissed` | src/scheduler.c:57-59 | with `npuos_num` the number of OSes, the loops up to it meet every OS exactly if there is no gap, and meet no index without an OS exactly if there is no gap |
| `Scheduler.Candidates` | src/scheduler.c:89-91 | exactly the OSes that hold the whole range and that the client allows |
| `Scheduler.Mwct` | src/scheduler.c:76-118 | the least index among the eligible OSes with the least waiting time plus recorded time; -1 exactly if every eligible one reaches DBL_MAX |
| `Scheduler.Mnt` | src/scheduler.c:33-74 | the least index among the eligible OSes with the fewest tasks; -1 exactly if every eligible one has INT_MAX tasks |
| `SchedulerCorners.FirstTakesOne` | src/server_comm.c:100-141 | a concrete run: an OS connects first and names index 1; it holds the range asked for and is allowed, but no OS is found, and the next OS that names no index is refused |
| `SchedulerCorners.AloneAtTheBound` | src/scheduler.c:76-118 | a concrete state: the only OS, eligible, is not found when its waiting time is DBL_MAX or its number of tasks INT_MAX |
| `Bookkeeping.Predict` | src/server_comm.c:390-404 | the handler adds to `ewt` what it sends along as `prev_wcet`, or counts the task |
| `Bookkeeping.PredictEcho` | src/server_comm.c:222-245 | the handler raises the table entry and takes off `prev_wcet` if positive, or uncounts the task |
| `Bookkeeping.SendAddsMaximum` | src/server_comm.c:390-404 | in every run a prediction carries the greatest time reported for its request, 0 if there is none, and adds it to `ewt` |
| `Bookkeeping.EchoTakesOff` | src/server_comm.c:222-245 | in every run an echo is of a prediction in flight, takes off what it carries if that is positive, and is reported |
| `Bookkeeping.RunsKeepInv` | src/server_comm.c:222-245 | in every reachable state `ewt` is the work in flight plus a correction that only negative times make, and `ntasks` is the number of predictions in flight |
| `Bookkeeping.EwtIsWorkInFlight` | src/server_comm.c:235-238 | `ewt` is the work in flight exactly if no prediction with a negative `prev_wcet` has been echoed, and never more than it |
| `Bookkeeping.NothingLeftBehind` | src/server_comm.c:390-395 | with reported times that are never negative `ewt` is the work in flight in every reachable state |
| `Bookkeeping.NegativeTimeStays` | src/server_comm.c:235-238 | a concrete run with a negative time that leaves `ewt` negative with nothing in flight |
| `Placement.AllSound` | src/server_comm.c:222-245 | in every run of several OSes that connect and are placed on, the book of each OS has `ewt` equal to its work in flight, less what negative times left behind, which is nothing if no time is negative |
| `Placement.Place` | src/scheduler.c:76-118 | in every state of every such run, with gaps or without, the least index is chosen, among the eligible OSes, with the least work in flight, less what was left behind, plus greatest time reported for the request; -1 exactly if every eligible one reaches DBL_MAX |
| `Placement.ExpectedIsWork` | src/server_comm.c:235-238 | if no time is negative, that is the work in flight plus the greatest time reported, and at least the work in flight |
| `Nms.ExceedsSymmetric` | demo/box.c:34-58 | overlap above the threshold does not depend on the order of the two boxes |
| `Nms.ExceedsIff` | demo/box.c:21-58 | for boxes of sides that are not negative: the area in common, from the lengths and the distance of the middles, against the threshold times the area covered |
| `Nms.SameBox` | demo/box.c:54-58 | a box exceeds with itself exactly any threshold below 1 |
| `Nms.BoxesApart` | demo/box.c:34-46 | boxes with nothing in common exceed no threshold from 0 on |
| `Nms.BoxWithin` | demo/box.c:48-58 | of a box within another the areas are compared |
| `Nms.SideBySide` | demo/box.c:48-58 | of two boxes of one size, one shifted by d, w - d is compared with the threshold times w + d |
| `Nms.Partition` | demo/box.c:88-101 | a permutation with exactly the detections of non-zero objectness first |
| `Nms.Suppress` | demo/box.c:111-125 | each detection is zeroed for the class exactly if a survivor before it overlaps it above the threshold |
| `Nms.SuppressDone` | demo/box.c:111-125 | suppression of a sorted class leaves no two survivors that overlap, and every loss is due to a survivor at least as probable |
| `Nms.PermutationKeeps` | demo/box.c:103-110 | later re-sorts for other classes change nothing of what is known about a finished class |
| `Nms.DoClass` | demo/box.c:103-126 | a class is completed while all finished ones stay finished and all later ones untouched |
| `Nms.DoNmsSort` | demo/box.c:84-127 | in the end every class is complete and justified among the detections with objectness, which come first; all others are as they were |
| `NmsObj.Suppress` | demo/box.c:149-162 | each detection loses objectness and all probabilities exactly if a survivor before it overlaps it above the threshold |
| `NmsObj.KilledIsNothing` | demo/box.c:149-162 | a detection that loses keeps its box, and has neither objectness nor probabilities |
| `NmsObj.SuppressJustified` | demo/box.c:148-162 | no two survivors overlap, and every loss is due to a survivor of at least the same objectness |
| `NmsObj.DoNmsObj` | demo/box.c:129-163 | the same for the whole array, and no detection is lost or duplicated |

## Left out

- Sockets, message queues, shared memory, files, signals, ports and printing: only the
  messages are modelled, as values.
- The error paths for a missing network object in the load, unload and predict tasks.
- Threads' `tid` and their joining at `src/nprocess.c:153-160`, failures of thread
  creation, and the copying of data offsets at `src/nprocess.c:37-51`.
- Data races on `num_vpred`, `ewt` and `ntasks`: steps are atomic.
- The server's and the OS's release of memory at shutdown.
- JPEG, GIF, BMP, PSD, PIC and PNM, SIMD kernels, conversion between floats and RGBE,
  CRC tables, chunk parsing, palettes and transparency.
- PNG depths below 8 bits with the unpacking of samples, and the rewriting of 16-bit samples as numbers of the machine.
- The row offset at `demo/stb_image_write.h:698`.
- Image drawing, resizing and the demo applications.
- Growth of the output buffers (`stbi__zexpand`, `stbiw__sbgrowf`), whose capacities are `int`s that double: the output is a sequence.
- Inflater.ZBuf.ParseZlib: how decoding without end stops in the code, where the growth of the buffer overflows an `int` or memory runs out; it is the outcome `OutOfFuel`.
- Inflater.ZBuf.ParseToken: length symbols 286 and 287 and distance symbols 30 and 31 have base 0 in the reader's tables; a copy from distance 0 would read bytes not yet written, and its result is `Unwritten`.
- Inflater.ZBuf.CopyBytes: the output is a sequence that grows by a byte at a time, not a buffer with a write pointer.
- Deflater.Push: buckets hold positions instead of pointers and are sequences; the in-place move of the younger half is the sequence's second half.
- Nms.DoNmsSort: probabilities and boxes are real numbers; `qsort` is known by its contract only, with an arbitrary order of equal elements.
- NmsObj.DoNmsObj: the same, and a detection carries its probabilities as a value where the source has a pointer.
- Executor.StepKeepsInv: that the handler thread submits between any two steps is a matter of the state machine; the class `NpuOs.NpuOS` carries out its steps one at a time. `task_free` is not modelled.
- DagRunner.StepKeepsInv: threads are stacks of frames in a value, on which the class `Nprocess.Process` carries out single steps; the intrusive `next` list of the process is the order of task numbers.
- LoadProtocol.RunsKeepInv: the two registries are maps from network and OS to what the classes' `SlotOf` gives; the file transfer inside a load is left out.
- Scheduler.Mwct: the comparison of sums of doubles is that of real numbers. A request for partitions registered for an index without an OS, at which the code follows a null pointer, is left out.
- Scheduler.Mnt: the same null pointer is left out.
- Bookkeeping.RunsKeepInv: the book is that of one OS, on which the steps for other OSes have no effect.
- TgaReader.LoadTga: palettes, 16-bit colours and uncompressed data give the result `Other`, and the conversion to another number of components is left out; the buffer is one of pixels, not of bytes.
- HdrRle.ReadScanline: a scanline of 8 <= width < 32768 that is not run-length coded gives the result `Flat`; that the source then restarts the image from plain pixels is left out. Plain pixels behind the end of the input, which the source leaves as they happen to be in memory, give the result `Garbage`.
- HdrRle.WriteScanline: the components are given as bytes.
- TgaWriter.WriteTga: the branch without run-length coding is left out.
- PngInterlace.CreatePngImage: the final image is a two-dimensional array of pixels, not a byte buffer with computed offsets; depths below 8 bits are left out.
- PngInterlacedImage.InterlacedReadBack: depths below 8 bits are left out.
- Png.WriteAndRead: the chunks around the compressed data are left out; the pixels go from filter to compressor to inflater to filter. `fits` does not cover the capacity of the compressor's buffer.
- PngEncoder.ChooseLine: estimates are unbounded numbers, and `fits` tells whether they are the code's; what an `int` that has overflowed holds is left out.
- PngDecoder.CreateRaw: depths below 8 bits are left out; samples of 16 bits stay two bytes, upper byte first, which the source rewrites as numbers of the machine.
- NpuTasks.NnObject.LoadTask: the missing object and the file transfer are left out.
- NpuTasks.NnObject.UnloadTask: the missing object and the removal of files are left out.
- NpuOs.NpuOS.Return: `task_free` is left out, and so is `current` pointing to freed memory.
- BitHandler.ConvertToBitstring: the shift is the intended one of 64 bits; `BitHandler.ConvertAsWritten` has the one in the code.
- Placement.Place: an OS that disconnects and connects again is left out.
