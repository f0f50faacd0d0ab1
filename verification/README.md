# Verified models of the boot loader's decoders, allocator and TFTP server

This project models four components of a Realtek boot loader and proves what they are for.

**LZMA decoder** (`btcode/LzmaDecode.c`, without `_LZMA_IN_CB` and `_LZMA_OUT_READ`). `RangeCoder` holds the
32-bit range decoder and an ideal interval-narrowing encoder with the same adaptive probabilities;
`LzmaModel` is the packet decoder as functions; `LzmaCoding` and `LzmaStream` say how trees, lengths,
distances, packets and whole streams are encoded and that decoding inverts it; `LzmaLaws` and `LzmaContexts`
say what the state, the distances and the probabilities stand for, which both directions share; `LzmaEdge` is an input on
which `Code` reaches `Range`; `LzmaDecoder` is the program itself, a class that updates registers,
probabilities and output in place.

**Gzip decoder** (`btcode/gunzip.c`). `BitStream` is the input as a string of bits; `Huffman` the canonical
code of section 3.2.2 of RFC 1951, its intervals and the search for a symbol; `HuffmanTables` and
`FastTables` the tables built in place; `InflateModel` the decoder as functions; `InflateFormat`,
`InflateHeader` and `InflateBlocks` the format read the other way, from blocks to bits; `InflateTables` the rules behind
the tables that both share; `InflateAccepted` what
the decoder accepts; `Inflater` the program, with its bit buffer. `Lz77` is the self-overlapping copy that both decoders share.

**Allocator** (`boot/init/calloc.c`). `HeapLayout` describes the heap as a row of blocks and what `malloc` and
`free` do to it; `HeapProperties` and `HeapRuns` what that means for one call and for whole runs;
`HeapHeaders` how headers in memory represent the row; `Allocator` the program over memory.

**TFTP server** (`boot/init/eth_tftpd.c`, server mode). `TftpModel` is the state and event table with its
handlers; `TftpUpload` and `TftpDownload` put the server together with a conforming client (RFC 1350) and a
network in which every packet sent may arrive at any later time, any number of times, until it is lost,
and in which everything on its way may be lost at any time, under a clock that never runs backwards; `Runs` has
the runs of such systems and what can be reached;
`TftpServer` is the program over its globals. `Checksum` has the IP header checksum (RFC 1071) and the
checksum of `btcode/cvimg.c`.

In each component the class that updates state is proved equal, call by call, to functions, and the
results below are proved about those functions. Option results stand for the error returns. `Fault` and
`Trap` stand for what lies outside the model: undefined behaviour of the C code (a write past `outbuf`, a
table index out of range, a copy from before the output, a code-length table that overflows) and, in gzip,
code lengths that are not Kraft-valid, on which the C code may be defined. Nothing is claimed after it.

## Where the code and its comments or format disagree

- `malloc` never advances `prev`, so taking a block that is not the head of the free list moves the head past
  every free block below it. Those blocks are on no list any more, although `memleft` still counts them.
  `HeapLayout` calls them Lost; `memleft` is the sum of the free list exactly when every request was served
  by the head of the list (`HeapRuns.RunConserves`), and `HeapRuns.LosingRunLoses` is a run of four calls that
  loses a block. `free(malloc(n))` restores the heap exactly when the head of the list served the request and
  the list is not empty after it (`HeapRuns.FreeUndoesMalloc`); freeing everything after a run restores the initial
  block exactly when the head served every request and the list is not empty at the first `free`
  (`HeapRuns.FreeingAllAfterRun`).
- The comment in `free` that `frhd` is never NULL after `i_alloc` does not hold: an exact fit empties the list
  (`HeapRuns.ListCanBeEmpty`), and the next `free` stops at its assertion.
- `malloc`'s comment says that the higher part of a block is allocated; the code that is compiled takes the
  lower part. `i_alloc` counts units of 8 bytes, not 4, and treats `_heapend` as the first byte after the heap.
- `build_bits_table` runs once per alphabet, so a run of code lengths that crosses from the literal/length
  lengths into the distance lengths, which section 3.2.7 of RFC 1951 allows, is misread
  (`InflateHeader.CrossingHeaderMisread`). The same section counts 1 to 32 distance lengths; the program rejects 31 and
  32 (`InflateHeader.WideHeaderRejected`). A well-formed header is read back exactly when neither happens
  (`InflateHeader.HeaderRead`).
- Nothing checks that the code-length code of a header is a prefix code, nor that the last run of a table ends
  with the table. `InflateAccepted.AcceptedStream`: what inflate returns is the output of blocks that the input
  spells exactly when every dynamic header passes both checks. (A block list may only hold headers that the
  program reads: no crossing run, at most 30 distance lengths.) `InflateAccepted.OverrunAccepted` is an accepted
  stream that does not, and in which no RFC 1951 header at all is spelled.
- `Code < Range` can fail. It fails at once when the four bytes after the first are all 255
  (`RangeCoder.StartBelow`). It is kept by every adaptive bit but not by a direct bit when `Range` is odd and
  `Code` is `Range - 1` (`RangeCoder.BelowRange`); over runs, it is kept along exactly the messages in the encoder's
  interval (`RangeCoder.RunBelow`), and lost at a direct bit exactly on the last message of an odd interval
  (`RangeCoder.DirectLoses`, `RangeCoder.OddRangeLoses`). `LzmaEdge.CodeReachesRange` is such an input:
  `0 0 66 2 216 69 69 124 43 255` after the properties, with lc = lp = pb = 0. On encoded streams it always holds
  (`RangeCoder.RoundTrip`).
- After an upload the server moves to the next port at once, so a lost acknowledgement of the last block is
  never repeated (`TftpUpload.LastAckOnlyOnce`), although section 6 of RFC 1350 encourages waiting for that case.
- A copy of the write request that arrives more than 20 seconds after the last accepted packet starts the upload
  over, while the client goes on from where it was; if what is on its way is then lost, the client cannot
  finish (`TftpUpload.LateCopyWedges`; `TftpUpload.FinishesAfterLoss` says exactly when it can).
- A read request is refused while a transfer holds the lock, its own first one included: when the first block
  of a download is lost, repeating the request does not help (`TftpDownload.FirstLostWedges`).
- A transfer that ends in an error keeps the lock (`TftpModel.ErrorKeepsLock`). From then on read requests are
  refused until a transfer completes after which the server goes on, and exactly until then
  (`TftpModel.LockedOut`). A write request starts the server again but does not end this
  (`TftpModel.WriteDoesNotReopen`, with `TftpModel.FrozenAfterError`).

## Model

| member | source | states |
|---|---|---|
| RangeCoder.BoundInside | btcode/LzmaDecode.c:56-60 | After one conditional 8-bit shift `bound` lies strictly between 0 and Range, and both parts are at least 2^16, so one more shift restores 2^24 |
| RangeCoder.ProbMoves | btcode/LzmaDecode.c:59-60 | The size of both updates: p grows by the whole 32nd part of 2048 - p, or falls by the whole 32nd part of p |
| RangeCoder.BoundIs | btcode/LzmaDecode.c:58-58 | The bound is the largest multiple of p that the whole 2048th parts of Range give |
| RangeCoder.BoundsReached | btcode/LzmaDecode.c:59-60 | 31 and 2017 are the exact bounds of a probability: a run of equal bits drives every probability there, and there it stays |
| RangeCoder.Normalize | btcode/LzmaDecode.c:50-56 | Range is at least 2^24 afterwards and both registers stay within 32 bits, on every input; None is the data error at the end of the input |
| RangeCoder.SplitBit | btcode/LzmaDecode.c:58-60 | For any registers, Range stays between 2^16 and 2^32 and every probability within its bounds; only the one in use changes, after a 0 bit by the whole 32nd part of its distance to 2048 upwards, after a 1 bit by the whole 32nd part of itself downwards |
| RangeCoder.DecodeDirect | btcode/LzmaDecode.c:494-501 | A direct bit keeps the register invariant on every input and touches no probability |
| RangeCoder.Start | btcode/LzmaDecode.c:37-38 | Five bytes establish the register invariant |
| RangeCoder.Nested | btcode/LzmaDecode.c:56-66 | The encoder's intervals are nested: a message in the last one is in every earlier one |
| RangeCoder.RoundTrip | btcode/LzmaDecode.c:37-71 | Every message in the encoder's final interval decodes to exactly the encoded choices, with Code the message's distance above low and below Range |
| RangeCoder.StartTracks | btcode/LzmaDecode.c:37-38 | The first five bytes put decoder and encoder in agreement |
| RangeCoder.BelowRange | btcode/LzmaDecode.c:494-501 | In one step from any registers with Code below Range, an adaptive bit keeps that, and a direct bit if and only if Range is even or Code is not Range - 1 |
| RangeCoder.StartBelow | btcode/LzmaDecode.c:37-38 | Decoding starts with Code below Range if and only if the four bytes after the first are not all 255 |
| RangeCoder.RunBelow | btcode/LzmaDecode.c:37-71 | Over every run: a message is in the interval of some choices if and only if the decoder follows them with Code below Range at every step |
| RangeCoder.DirectLoses | btcode/LzmaDecode.c:494-501 | After any such run a direct bit leaves Code below Range if and only if the widened interval has an even range or the message is not its last number; otherwise Code equals Range |
| RangeCoder.OddRangeLoses | btcode/LzmaDecode.c:494-501 | For every sequence of choices whose widened range is odd there is an input that follows it with Code below Range and then leaves Code equal to Range at a direct bit |
| RangeCoder.MessageHolds | btcode/LzmaDecode.c:37-71 | Every sequence of choices has a message in its interval, so the round trip is about something |
| LzmaModel.LiteralFits | btcode/LzmaDecode.c:295-302 | Every literal coder ends below 1846 + 768 * 2^(lc + lp) |
| LzmaModel.DecodeFooter | btcode/LzmaDecode.c:480-519 | The bits after a slot give a distance inside that slot's range |
| LzmaModel.DecodeDistance | btcode/LzmaDecode.c:472-522 | Every decoded distance fits 32 bits |
| LzmaModel.SlotOrder | btcode/LzmaDecode.c:480-487 | The distance ranges of different slots do not overlap |
| LzmaModel.SlotsEnd | btcode/LzmaDecode.c:480-487 | The 64 slots cover exactly the 32-bit distances |
| LzmaModel.Apply | btcode/LzmaDecode.c:331-344 | Every packet keeps the main-loop invariant (state below 12, at least 7 exactly after a match, each rep distance within the output) and only appends output, up to the limit |
| LzmaLaws.StateMeans | btcode/LzmaDecode.c:331-528 | After any playable packets from the start, the state tells the kind of the last packet that is no literal, whether it followed another such packet, and how many literals, up to three, came after it |
| LzmaLaws.OutputMeans | btcode/LzmaDecode.c:331-561 | A packet is refused if and only if it copies from before the output; a match or repeat of coded length n appends n + 2 bytes, a short repeat one, cut at outSize, each equal to the byte one distance before it |
| LzmaLaws.RepsMean | btcode/LzmaDecode.c:384-435 | A match puts its distance first and drops the last; a repeat moves the chosen distance to the front, those before it keep their order behind it, those after it stay |
| LzmaLaws.SlotMeans | btcode/LzmaDecode.c:480-487 | A slot is twice the place of the distance's highest bit plus the bit below it |
| LzmaContexts.ContextsApart | btcode/LzmaDecode.c:84-118 | Two different contexts (bit of a packet, state, position, tree and node) never use one probability |
| LzmaContexts.ContextFits | btcode/LzmaDecode.c:84-118 | Every context has its probability in the array |
| LzmaContexts.PacketSpelled | btcode/LzmaDecode.c:278-528 | The choices of every packet are those of its contexts: IsMatch by state and position, lengths by position, slots by the length up to 3, literals by position and previous byte, compared literals by the match byte's bits up to the first difference |
| LzmaContexts.PacketValid | btcode/LzmaDecode.c:278-528 | Every bit of every packet is in a context of the array or is a direct bit |
| LzmaContexts.SharedSlots | btcode/LzmaDecode.c:474-478 | Two lengths share a slot tree if and only if they are equal or both stand for 5 bytes or more |
| LzmaContexts.SharedCoders | btcode/LzmaDecode.c:295-302 | Two literals share a coder if and only if the low lp bits of their positions and the high lc bits of the bytes before them agree |
| LzmaModel.Decode | btcode/LzmaDecode.c:278-563 | From any state the loop only appends, never beyond outSize, and reads only the input |
| LzmaCoding.TreeInverse | btcode/LzmaDecode.c:68-71 | Following the choices for some bits is the same as the bit tree decoding to exactly those bits, in both directions |
| LzmaCoding.MatchedInverse | btcode/LzmaDecode.c:315-330 | The same for literals coded against the match byte, through the switch to the plain tree |
| LzmaCoding.ReverseInverse | btcode/LzmaDecode.c:509-517 | The same for the reverse trees of a distance |
| LzmaCoding.DirectInverse | btcode/LzmaDecode.c:492-503 | The same for direct bits |
| LzmaCoding.LengthInverse | btcode/LzmaDecode.c:439-470 | Every length 0..271 is decoded from exactly its choices |
| LzmaCoding.SlotUnique | btcode/LzmaDecode.c:480-521 | A distance lies in the range of exactly one slot |
| LzmaCoding.DistanceInverse | btcode/LzmaDecode.c:472-522 | Every 32-bit distance, the end marker included, is decoded from exactly one choice of slot, direct bits and tree bits |
| LzmaCoding.SpecTreesDisjoint | btcode/LzmaDecode.c:484-488 | The reverse trees of different slots use disjoint probabilities between SpecPos and Align |
| LzmaStream.WhichInverse | btcode/LzmaDecode.c:360-435 | The rep bits select the intended repeat distance, and only those bits do |
| LzmaStream.PacketInverse | btcode/LzmaDecode.c:278-563 | A packet is decoded if and only if the range decoder follows that packet's choices |
| LzmaStream.DecodesStream | btcode/LzmaDecode.c:278-589 | If the range decoder follows a stream's choices, the main loop returns the stream's LZ77 expansion |
| LzmaStream.AcceptedIsStream | btcode/LzmaDecode.c:278-589 | Conversely, whatever the loop accepts is the expansion of a complete stream whose choices it followed |
| LzmaStream.DecodesMessage | btcode/LzmaDecode.c:160-589 | For every complete stream and every input in its final interval, LzmaDecode succeeds with exactly the stream's expansion and the number of bytes consumed |
| LzmaStream.DecodesEncoding | btcode/LzmaDecode.c:160-589 | Round trip: decoding what the ideal encoder writes for any complete stream gives the stream's expansion |
| LzmaStream.AcceptedOutput | btcode/LzmaDecode.c:160-589 | Every successful result, on any input, is the expansion of some complete stream |
| LzmaEdge.SpanOfChoices | btcode/LzmaDecode.c:56-66 | Choices that use different probabilities cut the interval by the probabilities found before them, train each of these once, and no other |
| LzmaEdge.EdgeIsLzma | btcode/LzmaDecode.c:278-503 | The choices of the input below are those of a literal, two matches and the first part of a third match, whose next choice is a direct bit |
| LzmaEdge.CodeReachesRange | btcode/LzmaDecode.c:494-501 | On a concrete input of ten bytes the decoder follows these choices with Code below Range, and the direct bit leaves Code equal to Range |
| Lz77.CopyRepeats | btcode/gunzip.c:305-306 | In a copy, self-overlapping or not, every byte repeats the one `distance` before it |
| LzmaDecoder.DecodeProperties | btcode/LzmaDecode.c:124-156 | Accepts exactly headers of at least 5 bytes with first byte below 225, and splits it into lc, lp, pb that compose back to it |
| LzmaDecoder.Decoder.Refill | btcode/LzmaDecode.c:50-56 | In place, as Normalize |
| LzmaDecoder.Decoder.Bit | btcode/LzmaDecode.c:58-66 | In place, as the adaptive bit of the model |
| LzmaDecoder.Decoder.Tree | btcode/LzmaDecode.c:68-71 | In place, as the bit tree of the model |
| LzmaDecoder.Decoder.ReverseTree | btcode/LzmaDecode.c:508-518 | OR-ing in bits from the low end, each of them clear, gives the start value plus the value of the reverse tree |
| LzmaDecoder.Decoder.DirectBits | btcode/LzmaDecode.c:492-503 | In place, as the direct bits of the model |
| LzmaDecoder.Decoder.Length | btcode/LzmaDecode.c:439-470 | In place, as the length of the model |
| LzmaDecoder.Decoder.Distance | btcode/LzmaDecode.c:472-521 | In place, as the distance of the model |
| LzmaDecoder.Decoder.LiteralSymbol | btcode/LzmaDecode.c:293-330 | Both loops together decode one literal symbol; every probability index is in range |
| LzmaDecoder.Decoder.CopyMatch | btcode/LzmaDecode.c:545-561 | The copy loop appends the match, cut at outSize |
| LzmaDecoder.Decoder.Which | btcode/LzmaDecode.c:360-435 | The rep bits choose and rotate the repeat distances |
| LzmaDecoder.Decoder.RepStep | btcode/LzmaDecode.c:359-399 | A pass with a repeated distance does what the model's packet does, errors included |
| LzmaDecoder.Decoder.MatchStep | btcode/LzmaDecode.c:346-528 | A pass with a match does what the model's packet does, errors and end marker included |
| LzmaDecoder.Decoder.Step | btcode/LzmaDecode.c:278-562 | One pass of the main loop decodes one packet of the model and applies it |
| LzmaDecoder.Decoder.Decode | btcode/LzmaDecode.c:160-589 | The whole of LzmaDecode equals the model's decoder on every input: output, sizes and data errors |
| Huffman.ShorterIsNextCode | btcode/gunzip.c:96-101 | The counting formula equals the next_code recurrence of section 3.2.2 of RFC 1951, for every length array |
| Huffman.StartOfCode | btcode/gunzip.c:83-104 | A codeword's interval of 15-bit strings starts where the codewords before it in canonical order end |
| Huffman.CodeFits | btcode/gunzip.c:83-104 | With Kraft-valid lengths every code fits its length |
| Huffman.PrefixFree | btcode/gunzip.c:83-104 | With Kraft-valid lengths no codeword begins another |
| Huffman.ReverseTwice | btcode/gunzip.c:70-81 | Reversing the low n bits twice gives them back |
| Huffman.MatchIsCover | btcode/gunzip.c:131-137 | A window matches a symbol if and only if its bits, first bit highest, lie in the symbol's interval |
| Huffman.MatchUnique | btcode/gunzip.c:121-144 | No window matches two symbols, so the scan order does not matter |
| Huffman.SymbolOfMatch | btcode/gunzip.c:121-144 | Whatever finds a matching symbol finds the one the linear search finds |
| HuffmanTables.BitReverse | btcode/gunzip.c:70-81 | The OR loop reverses the low bits |
| HuffmanTables.GetCode | btcode/gunzip.c:83-104 | The 16-bit counting loop computes the reversed canonical code |
| HuffmanTables.BuildTable | btcode/gunzip.c:106-119 | The table holds the code of every symbol |
| HuffmanTables.GetValue | btcode/gunzip.c:121-144 | The linear search finds the first matching symbol and its length, or none |
| FastTables.LookupRefinesSearch | btcode/gunzip.c:255-282 | For every Kraft-valid code and every window, the two-level lookup with its slow fallback gives the symbol of the linear search |
| FastTables.BuildFast | btcode/gunzip.c:207-238 | The tables filled in place are sound whatever the 64-group limit cuts off, and hold every code of at most 8 bits |
| FastTables.BuildShort | btcode/gunzip.c:240-248 | The same for the distance table |
| FastTables.ShortCodesAreFast | btcode/gunzip.c:215-222 | Every window that starts with a code of at most 8 bits is answered by the first table |
| InflateModel.FixedValid | btcode/gunzip.c:347-360 | The fixed code lengths are Kraft-valid |
| InflateModel.Inflate | btcode/gunzip.c:462-474 | Decoding ends on every input, only appends output, and stays within the output buffer |
| InflateModel.PastEnd | btcode/gunzip.c:450-459 | Past the input, where zero bits are read, a block is an error, so the loop cannot go on for ever |
| InflateFormat.CodeIsNext | btcode/gunzip.c:121-144 | Where the stream spells a symbol's codeword, that symbol is read |
| InflateFormat.LengthsMeet | btcode/gunzip.c:49-57 | Each length base is where the extra bits of the one before end, from 3 on; 284 ends after 258, which has 285 |
| InflateFormat.DistancesMeet | btcode/gunzip.c:59-68 | The distance table has neither gap nor overlap |
| InflateFormat.PointerExists | btcode/gunzip.c:49-68 | Every length 3..258 and distance 1..32768 has a symbol and extra bits |
| InflateTables.LengthExtraIs | btcode/gunzip.c:49-57 | Length symbols have no extra bits below 265 and at 285, and one more every four symbols between |
| InflateTables.DistanceExtraIs | btcode/gunzip.c:59-68 | Distance symbols have no extra bits below 4 and then one more every two symbols |
| InflateTables.LengthSpellings | btcode/gunzip.c:49-57 | Every length 3..257 has exactly one symbol and extra bits, 258 has exactly 284 with 31 and 285, and no other length has any |
| InflateTables.DistanceSpellings | btcode/gunzip.c:59-68 | Every distance 1..32768 has exactly one symbol and extra bits, and no other distance has any |
| InflateTables.SpellingsExist | btcode/gunzip.c:49-68 | And each of them has one |
| InflateTables.FixedLiteralCodes | btcode/gunzip.c:347-356 | The fixed literal/length codewords are those of the table in section 3.2.6 of RFC 1951, bit for bit |
| InflateTables.FixedDistanceCodes | btcode/gunzip.c:358-360 | The fixed distance codewords are the 5-bit numbers |
| InflateTables.BorderIs | btcode/gunzip.c:46-47 | The order of the code-length code: 16, 17, 18, 0, then outwards from 8 and 7 to 1 and 15 |
| InflateTables.RunCounts | btcode/gunzip.c:385-399 | Symbol 16 codes exactly the repeats of 3..6, 17 the zero runs of 3..10, 18 those of 11..138, each count in one way |
| InflateTables.RunAppends | btcode/gunzip.c:385-399 | 16 appends the last length again, 17 and 18 append zeros |
| InflateFormat.PointerDecodes | btcode/gunzip.c:287-303 | A spelled length and distance are read back exactly |
| InflateFormat.TokensDecode | btcode/gunzip.c:250-310 | Spelled literals and matches up to the end-of-block symbol decode to their LZ77 expansion, and the reader stops after it |
| InflateHeader.ReadsOps | btcode/gunzip.c:378-401 | Spelled code-length operations are carried out up to the one that fills the table; a run without a predecessor or past the table is undefined |
| InflateHeader.HeaderRead | btcode/gunzip.c:406-435 | A dynamic header well-formed by RFC 1951, with 1 to 32 distance lengths, is read back if and only if no run crosses from one alphabet into the other and there are at most 30 distance lengths; 31 and 32, and only they, are rejected; a crossing run is undefined or reads past the header |
| InflateHeader.CrossingHeaderMisread | btcode/gunzip.c:431-435 | A concrete header that RFC 1951 allows and the program misreads |
| InflateHeader.WideHeaderRejected | btcode/gunzip.c:421-422 | A concrete header of 31 distance lengths that RFC 1951 allows and the program rejects |
| InflateBlocks.StoredDecodes | btcode/gunzip.c:318-336 | A stored block yields its bytes, from any bit position |
| InflateBlocks.BlockDecodes | btcode/gunzip.c:440-460 | A block of any kind yields its expansion, and the reader stops just after it |
| InflateBlocks.InflateDecodes | btcode/gunzip.c:462-474 | Wherever the input spells a list of well-formed stored, fixed and dynamic blocks, inflate yields exactly their RFC 1951 expansion and stops after the last bit of the final block |
| InflateBlocks.InflateRoundTrip | btcode/gunzip.c:462-486 | Packing any block list into bytes after any header and inflating it gives its output |
| InflateAccepted.CodeThere | btcode/gunzip.c:121-144 | Conversely, a symbol that is read has its codeword in the stream |
| InflateAccepted.CodesAreTokens | btcode/gunzip.c:250-310 | Compressed data that is decoded to its end is spelled by literals, matches and the end-of-block symbol, and its output is their LZ77 expansion |
| InflateAccepted.LensAreOps | btcode/gunzip.c:378-401 | Code lengths that are read are spelled by operations, the last of which fills the table |
| InflateAccepted.PlainIsHeader | btcode/gunzip.c:406-435 | A header whose code-length code is a prefix code and whose tables are filled without overrun is spelled by an RFC 1951 header |
| InflateAccepted.AcceptedStream | btcode/gunzip.c:462-474 | Every successful result, on any input, is the output of a well-formed block list (with headers that the program reads) that the input spells up to where inflate stops, if and only if every dynamic header that was read is plain |
| InflateAccepted.OverrunAccepted | btcode/gunzip.c:378-401 | Streams whose last run overruns the announced table but not its 32 entries: inflate accepts them, they announce a dynamic block, and no header well-formed by RFC 1951 is spelled there, so no block list spells them |
| InflateAccepted.OverrunTooFar | btcode/gunzip.c:408-408 | With a longer run the program writes past the 32 entries of its table |
| BitStream.PeekParts | btcode/gunzip.c:146-181 | The bits of the stream split into the next n and the rest as the low and high part of a number |
| Inflater.Gunzip.Fill | btcode/gunzip.c:150-154 | The bit buffer holds exactly the stream's bits after the consumed ones, stays below 24 bits, and inptr follows |
| Inflater.Gunzip.PeekBits | btcode/gunzip.c:146-158 | Returns the next n bits of the stream without consuming them |
| Inflater.Gunzip.SkipBits | btcode/gunzip.c:160-164 | Consumes exactly n bits |
| Inflater.Gunzip.GetBits | btcode/gunzip.c:166-181 | Returns and consumes the next n bits |
| Inflater.Gunzip.Undo | btcode/gunzip.c:476-482 | inptr ends at the first byte not touched by consumed bits, if and only if the look-ahead had not passed the end of the input |
| Inflater.Gunzip.SlowSymbol | btcode/gunzip.c:269-283 | Reads the symbol of the linear search |
| Inflater.Gunzip.LiteralSymbol | btcode/gunzip.c:255-283 | Through the fast tables, reads the same symbol as the linear search and consumes its length |
| Inflater.Gunzip.DistanceSymbol | btcode/gunzip.c:291-302 | The same for distances |
| Inflater.Gunzip.LengthAndDistance | btcode/gunzip.c:287-303 | Reads the length and the distance of a match |
| Inflater.Gunzip.CopyMatch | btcode/gunzip.c:305-306 | Appends the match |
| Inflater.Gunzip.InflateCodes | btcode/gunzip.c:183-316 | With Kraft-valid tables, does what the model's symbol loop does |
| Inflater.Gunzip.InflateStored | btcode/gunzip.c:318-336 | Does what the model's stored block does |
| Inflater.Gunzip.InflateFixed | btcode/gunzip.c:338-364 | Does what the model's symbol loop does with the fixed tables |
| Inflater.Gunzip.BuildBitsTable | btcode/gunzip.c:366-404 | Fills the table with the lengths the model reads |
| Inflater.Gunzip.ReadCodeLengths | btcode/gunzip.c:424-428 | Stores the 3-bit lengths in the border order and zero elsewhere |
| Inflater.Gunzip.DynamicTables | btcode/gunzip.c:417-435 | Builds the two tables the model reads |
| Inflater.Gunzip.InflateBlock | btcode/gunzip.c:440-460 | Does what the model's block does |
| Inflater.Gunzip.InflateAll | btcode/gunzip.c:462-486 | Equals the model's inflate on every input on which the model does not give up, and gives back the look-ahead |
| HeapLayout.UnitsSuffice | boot/init/calloc.c:133-134 | The rounded request holds nbytes if and only if rounding up does not wrap in 32 bits, and then one unit less would not |
| HeapLayout.FirstFit | boot/init/calloc.c:150-152 | The first listed block that is large enough, every earlier one being too small |
| HeapLayout.TakeKeeps | boot/init/calloc.c:152-182 | malloc keeps the heap invariant: address-ordered blocks that tile the heap exactly, no two listed ones touching |
| HeapLayout.GiveKeeps | boot/init/calloc.c:47-124 | free keeps it too, merging with both neighbours where they are listed |
| HeapProperties.TakeConserves | boot/init/calloc.c:160-183 | malloc moves exactly nunits from memleft to the live blocks, and what it loses is what was listed before the block taken |
| HeapProperties.GiveConserves | boot/init/calloc.c:47-124 | free moves the block's units back to the free list |
| HeapProperties.Total | boot/init/calloc.c:32-205 | Live, listed and lost units always add up to the heap |
| HeapProperties.Disjoint | boot/init/calloc.c:32-205 | No two blocks overlap |
| HeapRuns.FreeUndoesMalloc | boot/init/calloc.c:32-191 | free(malloc(n)) restores the heap, split and exact fit alike, if and only if no free block lies before the one taken and the list is not left empty; an empty list stops at the assertion, and otherwise exactly the blocks before it are lost |
| HeapProperties.AllFreeIsOne | boot/init/calloc.c:32-125 | With nothing live the heap is one free block of the initial size if and only if nothing is lost |
| HeapRuns.FreeingAll | boot/init/calloc.c:32-125 | Freeing all live blocks in any order is possible and gives back the initial block if and only if nothing is lost and the list is not empty at the first free |
| HeapRuns.Served | boot/init/calloc.c:128-191 | malloc returns the lowest free block that fits, with the size asked for and disjoint from every other block; it spins if and only if none fits |
| HeapRuns.StepLoses | boot/init/calloc.c:32-191 | One call loses a block if and only if it is a malloc that skips a listed block |
| HeapRuns.RunLoses | boot/init/calloc.c:32-191 | A run has lost nothing if and only if every malloc was served by the head of the list |
| HeapRuns.RunConserves | boot/init/calloc.c:32-205 | Over every run memleft, the listed and the lost units, and the live units add up to the i_alloc total; memleft equals the sum of the free list if and only if every malloc was served by the head of the list |
| HeapRuns.ReleasesRun | boot/init/calloc.c:46-46 | Any live blocks can be freed one after the other if and only if the list is not empty at the first free |
| HeapRuns.FreeingAllAfterRun | boot/init/calloc.c:32-205 | After any run, freeing everything in any order is possible and restores the initial heap if and only if every malloc was served by the head of the list and the list is not empty at the first free |
| HeapRuns.LosingRunLoses | boot/init/calloc.c:150-171 | Four calls after which a freed block is on no list |
| HeapRuns.ListCanBeEmpty | boot/init/calloc.c:52-54 | After an exact fit the list is empty and the next free stops at its assertion |
| HeapHeaders.TakeHeaders | boot/init/calloc.c:160-179 | malloc's writes leave headers that spell the new row, with the new head |
| HeapHeaders.GiveHeaders | boot/init/calloc.c:56-124 | free's writes leave headers that spell the new row |
| Allocator.Heap.IAlloc | boot/init/calloc.c:194-205 | One free block of the heap's size |
| Allocator.Heap.Malloc | boot/init/calloc.c:128-191 | Keeps the invariant over headers, frhd and memleft, takes the first fit, ends (the list is walked upwards), and writes inside no live block |
| Allocator.Heap.Free | boot/init/calloc.c:32-125 | Keeps the invariant, gives the block back in address order with both merges, ends, and writes inside no other live block |
| Allocator.Heap.Store | boot/init/calloc.c:182-182 | A client's write past the header of a block it holds keeps the invariant |
| TftpModel.SendsBlock | boot/init/eth_tftpd.c:1836-1859 | For every stored length and every n, sends exactly block n of the image, raises the end flag exactly at the last, and past the last has a negative length |
| TftpModel.BlocksSpell | boot/init/eth_tftpd.c:1836-1859 | The blocks concatenate to the image, and exactly the last of them is shorter than 512 bytes |
| TftpModel.WriteReads | boot/init/eth_tftpd.c:1455-1456 | A stored block is read back from where it was stored, and nothing else in memory changes |
| TftpModel.WriteStores | boot/init/eth_tftpd.c:1455-1466 | Storing block k where it belongs keeps every stored prefix and extends the one before it |
| TftpModel.WritePlaces | boot/init/eth_tftpd.c:646-677 | An accepted write request puts the upload at 0x80000000 if the name is "boot.img" and at the image address otherwise, decides the jump by "nfjrom" in the name, "boot.img" or an earlier decision, and is acknowledged as block 0 |
| TftpModel.ContainsIs | boot/init/eth_tftpd.c:647-647 | strstr finds a part if and only if the name is something, the part, and something |
| TftpModel.UploadPacketsInDownload | boot/init/eth_tftpd.c:180-190 | During a download a data packet of the expected number is stored where the last upload ended, and an accepted write request ends the download unanswered |
| TftpModel.AcksInUpload | boot/init/eth_tftpd.c:191-201 | During an upload an acknowledgement of another block than the expected one is answered with that block of the image |
| TftpModel.IdleDrops | boot/init/eth_tftpd.c:168-179 | Between transfers nothing but a request changes the server |
| TftpModel.KickLocks | boot/init/eth_tftpd.c:168-202 | No packet breaks the lock: a transfer holds it, and when it is free there is no transfer and no end flag |
| TftpModel.AlwaysLocked | boot/init/eth_tftpd.c:2017-2070 | The same over every sequence of packets, errors and abandoned transfers included |
| TftpModel.ReadsStartClean | boot/init/eth_tftpd.c:2017-2021 | In every reachable state a read request is answered if and only if the server runs and the lock is free; it then finds the server idle without a stale end flag and gets block 1; the table's second read-request entry is never used |
| TftpModel.ReleasedByCompletion | boot/init/eth_tftpd.c:1496-1499 | The lock is released by a packet if and only if it is the short block of an upload or the acknowledgement of the last block of a download |
| TftpModel.LockedOut | boot/init/eth_tftpd.c:2017-2070 | From every reachable state in which the lock is held, every read request is refused through whatever arrives, if and only if none of the packets completes a transfer after which the server goes on |
| TftpModel.ErrorKeepsLock | boot/init/eth_tftpd.c:349-363 | In every reachable transfer an error or option packet leaves the server idle with the lock held |
| TftpModel.FrozenAfterError | boot/init/eth_tftpd.c:2017-2070 | In that state nothing that arrives changes the server, if and only if no accepted write request at the TFTP port is among it |
| TftpModel.WritesTaken | boot/init/eth_tftpd.c:2022-2035 | A write request at port 69 moves the server if and only if it runs and the lock is free, or block 1 is expected, or more than 2000 ticks have passed since the latest accepted packet |
| TftpModel.WriteDoesNotReopen | boot/init/eth_tftpd.c:2018-2021 | A read request, an error and an accepted write request, after which the server still refuses every read request |
| TftpUpload.NextKeeps | boot/init/eth_tftpd.c:1407-1500 | Every action of client, server and network keeps the upload invariant |
| TftpUpload.UploadSafety | boot/init/eth_tftpd.c:1407-1500 | In every run, from every running server: memory holds the file's prefix of the blocks counted, a late request leaves a valid prefix, an idle server has stored the whole file and offers it, and a client that has finished has its whole file stored |
| TftpUpload.UploadPlaced | boot/init/eth_tftpd.c:646-665 | After a completed upload from any running server the whole file lies at 0x80000000 if its name is "boot.img" and at the server's image address otherwise, and that is the image address |
| TftpUpload.UploadJumps | boot/init/eth_tftpd.c:646-656 | A completed upload has started its image if and only if its name is "boot.img" or contains "nfjrom", or that was decided before |
| TftpUpload.CompleteUploads | boot/init/eth_tftpd.c:1496-1499 | The upload is complete exactly when the server has moved to another port |
| TftpUpload.LastAckOnlyOnce | boot/init/eth_tftpd.c:1471-1499 | Once the upload is complete, no run makes the server send anything more from the port the client talks to |
| TftpUpload.UploadFinishes | boot/init/eth_tftpd.c:1407-1500 | For every file, and whatever transfer the server was left in, there is a run in which the client finishes |
| TftpUpload.FinishesAfterLoss | boot/init/eth_tftpd.c:1407-1500 | After any run in which then everything on its way is lost, the client can still finish if and only if it is at its end, still asking, or the server expects its block or the next one |
| TftpUpload.LateCopyWedges | boot/init/eth_tftpd.c:2022-2035 | For every time more than 20 seconds after the last accepted packet, a run in which a copy of the write request that arrives then starts the upload over, after which a loss is fatal |
| TftpDownload.NextKeeps | boot/init/eth_tftpd.c:1608-1656 | Every action of client, server and network keeps the download invariant: the server is never ahead of the client, and the end flag is up exactly while the last block is outstanding |
| TftpDownload.DownloadSafety | boot/init/eth_tftpd.c:1608-1656 | In every run the client holds a prefix of the image, all of it once it has finished, and the server is idle again only after that |
| TftpDownload.DownloadFinishes | boot/init/eth_tftpd.c:1608-1656 | For every image there is a run in which the client gets all of it and the server returns to idle |
| TftpDownload.FinishesAfterLoss | boot/init/eth_tftpd.c:1608-1656 | After any run in which then everything on its way is lost, client and server can still finish if and only if the server is idle, or the client has a block and is at most one past the server's |
| TftpDownload.FirstLostWedges | boot/init/eth_tftpd.c:2018-2021 | When the first block is lost the download cannot finish: the lock refuses the repeated request |
| TftpDownload.RoundTrip | boot/init/eth_tftpd.c:1407-1656 | After any completed upload that does not start its image, every download ends with the uploaded file |
| TftpServer.Tftpd.TftpdEntry | boot/init/eth_tftpd.c:1706-1730 | The initial state: idle at port 2098 without lock, image or messages |
| TftpServer.Tftpd.SendBlock | boot/init/eth_tftpd.c:1822-1887 | Sends block n of the image to the client, and raises the end flag exactly for the last block; past it, as the model |
| TftpServer.Tftpd.SetTftpRrq | boot/init/eth_tftpd.c:525-611 | At port 69, answers with block 1 of the image and takes the lock; at any other port changes nothing |
| TftpServer.Tftpd.SetTftpWrq | boot/init/eth_tftpd.c:616-677 | At port 69, starts an upload at 0x80000000 for "boot.img" and at the image address for any other name, decides the jump by the name, and acknowledges block 0; at any other port changes nothing |
| TftpServer.Tftpd.StoreBlock | boot/init/eth_tftpd.c:1455-1472 | Writes the block at the store address, advances address, length and block number by it, and acknowledges it |
| TftpServer.Tftpd.LastPacket | boot/init/eth_tftpd.c:1476-1527 | The short block releases the lock, offers the stored file at its full length and moves the server to the next port |
| TftpServer.Tftpd.PrepareAck | boot/init/eth_tftpd.c:1407-1500 | At the server port, stores exactly the expected block, acknowledges it and changes no other byte of memory; any other block only repeats the acknowledgement before the expected one; another port changes nothing |
| TftpServer.Tftpd.PrepareData | boot/init/eth_tftpd.c:1608-1659 | At the server port, the expected acknowledgement brings the next block of the image, after the last one the end of the transfer; any other brings the expected block again; another port changes nothing |
| TftpServer.Tftpd.Dispatch | boot/init/eth_tftpd.c:168-202 | As the state and event table of the model; idle, only requests change anything |
| TftpServer.Tftpd.KickTftpd | boot/init/eth_tftpd.c:2017-2069 | As the event selection of the model; keeps the lock invariant |
| Checksum.IpHeaderChecksum | boot/init/eth_tftpd.c:2085-2096 | The subtract-0xffff loop stays within 16 bits and returns the one's complement checksum of the words |
| Checksum.ChecksumCalc | btcode/cvimg.c:36-55 | The deferred fold returns the same value for the same words, a left-over byte counting as one word |
| Checksum.Verifies | boot/init/eth_tftpd.c:2004-2004 | A header recomputes to 0 if and only if its field holds the checksum of the rest, 0 and 0xffff counting as one value, and it is not all zero |
| Checksum.FilledInIsZero | boot/init/eth_tftpd.c:1797-1797 | A header with its checksum filled into the zeroed field recomputes to 0 |
| Checksum.OneWordChange | boot/init/eth_tftpd.c:2004-2004 | A change of one word goes unseen only between 0 and 0xffff |

## Left out

- Hardware access, caches, watchdog, console output, ARP, DHCP, HTTP and flash burning.
- LZMA with input callbacks or output dictionary, and the TFTP client mode.
- gzip header fields beyond where the compressed data starts, the CRC, which the program does not check, and the comparison of the output length with the trailer.
- Inflater.Gunzip.InflateAll: promises nothing outside the model's precondition: input that makes the C code undefined (output past `outbuf`, symbols 286 and 287, distances before the output, code lengths that overflow their table), and code lengths that are not Kraft-valid, on which the C code may be defined.
- Inflater.Gunzip.DynamicTables: the results of `build_bits_table` are ignored by the program, which then goes on with undefined tables; the model stops at that point.
- Inflater.Gunzip.InflateBlock: promises nothing on code lengths that are not Kraft-valid, as Inflater.Gunzip.InflateAll.
- Inflater.Gunzip.InflateCodes: takes Kraft-valid tables; with over-subscribed ones the two-level tables and the search may disagree.
- InflateModel.Inflate: reads zero bytes after the end of the input, as `get_uchar` does; the output bound is the buffer's length, not checked by the C code.
- LzmaDecoder.Decoder.Decode: the probability and output arrays are taken to be different memory.
- Allocator.Heap.Malloc: the endless loop after "Allocation Failed" is the result None; addresses count units of 8 bytes, and a heap does not reach the end of the address space.
- Allocator.Heap.Free: requires a live pointer and a non-empty list, as the source's assertion does.
- TftpServer.Tftpd.KickTftpd: starts after the header checks; packets other than TFTP and the ready flag (set once at the start) are not modelled.
- TftpServer.Tftpd.SetTftpWrq: with CONFIG_TFTP_COMMAND unset; copying the file name of a request is left out.
- TftpServer.Tftpd.PrepareAck: what follows a completed upload (the jump to the image, flashing) is the status Jumped or nothing; a datagram's length field is taken to be its length.
- TftpModel.SendsBlock: addresses and lengths are not wrapped at 32 bits; images lie far below that.
- TftpUpload.UploadSafety: for files shorter than 512 * 65535 bytes, since block numbers have 16 bits, one client, and packets of the current transfer only.
- TftpDownload.DownloadSafety: under the same conditions, from an idle server.
