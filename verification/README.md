# CILO: verified models of its decoder, loaders, CRC and printf

A Dafny model of the parts of the CILO boot loader that do the hard work, and proofs about them.

- **LZMA decoder** (`LzmaDecode.c`, `lzma_loader.c`). `RangeCoder`, `LzmaSymbols` and `LzmaPackets` specify the
  adaptive range decoder, the symbol decoders and the packet machine as functions; each decoder stands beside the list
  of bits that codes its symbols, and one equation ties the two. `RangeEncoder` is a reference encoder over unbounded
  integers. `LzmaLayout` places every decision in the probability array, and `LzmaDecisions` says which decisions a packet
  is made of. `LzmaMachine` is the packet loop with its output limit, resumption and window; `LzmaStream` is the packet
  interpreter and the whole-stream round trip. `LzmaReference` says what a packet list means without the decoder's
  registers, and `LzmaBits` which bits a packet is. `LzmaSource`, `LzmaDecoder`, `LzmaFlat` and `LzmaRing` are the program
  itself, with its registers, arrays, loops and saved state, for both settings of `_LZMA_OUT_READ`, proved against the
  machine, and `LzmaCalls` is a caller's sequence of calls. `LzmaLoader` is `load_lzma`. `LzmaSlips` follows one short
  stream bit by bit to where `Code < Range` is lost.
- **Flash files** (`mach/c3600/platio.c`, `ciloio.c`, `string.c`): `Flash` and `CiloIO`.
- **CRC-16 and the MZIP header** (`elf2mzip/mzip.c`, `elf2mzip/elf2img.c`): `Crc`, `CrcPolynomial`, `CrcBursts`, `Mzip`.
- **Two builders of one memory image** (`elf_loader.c`, `elf2mzip/elf2img.c`): `Elf`, `ElfLoader`, `Elf2Img`,
  `ElfLayout` with the bytes of their headers, and `ElfOverlap` with a file on which the two differ.
- **printf** (`printf.c`): `PrintfNumber` and `PrintfFormat` say what is printed, `PrintfMeaning` says it directive by
  directive, `PrintfWriter` and `PrintfVsprintf` are the code that writes it.

`Words` holds machine words and shared arithmetic. Widths are explicit: a `Word` is a 32-bit unsigned value, every
wrapping operation is written with `% U32`, and the CRC uses 16-bit vectors.

The encoder is not in the repository; the reference encoder is the range coder of the LZMA specification by Igor Pavlov
(LZMA SDK), with `low` kept as an unbounded number, so carries need no modelling.

Where the code differs from what its comments or its documentation suggest, the model follows the code:

- The ELF class test refuses class 0 only (`ElfLoader.ClassIsNotChecked`).
- elf2img's "allocated area is 0" message appears when the size is 1: with nothing to load, but also for segments
  that span a single byte (`Elf2Img.RefusedExactly`).
- `cilo_seek` with a negative relative offset that leaves the file goes to its end, or, in a file of 2^31 bytes or more,
  to where the wrapped sum lies (`CiloIO.SeekCurMoves`).
- `Code < Range` is not an invariant of the decoder; the exact conditions are `RangeEncoder.StartExact` and
  `RangeEncoder.DirectStaysExact`, and `LzmaSlips.SlipInStream` is a stream on which it is lost.
- The ring index arithmetic is right for every dictionary of up to 2^31 bytes; `LzmaRing.RingIndexExact` says exactly
  when it is beyond that, and `LzmaRing.RingIndexFails` that no larger size is safe.

What callers must provide is stated as preconditions: buffers that are distinct objects and large enough for what is
written (for `load_lzma` that is the decoder's output, not the size its header claims), a ring dictionary of 1 to 2^31
bytes, an output size below 2^32, a non-empty file for the decoder's input (`read_data` divides by its length), a packed
flash image ended by a word that is not the magic, and for the two image builders a program-header table inside the file
and loadable segments that are in range and do not wrap.

`dafny verify dfyconfig.toml` checks the whole project (Dafny 4.11).

## Model

| member | source | states |
|---|---|---|
| LzmaStream.StreamRoundTrip | LzmaDecode.c:273-559 | Whole-stream round trip, for a window of any size: every packet list that is applicable in it, with or without an end marker, is decoded from its reference encoding to exactly its LZ77 expansion, for every output limit it can satisfy, whatever bytes follow; and a decoder that reads the whole list has consumed exactly the code bytes and ends with the interpreter's state and distances and the encoder's probabilities |
| LzmaStream.PiecewiseRoundTrip | LzmaDecode.c:172-241 | The same stream read in any sequence of output-limited calls, splits inside copies included, gives what one call with the last limit gives: the same bytes, and with a limit past the size the end marker is read and consumed input, probabilities, state and distances are those of the whole list |
| LzmaStream.LoopReadsStream | LzmaDecode.c:273-558 | On an input that holds the bits of a packet list the loop walks through the interpreter's states: coder, machine state, distances and output are in step after the list |
| LzmaStream.ProgressIsInterpreter | LzmaDecode.c:273-558 | On every input, data errors included, the machine the loop gets to is the packet interpreter's on the packets it read, and the input consumed up to there is exactly the bits of those packets, end marker included |
| LzmaStream.WrittenIsExpansion | LzmaDecode.c:155-584 | On every input the bytes LzmaDecode writes, before a data error too, are the LZ77 expansion of the packets it read, cut at outSize |
| LzmaReference.ExpandIsPlay | LzmaDecode.c:275-556 | The packet interpreter is LZ77 with a move-to-front list: for every packet list, from every machine and over every window, the same bytes, the same four distances, and a data error exactly together. The reference is stated without the decoder's registers and with copies in closed form |
| LzmaReference.WrittenIsPlayed | LzmaDecode.c:155-584 | So on every input, data errors included, LzmaDecode writes what the packets it reads mean, cut at outSize |
| LzmaReference.StateIsMemory | LzmaDecode.c:337-523 | After every packet list the 12-state machine is in the state its last packets say: the kind of the last one that was not a literal, whether a literal came before it, and how many literals have come since, forgotten after three |
| LzmaStream.LoopIsInterpreter | LzmaDecode.c:273-558 | ... and a loop that succeeds ends in that machine |
| LzmaStream.OnlyLastPacketCut | LzmaDecode.c:556 | Of the packets read, on any input, only the last can reach past the output limit |
| LzmaStream.Expand | LzmaDecode.c:525-556 | The packet interpreter keeps the main-loop invariant and only ever appends to the output |
| LzmaMachine.Loop | LzmaDecode.c:273-558 | The main loop keeps the packet-machine and Range invariants, only appends, and stops short of its limit only at an end marker |
| LzmaMachine.Step | LzmaDecode.c:275-557 | One packet keeps both invariants, adds at least one byte unless it is the end marker, and the end marker leaves output and distances alone |
| LzmaMachine.Run | LzmaDecode.c:273-583 | A call that succeeds has reached its output limit or read the end marker |
| LzmaMachine.LoopProgress | LzmaDecode.c:273-558 | A loop that succeeds gets to its result at its last packet boundary |
| LzmaMachine.WrittenIsOutput | LzmaDecode.c:554 | What a decoder that succeeds writes is its output, cut at outSize |
| LzmaMachine.PacketStaysLive | LzmaDecode.c:52-56 | A packet decoded from any input leaves Range at least 31 * 2^13 and the number of probabilities unchanged |
| LzmaMachine.NormalizeEarly | LzmaDecode.c:559 | RC_NORMALIZE is idempotent, and doing it before a packet changes neither the packet nor whether the input runs out |
| LzmaMachine.LoopSplits | LzmaDecode.c:273-558 | Stopping the loop at a lower limit and going on is the same as not stopping |
| LzmaMachine.Resume | LzmaDecode.c:172-241 | A call that stops at any byte followed by one that goes on is one call: same bytes, same consumed input, same final state, same error |
| LzmaMachine.CallsAreOneCall | LzmaDecode.c:172-241 | Any sequence of calls with ascending limits equals the last call alone |
| LzmaMachine.ProgressSplits | LzmaDecode.c:273-558 | How far the loop gets splits at any lower limit, data errors included: if the lower limit is not reached, nothing beyond is |
| LzmaMachine.SmallerLimitIsPrefix | LzmaDecode.c:273 | On every input a run with a smaller outSize writes exactly what a larger one does, cut at the smaller size, whether either succeeds or not |
| LzmaMachine.SmallerLimitSucceeds | LzmaDecode.c:273 | ... and it succeeds whenever the larger one does, its output a prefix of that one's |
| LzmaMachine.RingAgreesWithFlat | LzmaDecode.c:526-556 | The loop over a window of any size equals the flat loop exactly as long as no match distance exceeds the window, and is a data error from the first one that does |
| LzmaMachine.RingProgressAgrees | LzmaDecode.c:526-556 | Whether the loops succeed or not, the windowed one gets to a prefix of the flat one's output, and to the same machine while no distance exceeds the window |
| LzmaMachine.RingCallAgreesWithFlat | LzmaDecode.c:526-573 | The same for a whole call: same bytes, same final state, same consumed input; and when calls fail, how the bytes they have got to compare |
| LzmaMachine.StepsAgree | LzmaDecode.c:526-538 | One packet over a window equals one packet over the flat buffer, or is a data error because its distance is beyond the window |
| RangeCoder.Bound | LzmaDecode.c:54 | (Range >> 11) * p leaves both halves of Range at least 31/2048 of it, so neither is empty for any probability in 31..2017 |
| RangeCoder.BoundIsShare | LzmaDecode.c:54 | The bound is p/2048 of Range, less than p below it |
| RangeCoder.AdaptMoves | LzmaDecode.c:55-56 | A bit moves its probability by a 32nd of the way, rounded down |
| RangeCoder.BitStaysLive | LzmaDecode.c:52-56 | For one adaptive bit of any input: after the one conditional shift 2^24 <= Range < 2^32, 0 < bound < Range, and Range stays at least 31 * 2^13 |
| RangeCoder.RunStaysLive | LzmaDecode.c:31-60 | Range >= 31 * 2^13 after every run of adaptive and direct bits on any input |
| RangeEncoder.RoundTrip | LzmaDecode.c:31-60 | For every list of adaptive and direct bits over any contexts, any first byte and any bytes behind, the decoder reads exactly that list, has consumed exactly the code bytes after its closing RC_NORMALIZE, and has adapted every probability as the encoder did |
| RangeEncoder.StreamDecodes | LzmaDecode.c:31-60 | Any code bytes that lie in the final interval, not only its base, decode to the same bits |
| RangeEncoder.IntervalsNest | LzmaDecode.c:52-56 | Code bytes in the interval of a longer bit list lie in the interval of every shorter one, and the decoder is in step at its end |
| RangeEncoder.BitInterval | LzmaDecode.c:54-56 | An adaptive bit leaves a non-empty interval nested in the one before |
| RangeEncoder.DirectInterval | LzmaDecode.c:487-498 | So does a direct bit |
| RangeEncoder.NormalizeRestores | LzmaDecode.c:52 | One byte shift always restores Range to at least 2^24 |
| RangeEncoder.LowFits | LzmaDecode.c:52-56 | The interval never leaves the space of its code bytes, so the encoder needs no carry |
| RangeEncoder.BitStaysExact | LzmaDecode.c:52-56 | On any input, while Code < Range, an adaptive bit keeps Code = V - Low with Low the exact interval base |
| RangeEncoder.DirectStaysExact | LzmaDecode.c:487-498 | A direct bit keeps Code < Range, and Code = V - Low, if and only if not (Range is odd and Code = Range - 1); otherwise it leaves Code == Range |
| RangeEncoder.SlipExample | LzmaDecode.c:487-498 | The bare coder slips when a direct bit is the first bit asked for, on code bytes FF FF FF FE (LzmaDecode asks for adaptive bits first) |
| RangeEncoder.LastNumberSlips | LzmaDecode.c:487-498 | After any bits at all, the next direct bit slips if and only if the interval has come out odd and the code bytes name its last number, and only then is Code == Range left |
| RangeEncoder.LastNumberSelects | LzmaDecode.c:487-498 | Every interval's last number is a code for its bits, so every odd interval has an input that slips |
| LzmaSlips.SlipInStream | LzmaDecode.c:475-496 | A real input: with lc = lp = pb = 0, any first byte, the code bytes 58 4B B0 C1 50 AF E8 C5 FF and anything behind them, the decoder reads a literal, match(1, 7), match(3, 9), then a third match's length and slot 15, and the first of that slot's direct bits leaves Code == Range |
| RangeEncoder.RunStaysExact | LzmaDecode.c:33-56 | Over whole runs on arbitrary input the decoder's state is the exact encoder state for the bits it read, until a direct bit slips |
| RangeEncoder.EncodedNeverSlips | LzmaDecode.c:487-498 | Streams of the reference encoder never reach the slipping case |
| RangeEncoder.StartExact | LzmaDecode.c:33-34 | A stream starts with Code < Range if and only if its code bytes 1..4 are not all ones |
| LzmaSymbols.TreeAnswer | LzmaDecode.c:64-67 | The bits that code a leaf are in the input if and only if the bit-tree decoder reads that leaf, and both stop in the same coder |
| LzmaSymbols.ReverseAnswer | LzmaDecode.c:503-513 | The same for the reverse bit tree |
| LzmaSymbols.DirectAnswer | LzmaDecode.c:487-498 | The same for direct bits |
| LzmaSymbols.MatchedAnswer | LzmaDecode.c:310-325 | The same for the literal loop beside a match byte, including its switch to the plain loop at the first bit that differs |
| LzmaSymbols.LiteralAnswer | LzmaDecode.c:286-326 | The same for a whole literal |
| LzmaSymbols.LengthAnswer | LzmaDecode.c:434-465 | The same for all lengths of the three-part length coder |
| LzmaSymbols.DistanceAnswer | LzmaDecode.c:469-516 | The same for all 2^32 distances: slot, direct bits and reversed low bits |
| LzmaSymbols.SlotsContiguous | LzmaDecode.c:477-482 | Slot intervals are contiguous |
| LzmaSymbols.SlotsCoverWord | LzmaDecode.c:469-500 | The 64 slot intervals run from 0 to 2^32 |
| LzmaSymbols.SlotIsInterval | LzmaDecode.c:475-500 | A distance is coded in a slot if and only if it lies in the slot's interval |
| LzmaSymbols.SlotBelow64 | LzmaDecode.c:469-500 | A distance has a slot below 64 if and only if it fits 32 bits |
| LzmaSymbols.DistanceBijection | LzmaDecode.c:467-516 | Slot and extra bits map one-to-one onto 0..2^32-1 |
| LzmaSymbols.EndMarkerCode | LzmaDecode.c:517 | ++rep0 == 0 holds only for slot 63 with all thirty bits behind it set |
| LzmaPackets.PacketAnswer | LzmaDecode.c:285-523 | The bits of a packet are in the input if and only if the decoder reads that packet from it, and then both stop in the same coder state |
| LzmaBits.PacketIs | LzmaDecode.c:285-523 | The bits of every packet, spelled out as the format has them: 0 and eight bits for a literal, 10, 1100, 1101, 1110, 11110 and 11111 before matches and reps, the three kinds of length, slots of six bits with their tails, 36 ones for the end marker |
| LzmaBits.MarkerIsOnes | LzmaDecode.c:467-518 | The distance of an end marker is 36 ones |
| LzmaBits.LiteralContext | LzmaDecode.c:310-325 | The probability of each bit of a literal in closed form: the node its higher bits lead to, in the plain tree, or as long as they are those of the match byte in the tree of that byte's own next bit |
| LzmaBits.SlotTree | LzmaDecode.c:467-473 | The slot of a match is read in the tree of its length: one each for lengths 2, 3 and 4, one for the rest |
| LzmaPackets.PacketDecode | LzmaDecode.c:285-523 | Only packets the format can express are ever decoded: lengths 2..273, distances 1..2^32-1, rep indices below 4 |
| LzmaPackets.Apply | LzmaDecode.c:326-432 | Every packet that is not a data error keeps state in 0..11, state >= 7 only with output, and 1 <= rep0..rep3 <= min(max(1, output), window); and it only appends |
| LzmaPackets.RepsMoveToFront | LzmaDecode.c:346-430 | A rep brings its distance to the front of [rep0, rep1, rep2, rep3] and moves those before it down by one, a match puts its own in front and drops the last, literals and short reps change nothing |
| LzmaPackets.StateRemembersLiteral | LzmaDecode.c:337-339 | state >= 7 if and only if the last packet was not a literal |
| LzmaPackets.StateSelectsDistance | LzmaDecode.c:467-470 | The state < 4 test at the distance block holds exactly for simple matches, and adding kNumLitStates there completes the state transition |
| LzmaPackets.CopyLooksBack | LzmaDecode.c:540-556 | Every copied byte equals the byte one distance before it, even if that was copied too |
| LzmaPackets.CopyIsPeriodic | LzmaDecode.c:540-556 | out[start + k] = out[start - rep0 + (k mod rep0)] |
| LzmaReference.MatchByteGoesOn | LzmaDecode.c:299-308 | The match byte of a literal is the byte the last copy would have gone on with |
| LzmaReference.ContextIs | LzmaDecode.c:277-297 | A packet is coded in the contexts of the state, of the position modulo 2^pb and of the byte before, 0 at the start |
| LzmaReference.LiteralRowAndColumn | LzmaDecode.c:290-297 | The literal block has the position modulo 2^lp as its row and the top lc bits of the byte before as its column |
| LzmaLayout.RolesInside | LzmaDecode.c:103-114 | Every probability of every decision lies inside LzmaGetNumProbs, for all properties |
| LzmaLayout.LastRole | LzmaDecode.c:103-114 | ... and the last place of the array is that of a decision, so no smaller array would do |
| LzmaLayout.RolesDistinct | LzmaDecode.c:80-114 | Different decisions never share a probability |
| LzmaLayout.SpecTreesTile | LzmaDecode.c:482 | The reverse trees of slots 4..13 lie end to end |
| LzmaLayout.SpecTreesCover | LzmaDecode.c:110-111 | ... and every place between SpecPos and Align is a node of exactly such a tree |
| LzmaDecisions.PacketCoded | LzmaDecode.c:285-523 | The adaptive bits of every packet are, in order, coded in the probabilities of the decisions they are: its own list of roles, all of them legal |
| LzmaDecisions.SharedByRole | LzmaDecode.c:103-114 | Two adaptive bits, of one packet or of two, use the same probability if and only if they are the same decision |
| LzmaDecisions.PacketLaid | LzmaDecode.c:285-523 | So every packet of a stream only touches places of decisions |
| LzmaDecisions.LaidFits | LzmaDecode.c:103-114 | ... which all lie inside the array |
| LzmaLayout.LiteralIsEightBits | LzmaDecode.c:299-325 | A literal is exactly eight adaptive bits, all in its own 768-entry block, whichever loop breaks |
| LzmaLayout.LiteralBlock | LzmaDecode.c:290-297 | The literal block index is below 2^(lc + lp) for every position and previous byte |
| LzmaLayout.ContextOfOk | LzmaDecode.c:277-297 | At every loop head the contexts the next packet is decoded in are legal |
| LzmaSource.Source.ReadData | lzma_loader.c:27-55 | The next chunk of the file in order, of size min(what is left, buffer size), or an error past the end |
| LzmaSource.Source.Test | LzmaDecode.c:38-40 | RC_TEST fails if and only if the file is used up, and loses no byte |
| LzmaSource.Source.NextByte | LzmaDecode.c:31-42 | Across any refills and any buffer size, bytes come out in file order without gap or repeat; failure means the end |
| LzmaSource.Source.Forget | LzmaDecode.c:42 | Dropping an empty window loses nothing |
| LzmaSource.Source.constructor | lzma_loader.c:90-96 | Reading starts where the file stands |
| LzmaDecoder.Decoder.Init | LzmaDecode.c:33-42 | RC_INIT: the five first bytes into Range and Code, or failure if there are not five |
| LzmaDecoder.Decoder.Normalize | LzmaDecode.c:52 | Equals the RC_NORMALIZE of the specification, failing exactly when it would |
| LzmaDecoder.Decoder.Bit | LzmaDecode.c:54-56 | Equals the adaptive-bit decoder of the specification in bit, registers, probability and input |
| LzmaDecoder.Decoder.DirectBit | LzmaDecode.c:489-496 | Equals the direct-bit decoder of the specification |
| LzmaDecoder.Decoder.BitTree | LzmaDecode.c:64-67 | The tree loop decodes what the recursive tree decoder does |
| LzmaDecoder.Decoder.ReverseBits | LzmaDecode.c:503-513 | The loop over mi and i, with its bitwise or into rep0, adds exactly the reversed bits to the distance |
| LzmaDecoder.Decoder.DirectBits | LzmaDecode.c:486-498 | The direct-bit loop shifts in exactly the direct bits, without overflow |
| LzmaDecoder.Decoder.LiteralSymbol | LzmaDecode.c:286-326 | The two literal loops decode what the literal decoder of the specification does |
| LzmaDecoder.Decoder.LengthSymbol | LzmaDecode.c:434-465 | The length block equals the length decoder of the specification |
| LzmaDecoder.Decoder.DistanceSymbol | LzmaDecode.c:469-516 | The distance block equals the distance decoder of the specification |
| LzmaDecoder.Decoder.RepSymbol | LzmaDecode.c:354-431 | The rep block chooses the rep packet of the specification and permutes rep0..rep3 as NextReps does |
| LzmaDecoder.Decoder.OlderRep | LzmaDecode.c:401-430 | rep1, rep2 or rep3 moves to the front and the ones before it move down |
| LzmaDecoder.Decoder.SimpleMatch | LzmaDecode.c:347-353 | A simple match pushes rep0..rep2 down and reads length and distance |
| LzmaDecoder.Decoder.AnyRep | LzmaDecode.c:354-433 | A short rep or a rep with its length, with the state transition |
| LzmaDecoder.Decoder.CopySymbol | LzmaDecode.c:434-523 | Length, and distance after a simple match, with state and rep0 updated |
| LzmaDecoder.Decoder.PacketSymbol | LzmaDecode.c:285-523 | One packet's bits: same packet, coder, state and distances as the specification, or failure exactly when it fails |
| LzmaFlat.ResetProbs | LzmaDecode.c:258-263 | All probabilities start at one half |
| LzmaFlat.CopyBytes | LzmaDecode.c:540-556 | The copy loop writes the overlapping copy, cut at outSize, and nothing else |
| LzmaFlat.WritePacket | LzmaDecode.c:326-431 | A packet's bytes as far as outSize goes, or a data error exactly when the interpreter has one, with nothing written |
| LzmaFlat.DecodePacket | LzmaDecode.c:275-557 | One turn of the loop is one step of the machine, on registers, probabilities, input and output buffer |
| LzmaFlat.MainLoop | LzmaDecode.c:273-558 | The loop in place computes the machine's loop, and the buffer holds what the packets before its end or a data error write, the rest untouched |
| LzmaFlat.LzmaDecode | LzmaDecode.c:155-584 | The compiled decoder: for every properties, file, refill size and outSize its result, byte count, probabilities and remaining input are the machine's; the buffer holds exactly what the machine writes, up to a data error if there is one, and is otherwise untouched. It needs room for those bytes only, whatever outSize says |
| LzmaRing.RingIndexExact | LzmaDecode.c:303-305 | The wrapped subtraction finds the right dictionary index if and only if it does not wrap to below the dictionary size; always, for dictionaries up to 2^31 bytes |
| LzmaRing.RingIndexFails | LzmaDecode.c:303-305 | For every dictionary above 2^31 bytes, and for no other, the index of the byte a whole dictionary back is wrong once the position has wrapped to 0 |
| LzmaRing.RingLooksBack | LzmaDecode.c:303-306 | dictionary[(dictionaryPos - k) mod dictionarySize] is the k-th most recent output byte |
| LzmaRing.RingPrevious | LzmaDecode.c:238-241 | The rebuilt previousByte is the last output byte, or 0 before the first |
| LzmaRing.RingPut | LzmaDecode.c:333-335 | Writing a byte keeps the dictionary equal to the most recent output |
| LzmaRing.MasksIgnoreWrap | LzmaDecode.c:277-297 | The position masks see no difference between the 32-bit global position and the true one |
| LzmaRing.RingCopy | LzmaDecode.c:228-237 | Both ring copy loops continue an interrupted copy to exactly its bytes, as far as outSize goes |
| LzmaRing.EmitByte | LzmaDecode.c:326-335 | A literal or short rep: one byte into dictionary and output, and distanceLimit = min(output, dictionarySize) |
| LzmaRing.EmitCopy | LzmaDecode.c:533-556 | A match: distanceLimit counts all of it at once, and its overlapping copy goes into dictionary and output as far as outSize goes |
| LzmaRing.RingWritePacket | LzmaDecode.c:326-556 | A packet's bytes into dictionary and output, distanceLimit = min(output + pending, dictionarySize), data error exactly when the interpreter has one |
| LzmaRing.RingTurn | LzmaDecode.c:275-557 | One turn of the ring loop is one machine step over a window of dictionarySize |
| LzmaRing.RingLoop | LzmaDecode.c:273-558 | The ring loop in place computes the machine's loop |
| LzmaRing.CopyPending | LzmaDecode.c:228-241 | The bytes left over from the last call come first |
| LzmaRing.RingCall | LzmaDecode.c:228-559 | The body of a call: pending bytes, main loop and closing RC_NORMALIZE compute the machine's run to the new limit, the dictionary, its position and limit stand for the new output, and the output buffer holds the new bytes, up to a data error if there is one |
| LzmaRing.RingState.constructor | include/LzmaDecode.h:101-103 | A fresh state asks for initialisation |
| LzmaRing.RingState.Load | LzmaDecode.c:172-227 | The registers come from the saved fields or from RC_INIT, and stand for the machine saved |
| LzmaRing.RingState.Store | LzmaDecode.c:561-573 | The saved fields stand for the new machine |
| LzmaRing.RingState.Decode | LzmaDecode.c:155-584 | The resumable decoder: whatever the earlier calls and wherever they stopped, a call delivers exactly the machine's bytes from the last call's end, up to a data error if there is one, and touches nothing else of the buffer; on success it saves the machine's state, after a data error no field has changed; after the end marker it delivers nothing more |
| LzmaCalls.DecodeAll | LzmaDecode.c:155-584 | Resumption of the code itself: calls with buffers of any sizes all succeed exactly if one call for all those bytes would, and then hand out together its bytes and leave its state; if one fails, the earlier ones have handed out a prefix of what the one call writes |
| LzmaCalls.DecodeStream | LzmaDecode.c:155-584 | A fresh decoder state on the reference encoding of any packet list applicable in its dictionary hands out, call by call, exactly the expansion as far as the sizes go, and after the whole list has consumed exactly its code bytes |
| LzmaCalls.NextCall | LzmaDecode.c:172-241 | A call that follows others equals the rest of one call for all their bytes, splits inside copies and calls after an end marker included |
| LzmaCalls.LongerFails | LzmaDecode.c:273-573 | A call that fails makes every call for more bytes fail |
| LzmaLoader.LzmaDecodeProperties | LzmaDecode.c:120-151 | Accepts exactly five bytes or more with a first byte b below 225; the counted fields are lc = b mod 9, lp = b/9 mod 5, pb = b/45, and recompose to b; the dictionary size is the little-endian word behind it, at least 1 |
| LzmaLoader.PropertiesByteOneToOne | LzmaDecode.c:126-134 | Different properties have different bytes |
| LzmaLoader.PropertiesOf | LzmaDecode.c:126-134 | The three fields of a properties byte, valid for every byte below 225 |
| LzmaLoader.UsualProperties | LzmaDecode.c:126-134 | 0x5D, with which most .lzma files begin, is lc = 3, lp = 0, pb = 2 |
| LzmaLoader.HeaderFields | lzma_loader.c:67-84 | The properties come from byte 0 and the size from bytes 5 to 8 of the file, least significant first |
| LzmaLoader.FileLayout | lzma_loader.c:67-86 | Byte by byte: properties, dictionary size, size, high word of the size, code from byte 13 on |
| LzmaLoader.ReadHeader | lzma_loader.c:67-86 | The header reads: accepted exactly for a good properties byte, with the little-endian size, leaving the file at byte 13 |
| LzmaLoader.ReadSize | lzma_loader.c:80-84 | The low word of the size, little-endian |
| LzmaLoader.RunDecoder | lzma_loader.c:88-107 | The decoder on the rest of the file, through the 512-byte buffer: started exactly if it succeeds, memory as it writes it |
| LzmaLoader.LoadLzma | lzma_loader.c:57-113 | The kernel is started exactly when the decoder succeeds on the bytes from offset 13; memory then holds what it writes, after a data error what it wrote up to there, and is otherwise untouched. Memory needs room for those bytes, not for the size in the header |
| LzmaLoader.KernelArrives | lzma_loader.c:57-113 | Loading a file made from any packet list by the reference encoder, with its size in the header or, when an end marker ends it, any size from there up such as 0xFFFFFFFF, writes exactly the list's expansion and starts the kernel |
| LzmaLoader.LoadKernel | lzma_loader.c:57-113 | load_lzma on an open file with such contents starts the kernel and leaves in memory exactly the expansion, the rest untouched |
| Flash.StrNCmp | string.c:16-25 | 0 if and only if the strings agree over n characters |
| Flash.PrefixIs | string.c:16-25 | What the comparison looks at: the first n characters, or those before the NUL |
| Flash.WordByteIs | mach/c3600/platio.c:20-28 | The bytes of a word, most significant first |
| Flash.EntryFields | mach/c3600/platio.c:20-28 | The fields read at a packed entry are that entry's |
| Flash.FirstNamed | mach/c3600/platio.c:22-31 | The first entry whose name agrees over 48 characters, none before it |
| Flash.FindFile | mach/c3600/platio.c:14-32 | Terminates on every packed image and finds the first file of that name, whatever bytes the contents hold |
| CiloIO.SeekPosition | ciloio.c:29-48 | Seeks never leave the file, whatever the 32-bit sum wraps to |
| CiloIO.SeekCurMoves | ciloio.c:36-39 | For every file: a relative seek by a signed amount moves by it when that stays inside the file and goes to the end otherwise, backwards moves included, if and only if the wrapped sum does not land inside the file before its end; where it does, which takes 2^31 bytes or more, it lands there |
| CiloIO.SeekGoesTo | ciloio.c:31-47 | An absolute seek goes to its offset or at most the end, SEEK_END to the end, an unknown one nowhere |
| CiloIO.File.Open | ciloio.c:11-22 | The first file of that name at position 0 with its contents, or code -1 |
| CiloIO.File.Seek | ciloio.c:29-48 | Only the position changes, to where SeekPosition says |
| CiloIO.File.Read | mach/c3600/platio.c:86-98 | Exactly the bytes at the position, in place, nothing else changed; counts from 2^31 up copy nothing but still advance |
| CiloIO.File.ReadLocal | ciloio.c:24-27 | An in-range read returns the slice of the contents at the position |
| CiloIO.Session | ciloio.c:24-48 | Any sequence of in-range reads and of seeks returns the matching slices of the contents |
| CiloIO.FileOpen | mach/c3600/platio.c:54-76 | The entry found, its length and its name |
| CiloIO.MemCpy | string.c:77-87 | Exactly n bytes copied, the rest of the destination unchanged |
| CiloIO.StrNCpy | string.c:41-57 | The string up to its NUL, then NULs |
| Crc.FillTable | elf2mzip/mzip.c:130-139 | Entry b of the table is eight zero-fed shifts of b in the high byte |
| Crc.CalculateCrc | elf2mzip/mzip.c:123-147 | The table-driven loop computes the bit-at-a-time register over the selected bytes, with inverted preset and inverted output |
| Crc.TableStepIsEightBits | elf2mzip/mzip.c:141-144 | One table step equals eight shift-register steps, for every register and byte |
| Crc.FeedAtOnce | elf2mzip/mzip.c:130-144 | Up to sixteen message bits may be added to the register at once and shifted through |
| Crc.ShiftLinear | elf2mzip/mzip.c:133-136 | Shifting is linear over exclusive or |
| Crc.CrcChains | elf2mzip/mzip.c:161-162 | One call's result fed to the next as its remainder gives the CRC of the concatenation |
| CrcPolynomial.RegisterIsTheRemainder | elf2mzip/mzip.c:133-136 | The register is the one and only remainder of message * x^16 (initial register added on top) modulo x^16 + x^12 + x^5 + 1 over GF(2) |
| CrcPolynomial.CrcIsTheRemainder | elf2mzip/mzip.c:123-147 | A value is calculate_crc's result if and only if its inverse is that remainder for the inverted preset |
| CrcBursts.BurstSeen | elf2mzip/mzip.c:123-147 | Two messages of one length that differ, all within sixteen consecutive bits, have different CRCs |
| CrcBursts.SeventeenBitsCanHide | elf2mzip/mzip.c:134 | Sixteen is the most: of all changes to seventeen consecutive bits, anywhere in any message, exactly one goes unnoticed, adding the polynomial's own coefficients |
| CrcBursts.UnseenExactly | elf2mzip/mzip.c:123-147 | A change of any kind goes unnoticed if and only if, as a polynomial times x^16, it is a multiple of x^16 + x^12 + x^5 + 1 |
| Mzip.MzipCalculateCrc | elf2mzip/mzip.c:156-165 | The code CRC, inverted, is the remainder of header bytes 0x38..0x6F followed by the code segment, times x^16 and with the register preset to 0xFFFF, modulo x^16 + x^12 + x^5 + 1 |
| Mzip.MzipCalculateHdrCrc | elf2mzip/mzip.c:171-179 | The header CRC, inverted, is that remainder of header bytes 0..0x35 |
| Mzip.StoreField | elf2mzip/elf2img.c:239-242 | A 16-bit field is stored high byte first for a big-endian target and low byte first otherwise, reads back as stored, and nothing else changes |
| Mzip.StoreCrcs | elf2mzip/elf2img.c:237-242 | After both stores recomputing either CRC gives the stored value, and the rest of the header is unchanged |
| Mzip.SealedMeans | elf2mzip/elf2img.c:237-242 | A header holds its CRCs if and only if the fields at 0x34 and 0x36, in the byte order of the target, are the inverted remainders of the bytes from 0x38 on with the code, and of the bytes before 0x36 |
| Mzip.DamageIsCaught | elf2mzip/elf2img.c:237-242 | Any change within sixteen consecutive bits in bytes 0..0x35, or in bytes 0x38..0x6F and the code segment, leaves one of the two stored CRCs wrong |
| ElfLoader.LoadElf32File | elf_loader.c:66-145 | For every header the answer, and for an accepted file the whole of memory: each program header's patch applied in order |
| ElfLoader.LoadTable | elf_loader.c:112-131 | The program-header loop, seeking back after every segment, applies every patch in order and counts the bytes in 32 bits |
| ElfLoader.LoadEntry | elf_loader.c:114-130 | One turn: the patch of this header, and the file left at the next one |
| ElfLoader.LoadSegment | elf_loader.c:119-127 | File bytes and zeros are one patch |
| ElfLoader.LoadSection | elf_loader.c:24-36 | Exactly the segment's file bytes at its address |
| ElfLoader.ZeroMemory | elf_loader.c:44-56 | Exactly the tail is cleared |
| ElfLoader.ClassIsNotChecked | elf_loader.c:83-88 | The class test refuses class 0 and nothing else: any other class byte gives the same verdict |
| ElfLayout.PhdrReads | include/elf.h:218-227 | A program header laid out as ELF32 has it, in either byte order, reads back as its type, offset, physical address, file size and memory size, for all field values |
| ElfLayout.EhdrReads | include/elf.h:40-55 | A file header laid out as ELF32 has it reads back as its entry point, program-header offset and count, in the byte order it names itself |
| ElfLayout.TableReads | elf_loader.c:109-130 | Program header i of a file is the one laid out 32 * i bytes behind phoff |
| ElfLayout.HeadersAccepted | elf_loader.c:74-104 | The loader accepts exactly big-endian files of a class other than 0 with program headers, elf2img both byte orders and every class |
| ElfLayout.MemSizeIsCovered | elf_loader.c:122 | For disjoint segments the number of bytes the loader reports is the number of addresses it loads, in 32 bits |
| Elf.LoadedAt | elf_loader.c:109-131 | For any segments, overlapping or not, memory holds at every address the byte of the last segment that covers it, or what was there |
| Elf.LoadedSegment | elf_loader.c:109-131 | With disjoint segments memory holds each segment's file bytes followed by zeros |
| Elf.LoadedElsewhere | elf_loader.c:109-131 | ... and nothing else changes |
| Elf.ImageAt | elf2mzip/elf2img.c:182-190 | For any segments the image holds at every address the byte of the last segment whose file part covers it, or zero |
| Elf.BuildersAgreeExactly | elf2mzip/elf2img.c:182-190 | The two programs agree at a segment address if and only if no later segment's zero tail lies over a non-zero file byte of an earlier one there |
| Elf.ImageIsMemory | elf2mzip/elf2img.c:182-190 | So for disjoint segments elf2img's image holds at every segment address what load_elf32_file leaves in memory |
| Elf.ImageGaps | elf2mzip/elf2img.c:180 | Between the segments the image is zero |
| ElfOverlap.OverlapDisagrees | elf2mzip/elf2img.c:182-190 | An ELF file that both programs accept, with overlapping segments and other virtual than physical addresses, on which they disagree |
| Elf2Img.ScanSpan | elf2mzip/elf2img.c:150-158 | The scan finds the lowest and one past the highest loadable address, or its starting values |
| Elf2Img.RefusedExactly | elf2mzip/elf2img.c:160-169 | The size is 1 if and only if nothing is loadable or all segments together span one byte |
| Elf2Img.FRead | elf2mzip/elf2img.c:189 | One segment's file bytes into the image, nothing else changed |
| Elf2Img.Overlay | elf2mzip/elf2img.c:183-190 | The overlay loop builds exactly the image |
| Elf2Img.BuildImage | elf2mzip/elf2img.c:107-190 | Which files are refused, and the whole image otherwise |
| PrintfNumber.NumberLength | printf.c:84-98 | The length printed is max(width, sign + prefix + max(digits, precision)) |
| PrintfNumber.PrintableUpTo16 | printf.c:55-56 | For every number and every base up to 16 the sixteen digits of the table are enough |
| PrintfNumber.DigitsRoundTrip | printf.c:94-95 | The digits of any number the table can print parse back to it, in any base 2..36 |
| PrintfNumber.NumberRoundTrip | printf.c:52-122 | For every value, base, width, precision and flags: stripping padding, sign and prefix and parsing the rest gives the value back; in bases above 16 for every value whose digits the table has |
| PrintfWriter.CollectDigits | printf.c:90-95 | At most 32 of the 66 places of tmp are filled, with the digits backwards |
| PrintfWriter.SignAndWidth | printf.c:70-89 | The absolute value, and the width left after sign and prefix |
| PrintfWriter.Fill | printf.c:100-101 | A padding loop writes exactly max(0, size) characters and leaves the counter where the next loop expects it |
| PrintfWriter.Number | printf.c:52-122 | number() writes exactly its text at the output pointer, returns the pointer behind it and touches nothing else; a base outside 2..36 writes nothing. It is callable for every number and base whose digits the table has |
| PrintfFormat.PlainText | printf.c:140-143 | A format without % is printed as it stands |
| PrintfFormat.FormatsCompose | printf.c:139-289 | A complete format followed by another prints what the two print in turn, the second taking up the arguments and the count where the first left off |
| PrintfFormat.CutOffDirective | printf.c:270-276 | A directive cut off by the end of the format, a lone % in particular, prints just % |
| PrintfFormat.EscapeRoundTrip | printf.c:249-251 | Doubling every % makes any text print as itself |
| PrintfMeaning.SignedReadsBack | printf.c:258-288 | Every directive %d and %i, whatever its flags, width, precision and qualifier, prints in base 10 a text from which its argument reads back as a signed 32-bit number, with h as a signed 16-bit one |
| PrintfMeaning.UnsignedReadsBack | printf.c:246-288 | Every directive %u, %o, %x and %X prints its argument so in base 10, 8, 16 and 16, as an unsigned word, with h its low 16 bits |
| PrintfMeaning.IntegerPrints | printf.c:52-288 | The whole text of every integer directive: the one shortest numeral of the absolute value, lower case for %x only, with the sign, prefix, precision zeros and padding its flags ask for, each in its place |
| PrintfMeaning.NumeralUnique | printf.c:94-95 | There is only one such numeral, so the text is determined |
| PrintfMeaning.MinusFive | printf.c:258-288 | %d of 0xFFFFFFFB prints -5 |
| PrintfMeaning.TextPrints | printf.c:207-227 | %s prints its string up to the NUL or the precision and %c the low byte of its argument, with blanks up to the width behind it if left-justified and else in front |
| PrintfMeaning.PointerPrints | printf.c:229-237 | %p prints an address in upper-case hexadecimal, in eight places with zeros if no width is given |
| PrintfMeaning.OthersPrint | printf.c:249-276 | %% prints %, an unknown conversion prints itself, a cut-off directive %, and none takes an argument |
| PrintfMeaning.CountStored | printf.c:239-247 | %n stores, at the address its argument holds, how many characters the whole format has printed before it |
| PrintfMeaning.DirectiveReads | printf.c:145-201 | Every directive that can be written is read as it is written, wherever it stands: each of the five flag characters, width and precision in digits or from the arguments (a negative width left-justifies, a negative precision is 0), the qualifier, and how many arguments it takes |
| PrintfFormat.ReadSpec | printf.c:145-201 | A directive always makes progress and ends within the format |
| PrintfVsprintf.ScanSpec | printf.c:145-201 | The flag loop, skip_atoi and the rest read exactly the directive |
| PrintfVsprintf.SkipAtoi | printf.c:29-36 | The decimal number at the pointer, kept in a 32-bit int that wraps, and where it ends |
| PrintfVsprintf.CStrNLen | mach/c3600/promlib.c:175-185 | The length of a string up to its NUL or a limit, -1 meaning none |
| PrintfVsprintf.PutDirective | printf.c:206-288 | One directive writes exactly its text, takes exactly its argument, and %n writes the count so far at its argument's address |
| PrintfVsprintf.Vsprintf | printf.c:124-292 | Terminates on every format; writes exactly the text of the pieces and a NUL, returns the sum of their lengths, and performs exactly the %n writes, in order |

## Left out

- Console I/O, syscalls, promlib assembly, `main.c`, `start.S` and the register headers: hardware and I/O.
- The jumps to the kernel at the end of both loaders: a returned value says whether and where they happen.
- Progress printing in `read_data` (`total_read`, `last`) and the messages of all programs.
- `load_elf64_file`, and ELF section headers.
- `strstr`, `strcpy`, `strcmp` and `strchr` of `string.c`: no modelled code needs them.
- `mzip_codeseg_build`, libzip, temporary files and file writing; `mzip_swap`: the header is taken as the 0x70 bytes it
  leaves. The host of elf2img is taken to be little-endian.
- Failing allocations in elf2img, and files shorter than an ELF header.
- `LzmaDecode` without `_LZMA_IN_CB`, and the temporary one-byte dictionary used when `DictionarySize` is 0
  (`LzmaDecodeProperties` never leaves it 0).
- LzmaRing.RingState.Decode: after a data error the saved fields are as they were before the call, while probabilities,
  dictionary and input have moved on; what a further call would then do is not described. The machine after an end
  marker does not carry the code's rep0 = 0 and state + 7, which no later call reads.
- LzmaFlat.LzmaDecode: after a data error nothing is said about the probabilities and the rest of the input; the
  probability type 31..2017 stands for a 16-bit array element.
- LzmaDecoder.Decoder.ReverseBits: `rep0 |= i` is written as setting the bit of weight `i`.
- RangeCoder.DecodeBit: a context outside the probability array decodes to nothing; `LzmaDecisions.PacketCoded` and
  `LzmaDecisions.LaidFits` show that none is ever asked for.
- PrintfWriter.Number: width and precision arithmetic is on unbounded integers, so a width or precision near the ends of
  `int` does not overflow; numbers with a digit of 16 or more in a base above 16, for which the code reads past its digit
  table, are excluded.
- PrintfVsprintf.Vsprintf: a %n is the address and the count it writes, in order; an argument is a word together with the
  string it points at, a null string counting as empty; `long`, `int` and pointers are 32 bits wide.
- PrintfVsprintf.SkipAtoi: where the sum overflows an `int`, which C leaves undefined, it is taken to wrap.
- PrintfFormat.FormatsCompose: no claim of conformance to the printf of ISO C99, from which the code differs for `%#x`
  of 0 and for `0` with a precision.
- ElfLoader.LoadElf32File: segments whose file part or zero tail alone has 2^31 bytes or more are excluded: there an
  `int` count overflows. Memory is one array apart from the flash.
