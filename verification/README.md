# shrinkler-gba: what the depacker does, proved

shrinkler-gba packs a Game Boy Advance program and puts a depacker, written as Thumb code inside a
C++ file, in front of it. This project models what that depacker does when it runs, together with
the compressed format it reads, and proves that it gives the program back. Smaller parts of the
packer that the depacker relies on are modelled too.

## The layers

- `Words.dfy`: 32-bit arithmetic, shifts, `orr`.
- `BitSource.dfy`: the compressed data as a list of bits, and the bit buffer with its sentinel.
- `RangeCoder.dfy`: the format's interval coder in exact arithmetic. Events (a context and a bit)
  narrow an interval whose low end is never truncated.
- `RangeDecoder.dfy`: the 16-bit decoder. It inverts the coder: on a given stream it returns the
  coded bits if and only if the stream lies in the final interval.
- `Codes.dfy`: numbers and literals as events, with parsers.
- `Symbols.dfy`: literals, matches and repeated offsets, and the data they stand for.
- `LzFormat.dfy`: the events of a symbol sequence and the parser that recovers the symbols; each
  inverts the other.
- `LzStream.dfy`: whole streams. Every symbol sequence can be compressed, and a stream codes at most
  one.
- `LoadAddress.dfy`: the address parity swaps two groups of contexts, and that changes nothing.
- `ContextTable.dfy`: where the context table lies on the stack.
- `TableLimits.dfy`: which data is coded in contexts of that table only.
- `ContextRoles.dfy`: what the contexts are used for, and which uses share one.
- `Progress.dfy`: the transitions of the main loop, on values.
- `Depacker.dfy`: the depacker as a class whose fields are the registers, with the stack and the
  output in one byte memory. `Depack` is the end-to-end result.
- `Adler32.dfy`, `Complement.dfy`, `ElfImage.dfy`: the debug checksum in both its forms, the header
  checksum with a movable byte, and the program image built from ELF sections.

The encoder is part of a library that is not part of this repository. It appears here as the
specification `RangeCoder.Encode` of `LzFormat.Events`, and `LzStream.Compress` constructs a stream for
every symbol sequence, so the end-to-end statement is not empty.

## What the proofs settle

`TODO.md` lines 80-84 ask whether the stack pointer is right and whether the context array is
overrun. For everything an encoder can produce the answer is: every access lands on the context's own
halfword of the table, no two contexts share one, saved registers and return addresses come back as
they were pushed, and the stack pointer is restored. Lines 48-49 ask how much room the depacker's
stack takes from a program: it writes no more than the 4120 bytes below the initial stack pointer (4096 of
table, 24 of saved registers), and `Depack` needs the output to stay clear of these and of nothing
else. The comment about number contexts "up to 30 at max" (`shrinkler_packer.cpp` line 52) fits 16-bit
numbers; 32-bit numbers use indices up to 62, and these fit the table as well.
Offset bits share no context with one another up to 128 digits.

Streams no encoder produces can hold longer numbers. `Depack` covers them: numbers count modulo 2^32, as in
the registers, so that the data also ends at 2^32 + 2 in place of an offset, and the run stays in the
table if and only if every offset is below 2^640 - 2 and every length below 2^512. Beyond these limits
it gets as far as a getbit for a halfword at or above the initial stack pointer: the one just there, as long
as the first number too long has at most 1023 digits below the leading one, or else one 1538 (offset) or
2050 (length) bytes further. This holds for symbols that are well formed up to that number; what the
machine does after such an access is not modelled.

## Conventions

A symbol sequence is well formed when its first symbol is a literal, and up to the first number too long for the
table copies read existing output, repeated offsets follow a literal and have an earlier offset to
repeat, and no length is a multiple of 2^32. Symbols carry the numbers of the stream, of any size;
their meaning (`Expand`) is in registers. The parser in `LzFormat.dfy` is the control flow of the main loop: which
context it asks for next, given the bits so far. Statements about its runs take for granted that no
copy overwrites the stack; `Depack` is the statement about the machine, where that is a
precondition. `Depack` takes the symbols as a ghost argument and ends by them; it does not look at
them. Return addresses are arbitrary values that really travel over the modelled stack. The two
`mov` instructions that run over fixed header bytes are included, with arbitrary immediate for the
second.

## Model

| member | source | states |
|---|---|---|
| BitSource.LoadPoints | src/shrinkler_gba/shrinkler_packer.cpp:209-214 | a word is loaded exactly when the number of bits read is a multiple of 32, so each word is loaded once and inp moves 4 per 32 bits |
| BitSource.LoadWord | src/shrinkler_gba/shrinkler_packer.cpp:209-225 | with only the sentinel left, doubling the buffer gives 0; the fresh word then yields its top bit as carry and the buffer of the next position, sentinel included |
| BitSource.ShiftBuffer | src/shrinkler_gba/shrinkler_packer.cpp:209-211 | at every other position the shift leaves a non-zero buffer, and its carry is the next bit of the stream, top bit of each word first |
| BitSource.ValueExtends | src/shrinkler_gba/shrinkler_packer.cpp:227-227 | reading m more bits extends the stream integer by m binary digits |
| RangeCoder.AdaptKeepsRange | src/shrinkler_gba/shrinkler_packer.cpp:256-271 | one update keeps a probability in 15..0xfff0 |
| RangeCoder.Encode | src/shrinkler_gba/shrinkler_packer.cpp:249-273 | from a valid state, such as 0x8000 for every context, no sequence of bits takes a probability out of 15..0xfff0 or the interval size out of 1..0xffff |
| RangeDecoder.Refill | src/shrinkler_gba/shrinkler_packer.cpp:208-243 | for every stream renormalisation ends with the size in 0x8000..0xffff and rvalue below it |
| RangeDecoder.DecodeBit | src/shrinkler_gba/shrinkler_packer.cpp:206-274 | for every stream a call keeps 0 <= rvalue < isize <= 0xffff, and leaves a size of at least 7 |
| RangeDecoder.SelectMeaning | src/shrinkler_gba/shrinkler_packer.cpp:252-271 | in plain numbers: the threshold is size times probability over 65536, rounded down; the bit is 1 exactly if the value is below it; a 1 keeps the low part and adds 0xfff to the probability, a 0 subtracts the threshold; both first take a sixteenth off the probability |
| RangeCoder.ThresholdBounds | src/shrinkler_gba/shrinkler_packer.cpp:252-264 | after renormalisation the low part has size at least 7 and the high part at least 8, so both bit values stay decodable |
| RangeCoder.ProductFits | src/shrinkler_gba/shrinkler_packer.cpp:253-254 | interval size times probability never exceeds 32 bits |
| RangeCoder.EncodeWithin | src/shrinkler_gba/shrinkler_packer.cpp:261-271 | every event narrows: the final interval lies inside the interval of every earlier point, at the scale of the bits read since |
| RangeCoder.ExactlyOneBit | src/shrinkler_gba/shrinkler_packer.cpp:261-271 | the two sub-intervals of a context are disjoint and cover: a stream in the interval is in exactly one of them |
| RangeDecoder.DecoderConsumption | src/shrinkler_gba/shrinkler_packer.cpp:206-274 | on every stream the first n >= 1 calls use between 15 and 15 + 13 * (n - 1) stream bits |
| RangeDecoder.DecodeBitTracks | src/shrinkler_gba/shrinkler_packer.cpp:206-274 | rvalue stays equal to the integer of all bits read minus the exact, unbounded low end of the interval |
| RangeDecoder.DecodeBitChooses | src/shrinkler_gba/shrinkler_packer.cpp:261-271 | a call returns the bit whose sub-interval holds the stream, and only that one |
| RangeDecoder.DecoderInvertsCoder | src/shrinkler_gba/shrinkler_packer.cpp:206-274 | for every event sequence: successive calls return exactly the coded bits if and only if the stream lies in the final interval, and then the states, probability tables included, correspond |
| RangeDecoder.DisjointIntervals | src/shrinkler_gba/shrinkler_packer.cpp:206-274 | two bit sequences of one length under one context rule share no stream |
| RangeDecoder.StreamExists | src/shrinkler_gba/shrinkler_packer.cpp:206-274 | every bit sequence, in any contexts, can be decoded: there is a stream of 32-bit words in its interval |
| Codes.NumberParses | src/shrinkler_gba/shrinkler_packer.cpp:364-383 | for every n >= 2 and whatever follows, decoding the code of n gives n, through contexts 2, 4, ... and then back down to 3, 1, and leaves what follows |
| Codes.NumberPrints | src/shrinkler_gba/shrinkler_packer.cpp:364-383 | whatever number getnumber completes on, counted without the 32-bit limit of tmp1, is at least 2, and exactly its code was read |
| Codes.NumberCodePrefixFree | src/shrinkler_gba/shrinkler_packer.cpp:364-383 | no number has a code that is a prefix of another number's code |
| Codes.NumberDigits | src/shrinkler_gba/shrinkler_packer.cpp:368-382 | a 32-bit number has 1 to 31 digits below its leading one |
| Codes.LiteralParses | src/shrinkler_gba/shrinkler_packer.cpp:310-321 | every byte takes exactly eight bits and comes back, each context being 1 followed by the bits so far, in the group of the address parity |
| Codes.LiteralPrints | src/shrinkler_gba/shrinkler_packer.cpp:310-321 | whatever eight bits the literal loop reads are the code of the byte it stores |
| Symbols.CopyRepeats | src/shrinkler_gba/shrinkler_packer.cpp:331-341 | a copy leaves the earlier output unchanged and each new byte equals the byte offset places before it |
| Symbols.CopyIsPeriodic | src/shrinkler_gba/shrinkler_packer.cpp:331-341 | an overlapping copy continues the last offset bytes periodically |
| Symbols.SymbolMeaning | src/shrinkler_gba/shrinkler_packer.cpp:310-351 | a literal is the next byte of the output, a copy repeats, byte by byte, what is offset places back, a repeated offset is the last one, the end adds nothing; the rest of the output is that of the remaining symbols |
| Symbols.WellFormedIff | src/shrinkler_gba/shrinkler_packer.cpp:309-351 | a sequence is well formed exactly when, up to the first number too long for the table, every copy has a source in the output and a length that is not 0 as a register |
| Symbols.ExpandExtends | src/shrinkler_gba/shrinkler_packer.cpp:309-351 | no symbol changes output that is already there |
| Symbols.FinishesIff | src/shrinkler_gba/shrinkler_packer.cpp:309-383 | the outcome of a symbol sequence is to finish exactly when every number in it fits the table |
| Symbols.EveryProgramHasSymbols | src/shrinkler_gba/shrinkler_packer.cpp:309-321 | the literal loop alone can produce every non-empty program |
| LzFormat.SymbolsParse | src/shrinkler_gba/shrinkler_packer.cpp:309-351 | the main loop, fed the bits of a printed symbol sequence, asks for the printed contexts in order and recovers the symbols, with no first kind bit and no repeat bit after a reference; the data ends at every number that is 2 modulo 2^32 |
| LzFormat.SymbolsPrint | src/shrinkler_gba/shrinkler_packer.cpp:309-351 | every completed parse of any bits read exactly the code of the symbols it returns, its kind of end included |
| LzFormat.SymbolsExtend | src/shrinkler_gba/shrinkler_packer.cpp:309-351 | the main loop asks for one context at a time: with more bits it does the same and goes on with the context it was waiting in |
| LzStream.CompressWorks | src/shrinkler_gba/shrinkler_packer.cpp:309-383 | every symbol sequence the main loop can distinguish, with any number that is 2 modulo 2^32 as its end, is coded by some stream |
| LzStream.StreamDeterminesSymbols | src/shrinkler_gba/shrinkler_packer.cpp:309-351 | a stream is compressed data for at most one symbol sequence, and ends it in one way |
| LoadAddress.EventsMove | src/shrinkler_gba/shrinkler_packer.cpp:193-196 | another output address changes the events only by swapping contexts $0xx and $1xx, and only if the parity differs |
| LoadAddress.SwapKeepsInterval | src/shrinkler_gba/shrinkler_packer.cpp:297-306 | since all contexts start equal, coding with the groups swapped narrows to the same interval at every event |
| LoadAddress.LoadAddressIndependent | src/shrinkler_gba/shrinkler_packer.cpp:288-321 | a stream codes the same symbols at every load address and uses the same number of bits |
| LoadAddress.CompletedRunIsCompressed | src/shrinkler_gba/shrinkler_packer.cpp:309-351 | if the bits that the decoder delivers for the contexts the main loop asks for lead it to an end, with any number that is 2 modulo 2^32, then the stream is compressed data for the symbols so decoded |
| LoadAddress.SwapDecodes | src/shrinkler_gba/shrinkler_packer.cpp:206-274 | on any stream, decoders equal up to the swap of the groups return the same bit in swapped contexts and stay so related |
| LoadAddress.SwapFollows | src/shrinkler_gba/shrinkler_packer.cpp:206-274 | on any stream, one decodes along a list of events exactly when the other decodes along the swapped list, and they end alike |
| LoadAddress.ParseMoves | src/shrinkler_gba/shrinkler_packer.cpp:309-351 | for any bits, enough to finish or not, the contexts asked for at two addresses, the next one included, differ only by the swap, and the symbols not at all |
| LoadAddress.RunsAgree | src/shrinkler_gba/shrinkler_packer.cpp:288-351 | a run over any stream that reaches the end at one load address does so at every load address, and all these runs decode the same symbols from the same number of bits |
| LoadAddress.RunsAgreeSoFar | src/shrinkler_gba/shrinkler_packer.cpp:288-351 | on every stream, ending or not, runs at two load addresses get the same bits as far as they go, ask for the swapped context next, and leave decoders alike |
| ContextTable.AccessIsSlot | src/shrinkler_gba/shrinkler_packer.cpp:245-250 | at both call depths the computed address is that of the halfword of the context, in the table or above it |
| ContextTable.AccessIsInTable | src/shrinkler_gba/shrinkler_packer.cpp:167-168 | at both call depths the computed address is the context's own halfword, inside the 2048 allocated ones |
| ContextTable.SlotsAreDistinct | src/shrinkler_gba/shrinkler_packer.cpp:36-54 | no two contexts of either depth share a halfword |
| ContextRoles.ContextNumbers | src/shrinkler_gba/shrinkler_packer.cpp:36-42 | repeated offset is -1, kinds and literals are $0xx and $1xx, offsets $3xx and lengths $4xx |
| ContextRoles.RolesAreDistinct | src/shrinkler_gba/shrinkler_packer.cpp:36-54 | repeat bit, kind bits, literal nodes of both parities, offset indices up to 256 and length indices up to 1022 all have halfwords of their own; 32-bit numbers use indices up to 62 |
| ContextRoles.ReusesIff | src/shrinkler_gba/shrinkler_packer.cpp:366-382 | two bits of one number share a context exactly from 129 digits on for offsets and from 513 on, past the table, for lengths |
| ContextRoles.OverlapIff | src/shrinkler_gba/shrinkler_packer.cpp:366-382 | in the table an offset and a length have a context in common exactly from 512 and 384 digits on |
| ContextTable.NumberContextFits | src/shrinkler_gba/shrinkler_packer.cpp:376-380 | of the indices up to 2048, the first outside the table are 1279 for offsets and 1023 for lengths, both at context 0x7ff, and the first even one is 2048 |
| ContextTable.NumberFitsTableIff | src/shrinkler_gba/shrinkler_packer.cpp:364-382 | a number's contexts all lie in the table exactly up to 639 digits for offsets and 511 for lengths |
| TableLimits.EventsInTableIff | src/shrinkler_gba/shrinkler_packer.cpp:309-383 | the contexts that a symbol sequence is coded in all lie in the table exactly when every offset plus 2 is below 2^640 and every length below 2^512 |
| TableLimits.SmallNumbersFit | src/shrinkler_gba/shrinkler_packer.cpp:309-383 | numbers of 32 bits always stay in the table |
| TableLimits.TableCanBeLeft | src/shrinkler_gba/shrinkler_packer.cpp:364-382 | there is compressed data, a literal and an offset of 2^640 - 2, whose outcome is to leave the table at context 0x7ff; Depack then says at which address |
| Progress.LiteralStep | src/shrinkler_gba/shrinkler_packer.cpp:310-323 | at a literal the next eight events are its byte, and the select bits of the rest follow |
| Progress.KindStep | src/shrinkler_gba/shrinkler_packer.cpp:322-330 | the kind bit says whether a reference comes; after a reference no repeat bit follows it |
| Progress.RepeatStep | src/shrinkler_gba/shrinkler_packer.cpp:326-330 | between a literal and a reference the repeat bit says whether the last offset is used again |
| Progress.OffsetStep | src/shrinkler_gba/shrinkler_packer.cpp:345-350 | the offset is the number minus 2, and 2 ends the data |
| Progress.LengthStep | src/shrinkler_gba/shrinkler_packer.cpp:331-344 | a length is followed by its copy and then the select bits; the copied bytes exist |
| DepackerMachine.Depacker.Push | src/shrinkler_gba/shrinkler_packer.cpp:207-207 | a push stores the word in the four bytes below the old stack pointer and changes nothing else |
| DepackerMachine.Depacker.NextBit | src/shrinkler_gba/shrinkler_packer.cpp:209-225 | for every stream the carry is the next bit, and buffer and input pointer move to the next position |
| DepackerMachine.Depacker.ReadStreamBit | src/shrinkler_gba/shrinkler_packer.cpp:226-228 | rvalue becomes twice itself plus the next bit and the interval size doubles, without overflow |
| DepackerMachine.Depacker.Renormalise | src/shrinkler_gba/shrinkler_packer.cpp:208-243 | for every stream the loop ends with bit 15 of the size set, in the state of the decoder specification |
| DepackerMachine.Depacker.LoadContext | src/shrinkler_gba/shrinkler_packer.cpp:245-250 | the loaded halfword is the probability of the context, at either call depth |
| DepackerMachine.Depacker.ComputeThreshold | src/shrinkler_gba/shrinkler_packer.cpp:252-255 | the threshold is size times probability over 65536, rounded down |
| DepackerMachine.Depacker.TakeBranch | src/shrinkler_gba/shrinkler_packer.cpp:261-271 | the returned carry is the chosen branch, rvalue is restored on 1 and reduced on 0, and the additions and subtractions do not wrap wrongly |
| DepackerMachine.Depacker.SplitInterval | src/shrinkler_gba/shrinkler_packer.cpp:252-271 | on the registers: carry is set exactly if rvalue is below the rounded-down threshold; then the size is the threshold and 0xfff is added to the probability, else the threshold is subtracted from both; and this is one step of the decoder specification |
| DepackerMachine.Depacker.StoreContext | src/shrinkler_gba/shrinkler_packer.cpp:272-273 | the new probability replaces the old one of the same context and no other byte changes |
| DepackerMachine.Depacker.GetBit | src/shrinkler_gba/shrinkler_packer.cpp:206-274 | for every stream: the carry is set exactly if the renormalised value is below the rounded-down product of size and the halfword of the context, which then falls by a sixteenth and rises by 0xfff on a 1; this is a call of the decoder specification; outp, tmp0, tmp1 and sp are restored, it returns to its caller, and of the RAM only that halfword and the 16 bytes below sp change |
| DepackerMachine.Depacker.GetKind | src/shrinkler_gba/shrinkler_packer.cpp:193-206 | the context is the parity of outp times 256 |
| DepackerMachine.Depacker.GetNumberBit | src/shrinkler_gba/shrinkler_packer.cpp:376-380 | a bit of a number is decoded in the or of group and index, from the deeper call depth; if that lies outside the table this is reported instead |
| DepackerMachine.Depacker.CountDigits | src/shrinkler_gba/shrinkler_packer.cpp:366-373 | the unary loop stops with outp at twice the digit count if that is at most 1023, and otherwise leaves the table at its 1024th context |
| DepackerMachine.Depacker.ReadDigits | src/shrinkler_gba/shrinkler_packer.cpp:374-382 | the digit loop leaves the number, modulo 2^32, in tmp1 and stops at the borrow, exactly if there are fewer than 640 or 512 digits; otherwise it comes to context 0x7ff |
| DepackerMachine.Depacker.GetNumber | src/shrinkler_gba/shrinkler_packer.cpp:364-383 | for every number the stream codes next: if it is below 2^640 (offset) or 2^512 (length), it is returned modulo 2^32, outp, sp and return address come back, and only the table and the stack space below sp change; if not, the program arrives at the first context outside the table |
| DepackerMachine.Depacker.GetLiteralBit | src/shrinkler_gba/shrinkler_packer.cpp:312-317 | a bit of a literal is decoded in the context of address parity and node |
| DepackerMachine.Depacker.DecodeByte | src/shrinkler_gba/shrinkler_packer.cpp:310-319 | after the loop tmp0 is 256 plus the coded byte |
| DepackerMachine.Depacker.CopyByte | src/shrinkler_gba/shrinkler_packer.cpp:336-339 | one pass appends the byte offset places back |
| DepackerMachine.Depacker.CopyLoop | src/shrinkler_gba/shrinkler_packer.cpp:336-341 | appends exactly the specified copy and writes nothing else |
| DepackerMachine.Depacker.InitContexts | src/shrinkler_gba/shrinkler_packer.cpp:297-307 | 2048 halfwords of 0x8000 are pushed, nothing else is written, and rvalue ends at 0 |
| DepackerMachine.Depacker.Initialise | src/shrinkler_gba/shrinkler_packer.cpp:286-307 | registers, stack and the 4096 bytes of the table, all halfwords 0x8000, are in the decoder's initial state |
| DepackerMachine.Depacker.LiteralBlock | src/shrinkler_gba/shrinkler_packer.cpp:310-321 | one literal of the remaining symbols is produced |
| DepackerMachine.Depacker.SelectAfterLiteralBlock | src/shrinkler_gba/shrinkler_packer.cpp:322-330 | after a literal the machine goes to the label of the next symbol |
| DepackerMachine.Depacker.SelectBlock | src/shrinkler_gba/shrinkler_packer.cpp:342-344 | after a reference the machine goes to the label of the next symbol, without a repeat bit |
| DepackerMachine.Depacker.ReadOffsetBlock | src/shrinkler_gba/shrinkler_packer.cpp:345-350 | the offset register receives the offset, or the run ends, or it leaves the table |
| DepackerMachine.Depacker.ReadOffset | src/shrinkler_gba/shrinkler_packer.cpp:345-350 | the offset register receives the number minus 2, modulo 2^32 |
| DepackerMachine.Depacker.CopyNumber | src/shrinkler_gba/shrinkler_packer.cpp:331-341 | reads the length the stream codes next and appends exactly the copy of that length modulo 2^32 |
| DepackerMachine.Depacker.ReadLengthBlock | src/shrinkler_gba/shrinkler_packer.cpp:331-341 | one copy of the remaining symbols is produced, or the run leaves the table |
| DepackerMachine.Depacker.MainLoop | src/shrinkler_gba/shrinkler_packer.cpp:309-351 | the loop ends, by the symbols left, with all output produced, or leaves the table where the symbols say |
| DepackerMachine.Depacker.NextAccessOutside | src/shrinkler_gba/shrinkler_packer.cpp:245-250 | for a context outside, the address getbit computes next, counted from the initial stack pointer |
| DepackerMachine.Depacker.Depack | src/shrinkler_gba/shrinkler_packer.cpp:280-357 | for every well-formed symbol sequence, every stream coding it and every load address clear of the stack space: the output is exactly the expansion and no other RAM changes but the 4120 bytes below sp; the run finishes if and only if all offsets are below 2^640 - 2 and all lengths below 2^512, with sp restored and exactly the words with coded bits loaded, and otherwise stops before an access to a given address at or above the initial sp |
| DepackerMachine.DepackWithDebugChecks | src/shrinkler_gba/shrinkler_packer.cpp:352-486 | for any built-in size and checksum: the size message exactly when the sizes differ, else the checksum message exactly when the checksums differ, else the stack message exactly when sp did not start at its expected value; on the data that was compressed, from that sp, none |
| DepackerMachine.OutputNotEmpty | src/shrinkler_gba/shrinkler_packer.cpp:309-321 | the output is never empty, so a built-in size of 0 fails before the checksum loop |
| DepackerMachine.RunCartridge | src/shrinkler_gba/shrinkler_packer.cpp:280-357 | from every stream that codes a program, the program comes back byte for byte, anywhere in EWRAM or in IWRAM below the stack space, with or without code in the header |
| Adler.ChecksumAppend | src/shrinkler_gba/utility.cpp:23-27 | the closed sums of section 2.2 of RFC 1950 grow by one byte as both loops compute it |
| Adler.ChecksumHalves | src/shrinkler_gba/utility.cpp:29-29 | the low half is 1 plus the sum of the bytes, the high half their number plus the weighted sum, both modulo 65521 |
| Adler.Adler32 | src/shrinkler_gba/utility.cpp:16-30 | the form with remainders returns these two halves, without 32-bit overflow |
| Adler.AddReduced | src/shrinkler_gba/shrinkler_packer.cpp:448-456 | one conditional subtraction of 65521 is a remainder for reduced operands |
| Adler.ThumbAdler32 | src/shrinkler_gba/shrinkler_packer.cpp:440-462 | on every non-empty data the debug loop returns the same two halves |
| Complement.ChecksumOkIff | src/shrinkler_gba/complement.cpp:20-34 | the area and 0x19 sum to 0 modulo 256 exactly when any one chosen byte is the complement of the others |
| Complement.PatchFixesChecksum | src/shrinkler_gba/cartridge_assembler.cpp:71-76 | storing the complement at any index of the area makes the checksum right |
| Complement.CalculateComplement | src/shrinkler_gba/complement.cpp:14-34 | the wrapping loop returns the byte that completes the sum of the others to 0, for every index |
| Complement.WriteComplement | src/shrinkler_gba/cartridge_assembler.cpp:71-76 | for every offset in the cartridge: the byte there becomes the complement of the bytes 0xa0 to 0xbd, no other byte changes, and inside that area the checksum is then right |
| Complement.CheckComplement | src/shrinkler_gba/cartridge_assembler.cpp:105-113 | the check passes exactly when the checksum is right |
| Complement.PatchAndCheck | src/shrinkler_gba/shrinkler_packer.cpp:130-142 | with code in the header only the byte at 0xbc is written, otherwise only the one at 0xbd, and the check after the patch never fails |
| ElfImage.IsIncludedIff | src/shrinkler_gba/input_file.cpp:104-127 | a section is included exactly if it is neither null nor no-bits, has an address and a size, and is marked as allocated |
| ElfImage.Included | src/shrinkler_gba/input_file.cpp:87-127 | exactly the included sections are kept, each as often as it is listed |
| ElfImage.SortByAddress | src/shrinkler_gba/input_file.cpp:95-100 | the sections are reordered by ascending address; none is lost or added |
| ElfImage.DisjointIff | src/shrinkler_gba/input_file.cpp:153-156 | sections with bytes are disjoint exactly when no address lies in both |
| ElfImage.NeighboursSuffice | src/shrinkler_gba/input_file.cpp:153-156 | in sorted order a section clear of its predecessor is clear of all earlier ones |
| ElfImage.ByteAtMeaning | src/shrinkler_gba/input_file.cpp:158-176 | each address has the byte of its one covering section, or zero |
| ElfImage.DisjointBagIff | src/shrinkler_gba/input_file.cpp:141-156 | whether a list of sections is disjoint does not depend on its order |
| ElfImage.ImageOfPermutation | src/shrinkler_gba/input_file.cpp:141-179 | the image is the same for every order of the sections |
| ElfImage.ImageMeaning | src/shrinkler_gba/input_file.cpp:141-179 | in plain fields: every allocated, non-empty section of the file with an address and with bits is in the data at its address, and every byte that is not zero belongs to one |
| ElfImage.ImageIsUnique | src/shrinkler_gba/input_file.cpp:141-179 | the sections determine load address and image |
| ElfImage.InputFile.CopySection | src/shrinkler_gba/input_file.cpp:151-176 | one pass extends the image by the zeros of the hole and the bytes of the section |
| ElfImage.InputFile.LoadSorted | src/shrinkler_gba/input_file.cpp:146-178 | the loop succeeds exactly when all sections are pairwise disjoint, and else names two that overlap |
| ElfImage.InputFile.LoadBinary | src/shrinkler_gba/input_file.cpp:87-179 | for every list of sections in any order: success exactly when the included ones are pairwise disjoint, and then load address and data are their image, with the bytes of every allocated section at its address and zeros elsewhere |

## Left out

- Overlap: runs whose output area overlaps the 4120 bytes of stack space are not modelled; ROM is read-only and kept apart from RAM.
- Malformed streams: getbit is proved for every stream and every context in the table, and whole runs for numbers of any size; runs that copy from before the output, that copy a multiple of 2^32 bytes, or that never reach the end are not modelled on the machine, nor is anything after an access outside the table.
- End of ROM: reading a word past the modelled ROM is excluded by a precondition instead of returning whatever follows.
- Adler.ThumbAdler32: requires non-empty data; the loop tests its counter at the end. After a run a size of 0 never gets there, because by `OutputNotEmpty` the size check fails first.
- ElfImage.SortByAddress: std::ranges::sort is a library; any order by address satisfies the contract, and the insertion loop only shows that one exists.
- ElfImage.InputFile.LoadBinary: error texts are replaced by the two sections; reading the ELF file, its header checks and the entry point are not modelled.
- The assembler (labels, literal pools, linking, instruction encodings) and the fixed header offsets.
- The encoder's search for good symbols, and the sizes it reaches.
- ARM/Thumb switching at entry and exit, and the jump to the unpacked program.
- The panic routine and its screen output.
- The LZSS packer, packer selection, ROM padding, command line, console and tables.
