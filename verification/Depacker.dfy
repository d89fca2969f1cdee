/**
 The emitted depacker as a register machine. Each method is one labelled part of the
 Thumb program; registers are fields, stack and output share one byte memory, and
 carries are explicit. The ghost field dec is the decoder state that the registers and
 the context table stand for.
 */
module DepackerMachine {
  import opened Words
  import opened BitSource
  import opened RangeCoder
  import opened RangeDecoder
  import opened Codes
  import opened Symbols
  import opened LzFormat
  import opened LzStream
  import opened ContextTable
  import opened Progress
  import Adler

  class Depacker {
    // The compressed data in ROM, and the RAM that holds stack and unpacked program.
    const packedIntro: Word
    const rom: seq<Word>
    const ramBase: Word
    const ram: array<Byte>
    // With code in the header, two harmless moves run over fixed header bytes.
    const codeInHeader: bool
    const gameVersion: Byte

    var inp: Word
    var outp: Word
    var tmp0: Word
    var tmp1: Word
    var rvalue: Word
    var isize: Word
    var bitbuf: Word
    var bitctx: Word
    var offset: Word
    var savedSp: Word
    var sp: Word

    ghost var dec: Decoder

    constructor (packedIntro: Word, rom: seq<Word>, ramBase: Word, ram: array<Byte>, sp: Word,
                 codeInHeader: bool, gameVersion: Byte)
      ensures this.packedIntro == packedIntro && this.rom == rom
      ensures this.ramBase == ramBase && this.ram == ram && this.sp == sp
    {
      this.packedIntro, this.rom := packedIntro, rom;
      this.ramBase, this.ram, this.sp := ramBase, ram, sp;
      this.codeInHeader, this.gameVersion := codeInHeader, gameVersion;
    }

    // ---- Memory

    /** ROM and RAM lie inside the 32-bit address space. */
    ghost predicate Memory() {
      packedIntro + 4 * |rom| < 0x1_0000_0000 && ramBase + ram.Length < 0x1_0000_0000
    }

    /** Address a is word-aligned, and size bytes of RAM lie below it. */
    ghost predicate StackRoom(a: int, size: nat) {
      a % 4 == 0 && ramBase + size <= a <= ramBase + ram.Length
    }

    /** The halfword at index i of the RAM. */
    function HalfAt(i: int): Half
      requires 0 <= i < ram.Length - 1
      reads ram
    {
      JoinBytes(ram[i], ram[i + 1])
    }

    function WordAt(i: int): Word
      requires 0 <= i < ram.Length - 3
      reads ram
    {
      Join(HalfAt(i), HalfAt(i + 2))
    }

    method StoreHalf(a: Word, h: Half)
      requires Memory() && ramBase <= a && a + 2 <= ramBase + ram.Length
      modifies ram
      ensures HalfAt(a - ramBase) == h
      ensures forall i :: 0 <= i < ram.Length && i != a - ramBase && i != a - ramBase + 1 ==> ram[i] == old(ram[i])
    {
      ram[a - ramBase] := h % 0x100;
      ram[a - ramBase + 1] := h / 0x100;
    }

    method Push(v: Word)
      requires Memory() && StackRoom(sp, 4)
      modifies `sp, ram
      ensures sp == old(sp) - 4 && WordAt(sp - ramBase) == v
      ensures HalfAt(sp - ramBase) == v % 0x1_0000 && HalfAt(sp - ramBase + 2) == v / 0x1_0000
      ensures forall i :: 0 <= i < ram.Length && !(sp - ramBase <= i < sp - ramBase + 4) ==> ram[i] == old(ram[i])
    {
      hide HalfAt, Join;
      JoinHalves(v);
      sp := Wrap(sp - 4);
      StoreHalf(sp, v % 0x1_0000);
      label L:
      StoreHalf(sp + 2, v / 0x1_0000);
      HalfKept@L(sp - ramBase);
    }

    /** Bytes that are kept keep their halfword. */
    twostate lemma HalfKept(i: int)
      requires 0 <= i < ram.Length - 1 && ram[i] == old(ram[i]) && ram[i + 1] == old(ram[i + 1])
      ensures HalfAt(i) == old(HalfAt(i))
    {
    }

    method Pop() returns (v: Word)
      requires Memory() && StackRoom(sp + 4, 4)
      modifies `sp
      ensures sp == old(sp) + 4 && v == old(WordAt(sp - ramBase))
    {
      v := WordAt(sp - ramBase);
      sp := Wrap(sp + 4);
    }

    // ---- What the registers stand for

    ghost predicate StreamOk()
      reads `dec, `bitbuf, `inp
    {
      dec.pos <= 32 * |rom|
      && bitbuf == Buffer(rom, dec.pos)
      && inp == packedIntro + 4 * WordsLoaded(dec.pos)
    }

    ghost predicate RangeOk()
      reads `dec, `rvalue, `isize
    {
      dec.Valid() && rvalue == dec.rvalue && isize == dec.isize
    }

    /** The lowest address of the context table, where init left the stack pointer. */
    ghost function Table(): int
      reads `savedSp
    {
      savedSp - 2 * NUM_CONTEXTS
    }

    /** The table and the six registers pushed below it fit the stack. */
    ghost predicate StackOk()
      reads `savedSp
    {
      StackRoom(savedSp, STACK_SPACE)
    }

    /** The index in RAM of the halfword of a context. */
    ghost function ContextIndex(ctx: int): int
      reads `savedSp
    {
      Table() - ramBase + 2 * Slot(ctx)
    }

    ghost predicate TableOk(probs: Probs)
      requires Memory() && StackOk()
      reads `savedSp, ram
    {
      forall ctx :: IsContext(ctx) ==> HalfAt(ContextIndex(ctx)) == Prob(probs, ctx)
    }

    ghost predicate Decoding()
      reads `dec, `bitbuf, `inp, `rvalue, `isize, `savedSp, ram
    {
      Memory() && StackOk() && StreamOk() && RangeOk() && TableOk(dec.probs)
    }

    /** The lowest address the depacker ever pushes to. */
    ghost function Floor(): int
      reads `savedSp
    {
      Table() - 4 * (GETBIT_PUSHED + GETNUMBER_PUSHED)
    }

    /** Index i of the RAM belongs to the context table. */
    ghost predicate InTable(i: int)
      reads `savedSp
    {
      Table() <= ramBase + i < savedSp
    }

    /** Only the table and the stack space below address a have changed. */
    twostate predicate Kept(a: int)
      reads `savedSp, ram
    {
      forall i :: 0 <= i < ram.Length && (ramBase + i < Floor() || a <= ramBase + i) && !InTable(i) ==>
        ram[i] == old(ram[i])
    }

    // ---- getbit

    /** readbit and newword: the next stream bit moves into the carry. */
    method NextBit() returns (carry: bool)
      requires Memory() && StreamOk() && dec.pos < 32 * |rom|
      modifies `bitbuf, `inp, `tmp0
      ensures bitbuf == Buffer(rom, dec.pos + 1) && inp == packedIntro + 4 * WordsLoaded(dec.pos + 1)
      ensures carry <==> Bit(rom, dec.pos) == 1
    {
      hide Buffer, Bit, Or, WordsLoaded;
      ghost var k := dec.pos;
      LoadPoints(k);
      if k % 32 != 0 { ShiftBuffer(rom, k); }
      carry := bitbuf >= 0x8000_0000;
      bitbuf := Wrap(2 * bitbuf);
      if bitbuf == 0 {
        bitbuf := rom[(inp - packedIntro) / 4];
        LoadWord(rom, k, bitbuf);
        inp := Wrap(inp + 4);
        carry := bitbuf + bitbuf >= 0x1_0000_0000;
        bitbuf := Wrap(2 * bitbuf);
        if codeInHeader { tmp0 := 0x96; }
        tmp0 := 1;
        bitbuf := Or(bitbuf, tmp0);
      } else {
        if k % 32 == 0 { BufferAtWordEnd(rom, k); }
      }
    }

    /** nonewword: the carry enters rvalue, and the interval size doubles. */
    method ReadStreamBit()
      requires Memory() && StreamOk() && RangeOk() && isize < 0x8000 && dec.pos < 32 * |rom|
      modifies `bitbuf, `inp, `rvalue, `isize, `tmp0, `dec
      ensures StreamOk() && RangeOk() && dec == ReadBit(rom, old(dec))
      ensures rvalue == 2 * old(rvalue) + Bit(rom, old(dec.pos)) && isize == 2 * old(isize)
    {
      hide Buffer, Bit, WordsLoaded;
      var carry := NextBit();
      rvalue := Wrap(rvalue + rvalue + if carry then 1 else 0);
      isize := Wrap(isize + isize);
      dec := ReadBit(rom, dec);
    }

    /** The loop at loop_condition: double until bit 15 of the interval size is set. */
    method Renormalise()
      requires Memory() && StreamOk() && RangeOk() && CanRefill(rom, dec)
      modifies `bitbuf, `inp, `rvalue, `isize, `tmp0, `dec
      ensures StreamOk() && RangeOk() && dec == Refill(rom, old(dec))
      ensures isize >= 0x8000 && dec.probs == old(dec.probs)
    {
      hide StreamOk, ReadBit;
      RefillKeepsProbs(rom, dec);
      if codeInHeader { tmp0 := gameVersion; }
      tmp0 := isize / 0x1_0000;
      var carry := isize / 0x8000 % 2 == 1;
      while !carry
        invariant StreamOk() && RangeOk() && CanRefill(rom, dec)
        invariant Refill(rom, dec) == Refill(rom, old(dec))
        invariant carry <==> isize >= 0x8000
        decreases 0x8000 - isize, !carry
      {
        RefillStep(rom, dec);
        ReadStreamBit();
        if codeInHeader { tmp0 := gameVersion; }
        tmp0 := isize / 0x1_0000;
        carry := isize / 0x8000 % 2 == 1;
      }
    }

    /** The probability of context ctx, loaded from its halfword of the table. */
    method LoadContext(ghost ctx: int)
      requires Decoding() && IsContext(ctx)
      requires bitctx == Wrap(ctx) && sp == Table() - CallDepth(ctx) - 4 * GETBIT_PUSHED
      modifies `tmp0, `tmp1
      ensures Wrap(tmp0 + CTX_TABLE_OFFSET) == Table() + 2 * Slot(ctx) && tmp1 == Prob(dec.probs, ctx)
    {
      AccessIsInTable(Table(), ctx);
      tmp0 := Wrap(bitctx + bitctx);
      tmp0 := Wrap(tmp0 + sp);
      assert Wrap(tmp0 + CTX_TABLE_OFFSET) - ramBase == ContextIndex(ctx);
      tmp1 := HalfAt(Wrap(tmp0 + CTX_TABLE_OFFSET) - ramBase);
    }

    /** The 32-bit product does not wrap, so the shift leaves the exact threshold. */
    method ComputeThreshold()
      requires 0x8000 <= isize <= 0xffff && ProbOk(tmp1)
      modifies `outp
      ensures outp == Threshold(isize, tmp1) && outp * 0x1_0000 <= isize * tmp1 < (outp + 1) * 0x1_0000
    {
      ProductFits(isize, tmp1);
      ThresholdRoundsDown(isize, tmp1);
      outp := tmp1;
      assert outp * isize == isize * outp;
      outp := Wrap(outp * isize);
      outp := outp / 0x1_0000;
    }

    /** The compare and branch at zero and one, threshold in outp and lowered probability in tmp1. */
    method TakeBranch() returns (carry: bool)
      requires rvalue < isize <= 0xffff && outp <= isize && tmp1 <= 0xf000
      modifies `rvalue, `isize, `tmp1, `bitctx
      ensures carry <==> old(rvalue) < outp
      ensures carry ==> rvalue == old(rvalue) && isize == outp && tmp1 == old(tmp1) + 0xfff
      ensures !carry ==> rvalue == old(rvalue) - outp && isize == old(isize) - outp && tmp1 == old(tmp1)
    {
      var borrow := rvalue < outp;
      rvalue := Wrap(rvalue - outp);
      if !borrow {
        isize := Wrap(isize - outp);
        carry := tmp1 + 0 >= 0x1_0000_0000;
      } else {
        isize := outp;
        bitctx := 0xfff;
        tmp1 := Wrap(tmp1 + bitctx);
        carry := rvalue + outp >= 0x1_0000_0000;
        rvalue := Wrap(rvalue + outp);
      }
    }

    /** Threshold, branch and adaptation: one step of the decoder on the registers. */
    method SplitInterval(ghost ctx: int) returns (carry: bool)
      requires RangeOk() && isize >= 0x8000 && tmp1 == Prob(dec.probs, ctx)
      modifies `rvalue, `isize, `outp, `tmp1, `bitctx, `dec
      ensures RangeOk() && (carry, dec) == Select(old(dec), ctx)
      ensures tmp1 < 0x1_0000 && dec.probs == old(dec.probs)[ctx := tmp1]
      ensures var low := if carry then isize else old(isize) - isize;
              low * 0x1_0000 <= old(isize * tmp1) < (low + 1) * 0x1_0000 && (carry <==> old(rvalue) < low)
              && rvalue == (if carry then old(rvalue) else old(rvalue) - low)
              && tmp1 == old(tmp1) - old(tmp1) / 16 + if carry then 0xfff else 0
    {
      hide Prob, ProbsOk, Threshold, Adapt;
      ProbRange(dec.probs, ctx);
      ThresholdBounds(isize, tmp1);
      AdaptValues(tmp1);
      ComputeThreshold();
      bitctx := tmp1 / 16;
      tmp1 := Wrap(tmp1 - bitctx);
      carry := TakeBranch();
      dec := Select(dec, ctx).1;
    }

    /** The adapted probability goes back to the same halfword; no other context changes. */
    method StoreContext(ghost ctx: int, ghost probs: Probs)
      requires Memory() && StackOk() && TableOk(probs) && IsContext(ctx) && tmp1 < 0x1_0000
      requires Wrap(tmp0 + CTX_TABLE_OFFSET) == Table() + 2 * Slot(ctx)
      modifies ram
      ensures TableOk(probs[ctx := tmp1]) && OnlyContext(ctx)
    {
      hide Prob;
      StoreHalf(Wrap(tmp0 + CTX_TABLE_OFFSET), tmp1 % 0x1_0000);
      ProbUpdated(probs, ctx, tmp1);
      forall c | IsContext(c) && c != ctx ensures HalfAt(ContextIndex(c)) == old(HalfAt(ContextIndex(c))) {
        if Slot(c) == Slot(ctx) { SlotsAreDistinct(c, ctx); }
      }
    }

    /** The halfword of one context is all that has changed. */
    twostate predicate OnlyContext(ctx: int)
      reads `savedSp, ram
    {
      forall i :: 0 <= i < ram.Length && i != ContextIndex(ctx) && i != ContextIndex(ctx) + 1 ==> ram[i] == old(ram[i])
    }

    /** Address calculation to done: one bit out of a renormalised interval. */
    method SelectBranch(ghost ctx: int) returns (carry: bool)
      requires Decoding() && isize >= 0x8000 && IsContext(ctx)
      requires bitctx == Wrap(ctx) && sp == Table() - CallDepth(ctx) - 4 * GETBIT_PUSHED
      modifies `rvalue, `isize, `outp, `tmp0, `tmp1, `bitctx, `dec, ram
      ensures Decoding() && (carry, dec) == Select(old(dec), ctx)
      ensures OnlyContext(ctx)
    {
      hide TableOk, Select;
      LoadContext(ctx);
      carry := SplitInterval(ctx);
      assert StreamOk();
      StoreContext(ctx, old(dec).probs);
    }

    /** getbit between its push and its pop. */
    method DecodeInContext(ghost ctx: int) returns (carry: bool)
      requires Decoding() && CanRefill(rom, dec) && IsContext(ctx)
      requires bitctx == Wrap(ctx) && sp == Table() - CallDepth(ctx) - 4 * GETBIT_PUSHED
      modifies `bitbuf, `inp, `rvalue, `isize, `outp, `tmp0, `tmp1, `bitctx, `dec, ram
      ensures Decoding() && (carry, dec) == DecodeBit(rom, old(dec), ctx)
      ensures OnlyContext(ctx)
    {
      hide StreamOk, RangeOk, TableOk, Refill, Select;
      Renormalise();
      carry := SelectBranch(ctx);
    }

    /** Bytes that are kept keep their word. */
    twostate lemma WordKept(i: int)
      requires 0 <= i < ram.Length - 3
      requires forall k :: i <= k < i + 4 ==> ram[k] == old(ram[k])
      ensures WordAt(i) == old(WordAt(i))
    {
    }

    method PushGetbitRegisters(lr: Word)
      requires Decoding() && StackRoom(sp, 16) && sp <= Table()
      modifies `sp, ram
      ensures Decoding() && sp == old(sp) - 16
      ensures var i := sp - ramBase;
              WordAt(i) == outp && WordAt(i + 4) == tmp0 && WordAt(i + 8) == tmp1 && WordAt(i + 12) == lr
      ensures forall i :: 0 <= i < ram.Length && !(sp - ramBase <= i < sp - ramBase + 16) ==> ram[i] == old(ram[i])
    {
      hide StreamOk, RangeOk, WordAt;
      Push(lr);
      label L:
      Push(tmp1);
      label M:
      Push(tmp0);
      label N:
      Push(outp);
      WordKept@L(sp + 12 - ramBase);
      WordKept@M(sp + 8 - ramBase);
      WordKept@N(sp + 4 - ramBase);
    }

    method PopGetbitRegisters() returns (pc: Word)
      requires Memory() && StackRoom(sp + 16, 16)
      modifies `sp, `outp, `tmp0, `tmp1
      ensures sp == old(sp) + 16
      ensures var i := old(sp) - ramBase;
              outp == WordAt(i) && tmp0 == WordAt(i + 4) && tmp1 == WordAt(i + 8) && pc == WordAt(i + 12)
    {
      outp := Pop();
      tmp0 := Pop();
      tmp1 := Pop();
      pc := Pop();
    }

    /**
     getbit, for every stream: decodes one bit in context ctx into the carry, returns to
     its caller, and writes only one probability and the 16 bytes below the stack pointer.
     */
    method GetBit(lr: Word, ghost ctx: int) returns (carry: bool, pc: Word)
      requires Decoding() && CanRefill(rom, dec) && IsContext(ctx)
      requires bitctx == Wrap(ctx) && sp == Table() - CallDepth(ctx)
      modifies `bitbuf, `inp, `rvalue, `isize, `outp, `tmp0, `tmp1, `bitctx, `sp, `dec, ram
      ensures Decoding() && (carry, dec) == DecodeBit(rom, old(dec), ctx)
      ensures var d, i, p := Refill(rom, old(dec)), ContextIndex(ctx), old(HalfAt(ContextIndex(ctx)));
              var low := if carry then isize else d.isize - isize;
              low * 0x1_0000 <= d.isize * p < (low + 1) * 0x1_0000 && (carry <==> d.rvalue < low)
              && HalfAt(i) == p - p / 16 + if carry then 0xfff else 0
      ensures outp == old(outp) && tmp0 == old(tmp0) && tmp1 == old(tmp1) && sp == old(sp) && pc == lr
      ensures forall i ::
                0 <= i < ram.Length && !(sp - 16 <= ramBase + i < sp) && !(0 <= i - ContextIndex(ctx) <= 1) ==>
                  ram[i] == old(ram[i])
    {
      hide StreamOk, TableOk, Refill, Select, WordAt, HalfAt;
      TableHolds(ctx);
      RefillKeepsProbs(rom, dec);
      SelectMeaning(Refill(rom, dec), ctx);
      PushGetbitRegisters(lr);
      label Pushed:
      carry := DecodeInContext(ctx);
      assert 0 <= Slot(ctx) < NUM_CONTEXTS;
      WordKept@Pushed(sp - ramBase);
      WordKept@Pushed(sp - ramBase + 4);
      WordKept@Pushed(sp - ramBase + 8);
      WordKept@Pushed(sp - ramBase + 12);
      pc := PopGetbitRegisters();
      TableHolds(ctx);
    }

    /** The halfword of a context is in RAM and holds its probability. */
    lemma TableHolds(ctx: int)
      requires Memory() && StackOk() && TableOk(dec.probs) && IsContext(ctx)
      ensures 0 <= ContextIndex(ctx) < ram.Length - 1 && HalfAt(ContextIndex(ctx)) == Prob(dec.probs, ctx)
    {
    }

    /** getkind: the parity of the output address selects the context. */
    method GetKind(lr: Word) returns (carry: bool, pc: Word)
      requires Decoding() && CanRefill(rom, dec) && sp == Table()
      modifies `bitbuf, `inp, `rvalue, `isize, `outp, `tmp0, `tmp1, `bitctx, `sp, `dec, ram
      ensures Decoding() && (carry, dec) == DecodeBit(rom, old(dec), outp % 2 * 0x100)
      ensures outp == old(outp) && tmp0 == old(tmp0) && tmp1 == old(tmp1) && sp == old(sp) && pc == lr
      ensures Kept(sp)
    {
      hide Decoding, DecodeBit;
      bitctx := Wrap(outp * 0x8000_0000);
      bitctx := bitctx / 0x80_0000;
      ParityShift(outp);
      carry, pc := GetBit(lr, KindContext(outp));
    }

    // ---- getnumber

    /**
     One bit of a number: the context is the group in tmp0 or-ed with the index in outp.
     Only here can a context lie outside the table; the model then stops before the call,
     and inside is false.
     */
    method GetNumberBit(ghost group: nat) returns (inside: bool, carry: bool)
      requires Decoding() && CanRefill(rom, dec) && sp == Table() - 4 * GETNUMBER_PUSHED
      requires IsGroup(group) && tmp0 == group * 0x100 && outp <= 2048
      modifies `bitbuf, `inp, `rvalue, `isize, `outp, `tmp0, `tmp1, `bitctx, `sp, `dec, ram
      ensures Decoding() && (inside <==> IsNumberContext(NumberContext(group, outp)))
      ensures inside ==> (carry, dec) == DecodeBit(rom, old(dec), NumberContext(group, outp))
      ensures NumberContext(group, outp) == Or(group * 0x100, outp)
      ensures !inside ==> bitctx == NumberContext(group, outp)
      ensures outp == old(outp) && tmp0 == old(tmp0) && tmp1 == old(tmp1) && sp == old(sp)
      ensures Kept(sp)
    {
      hide Decoding, DecodeBit, Or;
      OrAtMost(tmp0, outp);
      bitctx := tmp0;
      bitctx := Or(bitctx, outp);
      inside, carry := IsNumberContext(bitctx), false;
      if inside {
        var lr: Word := *;
        var pc;
        carry, pc := GetBit(lr, NumberContext(group, outp));
      }
    }

    /** numberloop: count the digits in unary; the 1024th one leaves the table. */
    method CountDigits(ghost group: nat, ghost m: nat, ghost final: Decoder) returns (inside: bool)
      requires Decoding() && sp == Table() - 4 * GETNUMBER_PUSHED
      requires IsGroup(group) && tmp0 == group * 0x100 && outp == 0
      requires m >= 1 && Leads(rom, dec, UnaryEvents(group, 1, m), final)
      modifies `bitbuf, `inp, `rvalue, `isize, `outp, `tmp0, `tmp1, `bitctx, `sp, `dec, ram
      ensures Decoding() && (inside <==> m < 1024)
      ensures inside ==> dec == final && outp == 2 * m
      ensures !inside ==> bitctx == (group + 8) * 0x100
      ensures tmp0 == old(tmp0) && sp == old(sp) && Kept(sp)
    {
      hide Decoding, DecodeBit, Leads, NumberContext, Or, InTable, Table, Floor, UnaryEvents;
      ghost var i := 0;
      var carry := true;
      inside := true;
      while inside && carry
        invariant Decoding() && tmp0 == old(tmp0) && sp == old(sp) && Kept(sp)
        invariant inside ==> 0 <= i <= m && i < 1024 && outp == 2 * i && (carry <==> i < m)
        invariant inside ==> if i < m then Leads(rom, dec, UnaryEvents(group, i + 1, m), final) else dec == final
        invariant !inside ==> m >= 1024 && bitctx == (group + 8) * 0x100
        decreases inside, m - i
      {
        outp := Wrap(outp + 2);
        UnaryStep(rom, dec, group, i + 1, m, final);
        NumberContextFits(group, outp);
        inside, carry := GetNumberBit(group);
        i := i + 1;
      }
    }

    /** bitsloop: shift the digits into tmp1, highest first; the last index borrows. */
    method ReadDigits(ghost group: nat, ghost n: nat, ghost final: Decoder) returns (inside: bool)
      requires Decoding() && sp == Table() - 4 * GETNUMBER_PUSHED
      requires IsGroup(group) && tmp0 == group * 0x100
      requires n >= 2 && Log2(n) < 1024 && tmp1 == 1 && outp == 2 * Log2(n) - 1
      requires Leads(rom, dec, PayloadEvents(group, Log2(n), n), final)
      modifies `bitbuf, `inp, `rvalue, `isize, `outp, `tmp0, `tmp1, `bitctx, `sp, `dec, ram
      ensures Decoding() && (inside <==> Log2(n) < DigitLimit(group))
      ensures inside ==> dec == final && tmp1 == Wrap(n)
      ensures !inside ==> bitctx == NUM_CONTEXTS - 1
      ensures sp == old(sp) && Kept(sp)
    {
      hide Decoding, DecodeBit, Leads, NumberContext, Or, InTable, Table, Floor, PayloadEvents, Log2, Drop;
      AtLeastOneDigit(n);
      LeadingOne(n, Log2(n));
      ghost var i := Log2(n);
      var more := true;
      inside := true;
      while inside && more
        invariant Decoding() && tmp0 == old(tmp0) && sp == old(sp) && Kept(sp)
        invariant 0 <= i <= Log2(n) && (inside ==> (more <==> i >= 1))
        invariant inside ==> (i >= 1 ==> outp == 2 * i - 1) && tmp1 == Wrap(Drop(n, i))
        invariant inside ==> Leads(rom, dec, PayloadEvents(group, i, n), final)
        invariant inside ==> Log2(n) < DigitLimit(group) || DigitLimit(group) <= i
        invariant !inside ==> DigitLimit(group) <= Log2(n) && bitctx == NUM_CONTEXTS - 1
        decreases inside, i
      {
        PayloadStep(rom, dec, group, i, n, final);
        NumberContextFits(group, outp);
        var carry;
        inside, carry := GetNumberBit(group);
        if inside {
          WrapTwice(Drop(n, i), if carry then 1 else 0);
          tmp1 := Wrap(tmp1 + tmp1 + if carry then 1 else 0);
          more := outp >= 2;
          outp := Wrap(outp - 2);
        }
        i := i - 1;
      }
      if inside { PayloadEnd(rom, dec, group, n, final); }
    }

    method PushGetnumberRegisters(lr: Word)
      requires Decoding() && sp == Table()
      modifies `sp, ram
      ensures Decoding() && sp == old(sp) - 8
      ensures WordAt(sp - ramBase) == outp && WordAt(sp - ramBase + 4) == lr
      ensures forall i :: 0 <= i < ram.Length && !(sp - ramBase <= i < sp - ramBase + 8) ==> ram[i] == old(ram[i])
    {
      hide StreamOk, RangeOk, WordAt;
      Push(lr);
      label L:
      Push(outp);
      WordKept@L(sp + 4 - ramBase);
    }

    /** getnumber between its push and its pop. */
    method ReadNumber(ghost group: nat, ghost n: nat, ghost final: Decoder) returns (inside: bool)
      requires Decoding() && sp == Table() - 4 * GETNUMBER_PUSHED
      requires tmp0 == group && IsGroup(group)
      requires n >= 2 && Leads(rom, dec, NumberEvents(group, n), final)
      modifies `bitbuf, `inp, `rvalue, `isize, `outp, `tmp0, `tmp1, `bitctx, `sp, `dec, ram
      ensures Decoding() && (inside <==> NumberFits(group, n))
      ensures inside ==> dec == final && tmp1 == Wrap(n)
      ensures !inside ==> bitctx == OutsideContext(group, n)
      ensures sp == old(sp) && Kept(sp)
    {
      hide Decoding, Leads, InTable, Table, Floor, UnaryEvents, PayloadEvents, Log2, Pow2;
      tmp0 := Wrap(tmp0 * 0x100);
      outp := 0;
      AtLeastOneDigit(n);
      DigitsBelow(n, DigitLimit(group));
      ghost var es, fs := UnaryEvents(group, 1, Log2(n)), PayloadEvents(group, Log2(n), n);
      LeadsConcat(rom, dec, es, fs, final);
      inside := CountDigits(group, Log2(n), After(rom, dec, es));
      if inside {
        tmp1 := 1;
        outp := Wrap(outp - 1);
        inside := ReadDigits(group, n, final);
      }
    }

    /**
     getnumber: decodes the number n whose events the stream has next, modulo 2^32. If n
     is too long for the table, it gets as far as a first context outside.
     */
    method GetNumber(lr: Word, ghost group: nat, ghost n: nat, ghost final: Decoder)
      returns (inside: bool, pc: Word)
      requires Decoding() && sp == Table() && tmp0 == group && IsGroup(group)
      requires n >= 2 && Leads(rom, dec, NumberEvents(group, n), final)
      modifies `bitbuf, `inp, `rvalue, `isize, `outp, `tmp0, `tmp1, `bitctx, `sp, `dec, ram
      ensures Decoding() && (inside <==> NumberFits(group, n))
      ensures inside ==> dec == final && tmp1 == Wrap(n) && outp == old(outp) && sp == old(sp) && pc == lr
      ensures !inside ==> StoppedIn(OutsideContext(group, n))
      ensures Kept(Table())
    {
      hide StreamOk, RangeOk, TableOk, Leads, NumberEvents, WordAt, NumberFits, OutsideContext;
      PushGetnumberRegisters(lr);
      label Pushed:
      inside := ReadNumber(group, n, final);
      pc := 0;
      if inside {
        WordKept@Pushed(sp - ramBase);
        WordKept@Pushed(sp - ramBase + 4);
        outp := Pop();
        pc := Pop();
      }
    }

    /** getnumber is about to call getbit with a context. */
    ghost predicate StoppedIn(ctx: nat)
      reads `sp, `savedSp, `bitctx
    {
      sp == Table() - 4 * GETNUMBER_PUSHED && bitctx == ctx
    }

    // ---- Literals

    /** One bit of a literal: the context is the parity of outp or-ed with the node in tmp0. */
    method GetLiteralBit() returns (carry: bool)
      requires Decoding() && CanRefill(rom, dec) && sp == Table() && 1 <= tmp0 <= 0xff
      modifies `bitbuf, `inp, `rvalue, `isize, `outp, `tmp0, `tmp1, `bitctx, `sp, `dec, ram
      ensures Decoding() && (carry, dec) == DecodeBit(rom, old(dec), LiteralContext(outp % 2, tmp0))
      ensures LiteralContext(outp % 2, tmp0) == outp % 2 * 0x100 + tmp0
      ensures outp == old(outp) && tmp0 == old(tmp0) && sp == old(sp) && Kept(sp)
    {
      hide Decoding, DecodeBit, Or;
      ParityShift(outp);
      OrContext(outp % 2, tmp0);
      bitctx := Wrap(outp * 0x8000_0000);
      bitctx := bitctx / 0x80_0000;
      bitctx := Or(bitctx, tmp0);
      var lr: Word := *;
      var pc;
      carry, pc := GetBit(lr, LiteralContext(outp % 2, tmp0));
    }

    /** literal and getlit: walk down the tree until a leading 1 and eight bits are in tmp0. */
    method DecodeByte(ghost b: nat, ghost final: Decoder)
      requires Decoding() && sp == Table() && b < 0x100
      requires Leads(rom, dec, LiteralEvents(outp % 2, 8, b), final)
      modifies `bitbuf, `inp, `rvalue, `isize, `outp, `tmp0, `tmp1, `bitctx, `sp, `dec, ram
      ensures Decoding() && dec == final && tmp0 == 0x100 + b
      ensures outp == old(outp) && sp == old(sp) && Kept(sp)
    {
      hide Decoding, DecodeBit, Leads, LiteralContext, InTable, Table, Floor, LiteralEvents, Drop;
      ghost var i := 8;
      LiteralRoot(b);
      tmp0 := 1;
      var more := true;
      while more
        invariant Decoding() && 0 <= i <= 8 && (more <==> i >= 1)
        invariant tmp0 == Drop(0x100 + b, i)
        invariant outp == old(outp) && sp == old(sp) && Kept(sp)
        invariant Leads(rom, dec, LiteralEvents(outp % 2, i, b), final)
        decreases i
      {
        LiteralBitStep(rom, dec, outp % 2, i, b, final);
        var carry := GetLiteralBit();
        tmp0 := Wrap(tmp0 + tmp0 + if carry then 1 else 0);
        more := tmp0 <= 255;
        i := i - 1;
        LiteralEnd(b, i);
      }
      LiteralEnd(b, 0);
      LiteralBitsEnd(rom, dec, outp % 2, b, final);
    }

    // ---- Output

    /** The bytes written since index lo of the RAM. */
    ghost function Output(lo: nat): (out: seq<Byte>)
      requires ramBase + lo <= outp <= ramBase + ram.Length
      reads `outp, ram
      ensures |out| == outp - ramBase - lo
    {
      ram[lo..outp - ramBase]
    }

    /** The n bytes from index lo do not overlap the stack space and table of the depacker. */
    ghost predicate Clear(lo: int, n: int)
      reads `savedSp
    {
      ramBase + lo + n <= Floor() || savedSp <= ramBase + lo
    }

    /** Decoding leaves output that is clear of the stack alone. */
    twostate lemma OutputKept(lo: nat)
      requires outp == old(outp) && savedSp == old(savedSp) && ramBase + lo <= outp <= ramBase + ram.Length
      requires Kept(Table()) && Clear(lo, outp - ramBase - lo)
      ensures Output(lo) == old(Output(lo))
    {
    }

    /** strb, add: one byte is appended and nothing else written. */
    method StoreByte(ghost lo: nat, b: Byte)
      requires Decoding() && ramBase + lo <= outp < ramBase + ram.Length && Clear(outp - ramBase, 1)
      modifies `outp, ram
      ensures Decoding() && outp == old(outp) + 1 && Output(lo) == old(Output(lo)) + [b]
      ensures forall i :: 0 <= i < ram.Length && i != old(outp) - ramBase ==> ram[i] == old(ram[i])
    {
      hide StreamOk, RangeOk;
      ram[outp - ramBase] := b;
      outp := Wrap(outp + 1);
      assert ram[lo..old(outp) - ramBase] == old(ram[lo..outp - ramBase]);
    }

    /** ldrb, strb, add: the byte offset places back is appended. */
    method CopyByte(ghost lo: nat)
      requires Decoding() && ramBase + lo <= outp < ramBase + ram.Length && Clear(outp - ramBase, 1)
      requires 1 <= offset <= outp - ramBase - lo && tmp0 == Wrap(0 - offset)
      modifies `bitctx, `outp, ram
      ensures Decoding() && outp == old(outp) + 1
      ensures Output(lo) == old(Output(lo)) + [old(Output(lo)[|Output(lo)| - offset])]
      ensures forall i :: 0 <= i < ram.Length && i != old(outp) - ramBase ==> ram[i] == old(ram[i])
    {
      hide StreamOk, RangeOk, TableOk;
      assert Wrap(outp + tmp0) == outp - offset;
      bitctx := ram[Wrap(outp + tmp0) - ramBase];
      assert bitctx == Output(lo)[|Output(lo)| - offset];
      StoreByte(lo, bitctx);
    }

    /** copyloop: tmp1 bytes from tmp0 = -offset relative to outp, one at a time. */
    method CopyLoop(ghost lo: nat)
      requires Decoding() && tmp1 >= 1 && ramBase + lo <= outp && outp + tmp1 <= ramBase + ram.Length
      requires Clear(outp - ramBase, tmp1)
      requires 1 <= offset <= outp - ramBase - lo && tmp0 == Wrap(0 - offset)
      modifies `bitctx, `outp, `tmp1, ram
      ensures Decoding() && outp == old(outp) + old(tmp1)
      ensures Output(lo) == Copy(old(Output(lo)), offset, old(tmp1))
      ensures forall i :: 0 <= i < ram.Length && (i < old(outp) - ramBase || outp - ramBase <= i) ==>
                ram[i] == old(ram[i])
    {
      hide Output, StreamOk, RangeOk, TableOk, StackOk;
      var more := true;
      while more
        invariant Decoding()
        invariant old(outp) <= outp && outp + tmp1 == old(outp) + old(tmp1) && (more <==> tmp1 >= 1)
        invariant Copy(Output(lo), offset, tmp1) == Copy(old(Output(lo)), offset, old(tmp1))
        invariant forall i :: 0 <= i < ram.Length && (i < old(outp) - ramBase || outp - ramBase <= i) ==>
                    ram[i] == old(ram[i])
        decreases tmp1
      {
        CopyByte(lo);
        tmp1 := Wrap(tmp1 - 1);
        more := tmp1 != 0;
      }
    }

    // ---- Main program

    /** The byte that init leaves at an address of the table: halfwords of 0x8000. */
    ghost function InitialByte(a: int): Byte {
      if a % 2 == 0 then 0 else 0x80
    }

    method PushInitial()
      requires Memory() && StackRoom(sp, 4) && bitctx == 0x8000_8000
      modifies `sp, ram
      ensures sp == old(sp) - 4
      ensures forall i :: 0 <= i < ram.Length ==>
                ram[i] == if sp <= ramBase + i < sp + 4 then InitialByte(ramBase + i) else old(ram[i])
    {
      hide HalfAt, WordAt, InitialByte;
      Push(bitctx);
      HalfBytes(sp - ramBase);
      HalfBytes(sp - ramBase + 2);
      InitialBytes(sp);
      forall i | sp - ramBase <= i < sp - ramBase + 4 ensures ram[i] == InitialByte(ramBase + i) {
        assert i == sp - ramBase || i == sp - ramBase + 1 || i == sp - ramBase + 2 || i == sp - ramBase + 3;
      }
    }

    lemma InitialBytes(a: int)
      requires a % 4 == 0
      ensures InitialByte(a) == InitialByte(a + 2) == 0 && InitialByte(a + 1) == InitialByte(a + 3) == 0x80
    {
      var k := a / 4;
      DivModUnique(a, 2, 2 * k, 0);
      DivModUnique(a + 1, 2, 2 * k, 1);
      DivModUnique(a + 2, 2, 2 * k + 1, 0);
      DivModUnique(a + 3, 2, 2 * k + 1, 1);
    }

    lemma HalfBytes(i: int)
      requires 0 <= i < ram.Length - 1 && HalfAt(i) == 0x8000
      ensures ram[i] == 0 && ram[i + 1] == 0x80
    {
    }

    /** init: rvalue counts 1024 pushes of two probabilities each, down to 0. */
    method InitContexts()
      requires Memory() && StackRoom(sp, 2 * NUM_CONTEXTS) && rvalue == 0x400 && bitctx == 0x8000_8000
      modifies `rvalue, `sp, ram
      ensures rvalue == 0 && sp == old(sp) - 2 * NUM_CONTEXTS
      ensures forall i :: 0 <= i < ram.Length ==>
                ram[i] == if sp <= ramBase + i < old(sp) then InitialByte(ramBase + i) else old(ram[i])
    {
      hide InitialByte;
      var more := true;
      while more
        invariant rvalue <= 0x400 && (more <==> rvalue >= 1) && sp == old(sp) - 4 * (0x400 - rvalue)
        invariant forall i :: 0 <= i < ram.Length ==>
                    ram[i] == if sp <= ramBase + i < old(sp) then InitialByte(ramBase + i) else old(ram[i])
        decreases rvalue
      {
        PushInitial();
        rvalue := Wrap(rvalue - 1);
        more := rvalue != 0;
      }
    }

    /** code_start: pointers, an empty bit buffer, and the loop's counter and table word. */
    method InitRegisters(load: Word)
      modifies `inp, `outp, `rvalue, `isize, `bitbuf, `bitctx, `savedSp
      ensures savedSp == sp && inp == packedIntro && outp == load
      ensures isize == 1 && bitbuf == 0x8000_0000 && rvalue == 0x400 && bitctx == 0x8000_8000
    {
      hide Or;
      savedSp := sp;
      inp := packedIntro;
      outp := load;
      isize := 1;
      bitbuf := Wrap(isize * 0x8000_0000);
      rvalue := Wrap(isize * 0x400);
      bitctx := Wrap(isize * 0x8000);
      InitialProbabilities();
      bitctx := Or(bitctx, bitbuf);
    }

    /** The pushed halfwords are the table of a fresh decoder. */
    lemma FreshTable()
      requires Memory() && StackOk()
      requires forall i | 0 <= i < ram.Length && InTable(i) :: ram[i] == InitialByte(ramBase + i)
      ensures TableOk(map[])
    {
      hide HalfAt, InitialByte, Prob;
      forall ctx | IsContext(ctx) ensures HalfAt(ContextIndex(ctx)) == Prob(map[], ctx) {
        hide *;
        FreshContext(ctx);
      }
    }

    lemma FreshContext(ctx: int)
      requires Memory() && StackOk() && IsContext(ctx)
      requires forall i | 0 <= i < ram.Length && InTable(i) :: ram[i] == InitialByte(ramBase + i)
      ensures HalfAt(ContextIndex(ctx)) == Prob(map[], ctx)
    {
      hide HalfAt, InitialByte, IsContext, Slot;
      SlotInTable(ctx);
      DivModUnique(savedSp - 2 * NUM_CONTEXTS + 2 * Slot(ctx), 2, savedSp / 4 * 2 - NUM_CONTEXTS + Slot(ctx), 0);
      InitialHalf(ContextIndex(ctx));
    }

    lemma SlotInTable(ctx: int)
      requires IsContext(ctx)
      ensures 0 <= Slot(ctx) < NUM_CONTEXTS
    {
    }

    lemma InitialHalf(i: int)
      requires 0 <= i < ram.Length - 1 && (ramBase + i) % 2 == 0
      requires ram[i] == InitialByte(ramBase + i) && ram[i + 1] == InitialByte(ramBase + i + 1)
      ensures HalfAt(i) == 0x8000
    {
    }

    /** All that runs before the first literal; every context starts equal. */
    method Initialise(load: Word)
      requires Memory() && StackRoom(sp, STACK_SPACE)
      modifies `inp, `outp, `rvalue, `isize, `bitbuf, `bitctx, `savedSp, `sp, `dec, ram
      ensures Decoding() && dec == FRESH_DECODER && sp == Table() == old(sp) - 0x1000
      ensures inp == packedIntro && bitbuf == 0x8000_0000 && rvalue == 0 && isize == 1
      ensures forall i | 0 <= i < ram.Length && InTable(i) :: ram[i] == if (ramBase + i) % 2 == 0 then 0 else 0x80
      ensures savedSp == old(sp) && outp == load && Kept(savedSp)
    {
      hide TableOk;
      InitRegisters(load);
      InitContexts();
      FreshTable();
      dec := FRESH_DECODER;
    }

    /** The machine is at a label of the main loop with the given work left. */
    ghost predicate At(at: Label, t: Todo, lo: nat, goal: Goal)
      reads `dec, `bitbuf, `inp, `rvalue, `isize, `savedSp, `outp, `offset, `sp, ram
    {
      Decoding() && sp == Table()
      && lo + |goal.output| <= ram.Length && Clear(lo, |goal.output|)
      && ramBase + lo <= outp <= ramBase + lo + |goal.output|
      && Pending(rom, at, t, Output(lo), outp, offset, dec, goal)
    }

    /** The machine is about to read the select bits of the rest. */
    ghost predicate AtSelect(t: Todo, lo: nat, goal: Goal)
      reads `dec, `bitbuf, `inp, `rvalue, `isize, `savedSp, `outp, `offset, `sp, ram
    {
      Decoding() && sp == Table() && t.prev != AtStart && (t.last != 0 ==> offset == t.last)
      && lo + |goal.output| <= ram.Length && Clear(lo, |goal.output|)
      && ramBase + lo <= outp <= ramBase + lo + |goal.output|
      && Selecting(rom, t, Output(lo), outp, dec, goal)
    }

    /** Only the output area and the depacker's stack space and table have changed. */
    twostate predicate KeptOutside(lo: nat, length: nat)
      reads `savedSp, ram
    {
      forall i :: 0 <= i < ram.Length && !(lo <= i < lo + length) && !(Floor() <= ramBase + i < savedSp) ==>
        ram[i] == old(ram[i])
    }

    /** literal: one byte is decoded and stored. */
    method LiteralBlock(ghost t: Todo, ghost lo: nat, ghost goal: Goal) returns (ghost t': Todo)
      requires At(AtLiteral, t, lo, goal)
      modifies `bitbuf, `inp, `rvalue, `isize, `outp, `tmp0, `tmp1, `bitctx, `sp, `dec, ram
      ensures AtSelect(t', lo, goal) && t'.prev == AfterLiteral && |t'.rest| < |t.rest|
      ensures KeptOutside(lo, |goal.output|)
    {
      hide StreamOk, RangeOk, TableOk, Leads, LiteralEvents, Completes, Selecting;
      ghost var b, d := LiteralStep(rom, t, Output(lo), outp, offset, dec, goal);
      DecodeByte(b, d);
      OutputKept(lo);
      StoreByte(lo, tmp0 % 0x100);
      t' := Todo(t.rest[1..], t.last, AfterLiteral);
    }

    /** switch, or the getkind after a reference: which label comes next. */
    method SelectBlock(ghost t: Todo, ghost lo: nat, ghost goal: Goal) returns (next: Label)
      requires AtSelect(t, lo, goal) && t.prev == AfterReference
      modifies `bitbuf, `inp, `rvalue, `isize, `outp, `tmp0, `tmp1, `bitctx, `sp, `dec, ram
      ensures At(next, t, lo, goal) && KeptOutside(lo, 0) && next != Done && next != AtReadLength
    {
      hide Decoding, Leads, Selecting, Pending, DecodeBit, CanRefill;
      KindStep(rom, t, Output(lo), outp, offset, dec, goal);
      var lr: Word := *;
      var carry, pc := GetKind(lr);
      OutputKept(lo);
      next := if carry then AtReadOffset else AtLiteral;
    }

    method SelectAfterLiteralBlock(ghost t: Todo, ghost lo: nat, ghost goal: Goal) returns (next: Label)
      requires AtSelect(t, lo, goal) && t.prev == AfterLiteral
      modifies `bitbuf, `inp, `rvalue, `isize, `outp, `tmp0, `tmp1, `bitctx, `sp, `dec, ram
      ensures At(next, t, lo, goal) && KeptOutside(lo, 0) && next != Done
    {
      hide Decoding, Leads, Pending, Completes, Body, DecodeBit, CanRefill;
      KindStep(rom, t, Output(lo), outp, offset, dec, goal);
      var lr: Word := *;
      var carry, pc := GetKind(lr);
      OutputKept(lo);
      if !carry {
        next := AtLiteral;
      } else {
        RepeatStep(rom, t, Output(lo), outp, offset, dec, goal);
        bitctx := 0;
        bitctx := Wrap(bitctx - 1);
        carry, pc := GetBit(lr, REPEATED_OFFSET);
        OutputKept(lo);
        next := if carry then AtReadLength else AtReadOffset;
      }
    }

    /** The run has left the table where the goal says, with all its output written. */
    ghost predicate Left(lo: nat, goal: Goal)
      reads `savedSp, `sp, `bitctx, ram
    {
      goal.outcome.LeavesTable? && StoppedIn(goal.outcome.ctx)
      && lo + |goal.output| <= ram.Length && ram[lo..lo + |goal.output|] == goal.output
    }

    /** readoffset on the registers: the number n is read, and n - 2 becomes the offset. */
    method ReadOffset(ghost lo: nat, ghost n: nat, ghost final: Decoder) returns (inside: bool)
      requires Decoding() && sp == Table() && n >= 2 && Leads(rom, dec, NumberEvents(OFFSET_GROUP, n), final)
      requires ramBase + lo <= outp <= ramBase + ram.Length && Clear(lo, outp - ramBase - lo)
      modifies `bitbuf, `inp, `rvalue, `isize, `outp, `tmp0, `tmp1, `bitctx, `offset, `sp, `dec, ram
      ensures inside <==> NumberFits(OFFSET_GROUP, n)
      ensures inside ==>
                Decoding() && dec == final && sp == Table() && outp == old(outp)
                && offset == Wrap(n - 2) && Output(lo) == old(Output(lo))
      ensures !inside ==> StoppedIn(OutsideContext(OFFSET_GROUP, n))
      ensures ram[lo..old(outp) - ramBase] == old(ram[lo..outp - ramBase]) && KeptOutside(lo, 0)
    {
      hide StreamOk, RangeOk, TableOk, Leads, NumberEvents, NumberFits, OutsideContext;
      ghost var hi: nat := outp - ramBase;
      tmp0 := 3;
      var lr: Word := *;
      var pc;
      inside, pc := GetNumber(lr, OFFSET_GROUP, n, final);
      assert ram[lo..hi] == old(ram[lo..outp - ramBase]);
      if inside {
        WrapAdds(n, -2);
        tmp1 := Wrap(tmp1 - 2);
        offset := tmp1;
      }
    }

    /** readoffset: the next symbol brings its own offset, or 0 ends the data. */
    method ReadOffsetBlock(ghost t: Todo, ghost lo: nat, ghost goal: Goal) returns (inside: bool, next: Label)
      requires At(AtReadOffset, t, lo, goal)
      modifies `bitbuf, `inp, `rvalue, `isize, `outp, `tmp0, `tmp1, `bitctx, `offset, `sp, `dec, ram
      ensures inside ==> At(next, t, lo, goal) && (next == Done || next == AtReadLength)
      ensures !inside ==> Left(lo, goal)
      ensures KeptOutside(lo, 0)
    {
      hide Decoding, Leads, NumberEvents, Pending, NumberFits, OutsideContext, Wrap;
      ghost var n, d := OffsetStep(rom, t, Output(lo), outp, offset, dec, goal);
      inside := ReadOffset(lo, n, d);
      next := if offset != 0 then AtReadLength else Done;
    }

    /** readlength and copyloop on the registers: the number l is read and its low word of bytes copied. */
    method CopyNumber(ghost lo: nat, ghost l: nat, ghost final: Decoder) returns (inside: bool)
      requires Decoding() && sp == Table() && l >= 2 && Leads(rom, dec, NumberEvents(LENGTH_GROUP, l), final)
      requires ramBase + lo <= outp <= ramBase + ram.Length && Clear(lo, outp - ramBase - lo)
      requires NumberFits(LENGTH_GROUP, l) ==>
                 Wrap(l) != 0 && outp + Wrap(l) <= ramBase + ram.Length
                 && Clear(lo, outp + Wrap(l) - ramBase - lo) && 1 <= offset <= outp - ramBase - lo
      modifies `bitbuf, `inp, `rvalue, `isize, `outp, `tmp0, `tmp1, `bitctx, `sp, `dec, ram
      ensures inside <==> NumberFits(LENGTH_GROUP, l)
      ensures inside ==>
                Decoding() && dec == final && sp == Table() && outp == old(outp) + Wrap(l)
                && Output(lo) == Copy(old(Output(lo)), offset, Wrap(l)) && KeptOutside(lo, outp - ramBase - lo)
      ensures !inside ==>
                StoppedIn(OutsideContext(LENGTH_GROUP, l)) && KeptOutside(lo, 0)
                && ram[lo..old(outp) - ramBase] == old(ram[lo..outp - ramBase])
    {
      hide StreamOk, RangeOk, TableOk, Leads, NumberEvents, Copy, NumberFits, OutsideContext;
      ghost var hi: nat := outp - ramBase;
      tmp0 := 4;
      var lr: Word := *;
      var pc;
      inside, pc := GetNumber(lr, LENGTH_GROUP, l, final);
      assert ram[lo..hi] == old(ram[lo..outp - ramBase]);
      if inside {
        tmp0 := offset;
        tmp0 := Wrap(0 - tmp0);
        CopyLoop(lo);
      }
    }

    /** readlength and copyloop: one copy of the remaining symbols. */
    method ReadLengthBlock(ghost t: Todo, ghost lo: nat, ghost goal: Goal) returns (inside: bool, ghost t': Todo)
      requires At(AtReadLength, t, lo, goal)
      modifies `bitbuf, `inp, `rvalue, `isize, `outp, `tmp0, `tmp1, `bitctx, `sp, `dec, ram
      ensures inside ==> AtSelect(t', lo, goal) && t'.prev == AfterReference && |t'.rest| < |t.rest|
      ensures !inside ==> Left(lo, goal)
      ensures KeptOutside(lo, |goal.output|)
    {
      hide Decoding, Leads, NumberEvents, Completes, Selecting, Copy, NumberFits, SymbolFits, OutsideContext;
      ghost var l, d := LengthStep(rom, t, Output(lo), outp, offset, dec, goal);
      inside := CopyNumber(lo, l, d);
      t' := Todo(t.rest[1..], offset, AfterReference);
    }

    /** The main decompression loop, from the first literal to donedecompressing or out of the table. */
    method MainLoop(ghost start: Todo, ghost lo: nat, ghost goal: Goal) returns (finished: bool, ghost t: Todo)
      requires At(AtLiteral, start, lo, goal)
      modifies `bitbuf, `inp, `rvalue, `isize, `outp, `tmp0, `tmp1, `bitctx, `offset, `sp, `dec, ram
      ensures finished ==> At(Done, t, lo, goal)
      ensures !finished ==> Left(lo, goal)
      ensures KeptOutside(lo, |goal.output|)
    {
      hide At, AtSelect, Floor, Left;
      t := start;
      var at := AtLiteral;
      finished := true;
      while finished && at != Done
        invariant finished ==> At(at, t, lo, goal)
        invariant !finished ==> Left(lo, goal)
        invariant KeptOutside(lo, |goal.output|)
        decreases finished, |t.rest|, if at == AtReadOffset then 1 else 0
      {
        match at
        case AtLiteral =>
          t := LiteralBlock(t, lo, goal);
          at := SelectAfterLiteralBlock(t, lo, goal);
        case AtReadLength =>
          finished, t := ReadLengthBlock(t, lo, goal);
          if finished { at := SelectBlock(t, lo, goal); }
        case AtReadOffset =>
          finished, at := ReadOffsetBlock(t, lo, goal);
      }
    }

    /** The address that getbit, called next, would use for the context register. */
    ghost function NextAccess(): Word
      reads `sp, `bitctx
    {
      ContextAddress(Wrap(sp - 4 * GETBIT_PUSHED), bitctx)
    }

    lemma NextAccessOutside(ctx: nat)
      requires Memory() && StackOk() && StoppedIn(ctx) && 0x300 <= ctx < 0x8000_0000
      ensures NextAccess() == Wrap(savedSp + 2 * (ctx - (NUM_CONTEXTS - 1)))
    {
      hide ContextAddress;
      AccessIsSlot(Table(), ctx);
    }

    /**
     The whole depacker. For every well-formed symbol sequence, every stream that is
     compressed data for it and every load address that leaves room for the stack: the
     output area receives exactly the decompressed data, and RAM changes nowhere else but
     in the 4120 bytes below the stack pointer. If and only if all numbers fit the table
     the run finishes: the stack pointer is restored, and the words holding the coded
     bits, and no others, have been loaded. Otherwise getbit is about to be called for a
     halfword at or above the initial stack pointer, at a known distance.
     */
    method Depack(load: Word, ghost syms: seq<Symbol>) returns (finished: bool)
      requires packedIntro + 4 * |rom| < 0x1_0000_0000 && ramBase + ram.Length < 0x1_0000_0000
      requires sp % 4 == 0 && ramBase + 4120 <= sp <= ramBase + ram.Length
      requires WellFormed(syms, 0, 0, AtStart) && IsCompressed(rom, syms)
      requires ramBase <= load && load + |Decompressed(syms)| <= ramBase + ram.Length
      requires load + |Decompressed(syms)| <= sp - 4120 || sp <= load
      modifies this, ram
      ensures ram[load - ramBase..load - ramBase + |Decompressed(syms)|] == Decompressed(syms)
      ensures forall i | 0 <= i < ram.Length ::
                load <= ramBase + i < load + |Decompressed(syms)| || old(sp) - 4120 <= ramBase + i < old(sp)
                || ram[i] == old(ram[i])
      ensures finished <==> SymbolsFit(syms)
      ensures finished ==>
                outp == load + |Decompressed(syms)| && sp == old(sp)
                && inp == packedIntro + 4 * ((Encode(START, Events(syms, 0, AtStart)).pos + 31) / 32)
      ensures !finished ==>
                RunOutcome(syms, AtStart).LeavesTable?
                && NextAccess() == Wrap(old(sp) + 2 * (RunOutcome(syms, AtStart).ctx - 0x7ff))
    {
      hide Leads, WellFormed, Printable, Pending, RangeOk, TableOk, Encode, Events, Decompressed;
      hide RunOutcome, SymbolsFit;
      ghost var lo: nat := load - ramBase;
      ghost var final := StreamLeads(rom, syms, load);
      ghost var goal := Goal(Decompressed(syms), final, RunOutcome(syms, AtStart));
      FinishesIff(syms, AtStart);
      Initialise(load);
      StartPending(rom, syms, load, offset, goal);
      ghost var t;
      finished, t := MainLoop(Todo(syms, 0, AtStart), lo, goal);
      if finished {
        FinalOutput(rom, t, Output(lo), outp, offset, dec, goal);
        sp := savedSp;
      } else {
        NextAccessOutside(goal.outcome.ctx);
      }
    }
  }

  /** The stack pointer that the debug build expects after depacking. */
  const INITIAL_SP: Word := 0x0300_7f00

  /** Where the debug build ends: in the program, or in the panic routine with a message. */
  datatype Verdict = Passed | WrongSize | WrongChecksum | WrongSp

  /**
   The debug build, with the size and the checksum of any data built in: the first check
   that fails decides. On the data that was compressed all of them pass.
   */
  method DepackWithDebugChecks(machine: Depacker, load: Word, data: seq<Byte>, ghost syms: seq<Symbol>)
    returns (verdict: Verdict)
    requires machine.packedIntro + 4 * |machine.rom| < 0x1_0000_0000
    requires machine.ramBase + machine.ram.Length < 0x1_0000_0000 && machine.sp % 4 == 0
    requires machine.ramBase + 4120 <= machine.sp <= machine.ramBase + machine.ram.Length
    requires WellFormed(syms, 0, 0, AtStart) && SymbolsFit(syms) && IsCompressed(machine.rom, syms)
    requires |data| < 0x1_0000_0000
    requires machine.ramBase <= load && load + |Decompressed(syms)| <= machine.ramBase + machine.ram.Length
    requires load + |Decompressed(syms)| <= machine.sp - 4120 || machine.sp <= load
    modifies machine, machine.ram
    ensures verdict ==
            if |Decompressed(syms)| != |data| then WrongSize
            else if Adler.Checksum(Decompressed(syms)) != Adler.Checksum(data) then WrongChecksum
            else if old(machine.sp) != 0x0300_7f00 then WrongSp
            else Passed
  {
    hide WellFormed, Decompressed, IsCompressed, Encode, Events;
    OutputNotEmpty(syms);
    var finished := machine.Depack(load, syms);
    if Wrap(machine.outp - load) != |data| { return WrongSize; }
    var actual := Adler.ThumbAdler32(machine.ram, machine.ramBase, load, |data|);
    var expected := Adler.Adler32(data);
    if actual != expected { return WrongChecksum; }
    verdict := if machine.sp == INITIAL_SP then Passed else WrongSp;
  }

  /** So a built-in size of 0 fails the first check, before the checksum loop. */
  lemma OutputNotEmpty(syms: seq<Symbol>)
    requires WellFormed(syms, 0, 0, AtStart)
    ensures |Decompressed(syms)| >= 1
  {
    assert [] + [syms[0].value] == [syms[0].value];
    ExpandExtends([syms[0].value], 0, syms[1..], AfterLiteral);
  }

  /**
   A packed cartridge: any program that a stream codes comes back in the 256K of EWRAM,
   or in the part of the 32K of IWRAM below the stack space, with or without code in the
   header.
   */
  method RunCartridge(
    rom: seq<Word>, data: seq<Byte>, ghost syms: seq<Symbol>, load: Word, codeInHeader: bool, gameVersion: Byte)
    returns (out: seq<Byte>)
    requires WellFormed(syms, 0, 0, AtStart) && SymbolsFit(syms) && Decompressed(syms) == data
    requires IsCompressed(rom, syms) && 0x0800_00c0 + 4 * |rom| < 0x1_0000_0000
    requires (0x0200_0000 <= load && load + |data| <= 0x0204_0000)
             || (0x0300_0000 <= load && load + |data| <= 0x0300_7f00 - 4120)
    ensures out == data
  {
    hide Decompressed, WellFormed, Printable, Encode, Events, IsCompressed, SymbolsFit;
    var ram := new Byte[0x0100_8000];
    var machine := new Depacker(0x0800_00c0, rom, 0x0200_0000, ram, INITIAL_SP, codeInHeader, gameVersion);
    var finished := machine.Depack(load, syms);
    out := ram[load - 0x0200_0000..load - 0x0200_0000 + |data|];
  }
}
