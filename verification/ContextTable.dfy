/**
 Where the context table lies on the stack. The table is addressed relative to the
 stack pointer inside getbit, at a distance that is right for calls from getnumber;
 calls from the main program have two registers fewer on the stack and so reach
 four halfwords further. Contexts are numbered as in the source: -1 for "repeated
 offset", $0xx and $1xx for kinds and literals, $3xx and above for numbers.
 */
module ContextTable {
  import opened Words
  import opened Codes

  const NUM_CONTEXTS: nat := 2048
  const SINGLE_BIT_CONTEXTS: nat := 1
  const GETBIT_PUSHED: nat := 4
  const GETNUMBER_PUSHED: nat := 2
  const CTX_TABLE_OFFSET: nat := 4 * GETBIT_PUSHED + 4 * GETNUMBER_PUSHED + 2 * SINGLE_BIT_CONTEXTS

  /** The context table and the six registers that are on the stack at the deepest point. */
  const STACK_SPACE: nat := 2 * NUM_CONTEXTS + 4 * (GETBIT_PUSHED + GETNUMBER_PUSHED)

  /** The halfword a context uses, counted from the start of the table. */
  function Slot(ctx: int): int {
    if ctx < 0x200 then ctx + 5 else ctx + 1
  }

  predicate IsMainContext(ctx: int) {
    -1 <= ctx < 0x200
  }

  /** A number can ask for any context from $300 up; not all of them have room in the table. */
  predicate IsNumberContext(ctx: int) {
    0x300 <= ctx && Slot(ctx) < NUM_CONTEXTS
  }

  /** All contexts with a halfword of their own. */
  predicate IsContext(ctx: int) {
    IsMainContext(ctx) || IsNumberContext(ctx)
  }

  /** How far the stack pointer is below the table when getbit is called. */
  function CallDepth(ctx: int): nat {
    if ctx < 0x200 then 0 else 4 * GETNUMBER_PUSHED
  }

  /** The address getbit computes from its stack pointer and the context register. */
  function ContextAddress(sp: Word, bitctx: Word): Word {
    Wrap(Wrap(Wrap(bitctx + bitctx) + sp) + CTX_TABLE_OFFSET)
  }

  /** At both call depths getbit reaches the halfword of the context, in the table or not. */
  lemma AccessIsSlot(table: Word, ctx: int)
    requires 24 <= table && (IsMainContext(ctx) || 0x300 <= ctx < 0x8000_0000)
    ensures ContextAddress(table - CallDepth(ctx) - 4 * GETBIT_PUSHED, Wrap(ctx)) == Wrap(table + 2 * Slot(ctx))
  {
    var sp: int := table - CallDepth(ctx) - 4 * GETBIT_PUSHED;
    var bitctx: int := Wrap(ctx);
    WrapAdds(bitctx + bitctx, sp);
    WrapAdds(bitctx + bitctx + sp, CTX_TABLE_OFFSET);
    if ctx == -1 {
      assert bitctx == 0xffff_ffff;
      WrapAdds(0x1_0000_0000, table + 8);
    } else {
      assert bitctx == ctx;
    }
  }

  /** The halfwords of all contexts lie in the table. */
  lemma AccessIsInTable(table: Word, ctx: int)
    requires 24 <= table && table + 2 * NUM_CONTEXTS <= 0x1_0000_0000 && IsContext(ctx)
    ensures ContextAddress(table - CallDepth(ctx) - 4 * GETBIT_PUSHED, Wrap(ctx)) == table + 2 * Slot(ctx)
    ensures 0 <= Slot(ctx) < NUM_CONTEXTS
  {
    AccessIsSlot(table, ctx);
  }

  /** No two contexts share a halfword, although the two depths use different bases. */
  lemma SlotsAreDistinct(a: int, b: int)
    requires IsContext(a) && IsContext(b) && Slot(a) == Slot(b)
    ensures a == b
  {
  }

  // ---- Numbers too long for the table

  /** The digits below the leading one that are too many: those of 2^640 for offsets, 2^512 for lengths. */
  function DigitLimit(group: nat): nat {
    if group == OFFSET_GROUP then 640 else 512
  }

  predicate IsGroup(group: nat) {
    group == OFFSET_GROUP || group == LENGTH_GROUP
  }

  predicate NumberFits(group: nat, n: nat) {
    n < Pow2(DigitLimit(group))
  }

  /**
   The first context outside the table that a number too long for it asks for. Up to 1023
   digits the unary part passes, and one of the digits then uses context 0x7ff, whose
   halfword would be the one just above the table.
   */
  function OutsideContext(group: nat, n: nat): nat
    requires n >= 1
  {
    if Log2(n) < 1024 then NUM_CONTEXTS - 1 else (group + 8) * 0x100
  }

  lemma SmallOrs()
    ensures Or(3, 0) == 3 && Or(3, 1) == 3 && Or(3, 2) == 3 && Or(3, 3) == 3
    ensures Or(3, 4) == 7 && Or(3, 5) == 7 && Or(3, 6) == 7 && Or(3, 7) == 7 && Or(3, 8) == 11
    ensures Or(4, 0) == 4 && Or(4, 1) == 5 && Or(4, 2) == 6 && Or(4, 3) == 7
    ensures Or(4, 4) == 4 && Or(4, 5) == 5 && Or(4, 6) == 6 && Or(4, 7) == 7 && Or(4, 8) == 12
  {
  }

  /** The or with the group changes the high byte of an index only. */
  lemma NumberContextBytes(group: nat, i: nat)
    ensures NumberContext(group, i) == Or(group, i / 0x100) * 0x100 + i % 0x100
  {
    Pow2Values();
    OrSplit(group, i / 0x100, i % 0x100, 8);
  }

  /**
   Indices of number contexts against the end of the table. The first outside are 1279
   for offsets and 1023 for lengths; among the even ones it is 2048.
   */
  lemma NumberContextFits(group: nat, i: nat)
    requires IsGroup(group) && i <= 2048
    ensures 0x300 <= NumberContext(group, i)
    ensures NumberContext(group, i) < NUM_CONTEXTS - 1 <==> IsNumberContext(NumberContext(group, i))
    ensures i < 2048 ==> NumberContext(group, i) < NUM_CONTEXTS
    ensures i < 2048 && i % 2 == 0 ==> IsNumberContext(NumberContext(group, i))
    ensures i < 2 * DigitLimit(group) - 1 ==> IsNumberContext(NumberContext(group, i))
    ensures i == 2 * DigitLimit(group) - 1 ==> NumberContext(group, i) == NUM_CONTEXTS - 1
    ensures i == 2048 ==> NumberContext(group, i) == (group + 8) * 0x100
  {
    hide NumberContext, Or;
    NumberContextBytes(group, i);
    SmallOrs();
    var h := i / 0x100;
    assert h == 0 || h == 1 || h == 2 || h == 3 || h == 4 || h == 5 || h == 6 || h == 7 || h == 8;
  }

  /** All contexts that a number with the given digit count asks for lie in the table. */
  ghost predicate NumberFitsTable(group: nat, digits: nat) {
    forall i :: 1 <= i <= 2 * digits ==> IsNumberContext(NumberContext(group, i))
  }

  /**
   A malformed stream can ask for more digits than a 32-bit number has. The table is
   left exactly from 640 digits on for offsets and from 512 on for lengths.
   */
  lemma NumberFitsTableIff(group: nat, digits: nat)
    requires IsGroup(group)
    ensures NumberFitsTable(group, digits) <==> digits < if group == OFFSET_GROUP then 640 else 512
    ensures (forall i | 1 <= i <= 2 * digits :: IsNumberContext(NumberContext(group, i)))
       <==> digits < if group == OFFSET_GROUP then 640 else 512
  {
    hide NumberContext, IsNumberContext;
    var first := 2 * DigitLimit(group) - 1;
    NumberContextFits(group, first);
    if digits < DigitLimit(group) {
      forall i | 1 <= i <= 2 * digits ensures IsNumberContext(NumberContext(group, i)) {
        NumberContextFits(group, i);
      }
    }
  }

  lemma WordFits(group: nat, n: nat)
    requires 2 <= n < 0x1_0000_0000
    ensures NumberFits(group, n)
  {
    NumberDigits(n);
    DigitsBelow(n, DigitLimit(group));
  }
}
