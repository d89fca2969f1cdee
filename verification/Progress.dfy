/**
 How far a run has come, as values: the symbols still to be produced, the output so
 far, and what the decoder will read next. The lemmas are the transitions of the
 depacker's main loop.
 */
module Progress {
  import opened Words
  import opened RangeCoder
  import opened RangeDecoder
  import opened Codes
  import opened Symbols
  import opened LzFormat
  import opened LzStream
  import opened LoadAddress
  import opened ContextTable

  /** The labels of the main loop between which the lemmas move. */
  datatype Label = AtLiteral | AtReadLength | AtReadOffset | Done

  /** Symbols to come, the offset a repetition would use (0: none yet), and the symbol before. */
  datatype Todo = Todo(rest: seq<Symbol>, last: nat, prev: Prev)

  /** The whole output, the decoder state once all events are read, and how the run goes. */
  datatype Goal = Goal(output: seq<Byte>, decoder: Decoder, outcome: Outcome)

  /** Producing the rest after out completes the goal's output. */
  ghost predicate Completes(t: Todo, out: seq<Byte>, goal: Goal) {
    WellFormed(t.rest, |out|, t.last, t.prev) && Expand(out, t.last, t.rest, t.prev) == goal.output
    && RunOutcome(t.rest, t.prev) == goal.outcome
  }

  /** Next in the stream are the select bits of the rest. */
  ghost predicate Selecting(rom: seq<Word>, t: Todo, out: seq<Byte>, pos: nat, d: Decoder, goal: Goal) {
    Completes(t, out, goal) && Leads(rom, d, Events(t.rest, pos, t.prev), goal.decoder)
  }

  /** The offset that the next symbol, a copy, would use. */
  function CopyOffset(t: Todo): nat
    requires t.rest != [] && (t.rest[0].Match? || t.rest[0].Repeat?)
  {
    if t.rest[0].Repeat? then t.last else Wrap(t.rest[0].offset)
  }

  /** The program is at a label, with offset in its offset register. */
  ghost predicate Pending(
    rom: seq<Word>, at: Label, t: Todo, out: seq<Byte>, pos: nat, offset: nat, d: Decoder, goal: Goal)
  {
    Completes(t, out, goal) &&
    match at
    case AtLiteral =>
      !IsReference(t.rest) && (t.last != 0 ==> offset == t.last)
      && Leads(rom, d, Body(t.rest, pos, t.prev), goal.decoder)
    case AtReadOffset =>
      t.prev != AtStart && IsReference(t.rest) && !IsRepeat(t.rest)
      && Leads(rom, d, Body(t.rest, pos, t.prev), goal.decoder)
    case AtReadLength =>
      (t.rest[0].Match? || t.rest[0].Repeat?)
      && (t.rest[0].Match? ==> NumberFits(OFFSET_GROUP, t.rest[0].offset + 2))
      && (SymbolFits(t.rest[0]) ==> offset == CopyOffset(t))
      && Leads(rom, d, LengthPart(t.rest[0].length, t.rest[1..], pos), goal.decoder)
    case Done =>
      t.rest[0].End? && SymbolFits(t.rest[0]) && d == goal.decoder
  }

  /** A number too long for the table is next, and the run goes no further than this. */
  ghost predicate Stops(group: nat, n: nat, out: seq<Byte>, goal: Goal)
    requires n >= 1
  {
    out == goal.output && goal.outcome == LeavesTable(OutsideContext(group, n))
  }

  /** A literal: eight events, one byte, then the select bits. */
  lemma LiteralStep(rom: seq<Word>, t: Todo, out: seq<Byte>, pos: nat, offset: nat, d: Decoder, goal: Goal)
    returns (b: Byte, d': Decoder)
    requires Pending(rom, AtLiteral, t, out, pos, offset, d, goal)
    ensures t.rest != [] && t.rest[0] == Literal(b)
    ensures Leads(rom, d, LiteralEvents(pos % 2, 8, b), d')
            && Selecting(rom, Todo(t.rest[1..], t.last, AfterLiteral), out + [b], pos + 1, d', goal)
            && |out| + 1 <= |goal.output|
  {
    hide Leads, LiteralEvents, Events;
    b := t.rest[0].value;
    LeadsConcat(rom, d, LiteralEvents(pos % 2, 8, b), Events(t.rest[1..], pos + 1, AfterLiteral), goal.decoder);
    d' := After(rom, d, LiteralEvents(pos % 2, 8, b));
    ExpandExtends(out + [b], t.last, t.rest[1..], AfterLiteral);
  }

  /** An offset: a register value of 0 ends the data. */
  lemma OffsetStep(rom: seq<Word>, t: Todo, out: seq<Byte>, pos: nat, offset: nat, d: Decoder, goal: Goal)
    returns (n: nat, d': Decoder)
    requires Pending(rom, AtReadOffset, t, out, pos, offset, d, goal)
    ensures n >= 2 && Leads(rom, d, NumberEvents(OFFSET_GROUP, n), d')
    ensures !NumberFits(OFFSET_GROUP, n) ==> Stops(OFFSET_GROUP, n, out, goal)
    ensures NumberFits(OFFSET_GROUP, n) ==>
              Pending(rom, if Wrap(n - 2) == 0 then Done else AtReadLength, t, out, pos, Wrap(n - 2), d', goal)
  {
    hide Leads, NumberEvents, LengthPart, NumberFits, OutsideContext;
    match t.rest[0]
    case Match(o, l) =>
      n := o + 2;
      LeadsConcat(rom, d, NumberEvents(OFFSET_GROUP, n), LengthPart(l, t.rest[1..], pos), goal.decoder);
      d' := After(rom, d, NumberEvents(OFFSET_GROUP, n));
    case End(w) =>
      n, d' := EndNumber(w), goal.decoder;
  }

  /** A length and the copy it asks for, then the select bits. */
  lemma LengthStep(rom: seq<Word>, t: Todo, out: seq<Byte>, pos: nat, offset: nat, d: Decoder, goal: Goal)
    returns (l: nat, d': Decoder)
    requires Pending(rom, AtReadLength, t, out, pos, offset, d, goal)
    ensures t.rest != [] && (t.rest[0].Match? || t.rest[0].Repeat?) && l == t.rest[0].length >= 2
    ensures Leads(rom, d, NumberEvents(LENGTH_GROUP, l), d')
    ensures if !NumberFits(LENGTH_GROUP, l) then Stops(LENGTH_GROUP, l, out, goal)
            else
              Wrap(l) != 0 && 1 <= offset <= |out| && |out| + Wrap(l) <= |goal.output|
              && Selecting(rom, Todo(t.rest[1..], offset, AfterReference),
                           Copy(out, offset, Wrap(l)), pos + Wrap(l), d', goal)
  {
    hide Leads, NumberEvents, Events, NumberFits, OutsideContext;
    l := t.rest[0].length;
    var more := Events(t.rest[1..], pos + Wrap(l), AfterReference);
    LeadsConcat(rom, d, NumberEvents(LENGTH_GROUP, l), more, goal.decoder);
    d' := After(rom, d, NumberEvents(LENGTH_GROUP, l));
    if NumberFits(LENGTH_GROUP, l) {
      ExpandExtends(Copy(out, offset, Wrap(l)), offset, t.rest[1..], AfterReference);
    }
  }

  /** The first select bit, after any symbol. */
  lemma KindStep(rom: seq<Word>, t: Todo, out: seq<Byte>, pos: nat, offset: nat, d: Decoder, goal: Goal)
    requires Selecting(rom, t, out, pos, d, goal) && t.prev != AtStart && (t.last != 0 ==> offset == t.last)
    ensures d.Valid() && CanRefill(rom, d)
    ensures var (bit, d') := DecodeBit(rom, d, KindContext(pos));
            bit == IsReference(t.rest)
            && (!bit ==> Pending(rom, AtLiteral, t, out, pos, offset, d', goal))
            && (bit && t.prev == AfterReference ==> Pending(rom, AtReadOffset, t, out, pos, offset, d', goal))
            && (bit && t.prev == AfterLiteral ==>
                  Leads(rom, d', [Event(REPEATED_OFFSET, IsRepeat(t.rest))] + Body(t.rest, pos, t.prev), goal.decoder))
  {
    hide Leads, Events, Body, DecodeBit, CanRefill;
    EventsSplit(t.rest, pos, t.prev);
    var body := Body(t.rest, pos, t.prev);
    var more := if IsReference(t.rest) && t.prev == AfterLiteral
                then [Event(REPEATED_OFFSET, IsRepeat(t.rest))] + body else body;
    LeadsOne(rom, d, Event(KindContext(pos), IsReference(t.rest)), more, goal.decoder);
    if t.prev == AfterReference { RepeatNeedsLiteral(t); }
  }

  lemma RepeatNeedsLiteral(t: Todo)
    requires Printable(t.rest, t.prev) && t.prev == AfterReference
    ensures !IsRepeat(t.rest)
  {
  }

  /** The second select bit, only between a literal and a reference. */
  lemma RepeatStep(rom: seq<Word>, t: Todo, out: seq<Byte>, pos: nat, offset: nat, d: Decoder, goal: Goal)
    requires Completes(t, out, goal) && t.prev == AfterLiteral && IsReference(t.rest)
    requires t.last != 0 ==> offset == t.last
    requires Leads(rom, d, [Event(REPEATED_OFFSET, IsRepeat(t.rest))] + Body(t.rest, pos, t.prev), goal.decoder)
    ensures d.Valid() && CanRefill(rom, d)
    ensures var (bit, d') := DecodeBit(rom, d, REPEATED_OFFSET);
            Pending(rom, if bit then AtReadLength else AtReadOffset, t, out, pos, offset, d', goal)
  {
    hide Leads, Events, LengthPart, DecodeBit, CanRefill, NumberEvents, LiteralEvents;
    LeadsOne(rom, d, Event(REPEATED_OFFSET, IsRepeat(t.rest)), Body(t.rest, pos, t.prev), goal.decoder);
  }

  // ---- Start and end of a run

  /** Compressed data is decoded to the end from every load address, to the same position. */
  lemma StreamLeads(rom: seq<Word>, syms: seq<Symbol>, load: nat) returns (final: Decoder)
    requires IsCompressed(rom, syms)
    ensures Leads(rom, FRESH_DECODER, Events(syms, load, AtStart), final)
    ensures final.pos == Encode(START, Events(syms, 0, AtStart)).pos <= 32 * |rom|
  {
    var es := Events(syms, load, AtStart);
    LoadAddressIndependent(rom, syms, load);
    DecoderInvertsCoder(rom, FRESH_DECODER, START, es);
    final := After(rom, FRESH_DECODER, es);
  }

  lemma StartPending(rom: seq<Word>, syms: seq<Symbol>, load: nat, offset: nat, goal: Goal)
    requires WellFormed(syms, 0, 0, AtStart)
    requires Leads(rom, FRESH_DECODER, Events(syms, load, AtStart), goal.decoder)
    requires goal.output == Decompressed(syms) && goal.outcome == RunOutcome(syms, AtStart)
    ensures Pending(rom, AtLiteral, Todo(syms, 0, AtStart), [], load, offset, FRESH_DECODER, goal)
  {
    hide Leads, Body, Events;
    EventsSplit(syms, load, AtStart);
  }

  lemma FinalOutput(rom: seq<Word>, t: Todo, out: seq<Byte>, pos: nat, offset: nat, d: Decoder, goal: Goal)
    requires Pending(rom, Done, t, out, pos, offset, d, goal)
    ensures out == goal.output && d == goal.decoder && goal.outcome == Finishes
  {
  }

  // ---- One bit inside a number or a literal

  lemma UnaryStep(rom: seq<Word>, d: Decoder, group: nat, i: nat, m: nat, final: Decoder)
    requires 1 <= i <= m && Leads(rom, d, UnaryEvents(group, i, m), final)
    ensures d.Valid() && CanRefill(rom, d)
    ensures var (bit, d') := DecodeBit(rom, d, NumberContext(group, 2 * i));
            bit == (i < m) && if bit then Leads(rom, d', UnaryEvents(group, i + 1, m), final) else d' == final
  {
    hide Leads, DecodeBit, CanRefill;
    var more := if i < m then UnaryEvents(group, i + 1, m) else [];
    LeadsOne(rom, d, Event(NumberContext(group, 2 * i), i < m), more, final);
    if i == m { LeadsNothing(rom, DecodeBit(rom, d, NumberContext(group, 2 * i)).1, final); }
  }

  lemma PayloadStep(rom: seq<Word>, d: Decoder, group: nat, i: nat, n: nat, final: Decoder)
    requires i >= 1 && Leads(rom, d, PayloadEvents(group, i, n), final)
    ensures d.Valid() && CanRefill(rom, d)
    ensures var (bit, d') := DecodeBit(rom, d, NumberContext(group, 2 * i - 1));
            Drop(n, i - 1) == Child(Drop(n, i), bit) <= n
            && Leads(rom, d', PayloadEvents(group, i - 1, n), final)
  {
    hide Leads, DecodeBit, CanRefill;
    var e := Event(NumberContext(group, 2 * i - 1), Digit(n, i - 1) == 1);
    LeadsOne(rom, d, e, PayloadEvents(group, i - 1, n), final);
    HalfStep(n, i);
    DropBelow(n, i - 1);
  }

  lemma PayloadEnd(rom: seq<Word>, d: Decoder, group: nat, n: nat, final: Decoder)
    requires Leads(rom, d, PayloadEvents(group, 0, n), final)
    ensures d == final && Drop(n, 0) == n
  {
  }

  lemma LiteralBitStep(rom: seq<Word>, d: Decoder, parity: nat, i: nat, b: nat, final: Decoder)
    requires 1 <= i <= 8 && b < 0x100 && Leads(rom, d, LiteralEvents(parity, i, b), final)
    ensures d.Valid() && CanRefill(rom, d)
    ensures var node := Drop(0x100 + b, i);
            var (bit, d') := DecodeBit(rom, d, LiteralContext(parity, node));
            1 <= node <= 0xff && Drop(0x100 + b, i - 1) == Child(node, bit)
            && Leads(rom, d', LiteralEvents(parity, i - 1, b), final)
  {
    hide Leads, DecodeBit, CanRefill;
    var node, bit := Drop(0x100 + b, i), Digit(b, i - 1) == 1;
    LiteralNode(b, i);
    LiteralEventsStep(parity, i, b, node, bit);
    LeadsOne(rom, d, Event(LiteralContext(parity, node), bit), LiteralEvents(parity, i - 1, b), final);
  }

  lemma LiteralBitsEnd(rom: seq<Word>, d: Decoder, parity: nat, b: nat, final: Decoder)
    requires Leads(rom, d, LiteralEvents(parity, 0, b), final)
    ensures d == final
  {
  }
}
