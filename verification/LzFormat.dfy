/**
 The compressed format: which events a symbol sequence is coded as, and the parser
 that recovers the symbols by asking for one context at a time.
 */
module LzFormat {
  import opened Words
  import opened RangeCoder
  import opened Codes
  import opened Symbols

  const REPEATED_OFFSET: int := -1

  /** Literal/reference select, by the parity of the output address. */
  function KindContext(pos: nat): int {
    pos % 2 * 0x100
  }

  predicate IsReference(syms: seq<Symbol>) {
    syms != [] && !syms[0].Literal?
  }

  predicate IsRepeat(syms: seq<Symbol>) {
    syms != [] && syms[0].Repeat?
  }

  /** The select bits before a symbol: none at the start, and no repeat bit after a reference. */
  function Lead(syms: seq<Symbol>, pos: nat, prev: Prev): seq<Event> {
    var kind := Event(KindContext(pos), IsReference(syms));
    var repeat := Event(REPEATED_OFFSET, IsRepeat(syms));
    if prev == AtStart then []
    else if kind.bit && prev == AfterLiteral then [kind, repeat]
    else [kind]
  }

  /** The symbol itself and all that follows; the end is coded in place of an offset. */
  function Body(syms: seq<Symbol>, pos: nat, prev: Prev): seq<Event>
    requires Printable(syms, prev)
    decreases |syms|, 0
  {
    match syms[0]
    case Literal(b) => LiteralEvents(pos % 2, 8, b) + Events(syms[1..], pos + 1, AfterLiteral)
    case Match(o, l) => NumberEvents(OFFSET_GROUP, o + 2) + LengthPart(l, syms[1..], pos)
    case Repeat(l) => LengthPart(l, syms[1..], pos)
    case End(w) => NumberEvents(OFFSET_GROUP, EndNumber(w))
  }

  /** The output address advances by the length that the register holds. */
  function LengthPart(length: nat, tail: seq<Symbol>, pos: nat): seq<Event>
    requires length >= 2 && Printable(tail, AfterReference)
    decreases |tail|, 2
  {
    NumberEvents(LENGTH_GROUP, length) + Events(tail, pos + Wrap(length), AfterReference)
  }

  /** All events of a symbol sequence whose output starts at address pos. */
  function Events(syms: seq<Symbol>, pos: nat, prev: Prev): seq<Event>
    requires Printable(syms, prev)
    decreases |syms|, 1
  {
    Lead(syms, pos, prev) + Body(syms, pos, prev)
  }

  // ---- The parser

  function Then(es: seq<Event>, sym: Symbol, p: Parse<seq<Symbol>>): Parse<seq<Symbol>> {
    match Continue(es, p)
    case Parsed(syms, fs, rest) => Parsed([sym] + syms, fs, rest)
    case Starved(fs, next) => Starved(fs, next)
  }

  function ParseSymbols(bits: seq<bool>, pos: nat, prev: Prev): Parse<seq<Symbol>>
    decreases |bits|, 2
  {
    if prev == AtStart then ParseLiteralPart(bits, pos)
    else if bits == [] then Starved([], KindContext(pos))
    else
      var kind := Event(KindContext(pos), bits[0]);
      if !kind.bit then Prepend(kind, ParseLiteralPart(bits[1..], pos))
      else if prev == AfterReference then Prepend(kind, ParseOffsetPart(bits[1..], pos))
      else Prepend(kind, ParseRepeatPart(bits[1..], pos))
  }

  function ParseRepeatPart(bits: seq<bool>, pos: nat): Parse<seq<Symbol>>
    decreases |bits|, 2
  {
    if bits == [] then Starved([], REPEATED_OFFSET)
    else
      Prepend(Event(REPEATED_OFFSET, bits[0]),
              if bits[0] then ParseLengthPart(bits[1..], pos, 0) else ParseOffsetPart(bits[1..], pos))
  }

  function ParseLiteralPart(bits: seq<bool>, pos: nat): Parse<seq<Symbol>>
    decreases |bits|, 1
  {
    match ParseLiteral(pos % 2, 1, bits)
    case Starved(es, next) => Starved(es, next)
    case Parsed(b, es, rest) => Then(es, Literal(b), ParseSymbols(rest, pos + 1, AfterLiteral))
  }

  /** A register offset of 0 ends the data. */
  function ParseOffsetPart(bits: seq<bool>, pos: nat): Parse<seq<Symbol>>
    decreases |bits|, 1
  {
    match ParseNumber(OFFSET_GROUP, bits)
    case Starved(es, next) => Starved(es, next)
    case Parsed(n, es, rest) =>
      if Wrap(n - 2) == 0 then Parsed([End((n - 2) / 0x1_0000_0000)], es, rest)
      else Continue(es, ParseLengthPart(rest, pos, n - 2))
  }

  /** Offset 0 here means that the last offset is used again. */
  function ParseLengthPart(bits: seq<bool>, pos: nat, offset: nat): Parse<seq<Symbol>>
    decreases |bits|, 0
  {
    match ParseNumber(LENGTH_GROUP, bits)
    case Starved(es, next) => Starved(es, next)
    case Parsed(l, es, rest) =>
      Then(es, if offset == 0 then Repeat(l) else Match(offset, l),
           ParseSymbols(rest, pos + Wrap(l), AfterReference))
  }

  // ---- Parsing what was printed

  lemma BitsSplit(a: seq<Event>, b: seq<Event>, tail: seq<bool>)
    ensures Bits(a + b) + tail == Bits(a) + (Bits(b) + tail)
  {
    BitsConcat(a, b);
  }

  lemma {:induction false} LengthPartParses(l: nat, syms: seq<Symbol>, pos: nat, offset: nat, tail: seq<bool>)
    requires l >= 2 && Printable(syms, AfterReference)
    ensures ParseLengthPart(Bits(LengthPart(l, syms, pos)) + tail, pos, offset)
         == Parsed([if offset == 0 then Repeat(l) else Match(offset, l)] + syms, LengthPart(l, syms, pos), tail)
    decreases |syms|, 4
  {
    hide Bits, ParseNumber, NumberEvents;
    var es := Events(syms, pos + Wrap(l), AfterReference);
    BitsSplit(NumberEvents(LENGTH_GROUP, l), es, tail);
    NumberParses(LENGTH_GROUP, l, Bits(es) + tail);
    SymbolsParse(syms, pos + Wrap(l), AfterReference, tail);
  }

  lemma {:induction false} MatchParses(o: nat, l: nat, syms: seq<Symbol>, pos: nat, tail: seq<bool>)
    requires Wrap(o) != 0 && l >= 2 && Printable(syms, AfterReference)
    ensures var es := NumberEvents(OFFSET_GROUP, o + 2) + LengthPart(l, syms, pos);
            ParseOffsetPart(Bits(es) + tail, pos) == Parsed([Match(o, l)] + syms, es, tail)
    decreases |syms|, 5
  {
    hide Bits, ParseNumber, NumberEvents;
    var es := LengthPart(l, syms, pos);
    BitsSplit(NumberEvents(OFFSET_GROUP, o + 2), es, tail);
    NumberParses(OFFSET_GROUP, o + 2, Bits(es) + tail);
    LengthPartParses(l, syms, pos, o, tail);
  }

  lemma {:induction false} OffsetPartParses(syms: seq<Symbol>, pos: nat, prev: Prev, tail: seq<bool>)
    requires Printable(syms, prev) && IsReference(syms) && !IsRepeat(syms)
    ensures ParseOffsetPart(Bits(Body(syms, pos, prev)) + tail, pos)
         == Parsed(syms, Body(syms, pos, prev), tail)
    decreases |syms|, 0
  {
    hide Bits, ParseNumber, NumberEvents;
    match syms[0]
    case Match(o, l) =>
      MatchParses(o, l, syms[1..], pos, tail);
      assert syms == [syms[0]] + syms[1..];
    case End(w) =>
      NumberParses(OFFSET_GROUP, EndNumber(w), tail);
      assert syms == [End(w)];
  }

  lemma {:induction false} LiteralPartParses(syms: seq<Symbol>, pos: nat, prev: Prev, tail: seq<bool>)
    requires Printable(syms, prev) && !IsReference(syms)
    ensures ParseLiteralPart(Bits(Body(syms, pos, prev)) + tail, pos)
         == Parsed(syms, Body(syms, pos, prev), tail)
    decreases |syms|, 0
  {
    hide Bits, ParseLiteral, LiteralEvents;
    var b := syms[0].value;
    var es := Events(syms[1..], pos + 1, AfterLiteral);
    BitsSplit(LiteralEvents(pos % 2, 8, b), es, tail);
    LiteralParses(pos % 2, b, Bits(es) + tail);
    SymbolsParse(syms[1..], pos + 1, AfterLiteral, tail);
    assert syms == [syms[0]] + syms[1..];
  }

  lemma {:induction false} RepeatPartParses(syms: seq<Symbol>, pos: nat, tail: seq<bool>)
    requires Printable(syms, AfterLiteral) && IsReference(syms)
    ensures var es := [Event(REPEATED_OFFSET, IsRepeat(syms))] + Body(syms, pos, AfterLiteral);
            ParseRepeatPart(Bits(es) + tail, pos) == Parsed(syms, es, tail)
    decreases |syms|, 1
  {
    BitsCons(Event(REPEATED_OFFSET, IsRepeat(syms)), Body(syms, pos, AfterLiteral), tail);
    if IsRepeat(syms) {
      LengthPartParses(syms[0].length, syms[1..], pos, 0, tail);
      assert syms == [syms[0]] + syms[1..];
    } else {
      OffsetPartParses(syms, pos, AfterLiteral, tail);
    }
  }

  lemma EventsSplit(syms: seq<Symbol>, pos: nat, prev: Prev)
    requires Printable(syms, prev)
    ensures var es, body := Events(syms, pos, prev), Body(syms, pos, prev);
            var kind := Event(KindContext(pos), IsReference(syms));
            if prev == AtStart then es == body
            else if kind.bit && prev == AfterLiteral
              then es == [kind] + ([Event(REPEATED_OFFSET, IsRepeat(syms))] + body)
            else es == [kind] + body
  {
    hide Body;
  }

  /** Parsing inverts printing: same symbols, same contexts in the same order. */
  lemma {:induction false} SymbolsParse(syms: seq<Symbol>, pos: nat, prev: Prev, tail: seq<bool>)
    requires Printable(syms, prev)
    ensures ParseSymbols(Bits(Events(syms, pos, prev)) + tail, pos, prev)
         == Parsed(syms, Events(syms, pos, prev), tail)
    decreases |syms|, 3
  {
    hide Bits, Events, Body;
    var body := Body(syms, pos, prev);
    EventsSplit(syms, pos, prev);
    var kind := Event(KindContext(pos), IsReference(syms));
    if prev == AtStart {
      LiteralPartParses(syms, pos, prev, tail);
    } else if !kind.bit {
      BitsCons(kind, body, tail);
      LiteralPartParses(syms, pos, prev, tail);
    } else if prev == AfterReference {
      BitsCons(kind, body, tail);
      OffsetPartParses(syms, pos, prev, tail);
    } else {
      BitsCons(kind, [Event(REPEATED_OFFSET, IsRepeat(syms))] + body, tail);
      RepeatPartParses(syms, pos, tail);
    }
  }

  // ---- Printing what was parsed

  /** A parse result is the printed form of a printable symbol sequence. */
  ghost predicate Prints(p: Parse<seq<Symbol>>, bits: seq<bool>, pos: nat, prev: Prev) {
    p.Parsed? ==> Printable(p.value, prev) && p.events == Events(p.value, pos, prev) && Accounts(p, bits)
  }

  ghost predicate BodyPrints(p: Parse<seq<Symbol>>, bits: seq<bool>, pos: nat, prev: Prev) {
    p.Parsed? ==> Printable(p.value, prev) && p.events == Body(p.value, pos, prev) && Accounts(p, bits)
  }

  lemma {:induction false} LiteralPartPrints(bits: seq<bool>, pos: nat, prev: Prev)
    ensures var p := ParseLiteralPart(bits, pos); BodyPrints(p, bits, pos, prev)
    ensures var p := ParseLiteralPart(bits, pos); p.Parsed? ==> !IsReference(p.value)
    decreases |bits|, 1
  {
    if ParseLiteralPart(bits, pos).Parsed? {
      LiteralPrints(pos % 2, bits);
      var q := ParseLiteral(pos % 2, 1, bits);
      SymbolsPrint(q.rest, pos + 1, AfterLiteral);
      AccountsConcat(q, ParseSymbols(q.rest, pos + 1, AfterLiteral), bits);
    }
  }

  lemma {:induction false} LengthPartPrints(bits: seq<bool>, pos: nat, offset: nat)
    ensures var p := ParseLengthPart(bits, pos, offset);
            p.Parsed? ==>
              p.value != [] && Printable(p.value[1..], AfterReference) && Accounts(p, bits)
              && exists l :: l >= 2 && p.value[0] == (if offset == 0 then Repeat(l) else Match(offset, l))
                             && p.events == LengthPart(l, p.value[1..], pos)
    decreases |bits|, 0
  {
    hide Bits, ParseNumber, NumberEvents;
    if ParseLengthPart(bits, pos, offset).Parsed? {
      NumberPrints(LENGTH_GROUP, bits);
      var q := ParseNumber(LENGTH_GROUP, bits);
      SymbolsPrint(q.rest, pos + Wrap(q.value), AfterReference);
      var r := ParseSymbols(q.rest, pos + Wrap(q.value), AfterReference);
      AccountsConcat(q, r, bits);
      var p := ParseLengthPart(bits, pos, offset);
      assert p.value[1..] == r.value;
      assert p.events == LengthPart(q.value, r.value, pos);
    }
  }

  lemma {:induction false} OffsetPartPrints(bits: seq<bool>, pos: nat, prev: Prev)
    requires prev != AtStart
    ensures var p := ParseOffsetPart(bits, pos); BodyPrints(p, bits, pos, prev)
    ensures var p := ParseOffsetPart(bits, pos); p.Parsed? ==> IsReference(p.value) && !IsRepeat(p.value)
    decreases |bits|, 1
  {
    hide Bits, ParseNumber, NumberEvents;
    if ParseOffsetPart(bits, pos).Parsed? {
      NumberPrints(OFFSET_GROUP, bits);
      var q := ParseNumber(OFFSET_GROUP, bits);
      if Wrap(q.value - 2) != 0 {
        LengthPartPrints(q.rest, pos, q.value - 2);
        AccountsConcat(q, ParseLengthPart(q.rest, pos, q.value - 2), bits);
      }
    }
  }

  lemma {:induction false} RepeatPartPrints(bits: seq<bool>, pos: nat)
    ensures var p := ParseRepeatPart(bits, pos);
            p.Parsed? ==>
              Printable(p.value, AfterLiteral) && IsReference(p.value) && Accounts(p, bits)
              && p.events == [Event(REPEATED_OFFSET, IsRepeat(p.value))] + Body(p.value, pos, AfterLiteral)
    decreases |bits|, 2
  {
    if ParseRepeatPart(bits, pos).Parsed? {
      var e := Event(REPEATED_OFFSET, bits[0]);
      if bits[0] {
        LengthPartPrints(bits[1..], pos, 0);
        AccountsCons(e, ParseLengthPart(bits[1..], pos, 0), bits);
      } else {
        OffsetPartPrints(bits[1..], pos, AfterLiteral);
        AccountsCons(e, ParseOffsetPart(bits[1..], pos), bits);
      }
    }
  }

  /** Printing inverts parsing: every completed parse read exactly the code of its result. */
  lemma {:induction false} SymbolsPrint(bits: seq<bool>, pos: nat, prev: Prev)
    ensures Prints(ParseSymbols(bits, pos, prev), bits, pos, prev)
    decreases |bits|, 2
  {
    hide Bits, Events, Body, Accounts, Printable;
    var p := ParseSymbols(bits, pos, prev);
    if p.Parsed? {
      if prev == AtStart {
        LiteralPartPrints(bits, pos, prev);
      } else {
        SelectPrints(bits, pos, prev);
      }
      EventsSplit(p.value, pos, prev);
    }
  }

  lemma {:induction false} SelectPrints(bits: seq<bool>, pos: nat, prev: Prev)
    requires prev != AtStart && ParseSymbols(bits, pos, prev).Parsed?
    ensures var p := ParseSymbols(bits, pos, prev);
            Printable(p.value, prev) && Accounts(p, bits) && bits != [] && bits[0] == IsReference(p.value)
            && p.events == [Event(KindContext(pos), bits[0])]
               + if bits[0] && prev == AfterLiteral
                 then [Event(REPEATED_OFFSET, IsRepeat(p.value))] + Body(p.value, pos, prev)
                 else Body(p.value, pos, prev)
    decreases |bits|, 1
  {
    hide Bits, Events, Body, Accounts, Printable;
    var kind := Event(KindContext(pos), bits[0]);
    var more := bits[1..];
    if !kind.bit {
      LiteralPartPrints(more, pos, prev);
      AccountsCons(kind, ParseLiteralPart(more, pos), bits);
    } else if prev == AfterReference {
      OffsetPartPrints(more, pos, prev);
      AccountsCons(kind, ParseOffsetPart(more, pos), bits);
    } else {
      RepeatPartPrints(more, pos);
      AccountsCons(kind, ParseRepeatPart(more, pos), bits);
    }
  }

  // ---- Runs cut short

  /** A parse that ran out of bits asked for one context per bit. */
  lemma {:induction false} SymbolsExhaust(bits: seq<bool>, pos: nat, prev: Prev)
    ensures Exhausts(ParseSymbols(bits, pos, prev), bits)
    decreases |bits|, 2
  {
    hide Exhausts, Bits;
    if prev == AtStart {
      LiteralPartExhausts(bits, pos);
    } else if bits != [] {
      var e, more := Event(KindContext(pos), bits[0]), bits[1..];
      var p := if !e.bit then ParseLiteralPart(more, pos)
               else if prev == AfterReference then ParseOffsetPart(more, pos)
               else ParseRepeatPart(more, pos);
      if !e.bit {
        LiteralPartExhausts(more, pos);
      } else if prev == AfterReference {
        OffsetPartExhausts(more, pos);
      } else {
        RepeatPartExhausts(more, pos);
      }
      ExhaustsNext([e], p, more);
      OneBit(e, bits);
    } else {
      NoBits<seq<Symbol>>(KindContext(pos));
    }
  }

  lemma NoBits<T>(next: int)
    ensures Exhausts<T>(Starved([], next), [])
  {
  }

  lemma OneBit(e: Event, bits: seq<bool>)
    requires bits != [] && e.bit == bits[0]
    ensures Bits([e]) + bits[1..] == bits
  {
  }

  lemma {:induction false} RepeatPartExhausts(bits: seq<bool>, pos: nat)
    ensures Exhausts(ParseRepeatPart(bits, pos), bits)
    decreases |bits|, 2
  {
    hide Exhausts, Bits;
    if bits != [] {
      var e, more := Event(REPEATED_OFFSET, bits[0]), bits[1..];
      if e.bit {
        LengthPartExhausts(more, pos, 0);
      } else {
        OffsetPartExhausts(more, pos);
      }
      ExhaustsNext([e], if e.bit then ParseLengthPart(more, pos, 0) else ParseOffsetPart(more, pos), more);
      OneBit(e, bits);
    } else {
      NoBits<seq<Symbol>>(REPEATED_OFFSET);
    }
  }

  lemma {:induction false} LiteralPartExhausts(bits: seq<bool>, pos: nat)
    ensures Exhausts(ParseLiteralPart(bits, pos), bits)
    decreases |bits|, 1
  {
    LiteralExhausts(pos % 2, 1, bits);
    var q := ParseLiteral(pos % 2, 1, bits);
    if q.Parsed? {
      LiteralPrints(pos % 2, bits);
      SymbolsExhaust(q.rest, pos + 1, AfterLiteral);
      ExhaustsNext(q.events, ParseSymbols(q.rest, pos + 1, AfterLiteral), q.rest);
    }
  }

  lemma {:induction false} OffsetPartExhausts(bits: seq<bool>, pos: nat)
    ensures Exhausts(ParseOffsetPart(bits, pos), bits)
    decreases |bits|, 1
  {
    hide Bits, ParseNumber, NumberEvents;
    NumberExhausts(OFFSET_GROUP, bits);
    var q := ParseNumber(OFFSET_GROUP, bits);
    if q.Parsed? && Wrap(q.value - 2) != 0 {
      NumberPrints(OFFSET_GROUP, bits);
      LengthPartExhausts(q.rest, pos, q.value - 2);
      ExhaustsNext(q.events, ParseLengthPart(q.rest, pos, q.value - 2), q.rest);
    }
  }

  lemma {:induction false} LengthPartExhausts(bits: seq<bool>, pos: nat, offset: nat)
    ensures Exhausts(ParseLengthPart(bits, pos, offset), bits)
    decreases |bits|, 0
  {
    hide Bits, ParseNumber, NumberEvents;
    NumberExhausts(LENGTH_GROUP, bits);
    var q := ParseNumber(LENGTH_GROUP, bits);
    if q.Parsed? {
      NumberPrints(LENGTH_GROUP, bits);
      SymbolsExhaust(q.rest, pos + Wrap(q.value), AfterReference);
      ExhaustsNext(q.events, ParseSymbols(q.rest, pos + Wrap(q.value), AfterReference), q.rest);
    }
  }

  /** The main loop asks for one context at a time: with more bits it goes on where it ran out. */
  lemma {:induction false} SymbolsExtend(bits: seq<bool>, more: seq<bool>, pos: nat, prev: Prev)
    requires more != []
    ensures Extends(ParseSymbols(bits, pos, prev), ParseSymbols(bits + more, pos, prev), more)
    decreases |bits|, 2
  {
    hide Extends, Continue, AsksNext;
    if prev == AtStart {
      LiteralPartExtends(bits, more, pos);
    } else if bits == [] {
      assert bits + more == more;
      var e, rest := Event(KindContext(pos), more[0]), more[1..];
      FirstAsked(e, if !e.bit then ParseLiteralPart(rest, pos)
                    else if prev == AfterReference then ParseOffsetPart(rest, pos)
                    else ParseRepeatPart(rest, pos), more);
    } else {
      MoreBits(bits, more);
      var e, rest := Event(KindContext(pos), bits[0]), bits[1..];
      if !e.bit {
        LiteralPartExtends(rest, more, pos);
        ExtendsNext([e], ParseLiteralPart(rest, pos), ParseLiteralPart(rest + more, pos), more);
      } else if prev == AfterReference {
        OffsetPartExtends(rest, more, pos);
        ExtendsNext([e], ParseOffsetPart(rest, pos), ParseOffsetPart(rest + more, pos), more);
      } else {
        RepeatPartExtends(rest, more, pos);
        ExtendsNext([e], ParseRepeatPart(rest, pos), ParseRepeatPart(rest + more, pos), more);
      }
    }
  }

  lemma FirstAsked<T>(e: Event, p: Parse<T>, more: seq<bool>)
    ensures Extends(Starved([], e.ctx), Prepend(e, p), more)
  {
  }

  lemma ExtendsThen(es: seq<Event>, sym: Symbol, p: Parse<seq<Symbol>>, q: Parse<seq<Symbol>>, more: seq<bool>)
    requires Extends(p, q, more)
    ensures Extends(Then(es, sym, p), Then(es, sym, q), more)
  {
    ExtendsNext(es, p, q, more);
  }

  lemma {:induction false} RepeatPartExtends(bits: seq<bool>, more: seq<bool>, pos: nat)
    requires more != []
    ensures Extends(ParseRepeatPart(bits, pos), ParseRepeatPart(bits + more, pos), more)
    decreases |bits|, 2
  {
    hide Extends, Continue, AsksNext;
    if bits == [] {
      assert bits + more == more;
      var e, rest := Event(REPEATED_OFFSET, more[0]), more[1..];
      FirstAsked(e, if e.bit then ParseLengthPart(rest, pos, 0) else ParseOffsetPart(rest, pos), more);
    } else {
      MoreBits(bits, more);
      var e, rest := Event(REPEATED_OFFSET, bits[0]), bits[1..];
      if e.bit {
        LengthPartExtends(rest, more, pos, 0);
        ExtendsNext([e], ParseLengthPart(rest, pos, 0), ParseLengthPart(rest + more, pos, 0), more);
      } else {
        OffsetPartExtends(rest, more, pos);
        ExtendsNext([e], ParseOffsetPart(rest, pos), ParseOffsetPart(rest + more, pos), more);
      }
    }
  }

  lemma {:induction false} LiteralPartExtends(bits: seq<bool>, more: seq<bool>, pos: nat)
    requires more != []
    ensures Extends(ParseLiteralPart(bits, pos), ParseLiteralPart(bits + more, pos), more)
    decreases |bits|, 1
  {
    hide AsksNext, ParseLiteral;
    LiteralExtends(pos % 2, 1, bits, more);
    var p, q := ParseLiteral(pos % 2, 1, bits), ParseLiteral(pos % 2, 1, bits + more);
    if p.Parsed? {
      SymbolsExtend(p.rest, more, pos + 1, AfterLiteral);
      ExtendsThen(p.events, Literal(p.value), ParseSymbols(p.rest, pos + 1, AfterLiteral),
                  ParseSymbols(p.rest + more, pos + 1, AfterLiteral), more);
    } else if q.Parsed? {
      AsksNextLonger(p.events, p.next, q.events, ParseSymbols(q.rest, pos + 1, AfterLiteral).events);
    }
  }

  lemma {:induction false} OffsetPartExtends(bits: seq<bool>, more: seq<bool>, pos: nat)
    requires more != []
    ensures Extends(ParseOffsetPart(bits, pos), ParseOffsetPart(bits + more, pos), more)
    decreases |bits|, 1
  {
    hide AsksNext, ParseNumber;
    NumberExtends(OFFSET_GROUP, bits, more);
    var p, q := ParseNumber(OFFSET_GROUP, bits), ParseNumber(OFFSET_GROUP, bits + more);
    if p.Parsed? {
      if Wrap(p.value - 2) != 0 {
        LengthPartExtends(p.rest, more, pos, p.value - 2);
        ExtendsNext(p.events, ParseLengthPart(p.rest, pos, p.value - 2),
                    ParseLengthPart(p.rest + more, pos, p.value - 2), more);
      }
    } else if q.Parsed? && Wrap(q.value - 2) != 0 {
      AsksNextLonger(p.events, p.next, q.events, ParseLengthPart(q.rest, pos, q.value - 2).events);
    }
  }

  lemma {:induction false} LengthPartExtends(bits: seq<bool>, more: seq<bool>, pos: nat, offset: nat)
    requires more != []
    ensures Extends(ParseLengthPart(bits, pos, offset), ParseLengthPart(bits + more, pos, offset), more)
    decreases |bits|, 0
  {
    hide AsksNext, ParseNumber;
    NumberExtends(LENGTH_GROUP, bits, more);
    var p, q := ParseNumber(LENGTH_GROUP, bits), ParseNumber(LENGTH_GROUP, bits + more);
    if p.Parsed? {
      var to, sym := pos + Wrap(p.value), if offset == 0 then Repeat(p.value) else Match(offset, p.value);
      SymbolsExtend(p.rest, more, to, AfterReference);
      ExtendsThen(p.events, sym, ParseSymbols(p.rest, to, AfterReference),
                  ParseSymbols(p.rest + more, to, AfterReference), more);
    } else if q.Parsed? {
      AsksNextLonger(p.events, p.next, q.events, ParseSymbols(q.rest, pos + Wrap(q.value), AfterReference).events);
    }
  }
}
