/**
 Which compressed data keeps every access inside the context table. Streams are not
 limited to numbers that fit a register, and only numbers of hundreds of digits leave
 the table.
 */
module TableLimits {
  import opened Words
  import opened RangeCoder
  import opened Codes
  import opened Symbols
  import opened LzFormat
  import opened LzStream
  import opened ContextTable

  ghost predicate InTable(es: seq<Event>) {
    forall e :: e in es ==> IsContext(e.ctx)
  }

  lemma DigitsAre(n: nat, k: nat)
    requires Pow2(k) <= n < 2 * Pow2(k)
    ensures Log2(n) == k
  {
    DigitsBelow(n, k);
    DigitsBelow(n, k + 1);
  }

  lemma InTableConcat(a: seq<Event>, b: seq<Event>)
    ensures InTable(a + b) <==> InTable(a) && InTable(b)
  {
    forall e | e in a || e in b ensures e in a + b {
    }
  }

  /** Counting the digits stays inside even at the limit; reading them then does not. */
  lemma {:induction false} UnaryInTable(group: nat, i: nat, m: nat)
    requires IsGroup(group) && 1 <= i <= m <= DigitLimit(group)
    ensures InTable(UnaryEvents(group, i, m))
    decreases m - i
  {
    hide NumberContext;
    var more := if i < m then UnaryEvents(group, i + 1, m) else [];
    NumberContextFits(group, 2 * i);
    if i < m { UnaryInTable(group, i + 1, m); }
    InTableConcat([Event(NumberContext(group, 2 * i), i < m)], more);
  }

  lemma {:induction false} PayloadInTable(group: nat, i: nat, n: nat)
    requires NumberFitsTable(group, i)
    ensures InTable(PayloadEvents(group, i, n))
    decreases i
  {
    hide NumberContext;
    if i > 0 {
      var e := Event(NumberContext(group, 2 * i - 1), Digit(n, i - 1) == 1);
      assert IsNumberContext(NumberContext(group, 2 * i - 1));
      PayloadInTable(group, i - 1, n);
      InTableConcat([e], PayloadEvents(group, i - 1, n));
    }
  }

  /** The digits pass every odd index on their way down. */
  lemma {:induction false} PayloadAsksFor(group: nat, i: nat, n: nat, k: nat)
    requires 1 <= k <= i && InTable(PayloadEvents(group, i, n))
    ensures IsContext(NumberContext(group, 2 * k - 1))
    decreases i
  {
    hide NumberContext;
    var e := Event(NumberContext(group, 2 * i - 1), Digit(n, i - 1) == 1);
    InTableConcat([e], PayloadEvents(group, i - 1, n));
    assert e in [e];
    if k < i { PayloadAsksFor(group, i - 1, n, k); }
  }

  lemma NumberInTableIff(group: nat, n: nat)
    requires IsGroup(group) && n >= 2
    ensures InTable(NumberEvents(group, n)) <==> NumberFits(group, n)
  {
    hide NumberContext, UnaryEvents, PayloadEvents, Pow2, InTable;
    var m := Log2(n);
    DigitsBelow(n, DigitLimit(group));
    NumberFitsTableIff(group, m);
    InTableConcat(UnaryEvents(group, 1, m), PayloadEvents(group, m, n));
    if m < DigitLimit(group) {
      UnaryInTable(group, 1, m);
      PayloadInTable(group, m, n);
    } else if InTable(PayloadEvents(group, m, n)) {
      PayloadAsksFor(group, m, n, DigitLimit(group));
      NumberContextFits(group, 2 * DigitLimit(group) - 1);
      assert false;
    }
  }

  lemma {:induction false} LiteralInTable(parity: nat, i: nat, b: nat)
    requires parity <= 1 && i <= 8 && b < 0x100
    ensures InTable(LiteralEvents(parity, i, b))
    decreases i
  {
    if i > 0 {
      LiteralNode(b, i);
      var e := Event(LiteralContext(parity, Drop(0x100 + b, i)), Digit(b, i - 1) == 1);
      LiteralInTable(parity, i - 1, b);
      InTableConcat([e], LiteralEvents(parity, i - 1, b));
    }
  }

  lemma {:induction false} EventsInTableIff(syms: seq<Symbol>, pos: nat, prev: Prev)
    requires Printable(syms, prev)
    ensures InTable(Events(syms, pos, prev)) <==> SymbolsFit(syms)
    decreases |syms|, 2
  {
    hide Body;
    BodyInTableIff(syms, pos, prev);
    InTableConcat(Lead(syms, pos, prev), Body(syms, pos, prev));
  }

  lemma {:induction false} BodyInTableIff(syms: seq<Symbol>, pos: nat, prev: Prev)
    requires Printable(syms, prev)
    ensures InTable(Body(syms, pos, prev)) <==> SymbolsFit(syms)
    decreases |syms|, 1
  {
    hide InTable, SymbolsFit, NumberFits, Events, LengthPart, NumberEvents, LiteralEvents;
    FitFirst(syms);
    match syms[0]
    case Literal(b) =>
      LiteralInTable(pos % 2, 8, b);
      EventsInTableIff(syms[1..], pos + 1, AfterLiteral);
      InTableConcat(LiteralEvents(pos % 2, 8, b), Events(syms[1..], pos + 1, AfterLiteral));
    case Match(o, l) =>
      NumberInTableIff(OFFSET_GROUP, o + 2);
      LengthInTableIff(l, syms[1..], pos);
      InTableConcat(NumberEvents(OFFSET_GROUP, o + 2), LengthPart(l, syms[1..], pos));
    case Repeat(l) =>
      LengthInTableIff(l, syms[1..], pos);
    case End(w) =>
      NumberInTableIff(OFFSET_GROUP, EndNumber(w));
      NothingFits();
      assert syms[1..] == [];
  }

  lemma {:induction false} LengthInTableIff(length: nat, tail: seq<Symbol>, pos: nat)
    requires length >= 2 && Printable(tail, AfterReference)
    ensures InTable(LengthPart(length, tail, pos)) <==> NumberFits(LENGTH_GROUP, length) && SymbolsFit(tail)
    decreases |tail|, 3
  {
    hide InTable, SymbolsFit, NumberFits, Events, NumberEvents;
    NumberInTableIff(LENGTH_GROUP, length);
    EventsInTableIff(tail, pos + Wrap(length), AfterReference);
    InTableConcat(NumberEvents(LENGTH_GROUP, length), Events(tail, pos + Wrap(length), AfterReference));
  }

  /** Numbers of 32 bits stay far below the limits. */
  lemma SmallNumbersFit(syms: seq<Symbol>)
    requires forall sym :: sym in syms && sym.Match? ==> sym.offset + 2 < 0x1_0000_0000
    requires forall sym :: sym in syms && (sym.Match? || sym.Repeat?) ==> 2 <= sym.length < 0x1_0000_0000
    requires forall sym :: sym in syms && sym.End? ==> sym.wraps == 0
    ensures SymbolsFit(syms)
  {
    hide NumberFits;
    forall sym | sym in syms ensures SymbolFits(sym) {
      match sym
      case Literal(_) =>
      case Match(o, l) =>
        WordFits(OFFSET_GROUP, o + 2);
        WordFits(LENGTH_GROUP, l);
      case Repeat(l) => WordFits(LENGTH_GROUP, l);
      case End(_) => WordFits(OFFSET_GROUP, 2);
    }
  }

  lemma CopyStops(out: seq<Byte>, last: nat, offset: nat, length: nat)
    requires Wrap(offset) != 0 && length >= 2 && !NumberFits(OFFSET_GROUP, offset + 2)
    ensures var copy := [Match(offset, length), End(0)];
            WellFormed(copy, |out|, last, AfterLiteral) && Expand(out, last, copy, AfterLiteral) == out
            && RunOutcome(copy, AfterLiteral) == LeavesTable(OutsideContext(OFFSET_GROUP, offset + 2))
  {
    hide NumberFits, OutsideContext;
    assert [Match(offset, length), End(0)][1..] == [End(0)];
    assert Printable([End(0)], AfterReference);
  }

  /**
   The limits are sharp: there is compressed data on which a run leaves the table at
   context 0x7ff, whose halfword would be the one just above.
   */
  lemma TableCanBeLeft(b: Byte, offset: nat, length: nat) returns (rom: seq<Word>, syms: seq<Symbol>)
    requires Pow2(640) <= offset + 2 < 2 * Pow2(640) && Wrap(offset) != 0 && length >= 2
    ensures syms == [Literal(b), Match(offset, length), End(0)]
    ensures WellFormed(syms, 0, 0, AtStart) && Decompressed(syms) == [b] && IsCompressed(rom, syms)
    ensures RunOutcome(syms, AtStart) == LeavesTable(0x7ff)
  {
    hide Pow2, Log2, WellFormed, Expand, RunOutcome;
    var copy := [Match(offset, length), End(0)];
    syms := [Literal(b)] + copy;
    DigitsAre(offset + 2, 640);
    CopyStops([b], 0, offset, length);
    LiteralFirst([], 0, b, copy, AtStart);
    assert [] + [b] == [b];
    rom := Compress(syms);
    CompressWorks(syms);
  }
}
