/**
 The parity contexts follow the output address, so an odd load address swaps the even
 and odd groups against what the encoder used. All contexts start equal, so the
 swap changes no interval: compressed data does not depend on the load address.
 */
module LoadAddress {
  import opened Words
  import opened RangeCoder
  import opened RangeDecoder
  import opened Codes
  import opened Symbols
  import opened LzFormat
  import opened LzStream

  /** Contexts $0xx and $1xx change places; the others stay. */
  function SwapContext(swap: bool, ctx: int): int {
    if swap && 0 <= ctx < 0x100 then ctx + 0x100
    else if swap && 0x100 <= ctx < 0x200 then ctx - 0x100
    else ctx
  }

  function SwapEvents(swap: bool, es: seq<Event>): (r: seq<Event>)
    ensures |r| == |es|
  {
    if es == [] then []
    else [Event(SwapContext(swap, es[0].ctx), es[0].bit)] + SwapEvents(swap, es[1..])
  }

  lemma {:induction false} SwapConcat(swap: bool, a: seq<Event>, b: seq<Event>)
    ensures SwapEvents(swap, a + b) == SwapEvents(swap, a) + SwapEvents(swap, b)
    decreases |a|
  {
    if a == [] {
      assert a + b == b;
    } else {
      assert (a + b)[1..] == a[1..] + b;
      SwapConcat(swap, a[1..], b);
    }
  }

  lemma {:induction false} SwapUnary(swap: bool, group: nat, i: nat, m: nat)
    requires 1 <= i <= m && group >= 2
    ensures SwapEvents(swap, UnaryEvents(group, i, m)) == UnaryEvents(group, i, m)
    decreases m - i
  {
    var es := UnaryEvents(group, i, m);
    NumberContextAtLeast(group, 2 * i);
    if i < m {
      assert es[1..] == UnaryEvents(group, i + 1, m);
      SwapUnary(swap, group, i + 1, m);
    }
  }

  lemma {:induction false} SwapPayload(swap: bool, group: nat, i: nat, n: nat)
    requires group >= 2
    ensures SwapEvents(swap, PayloadEvents(group, i, n)) == PayloadEvents(group, i, n)
    decreases i
  {
    var es := PayloadEvents(group, i, n);
    if i > 0 {
      NumberContextAtLeast(group, 2 * i - 1);
      assert es[1..] == PayloadEvents(group, i - 1, n);
      SwapPayload(swap, group, i - 1, n);
    }
  }

  lemma SwapNumber(swap: bool, group: nat, n: nat)
    requires group >= 2 && n >= 2
    ensures SwapEvents(swap, NumberEvents(group, n)) == NumberEvents(group, n)
  {
    SwapUnary(swap, group, 1, Log2(n));
    SwapPayload(swap, group, Log2(n), n);
    SwapConcat(swap, UnaryEvents(group, 1, Log2(n)), PayloadEvents(group, Log2(n), n));
  }

  lemma {:induction false} SwapLiteral(p: nat, q: nat, i: nat, b: nat)
    requires p <= 1 && q <= 1 && i <= 8 && b < 0x100
    ensures SwapEvents(p != q, LiteralEvents(p, i, b)) == LiteralEvents(q, i, b)
    decreases i
  {
    var es := LiteralEvents(p, i, b);
    if i > 0 {
      LiteralNode(b, i);
      assert es[1..] == LiteralEvents(p, i - 1, b);
      SwapLiteral(p, q, i - 1, b);
    }
  }

  /** Moving the output from address p to q changes the events only by the swap. */
  lemma {:induction false} EventsMove(syms: seq<Symbol>, p: nat, q: nat, prev: Prev)
    requires Printable(syms, prev)
    ensures SwapEvents(p % 2 != q % 2, Events(syms, p, prev)) == Events(syms, q, prev)
    decreases |syms|, 2
  {
    hide Body;
    var swap := p % 2 != q % 2;
    BodyMoves(syms, p, q, prev);
    SwapConcat(swap, Lead(syms, p, prev), Body(syms, p, prev));
    assert SwapEvents(swap, Lead(syms, p, prev)) == Lead(syms, q, prev) by {
      hide Body;
      var kind, repeat := Event(KindContext(p), IsReference(syms)), Event(REPEATED_OFFSET, IsRepeat(syms));
      assert [kind, repeat][1..] == [repeat] && [kind][1..] == [];
    }
  }

  lemma {:induction false} BodyMoves(syms: seq<Symbol>, p: nat, q: nat, prev: Prev)
    requires Printable(syms, prev)
    ensures SwapEvents(p % 2 != q % 2, Body(syms, p, prev)) == Body(syms, q, prev)
    decreases |syms|, 1
  {
    hide SwapEvents, Events, LengthPart, NumberEvents, LiteralEvents;
    var swap := p % 2 != q % 2;
    match syms[0]
    case Literal(b) =>
      SwapLiteral(p % 2, q % 2, 8, b);
      EventsMove(syms[1..], p + 1, q + 1, AfterLiteral);
      SwapConcat(swap, LiteralEvents(p % 2, 8, b), Events(syms[1..], p + 1, AfterLiteral));
    case Match(o, l) =>
      SwapNumber(swap, OFFSET_GROUP, o + 2);
      LengthMoves(l, syms[1..], p, q);
      SwapConcat(swap, NumberEvents(OFFSET_GROUP, o + 2), LengthPart(l, syms[1..], p));
    case Repeat(l) =>
      LengthMoves(l, syms[1..], p, q);
    case End(w) =>
      SwapNumber(swap, OFFSET_GROUP, EndNumber(w));
  }

  lemma {:induction false} LengthMoves(length: nat, tail: seq<Symbol>, p: nat, q: nat)
    requires length >= 2 && Printable(tail, AfterReference)
    ensures SwapEvents(p % 2 != q % 2, LengthPart(length, tail, p)) == LengthPart(length, tail, q)
    decreases |tail|, 3
  {
    hide SwapEvents, Events, NumberEvents;
    var swap := p % 2 != q % 2;
    SwapNumber(swap, LENGTH_GROUP, length);
    var l := Wrap(length);
    EventsMove(tail, p + l, q + l, AfterReference);
    assert ((p + l) % 2 != (q + l) % 2) == swap;
    SwapConcat(swap, NumberEvents(LENGTH_GROUP, length), Events(tail, p + l, AfterReference));
  }

  // ---- The contexts that a run asks for, finished or not

  /** The same parse with the context names swapped. */
  function SwapParse<T>(swap: bool, p: Parse<T>): Parse<T> {
    match p
    case Parsed(v, es, rest) => Parsed(v, SwapEvents(swap, es), rest)
    case Starved(es, next) => Starved(SwapEvents(swap, es), SwapContext(swap, next))
  }

  lemma SwapContinue<T>(swap: bool, es: seq<Event>, p: Parse<T>)
    ensures SwapParse(swap, Continue(es, p)) == Continue(SwapEvents(swap, es), SwapParse(swap, p))
  {
    SwapConcat(swap, es, p.events);
  }

  lemma SwapThen(swap: bool, es: seq<Event>, sym: Symbol, p: Parse<seq<Symbol>>)
    ensures SwapParse(swap, Then(es, sym, p)) == Then(SwapEvents(swap, es), sym, SwapParse(swap, p))
  {
    SwapConcat(swap, es, p.events);
  }

  lemma SwapOne(swap: bool, e: Event)
    ensures SwapEvents(swap, [e]) == [Event(SwapContext(swap, e.ctx), e.bit)]
  {
    assert [e][1..] == [];
  }

  lemma {:induction false} UnaryKept(swap: bool, group: nat, i: nat, bits: seq<bool>)
    requires group >= 2
    ensures SwapParse(swap, ParseUnary(group, i, bits)) == ParseUnary(group, i, bits)
    decreases |bits|
  {
    NumberContextAtLeast(group, 2 * i);
    hide NumberContext;
    if bits != [] {
      var e := Event(NumberContext(group, 2 * i), bits[0]);
      SwapOne(swap, e);
      if bits[0] {
        UnaryKept(swap, group, i + 1, bits[1..]);
        SwapContinue(swap, [e], ParseUnary(group, i + 1, bits[1..]));
      }
    }
  }

  lemma {:induction false} PayloadKept(swap: bool, group: nat, i: nat, acc: nat, bits: seq<bool>)
    requires group >= 2
    ensures SwapParse(swap, ParsePayload(group, i, acc, bits)) == ParsePayload(group, i, acc, bits)
    decreases i
  {
    if i > 0 {
      NumberContextAtLeast(group, 2 * i - 1);
      hide NumberContext;
      if bits != [] {
        var e := Event(NumberContext(group, 2 * i - 1), bits[0]);
        var acc' := 2 * acc + if bits[0] then 1 else 0;
        SwapOne(swap, e);
        PayloadKept(swap, group, i - 1, acc', bits[1..]);
        SwapContinue(swap, [e], ParsePayload(group, i - 1, acc', bits[1..]));
      }
    }
  }

  lemma NumberKept(swap: bool, group: nat, bits: seq<bool>)
    requires group >= 2
    ensures SwapParse(swap, ParseNumber(group, bits)) == ParseNumber(group, bits)
    ensures SwapEvents(swap, ParseNumber(group, bits).events) == ParseNumber(group, bits).events
  {
    UnaryKept(swap, group, 1, bits);
    var u := ParseUnary(group, 1, bits);
    if u.Parsed? {
      PayloadKept(swap, group, u.value, 1, u.rest);
      SwapContinue(swap, u.events, ParsePayload(group, u.value, 1, u.rest));
    }
  }

  lemma {:induction false} LiteralMoves(p: nat, q: nat, node: nat, bits: seq<bool>)
    requires p <= 1 && q <= 1 && 1 <= node < 0x200
    ensures SwapParse(p != q, ParseLiteral(p, node, bits)) == ParseLiteral(q, node, bits)
    decreases |bits|
  {
    if node <= 0xff && bits != [] {
      var e := Event(LiteralContext(p, node), bits[0]);
      SwapOne(p != q, e);
      LiteralMoves(p, q, Child(node, bits[0]), bits[1..]);
      SwapContinue(p != q, [e], ParseLiteral(p, Child(node, bits[0]), bits[1..]));
    }
  }

  /** For any bits, the contexts asked for at two addresses differ only by the swap. */
  lemma {:induction false} ParseMoves(bits: seq<bool>, p: nat, q: nat, prev: Prev)
    ensures SwapParse(p % 2 != q % 2, ParseSymbols(bits, p, prev)) == ParseSymbols(bits, q, prev)
    decreases |bits|, 2
  {
    hide SwapParse, Continue;
    var swap := p % 2 != q % 2;
    if prev == AtStart {
      LiteralPartMoves(bits, p, q);
    } else if bits == [] {
      KindMoves<seq<Symbol>>(p, q);
    } else {
      var e, more := Event(KindContext(p), bits[0]), bits[1..];
      SwapOne(swap, e);
      if !e.bit {
        LiteralPartMoves(more, p, q);
        SwapContinue(swap, [e], ParseLiteralPart(more, p));
      } else if prev == AfterReference {
        OffsetPartMoves(more, p, q);
        SwapContinue(swap, [e], ParseOffsetPart(more, p));
      } else {
        RepeatPartMoves(more, p, q);
        SwapContinue(swap, [e], ParseRepeatPart(more, p));
      }
    }
  }

  lemma KindMoves<T>(p: nat, q: nat)
    ensures SwapContext(p % 2 != q % 2, KindContext(p)) == KindContext(q)
    ensures SwapParse<T>(p % 2 != q % 2, Starved([], KindContext(p))) == Starved([], KindContext(q))
  {
  }

  lemma {:induction false} RepeatPartMoves(bits: seq<bool>, p: nat, q: nat)
    ensures SwapParse(p % 2 != q % 2, ParseRepeatPart(bits, p)) == ParseRepeatPart(bits, q)
    decreases |bits|, 2
  {
    hide Continue;
    var swap := p % 2 != q % 2;
    if bits != [] {
      var e, more := Event(REPEATED_OFFSET, bits[0]), bits[1..];
      SwapOne(swap, e);
      if e.bit {
        LengthPartMoves(more, p, q, 0);
        SwapContinue(swap, [e], ParseLengthPart(more, p, 0));
      } else {
        OffsetPartMoves(more, p, q);
        SwapContinue(swap, [e], ParseOffsetPart(more, p));
      }
    }
  }

  lemma {:induction false} LiteralPartMoves(bits: seq<bool>, p: nat, q: nat)
    ensures SwapParse(p % 2 != q % 2, ParseLiteralPart(bits, p)) == ParseLiteralPart(bits, q)
    decreases |bits|, 1
  {
    hide Then, ParseLiteral, ParseSymbols, SwapEvents, SwapContext;
    var r := ParseLiteral(p % 2, 1, bits);
    LiteralMoves(p % 2, q % 2, 1, bits);
    if r.Parsed? {
      ParseMoves(r.rest, p + 1, q + 1, AfterLiteral);
      SwapThen(p % 2 != q % 2, r.events, Literal(r.value), ParseSymbols(r.rest, p + 1, AfterLiteral));
    }
  }

  lemma {:induction false} OffsetPartMoves(bits: seq<bool>, p: nat, q: nat)
    ensures SwapParse(p % 2 != q % 2, ParseOffsetPart(bits, p)) == ParseOffsetPart(bits, q)
    decreases |bits|, 1
  {
    hide Continue, ParseNumber;
    var r := ParseNumber(OFFSET_GROUP, bits);
    NumberKept(p % 2 != q % 2, OFFSET_GROUP, bits);
    if r.Parsed? && Wrap(r.value - 2) != 0 {
      LengthPartMoves(r.rest, p, q, r.value - 2);
      SwapContinue(p % 2 != q % 2, r.events, ParseLengthPart(r.rest, p, r.value - 2));
    }
  }

  lemma {:induction false} LengthPartMoves(bits: seq<bool>, p: nat, q: nat, offset: nat)
    ensures SwapParse(p % 2 != q % 2, ParseLengthPart(bits, p, offset)) == ParseLengthPart(bits, q, offset)
    decreases |bits|, 0
  {
    hide Then, ParseNumber, ParseSymbols, SwapEvents, SwapContext, Wrap;
    var swap, r := p % 2 != q % 2, ParseNumber(LENGTH_GROUP, bits);
    NumberKept(swap, LENGTH_GROUP, bits);
    if r.Parsed? {
      var l := Wrap(r.value);
      var sym := if offset == 0 then Repeat(r.value) else Match(offset, r.value);
      ParseMoves(r.rest, p + l, q + l, AfterReference);
      assert ((p + l) % 2 != (q + l) % 2) == swap;
      SwapThen(swap, r.events, sym, ParseSymbols(r.rest, p + l, AfterReference));
    }
  }

  // ---- The swap changes no interval

  /** Equal up to the swap of context names. */
  ghost predicate SameUpTo(swap: bool, c: Coder, d: Coder) {
    c.low == d.low && c.size == d.size && c.pos == d.pos
    && forall ctx :: Prob(d.probs, SwapContext(swap, ctx)) == Prob(c.probs, ctx)
  }

  lemma SwapUpdate(swap: bool, p: Probs, q: Probs, key: int, v: nat)
    requires forall ctx :: Prob(q, SwapContext(swap, ctx)) == Prob(p, ctx)
    ensures forall ctx :: Prob(q[SwapContext(swap, key) := v], SwapContext(swap, ctx)) == Prob(p[key := v], ctx)
  {
    forall ctx
      ensures Prob(q[SwapContext(swap, key) := v], SwapContext(swap, ctx)) == Prob(p[key := v], ctx)
    {
      hide SwapContext;
      SwapInjective(swap, key, ctx);
      assert Prob(q, SwapContext(swap, ctx)) == Prob(p, ctx);
    }
  }

  lemma SwapInjective(swap: bool, x: int, y: int)
    ensures SwapContext(swap, x) == SwapContext(swap, y) ==> x == y
  {
  }

  lemma SwapStep(swap: bool, c: Coder, d: Coder, e: Event)
    requires c.Valid() && d.Valid() && SameUpTo(swap, c, d)
    ensures SameUpTo(swap, Step(c, e), Step(d, Event(SwapContext(swap, e.ctx), e.bit)))
  {
    RenormScales(c);
    RenormScales(d);
    var m, p := Shifts(c.size), Prob(c.probs, e.ctx);
    assert c.low * Pow2(m) == d.low * Pow2(m) && c.size * Pow2(m) == d.size * Pow2(m);
    assert Prob(d.probs, SwapContext(swap, e.ctx)) == p;
    AdaptKeepsRange(p, e.bit);
    SwapUpdate(swap, c.probs, d.probs, e.ctx, Adapt(p, e.bit));
  }

  /** Coding with the groups swapped narrows to the same interval at every event. */
  lemma {:induction false} SwapKeepsInterval(swap: bool, c: Coder, d: Coder, es: seq<Event>)
    requires c.Valid() && d.Valid() && SameUpTo(swap, c, d)
    ensures SameUpTo(swap, Encode(c, es), Encode(d, SwapEvents(swap, es)))
    decreases |es|
  {
    hide Step, SameUpTo;
    if es == [] {
    } else {
      var f := Event(SwapContext(swap, es[0].ctx), es[0].bit);
      SwapStep(swap, c, d, es[0]);
      SwapKeepsInterval(swap, Step(c, es[0]), Step(d, f), es[1..]);
      assert SwapEvents(swap, es)[0] == f && SwapEvents(swap, es)[1..] == SwapEvents(swap, es[1..]);
    }
  }

  // ---- The decoder on any stream

  /** Decoders of one stream that are equal up to the swap of context names. */
  ghost predicate SameDecoders(swap: bool, d: Decoder, e: Decoder) {
    d.rvalue == e.rvalue && d.isize == e.isize && d.pos == e.pos
    && forall ctx :: Prob(e.probs, SwapContext(swap, ctx)) == Prob(d.probs, ctx)
  }

  lemma {:induction false} SwapRefills(rom: seq<Word>, swap: bool, d: Decoder, e: Decoder)
    requires d.Valid() && e.Valid() && SameDecoders(swap, d, e) && CanRefill(rom, d)
    ensures CanRefill(rom, e) && SameDecoders(swap, Refill(rom, d), Refill(rom, e))
    decreases 0x8000 - d.isize
  {
    if d.isize < 0x8000 {
      RefillStep(rom, d);
      RefillStep(rom, e);
      SwapRefills(rom, swap, ReadBit(rom, d), ReadBit(rom, e));
    }
  }

  /** On every stream the swapped context gives the same bit, and the decoders stay alike. */
  lemma SwapDecodes(rom: seq<Word>, swap: bool, d: Decoder, e: Decoder, ctx: int)
    requires d.Valid() && e.Valid() && SameDecoders(swap, d, e) && CanRefill(rom, d)
    ensures CanRefill(rom, e)
    ensures var (x, y) := (DecodeBit(rom, d, ctx), DecodeBit(rom, e, SwapContext(swap, ctx)));
            x.0 == y.0 && SameDecoders(swap, x.1, y.1)
  {
    hide Refill, SwapContext;
    SwapRefills(rom, swap, d, e);
    var r, s := Refill(rom, d), Refill(rom, e);
    var p := Prob(r.probs, ctx);
    assert Prob(s.probs, SwapContext(swap, ctx)) == p;
    var bit := r.rvalue < Threshold(r.isize, p);
    AdaptKeepsRange(p, bit);
    SwapUpdate(swap, r.probs, s.probs, ctx, Adapt(p, bit));
  }

  /** One decodes along a list of events exactly when the other does along the swapped list. */
  lemma {:induction false} SwapFollows(rom: seq<Word>, swap: bool, d: Decoder, e: Decoder, es: seq<Event>)
    requires d.Valid() && e.Valid() && SameDecoders(swap, d, e)
    ensures Follows(rom, d, es) <==> Follows(rom, e, SwapEvents(swap, es))
    ensures Follows(rom, d, es) ==>
              SameDecoders(swap, After(rom, d, es), After(rom, e, SwapEvents(swap, es)))
    decreases |es|
  {
    hide SameDecoders, DecodeBit, SwapContext;
    if es != [] {
      SameRefills(rom, swap, d, e);
      assert SwapEvents(swap, es)[1..] == SwapEvents(swap, es[1..]);
      if CanRefill(rom, d) {
        var ctx := es[0].ctx;
        SwapDecodes(rom, swap, d, e, ctx);
        SwapFollows(rom, swap, DecodeBit(rom, d, ctx).1, DecodeBit(rom, e, SwapContext(swap, ctx)).1, es[1..]);
      }
    }
  }

  lemma SameRefills(rom: seq<Word>, swap: bool, d: Decoder, e: Decoder)
    requires d.Valid() && e.Valid() && SameDecoders(swap, d, e)
    ensures CanRefill(rom, d) <==> CanRefill(rom, e)
  {
  }

  // ---- Whole runs

  /** A stream codes the same symbols at every load address, and has the same length. */
  lemma LoadAddressIndependent(rom: seq<Word>, syms: seq<Symbol>, load: nat)
    requires Printable(syms, AtStart)
    ensures CodesFrom(rom, syms, load) <==> IsCompressed(rom, syms)
    ensures Encode(START, Events(syms, load, AtStart)).pos == Encode(START, Events(syms, 0, AtStart)).pos
  {
    var swap := load % 2 != 0;
    SwapKeepsInterval(swap, START, START, Events(syms, 0, AtStart));
    EventsMove(syms, 0, load, AtStart);
  }

  /**
   A run over any stream, made by this format's encoder or not: the parser, with output
   from address load, got the bits that the range decoder delivers for the contexts it
   asked for, and reached the end of the data.
   */
  ghost predicate CompletedRun(rom: seq<Word>, load: nat, bits: seq<bool>, run: Parse<seq<Symbol>>) {
    run.Parsed? && run.rest == [] && ParseSymbols(bits, load, AtStart) == run
    && Follows(rom, FRESH_DECODER, run.events)
  }

  /** A stream that some run completes on is compressed data for that run's symbols. */
  lemma CompletedRunIsCompressed(rom: seq<Word>, load: nat, bits: seq<bool>, run: Parse<seq<Symbol>>)
    requires CompletedRun(rom, load, bits, run)
    ensures IsCompressed(rom, run.value)
    ensures After(rom, FRESH_DECODER, run.events).pos == Encode(START, Events(run.value, 0, AtStart)).pos
  {
    SymbolsPrint(bits, load, AtStart);
    DecoderInvertsCoder(rom, FRESH_DECODER, START, run.events);
    LoadAddressIndependent(rom, run.value, load);
  }

  /**
   A run that completes at one load address completes at every other one, and all such
   runs decode the same symbols from the same number of bits.
   */
  lemma RunsAgree(rom: seq<Word>, p: nat, bits: seq<bool>, run: Parse<seq<Symbol>>, q: nat)
    returns (bitsQ: seq<bool>, runQ: Parse<seq<Symbol>>)
    requires CompletedRun(rom, p, bits, run)
    ensures CompletedRun(rom, q, bitsQ, runQ)
    ensures forall bs, r | CompletedRun(rom, q, bs, r) ::
              r.value == run.value
              && After(rom, FRESH_DECODER, r.events).pos == After(rom, FRESH_DECODER, run.events).pos
  {
    hide Follows, After, Encode, Events;
    CompletedRunIsCompressed(rom, p, bits, run);
    bitsQ, runQ := RunAt(rom, run.value, q);
    forall bs, r | CompletedRun(rom, q, bs, r)
      ensures r.value == run.value
      ensures After(rom, FRESH_DECODER, r.events).pos == After(rom, FRESH_DECODER, run.events).pos
    {
      CompletedRunIsCompressed(rom, q, bs, r);
      StreamDeterminesSymbols(rom, r.value, run.value);
    }
  }

  /** Compressed data has a completed run at every load address. */
  lemma RunAt(rom: seq<Word>, syms: seq<Symbol>, load: nat) returns (bits: seq<bool>, run: Parse<seq<Symbol>>)
    requires IsCompressed(rom, syms)
    ensures CompletedRun(rom, load, bits, run) && run.value == syms
  {
    hide Follows, Encode, Events;
    var es := Events(syms, load, AtStart);
    bits, run := Bits(es), Parsed(syms, es, []);
    LoadAddressIndependent(rom, syms, load);
    DecoderInvertsCoder(rom, FRESH_DECODER, START, es);
    SymbolsParse(syms, load, AtStart, []);
    assert bits + [] == bits;
  }

  // ---- Unfinished runs

  /** The bits that the decoder has delivered so far, and where the parser stands with them. */
  ghost predicate RunSoFar(rom: seq<Word>, load: nat, bits: seq<bool>, run: Parse<seq<Symbol>>) {
    ParseSymbols(bits, load, AtStart) == run && (run.Parsed? ==> run.rest == [])
    && Follows(rom, FRESH_DECODER, run.events)
  }

  /**
   On every stream, whether it ever ends or not, runs at two load addresses deliver the
   same bits as far as they go, ask for the swapped context next, and leave decoders
   alike, so that SwapDecodes gives them the same next bit.
   */
  lemma RunsAgreeSoFar(rom: seq<Word>, p: nat, bits: seq<bool>, run: Parse<seq<Symbol>>, q: nat)
    requires RunSoFar(rom, p, bits, run)
    ensures var swap, other := p % 2 != q % 2, ParseSymbols(bits, q, AtStart);
            RunSoFar(rom, q, bits, other) && other == SwapParse(swap, run)
            && Bits(run.events) == bits == Bits(other.events)
            && SameDecoders(swap, After(rom, FRESH_DECODER, run.events), After(rom, FRESH_DECODER, other.events))
  {
    hide Bits, SwapEvents, Follows, After;
    var swap := p % 2 != q % 2;
    ParseMoves(bits, p, q, AtStart);
    SwapFollows(rom, swap, FRESH_DECODER, FRESH_DECODER, run.events);
    ReadExactly(bits, p);
    ReadExactly(bits, q);
  }

  lemma ReadExactly(bits: seq<bool>, load: nat)
    requires var p := ParseSymbols(bits, load, AtStart); p.Parsed? ==> p.rest == []
    ensures Bits(ParseSymbols(bits, load, AtStart).events) == bits
  {
    hide Bits;
    SymbolsPrint(bits, load, AtStart);
    SymbolsExhaust(bits, load, AtStart);
  }
}
