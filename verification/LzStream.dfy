/**
 Compressed streams: the symbol code and the interval coder put together.
 */
module LzStream {
  import opened Words
  import opened RangeCoder
  import opened RangeDecoder
  import opened Codes
  import opened Symbols
  import opened LzFormat

  /** The stream is compressed data for syms, with output addresses counted from pos. */
  ghost predicate CodesFrom(rom: seq<Word>, syms: seq<Symbol>, pos: nat)
    requires Printable(syms, AtStart)
  {
    InInterval(rom, Encode(START, Events(syms, pos, AtStart)))
  }

  /** The encoder knows no addresses: it counts from 0. */
  ghost predicate IsCompressed(rom: seq<Word>, syms: seq<Symbol>) {
    Printable(syms, AtStart) && CodesFrom(rom, syms, 0)
  }

  // ---- Every symbol sequence can be compressed

  function Compress(syms: seq<Symbol>): seq<Word>
    requires Printable(syms, AtStart)
  {
    StreamFor(Encode(START, Events(syms, 0, AtStart)))
  }

  lemma CompressWorks(syms: seq<Symbol>)
    requires Printable(syms, AtStart)
    ensures IsCompressed(Compress(syms), syms)
  {
    StreamExists(Events(syms, 0, AtStart));
  }

  // ---- A stream is compressed data for at most one symbol sequence

  /** Two event sequences that start with the same context, both decoded from one state. */
  lemma SameFirstBit(rom: seq<Word>, d: Decoder, ctx: int, x: bool, a: seq<Event>, y: bool, b: seq<Event>)
    requires d.Valid()
    requires Follows(rom, d, [Event(ctx, x)] + a) && Follows(rom, d, [Event(ctx, y)] + b)
    ensures x == y && CanRefill(rom, d)
    ensures Follows(rom, DecodeBit(rom, d, ctx).1, a) && Follows(rom, DecodeBit(rom, d, ctx).1, b)
  {
    assert ([Event(ctx, x)] + a)[1..] == a;
    assert ([Event(ctx, y)] + b)[1..] == b;
  }

  lemma {:induction false} SameUnary(
    rom: seq<Word>, d: Decoder, group: nat, i: nat, m: nat, a: seq<Event>, n: nat, b: seq<Event>)
    requires d.Valid() && 1 <= i <= m && i <= n
    requires Follows(rom, d, UnaryEvents(group, i, m) + a) && Follows(rom, d, UnaryEvents(group, i, n) + b)
    ensures m == n
    decreases m - i
  {
    hide Follows;
    var x := if i < m then UnaryEvents(group, i + 1, m) else [];
    var y := if i < n then UnaryEvents(group, i + 1, n) else [];
    var ctx := NumberContext(group, 2 * i);
    assert UnaryEvents(group, i, m) + a == [Event(ctx, i < m)] + (x + a);
    assert UnaryEvents(group, i, n) + b == [Event(ctx, i < n)] + (y + b);
    SameFirstBit(rom, d, ctx, i < m, x + a, i < n, y + b);
    if i < m {
      SameUnary(rom, DecodeBit(rom, d, ctx).1, group, i + 1, m, a, n, b);
    }
  }

  lemma {:induction false} SamePayload(
    rom: seq<Word>, d: Decoder, group: nat, i: nat, m: nat, a: seq<Event>, n: nat, b: seq<Event>)
    requires d.Valid() && Drop(m, i) == Drop(n, i)
    requires Follows(rom, d, PayloadEvents(group, i, m) + a) && Follows(rom, d, PayloadEvents(group, i, n) + b)
    ensures m == n
    decreases i
  {
    hide Follows;
    if i == 0 {
    } else {
      var ctx := NumberContext(group, 2 * i - 1);
      var x, y := PayloadEvents(group, i - 1, m), PayloadEvents(group, i - 1, n);
      var s, t := Digit(m, i - 1) == 1, Digit(n, i - 1) == 1;
      assert PayloadEvents(group, i, m) + a == [Event(ctx, s)] + (x + a);
      assert PayloadEvents(group, i, n) + b == [Event(ctx, t)] + (y + b);
      SameFirstBit(rom, d, ctx, s, x + a, t, y + b);
      HalfStep(m, i);
      HalfStep(n, i);
      SamePayload(rom, DecodeBit(rom, d, ctx).1, group, i - 1, m, a, n, b);
    }
  }

  lemma SameNumber(
    rom: seq<Word>, d: Decoder, group: nat, m: nat, a: seq<Event>, n: nat, b: seq<Event>)
    requires d.Valid() && m >= 2 && n >= 2
    requires Follows(rom, d, NumberEvents(group, m) + a) && Follows(rom, d, NumberEvents(group, n) + b)
    ensures m == n
    ensures Follows(rom, d, NumberEvents(group, m)) && Follows(rom, After(rom, d, NumberEvents(group, m)), a)
    ensures Follows(rom, After(rom, d, NumberEvents(group, m)), b)
  {
    hide Follows, After;
    var u, v := UnaryEvents(group, 1, Log2(m)), UnaryEvents(group, 1, Log2(n));
    var x, y := PayloadEvents(group, Log2(m), m), PayloadEvents(group, Log2(n), n);
    assert NumberEvents(group, m) + a == u + (x + a);
    assert NumberEvents(group, n) + b == v + (y + b);
    SameUnary(rom, d, group, 1, Log2(m), x + a, Log2(n), y + b);
    FollowsConcat(rom, d, u, x + a);
    FollowsConcat(rom, d, v, y + b);
    LeadingOne(m, Log2(m));
    LeadingOne(n, Log2(n));
    SamePayload(rom, After(rom, d, u), group, Log2(m), m, a, n, b);
    FollowsConcat(rom, d, NumberEvents(group, m), a);
    FollowsConcat(rom, d, NumberEvents(group, n), b);
  }

  lemma {:induction false} SameLiteral(
    rom: seq<Word>, d: Decoder, parity: nat, i: nat, m: nat, a: seq<Event>, n: nat, b: seq<Event>)
    requires d.Valid() && i <= 8 && m < 0x100 && n < 0x100 && Drop(0x100 + m, i) == Drop(0x100 + n, i)
    requires Follows(rom, d, LiteralEvents(parity, i, m) + a) && Follows(rom, d, LiteralEvents(parity, i, n) + b)
    ensures m == n
    decreases i
  {
    hide Follows;
    if i == 0 {
    } else {
      var ctx := LiteralContext(parity, Drop(0x100 + m, i));
      var x, y := LiteralEvents(parity, i - 1, m), LiteralEvents(parity, i - 1, n);
      var s, t := Digit(m, i - 1) == 1, Digit(n, i - 1) == 1;
      assert LiteralEvents(parity, i, m) + a == [Event(ctx, s)] + (x + a);
      assert LiteralEvents(parity, i, n) + b == [Event(ctx, t)] + (y + b);
      SameFirstBit(rom, d, ctx, s, x + a, t, y + b);
      LiteralNode(m, i);
      LiteralNode(n, i);
      SameLiteral(rom, DecodeBit(rom, d, ctx).1, parity, i - 1, m, a, n, b);
    }
  }

  lemma SameByte(
    rom: seq<Word>, d: Decoder, parity: nat, m: nat, a: seq<Event>, n: nat, b: seq<Event>)
    requires d.Valid() && m < 0x100 && n < 0x100
    requires Follows(rom, d, LiteralEvents(parity, 8, m) + a) && Follows(rom, d, LiteralEvents(parity, 8, n) + b)
    ensures m == n
    ensures Follows(rom, d, LiteralEvents(parity, 8, m))
    ensures Follows(rom, After(rom, d, LiteralEvents(parity, 8, m)), a)
    ensures Follows(rom, After(rom, d, LiteralEvents(parity, 8, m)), b)
  {
    hide Follows, After;
    Pow2Values();
    LiteralNode(m, 8);
    LiteralNode(n, 8);
    SameLiteral(rom, d, parity, 8, m, a, n, b);
    FollowsConcat(rom, d, LiteralEvents(parity, 8, m), a);
    FollowsConcat(rom, d, LiteralEvents(parity, 8, n), b);
  }

  /** One decoder state leads to the same kind of symbol, whatever it is taken to code. */
  lemma SameLead(rom: seq<Word>, d: Decoder, s: seq<Symbol>, t: seq<Symbol>, pos: nat, prev: Prev)
    returns (e: Decoder)
    requires d.Valid() && Printable(s, prev) && Printable(t, prev)
    requires Follows(rom, d, Events(s, pos, prev)) && Follows(rom, d, Events(t, pos, prev))
    ensures IsReference(s) == IsReference(t) && IsRepeat(s) == IsRepeat(t)
    ensures e.Valid() && Follows(rom, e, Body(s, pos, prev)) && Follows(rom, e, Body(t, pos, prev))
  {
    hide Follows, Events, Body;
    EventsSplit(s, pos, prev);
    EventsSplit(t, pos, prev);
    if prev == AtStart {
      e := d;
    } else {
      var kind, x, y := KindContext(pos), Body(s, pos, prev), Body(t, pos, prev);
      if prev == AfterLiteral && IsReference(s) { x := [Event(REPEATED_OFFSET, IsRepeat(s))] + x; }
      if prev == AfterLiteral && IsReference(t) { y := [Event(REPEATED_OFFSET, IsRepeat(t))] + y; }
      SameFirstBit(rom, d, kind, IsReference(s), x, IsReference(t), y);
      e := DecodeBit(rom, d, kind).1;
      if prev == AfterLiteral && IsReference(s) {
        SameFirstBit(rom, e, REPEATED_OFFSET, IsRepeat(s), Body(s, pos, prev), IsRepeat(t), Body(t, pos, prev));
        e := DecodeBit(rom, e, REPEATED_OFFSET).1;
      }
    }
  }

  lemma {:induction false} SameSymbols(
    rom: seq<Word>, d: Decoder, s: seq<Symbol>, t: seq<Symbol>, pos: nat, prev: Prev)
    requires d.Valid() && Printable(s, prev) && Printable(t, prev)
    requires Follows(rom, d, Events(s, pos, prev)) && Follows(rom, d, Events(t, pos, prev))
    ensures s == t
    decreases |s|, 2
  {
    hide Follows, Events, NumberEvents, LiteralEvents, LengthPart;
    var e := SameLead(rom, d, s, t, pos, prev);
    if !IsReference(s) {
      var x, y := Events(s[1..], pos + 1, AfterLiteral), Events(t[1..], pos + 1, AfterLiteral);
      SameByte(rom, e, pos % 2, s[0].value, x, t[0].value, y);
      SameSymbols(rom, After(rom, e, LiteralEvents(pos % 2, 8, s[0].value)), s[1..], t[1..], pos + 1, AfterLiteral);
    } else if IsRepeat(s) {
      SameLength(rom, e, s[0].length, s[1..], t[0].length, t[1..], pos);
    } else {
      var m, a := OffsetNumber(s[0]), OffsetTail(s, pos, prev);
      var n, b := OffsetNumber(t[0]), OffsetTail(t, pos, prev);
      assert NumberEvents(OFFSET_GROUP, m) + [] == NumberEvents(OFFSET_GROUP, m);
      assert NumberEvents(OFFSET_GROUP, n) + [] == NumberEvents(OFFSET_GROUP, n);
      SameNumber(rom, e, OFFSET_GROUP, m, a, n, b);
      EndOrMatch(s[0], t[0]);
      if s[0].Match? {
        var f := After(rom, e, NumberEvents(OFFSET_GROUP, m));
        SameLength(rom, f, s[0].length, s[1..], t[0].length, t[1..], pos);
      }
    }
    assert s == [s[0]] + s[1..] && t == [t[0]] + t[1..];
  }

  /** The number coded in place of an offset. */
  function OffsetNumber(sym: Symbol): (n: nat)
    requires sym.Match? || sym.End?
    ensures n >= 2
  {
    if sym.Match? then sym.offset + 2 else EndNumber(sym.wraps)
  }

  /** It tells an end from an offset, even an overlong one. */
  lemma EndOrMatch(x: Symbol, y: Symbol)
    requires (x.Match? && Wrap(x.offset) != 0) || x.End?
    requires (y.Match? && Wrap(y.offset) != 0) || y.End?
    requires OffsetNumber(x) == OffsetNumber(y)
    ensures x.End? == y.End? && (x.End? ==> x == y) && (x.Match? ==> x.offset == y.offset)
  {
  }

  /** What follows the offset of a reference that codes one. */
  function OffsetTail(syms: seq<Symbol>, pos: nat, prev: Prev): seq<Event>
    requires Printable(syms, prev) && IsReference(syms) && !IsRepeat(syms)
  {
    if syms[0].End? then [] else LengthPart(syms[0].length, syms[1..], pos)
  }

  lemma {:induction false} SameLength(
    rom: seq<Word>, d: Decoder, k: nat, s: seq<Symbol>, l: nat, t: seq<Symbol>, pos: nat)
    requires d.Valid() && k >= 2 && l >= 2 && Printable(s, AfterReference) && Printable(t, AfterReference)
    requires Follows(rom, d, LengthPart(k, s, pos)) && Follows(rom, d, LengthPart(l, t, pos))
    ensures k == l && s == t
    decreases |s|, 3
  {
    hide Follows, Events, NumberEvents;
    var x, y := Events(s, pos + Wrap(k), AfterReference), Events(t, pos + Wrap(l), AfterReference);
    SameNumber(rom, d, LENGTH_GROUP, k, x, l, y);
    SameSymbols(rom, After(rom, d, NumberEvents(LENGTH_GROUP, k)), s, t, pos + Wrap(k), AfterReference);
  }

  /** The format is unambiguous, over streams of any length and any padding. */
  lemma StreamDeterminesSymbols(rom: seq<Word>, s: seq<Symbol>, t: seq<Symbol>)
    requires IsCompressed(rom, s) && IsCompressed(rom, t)
    ensures s == t
  {
    DecoderInvertsCoder(rom, FRESH_DECODER, START, Events(s, 0, AtStart));
    DecoderInvertsCoder(rom, FRESH_DECODER, START, Events(t, 0, AtStart));
    SameSymbols(rom, FRESH_DECODER, s, t, 0, AtStart);
  }
}
