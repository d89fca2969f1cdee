/**
 The decoder half: a value register that never leaves 16 bits stands for
 "stream integer minus low end of the interval". This is the arithmetic of getbit
 on values; the register program itself is in module Depacker.
 */
module RangeDecoder {
  import opened Words
  import opened BitSource
  import opened RangeCoder

  datatype Decoder = Decoder(rvalue: nat, isize: nat, pos: nat, probs: Probs) {
    ghost predicate Valid() {
      rvalue < isize <= 0xffff && ProbsOk(probs)
    }
  }

  const FRESH_DECODER: Decoder := Decoder(0, 1, 0, map[])

  /** Enough stream left to renormalise. */
  predicate CanRefill(rom: seq<Word>, d: Decoder)
    requires d.isize > 0
  {
    d.pos + Shifts(d.isize) <= 32 * |rom|
  }

  function ReadBit(rom: seq<Word>, d: Decoder): Decoder
    requires d.pos < 32 * |rom|
  {
    Decoder(2 * d.rvalue + Bit(rom, d.pos), 2 * d.isize, d.pos + 1, d.probs)
  }

  function Refill(rom: seq<Word>, d: Decoder): (r: Decoder)
    requires d.Valid() && CanRefill(rom, d)
    ensures r.Valid() && r.isize >= 0x8000 && r.pos == d.pos + Shifts(d.isize)
    decreases 0x8000 - d.isize
  {
    if d.isize >= 0x8000 then d else Refill(rom, ReadBit(rom, d))
  }

  lemma RefillStep(rom: seq<Word>, d: Decoder)
    requires d.Valid() && CanRefill(rom, d) && d.isize < 0x8000
    ensures d.pos < 32 * |rom| && ReadBit(rom, d).Valid() && CanRefill(rom, ReadBit(rom, d))
    ensures Refill(rom, d) == Refill(rom, ReadBit(rom, d)) && ReadBit(rom, d).isize == 2 * d.isize
  {
  }

  lemma {:induction false} RefillKeepsProbs(rom: seq<Word>, d: Decoder)
    requires d.Valid() && CanRefill(rom, d)
    ensures Refill(rom, d).probs == d.probs
    decreases 0x8000 - d.isize
  {
    if d.isize < 0x8000 {
      RefillStep(rom, d);
      RefillKeepsProbs(rom, ReadBit(rom, d));
    }
  }

  /** Below the threshold the bit is 1 and the low part remains; otherwise the high part. */
  function Select(d: Decoder, ctx: int): (r: (bool, Decoder))
    requires d.Valid() && d.isize >= 0x8000
    ensures r.1.Valid() && r.1.isize >= 7 && r.1.pos == d.pos
  {
    ThresholdBounds(d.isize, Prob(d.probs, ctx));
    var thr := Threshold(d.isize, Prob(d.probs, ctx));
    var bit := d.rvalue < thr;
    AdaptKeepsRange(Prob(d.probs, ctx), bit);
    var probs := d.probs[ctx := Adapt(Prob(d.probs, ctx), bit)];
    (bit, if bit then Decoder(d.rvalue, thr, d.pos, probs)
          else Decoder(d.rvalue - thr, d.isize - thr, d.pos, probs))
  }

  /**
   The step in plain numbers. The low part is the product of size and probability, rounded
   down; the bit is 1 exactly if the value is in it; and only a 1 makes a 1 more probable.
   */
  lemma SelectMeaning(d: Decoder, ctx: int)
    requires d.Valid() && d.isize >= 0x8000
    ensures var p, (bit, r) := Prob(d.probs, ctx), Select(d, ctx);
            var low := if bit then r.isize else d.isize - r.isize;
            low * 0x1_0000 <= d.isize * p < (low + 1) * 0x1_0000
            && (bit <==> d.rvalue < low) && r.rvalue == (if bit then d.rvalue else d.rvalue - low)
            && r.probs == d.probs[ctx := p - p / 16 + if bit then 0xfff else 0]
  {
    ThresholdRoundsDown(d.isize, Prob(d.probs, ctx));
    hide Threshold;
    AdaptValues(Prob(d.probs, ctx));
  }

  function DecodeBit(rom: seq<Word>, d: Decoder, ctx: int): (r: (bool, Decoder))
    requires d.Valid() && CanRefill(rom, d)
    ensures r.1.Valid() && r.1.isize >= 7
  {
    Select(Refill(rom, d), ctx)
  }

  /** Decoding along the contexts of es yields exactly the bits of es. */
  ghost predicate Follows(rom: seq<Word>, d: Decoder, es: seq<Event>)
    requires d.Valid()
    decreases |es|
  {
    es == [] ||
    (CanRefill(rom, d)
     && DecodeBit(rom, d, es[0].ctx).0 == es[0].bit
     && Follows(rom, DecodeBit(rom, d, es[0].ctx).1, es[1..]))
  }

  ghost function After(rom: seq<Word>, d: Decoder, es: seq<Event>): (r: Decoder)
    requires d.Valid() && Follows(rom, d, es)
    ensures r.Valid()
    decreases |es|
  {
    if es == [] then d else After(rom, DecodeBit(rom, d, es[0].ctx).1, es[1..])
  }

  // ---- The fast form refines exact arithmetic

  ghost predicate Tracks(rom: seq<Word>, d: Decoder, c: Coder) {
    c.pos <= 32 * |rom|
    && d.isize == c.size && d.pos == c.pos && d.probs == c.probs
    && c.low + d.rvalue == Value(rom, c.pos)
  }

  lemma {:induction false} RefillTracks(rom: seq<Word>, d: Decoder, c: Coder)
    requires d.Valid() && c.Valid() && CanRefill(rom, d) && Tracks(rom, d, c)
    ensures Tracks(rom, Refill(rom, d), Renorm(c))
    decreases 0x8000 - c.size
  {
    if c.size >= 0x8000 {
    } else {
      var c' := Coder(2 * c.low, 2 * c.size, c.pos + 1, c.probs);
      assert Value(rom, c.pos + 1) == 2 * Value(rom, c.pos) + Bit(rom, c.pos);
      RefillTracks(rom, ReadBit(rom, d), c');
    }
  }

  /** One call keeps rvalue equal to the stream integer minus the exact low end. */
  lemma DecodeBitTracks(rom: seq<Word>, d: Decoder, c: Coder, ctx: int)
    requires d.Valid() && c.Valid() && CanRefill(rom, d) && Tracks(rom, d, c)
    ensures var (bit, r) := DecodeBit(rom, d, ctx); Tracks(rom, r, Step(c, Event(ctx, bit)))
  {
    RefillTracks(rom, d, c);
    RenormScales(c);
  }

  /** A tracked call returns the bit whose sub-interval holds the stream, and no other. */
  lemma DecodeBitChooses(rom: seq<Word>, d: Decoder, c: Coder, e: Event)
    requires d.Valid() && c.Valid() && CanRefill(rom, d) && Tracks(rom, d, c)
    ensures InInterval(rom, Step(c, e)) <==> DecodeBit(rom, d, e.ctx).0 == e.bit
  {
    RefillTracks(rom, d, c);
    RenormScales(c);
  }

  /**
   The decoder inverts the coder: from corresponding states, the calls return the
   coded bits if and only if the stream lies in the final interval, and they end in
   the corresponding state, probabilities included.
   */
  lemma {:induction false} DecoderInvertsCoder(rom: seq<Word>, d: Decoder, c: Coder, es: seq<Event>)
    requires d.Valid() && c.Valid() && Tracks(rom, d, c)
    ensures Follows(rom, d, es) <==> InInterval(rom, Encode(c, es))
    ensures Follows(rom, d, es) ==> Tracks(rom, After(rom, d, es), Encode(c, es))
    decreases |es|
  {
    if es == [] {
    } else {
      var s := Step(c, es[0]);
      EncodeWithin(s, es[1..]);
      RenormScales(c);
      if CanRefill(rom, d) {
        DecodeBitChooses(rom, d, c, es[0]);
        DecodeBitTracks(rom, d, c, es[0].ctx);
        if DecodeBit(rom, d, es[0].ctx).0 == es[0].bit {
          DecoderInvertsCoder(rom, DecodeBit(rom, d, es[0].ctx).1, s, es[1..]);
        } else if InInterval(rom, Encode(c, es)) {
          WithinStream(rom, Encode(c, es), s);
          assert false;
        }
      }
    }
  }

  /** n >= 1 calls from the start use at most 15 + 13 * (n - 1) bits of any stream. */
  lemma DecoderConsumption(rom: seq<Word>, es: seq<Event>)
    requires |es| >= 1 && Follows(rom, FRESH_DECODER, es)
    ensures 15 <= After(rom, FRESH_DECODER, es).pos <= 15 + 13 * (|es| - 1)
  {
    DecoderInvertsCoder(rom, FRESH_DECODER, START, es);
    ConsumptionBound(es);
  }

  lemma {:induction false} FollowsConcat(rom: seq<Word>, d: Decoder, a: seq<Event>, b: seq<Event>)
    requires d.Valid()
    ensures Follows(rom, d, a + b) <==> Follows(rom, d, a) && Follows(rom, After(rom, d, a), b)
    ensures Follows(rom, d, a + b) ==> After(rom, d, a + b) == After(rom, After(rom, d, a), b)
    decreases |a|
  {
    if a == [] {
      assert a + b == b;
    } else {
      assert (a + b)[0] == a[0] && (a + b)[1..] == a[1..] + b;
      if CanRefill(rom, d) {
        FollowsConcat(rom, DecodeBit(rom, d, a[0].ctx).1, a[1..], b);
      }
    }
  }

  /** Decoding along es succeeds and ends in state final. */
  ghost predicate Leads(rom: seq<Word>, d: Decoder, es: seq<Event>, final: Decoder) {
    d.Valid() && Follows(rom, d, es) && After(rom, d, es) == final
  }

  lemma LeadsConcat(rom: seq<Word>, d: Decoder, a: seq<Event>, b: seq<Event>, final: Decoder)
    requires Leads(rom, d, a + b, final)
    ensures d.Valid() && Follows(rom, d, a)
    ensures Leads(rom, d, a, After(rom, d, a)) && Leads(rom, After(rom, d, a), b, final)
  {
    FollowsConcat(rom, d, a, b);
  }

  lemma LeadsOne(rom: seq<Word>, d: Decoder, e: Event, es: seq<Event>, final: Decoder)
    requires Leads(rom, d, [e] + es, final)
    ensures d.Valid() && CanRefill(rom, d) && DecodeBit(rom, d, e.ctx).0 == e.bit
    ensures Leads(rom, DecodeBit(rom, d, e.ctx).1, es, final)
  {
    assert ([e] + es)[1..] == es;
  }

  lemma LeadsNothing(rom: seq<Word>, d: Decoder, final: Decoder)
    requires Leads(rom, d, [], final)
    ensures d == final
  {
  }

  // ---- One stream, one bit sequence

  /** The context of each event is determined by the bits before it. */
  function EventsBy(rule: seq<bool> -> int, past: seq<bool>, bits: seq<bool>): seq<Event>
    decreases |bits|
  {
    if bits == [] then []
    else [Event(rule(past), bits[0])] + EventsBy(rule, past + [bits[0]], bits[1..])
  }

  /** Under one context rule, different bit sequences of equal length have disjoint intervals. */
  lemma DisjointIntervals(rom: seq<Word>, rule: seq<bool> -> int, a: seq<bool>, b: seq<bool>)
    requires |a| == |b|
    requires InInterval(rom, Encode(START, EventsBy(rule, [], a)))
    requires InInterval(rom, Encode(START, EventsBy(rule, [], b)))
    ensures a == b
  {
    DecoderInvertsCoder(rom, FRESH_DECODER, START, EventsBy(rule, [], a));
    DecoderInvertsCoder(rom, FRESH_DECODER, START, EventsBy(rule, [], b));
    FollowsDetermines(rom, FRESH_DECODER, rule, [], a, b);
  }

  lemma {:induction false} FollowsDetermines(
    rom: seq<Word>, d: Decoder, rule: seq<bool> -> int, past: seq<bool>, a: seq<bool>, b: seq<bool>)
    requires d.Valid() && |a| == |b|
    requires Follows(rom, d, EventsBy(rule, past, a)) && Follows(rom, d, EventsBy(rule, past, b))
    ensures a == b
    decreases |a|
  {
    if a == [] {
    } else {
      assert EventsBy(rule, past, a)[1..] == EventsBy(rule, past + [a[0]], a[1..]);
      assert EventsBy(rule, past, b)[1..] == EventsBy(rule, past + [b[0]], b[1..]);
      assert a[0] == b[0];
      FollowsDetermines(rom, DecodeBit(rom, d, rule(past)).1, rule, past + [a[0]], a[1..], b[1..]);
      assert a == [a[0]] + a[1..] && b == [b[0]] + b[1..];
    }
  }

  // ---- Streams exist

  /** n words holding the number v, most significant word first. */
  function WordsOf(v: nat, n: nat): (rom: seq<Word>)
    ensures |rom| == n
  {
    if n == 0 then [] else WordsOf(v / 0x1_0000_0000, n - 1) + [v % 0x1_0000_0000]
  }

  /** A shortest stream for a coder state: its low end, padded with zero bits. */
  function StreamFor(c: Coder): seq<Word> {
    var n := WordsLoaded(c.pos);
    WordsOf(c.low * Pow2(32 * n - c.pos), n)
  }

  lemma {:induction false} ValueOfPrefix(rom: seq<Word>, w: Word, k: nat)
    requires k <= 32 * |rom|
    ensures Value(rom + [w], k) == Value(rom, k)
  {
    if k == 0 {
    } else {
      ValueOfPrefix(rom, w, k - 1);
      assert (rom + [w])[(k - 1) / 32] == rom[(k - 1) / 32];
    }
  }

  lemma BitInLastWord(rom: seq<Word>, w: Word, j: nat)
    requires j < 32
    ensures Bit(rom + [w], 32 * |rom| + j) == Digit(w, 31 - j)
  {
    var i := 32 * |rom| + j;
    assert i / 32 == |rom| && i % 32 == j;
  }

  lemma {:induction false} ValueInLastWord(rom: seq<Word>, w: Word, j: nat)
    requires j <= 32
    ensures Value(rom + [w], 32 * |rom| + j) == Value(rom, 32 * |rom|) * Pow2(j) + Drop(w, 32 - j)
  {
    var n := 32 * |rom|;
    if j == 0 {
      ValueOfPrefix(rom, w, n);
      Pow2Values();
      DropAll(w, 32);
    } else {
      ValueInLastWord(rom, w, j - 1);
      BitInLastWord(rom, w, j - 1);
      HalfStep(w, 33 - j);
      DoubleRight(Value(rom, n), Pow2(j - 1));
    }
  }

  lemma ValueWithWord(rom: seq<Word>, w: Word)
    ensures Value(rom + [w], 32 * |rom| + 32) == Value(rom, 32 * |rom|) * 0x1_0000_0000 + w
  {
    ValueInLastWord(rom, w, 32);
    Pow2Values();
  }

  lemma {:induction false} ValueOfWords(v: nat, n: nat)
    requires v < Pow2(32 * n)
    ensures Value(WordsOf(v, n), 32 * n) == v
  {
    if n == 0 {
    } else {
      var h, w := v / 0x1_0000_0000, v % 0x1_0000_0000;
      assert h < Pow2(32 * (n - 1)) by {
        Pow2Values();
        Pow2Add(32, 32 * (n - 1));
      }
      ValueOfWords(h, n - 1);
      ValueWithWord(WordsOf(h, n - 1), w);
    }
  }

  /** Padding a number below 2^pos with zero bits keeps its first pos bits. */
  lemma PaddedValue(v: nat, pos: nat, m: nat, n: nat, x: nat)
    requires v < Pow2(pos) && pos + m == 32 * n && x == v * Pow2(m)
    ensures Value(WordsOf(x, n), pos) == v
  {
    var p := Pow2(m);
    assert x < Pow2(32 * n) by {
      Pow2Add(pos, m);
      MulMonotonic(v + 1, Pow2(pos), p);
      MulDist(v, 1, p);
    }
    ValueOfWords(x, n);
    ValueBracket(WordsOf(x, n), pos, m, v);
  }

  lemma ValueBracket(rom: seq<Word>, k: nat, m: nat, v: nat)
    requires k + m <= 32 * |rom| && Value(rom, k + m) == v * Pow2(m)
    ensures Value(rom, k) == v
  {
    ValueExtends(rom, k, m);
    MulCancel(Value(rom, k), v + 1, Pow2(m)) by { MulDist(v, 1, Pow2(m)); }
    MulCancel(v, Value(rom, k) + 1, Pow2(m));
  }

  lemma StreamForState(c: Coder)
    requires c.Valid() && c.low < Pow2(c.pos)
    ensures InInterval(StreamFor(c), c)
  {
    var n := WordsLoaded(c.pos);
    MulMonotonic(0, c.low, Pow2(32 * n - c.pos));
    PaddedValue(c.low, c.pos, 32 * n - c.pos, n, c.low * Pow2(32 * n - c.pos));
  }

  /** Every event sequence is coded by some stream of words. */
  lemma StreamExists(es: seq<Event>)
    ensures InInterval(StreamFor(Encode(START, es)), Encode(START, es))
  {
    var c := Encode(START, es);
    EncodeWithin(START, es);
    var p := Pow2(c.pos);
    assert (0 + 1) * p == p;
    StreamForState(c);
  }
}
