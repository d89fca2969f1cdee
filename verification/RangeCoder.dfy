/**
 The interval coder that defines the compressed format, in exact arithmetic: events
 narrow an interval [low, low + size) whose low end is never truncated. A stream codes
 an event sequence when the integer of its first pos bits lies in the final interval.
 */
module RangeCoder {
  import opened Words
  import opened BitSource

  const INIT_ONE_PROB: nat := 0x8000
  const ADJUST_SHIFT: nat := 4

  datatype Event = Event(ctx: int, bit: bool)

  /** The adaptive probability that the bit is 1, in 1/65536ths; absent means initial. */
  type Probs = map<int, nat>

  function Prob(probs: Probs, ctx: int): nat {
    if ctx in probs then probs[ctx] else INIT_ONE_PROB
  }

  function Adapt(p: nat, bit: bool): int {
    if bit then p - p / Pow2(ADJUST_SHIFT) + 0xffff / Pow2(ADJUST_SHIFT) else p - p / Pow2(ADJUST_SHIFT)
  }

  predicate ProbOk(p: int) {
    15 <= p <= 0xfff0
  }

  ghost predicate ProbsOk(probs: Probs) {
    forall ctx :: ctx in probs ==> ProbOk(probs[ctx])
  }

  function Threshold(size: nat, p: nat): nat {
    size * p / 0x1_0000
  }

  datatype Coder = Coder(low: nat, size: nat, pos: nat, probs: Probs) {
    ghost predicate Valid() {
      0 < size <= 0xffff && ProbsOk(probs)
    }
  }

  const START: Coder := Coder(0, 1, 0, map[])

  /** The number of doublings that bring a size to 2^15 or more. */
  function Shifts(size: nat): nat
    requires size > 0
    decreases 0x8000 - size
  {
    if size >= 0x8000 then 0 else 1 + Shifts(2 * size)
  }

  function Renorm(c: Coder): Coder
    requires c.size > 0
    decreases 0x8000 - c.size
  {
    if c.size >= 0x8000 then c else Renorm(Coder(2 * c.low, 2 * c.size, c.pos + 1, c.probs))
  }

  /** A 1 takes the low part of the interval, a 0 the high part. */
  function Narrow(c: Coder, e: Event): (r: Coder)
    requires c.Valid() && c.size >= 0x8000
    ensures r.Valid() && r.size >= 7
  {
    ThresholdBounds(c.size, Prob(c.probs, e.ctx));
    AdaptKeepsRange(Prob(c.probs, e.ctx), e.bit);
    var thr := Threshold(c.size, Prob(c.probs, e.ctx));
    var probs := c.probs[e.ctx := Adapt(Prob(c.probs, e.ctx), e.bit)];
    if e.bit then Coder(c.low, thr, c.pos, probs)
    else Coder(c.low + thr, c.size - thr, c.pos, probs)
  }

  function Step(c: Coder, e: Event): (r: Coder)
    requires c.Valid()
    ensures r.Valid() && r.size >= 7
  {
    RenormScales(c);
    Narrow(Renorm(c), e)
  }

  function Encode(c: Coder, es: seq<Event>): (r: Coder)
    requires c.Valid()
    ensures r.Valid()
    decreases |es|
  {
    if es == [] then c else Encode(Step(c, es[0]), es[1..])
  }

  /** The stream's first c.pos bits, read as an integer, lie in c's interval. */
  predicate InInterval(rom: seq<Word>, c: Coder) {
    c.pos <= 32 * |rom| && c.low <= Value(rom, c.pos) < c.low + c.size
  }

  // ---- Probabilities and thresholds

  lemma AdaptValues(p: nat)
    ensures Adapt(p, false) == p - p / 16 && Adapt(p, true) == p - p / 16 + 0xfff
  {
    assert Pow2(2) == 4;
    assert Pow2(4) == 16;
  }

  /** No update sequence leaves [15, 0xfff0]; the start value 0x8000 is inside. */
  lemma AdaptKeepsRange(p: nat, bit: bool)
    requires ProbOk(p)
    ensures ProbOk(Adapt(p, bit))
  {
    AdaptValues(p);
  }

  lemma ProbRange(probs: Probs, ctx: int)
    requires ProbsOk(probs)
    ensures ProbOk(Prob(probs, ctx))
  {
  }

  lemma ProbUpdated(probs: Probs, ctx: int, p: nat)
    ensures Prob(probs[ctx := p], ctx) == p
    ensures forall c :: c != ctx ==> Prob(probs[ctx := p], c) == Prob(probs, c)
  {
  }

  /** After renormalisation both parts are non-empty, with room to spare. */
  lemma ThresholdBounds(size: nat, p: nat)
    requires 0x8000 <= size <= 0xffff && ProbOk(p)
    ensures 7 <= Threshold(size, p) && 8 <= size - Threshold(size, p)
  {
    MulMonotonic(0x8000, size, p);
    MulMonotonic(p, 0xfff0, size);
    assert size * p == p * size;
  }

  lemma ThresholdRoundsDown(size: nat, p: nat)
    ensures Threshold(size, p) * 0x1_0000 <= size * p < (Threshold(size, p) + 1) * 0x1_0000
  {
  }

  lemma ProductFits(size: nat, p: nat)
    requires size <= 0xffff && p <= 0xffff
    ensures 0 <= size * p < 0x1_0000_0000
  {
    MulMonotonic(size, 0xffff, p);
  }

  // ---- Renormalisation

  lemma {:induction false} RenormScales(c: Coder)
    requires c.Valid()
    ensures var r, m := Renorm(c), Shifts(c.size);
            r.Valid() && r.size >= 0x8000
            && r.low == c.low * Pow2(m) && r.size == c.size * Pow2(m)
            && r.pos == c.pos + m && r.probs == c.probs
    decreases 0x8000 - c.size
  {
    if c.size >= 0x8000 {
    } else {
      RenormScales(Coder(2 * c.low, 2 * c.size, c.pos + 1, c.probs));
      var p := Pow2(Shifts(2 * c.size));
      MulAssoc(c.low, 2, p);
      MulAssoc(c.size, 2, p);
    }
  }

  lemma {:induction false} ShiftsBound(size: nat, m: nat)
    requires size > 0 && size * Pow2(m) >= 0x8000
    ensures Shifts(size) <= m
    decreases m
  {
    if size >= 0x8000 || m == 0 {
    } else {
      MulAssoc(size, 2, Pow2(m - 1));
      ShiftsBound(2 * size, m - 1);
    }
  }

  // ---- Nested intervals

  /** Scaled to the same number of stream bits, d's interval is part of c's. */
  ghost predicate Within(d: Coder, c: Coder) {
    c.pos <= d.pos
    && var p := Pow2(d.pos - c.pos);
       c.low * p <= d.low && d.low + d.size <= (c.low + c.size) * p
  }

  lemma WithinTransitive(e: Coder, d: Coder, c: Coder)
    requires Within(e, d) && Within(d, c)
    ensures Within(e, c)
  {
    var p, q := Pow2(d.pos - c.pos), Pow2(e.pos - d.pos);
    Pow2Add(d.pos - c.pos, e.pos - d.pos);
    MulMonotonic(c.low * p, d.low, q);
    MulMonotonic(d.low + d.size, (c.low + c.size) * p, q);
    MulAssoc(c.low, p, q);
    MulAssoc(c.low + c.size, p, q);
  }

  lemma RenormWithin(c: Coder)
    requires c.Valid()
    ensures Within(Renorm(c), c)
  {
    RenormScales(c);
    MulDist(c.low, c.size, Pow2(Shifts(c.size)));
  }

  lemma StepWithin(c: Coder, e: Event)
    requires c.Valid()
    ensures Within(Step(c, e), c)
  {
    RenormScales(c);
    RenormWithin(c);
    var r := Renorm(c);
    ThresholdBounds(r.size, Prob(r.probs, e.ctx));
    assert Within(Step(c, e), r) by { assert Pow2(0) == 1; }
    WithinTransitive(Step(c, e), r, c);
  }

  lemma {:induction false} EncodeWithin(c: Coder, es: seq<Event>)
    requires c.Valid()
    ensures Within(Encode(c, es), c)
    decreases |es|
  {
    if es == [] {
      assert Pow2(0) == 1;
    } else {
      StepWithin(c, es[0]);
      EncodeWithin(Step(c, es[0]), es[1..]);
      WithinTransitive(Encode(c, es), Step(c, es[0]), c);
    }
  }

  /** A stream in an inner interval is in every interval around it. */
  lemma WithinStream(rom: seq<Word>, d: Coder, c: Coder)
    requires Within(d, c) && InInterval(rom, d)
    ensures InInterval(rom, c)
  {
    var m := d.pos - c.pos;
    var p, v, w := Pow2(m), Value(rom, c.pos), Value(rom, d.pos);
    ValueExtends(rom, c.pos, m);
    assert v * p < (c.low + c.size) * p;
    MulCancel(v, c.low + c.size, p);
    MulCancel(c.low, v + 1, p);
  }

  /** Reading on keeps a stream in the scaled interval. */
  lemma RenormStream(rom: seq<Word>, c: Coder)
    requires c.Valid() && InInterval(rom, c)
    requires c.pos + Shifts(c.size) <= 32 * |rom|
    ensures InInterval(rom, Renorm(c))
  {
    RenormScales(c);
    var m := Shifts(c.size);
    var p, v := Pow2(m), Value(rom, c.pos);
    ValueExtends(rom, c.pos, m);
    MulMonotonic(c.low, v, p);
    MulMonotonic(v + 1, c.low + c.size, p);
    MulDist(c.low, c.size, p);
  }

  // ---- Properties of the whole code

  /** For a stream in the interval, the next bit's two parts leave exactly one choice. */
  lemma ExactlyOneBit(rom: seq<Word>, c: Coder, ctx: int)
    requires c.Valid() && InInterval(rom, c)
    requires c.pos + Shifts(c.size) <= 32 * |rom|
    ensures InInterval(rom, Step(c, Event(ctx, true))) <==> !InInterval(rom, Step(c, Event(ctx, false)))
  {
    RenormStream(rom, c);
    RenormScales(c);
  }

  /** n >= 1 events from the start take at most 15 + 13 * (n - 1) stream bits. */
  lemma ConsumptionBound(es: seq<Event>)
    requires |es| >= 1
    ensures 15 <= Encode(START, es).pos <= 15 + 13 * (|es| - 1)
  {
    var c := Step(START, es[0]);
    RenormScales(START);
    assert Shifts(0x4000) == 1;
    assert Shifts(0x1000) == 3;
    assert Shifts(0x400) == 5;
    assert Shifts(0x100) == 7;
    assert Shifts(0x40) == 9;
    assert Shifts(0x10) == 11;
    assert Shifts(4) == 13;
    assert Shifts(1) == 15;
    ConsumptionFrom(c, es[1..]);
  }

  lemma {:induction false} ConsumptionFrom(c: Coder, es: seq<Event>)
    requires c.Valid() && c.size >= 7
    ensures c.pos <= Encode(c, es).pos <= c.pos + 13 * |es|
    decreases |es|
  {
    if es == [] {
    } else {
      RenormScales(c);
      assert Pow2(13) == 0x2000 by { Pow2Values(); Pow2Add(5, 8); assert Pow2(5) == 32; }
      ShiftsBound(c.size, 13);
      ConsumptionFrom(Step(c, es[0]), es[1..]);
    }
  }
}
