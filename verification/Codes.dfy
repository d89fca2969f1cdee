/**
 The number and literal codes as event sequences, and parsers that ask for one bit
 at a time the way getnumber and the literal loop do.
 */
module Codes {
  import opened Words
  import opened RangeCoder

  /**
   What a parser got out of a bit list, with the (context, bit) pairs it asked for. When
   the bits run out, next is the context it would ask for next.
   */
  datatype Parse<T> =
    | Parsed(value: T, events: seq<Event>, rest: seq<bool>)
    | Starved(events: seq<Event>, next: int)

  /** The parse p, after the given events. */
  function Continue<T>(es: seq<Event>, p: Parse<T>): Parse<T> {
    p.(events := es + p.events)
  }

  function Prepend<T>(e: Event, p: Parse<T>): Parse<T> {
    Continue([e], p)
  }

  function Bits(es: seq<Event>): (bs: seq<bool>)
    ensures |bs| == |es|
  {
    if es == [] then [] else [es[0].bit] + Bits(es[1..])
  }

  lemma {:induction false} BitsConcat(a: seq<Event>, b: seq<Event>)
    ensures Bits(a + b) == Bits(a) + Bits(b)
    decreases |a|
  {
    if a == [] {
      assert a + b == b;
    } else {
      assert (a + b)[1..] == a[1..] + b;
      BitsConcat(a[1..], b);
    }
  }

  /** One event in front of a bit list. */
  lemma BitsCons(e: Event, es: seq<Event>, tail: seq<bool>)
    ensures var bits := Bits([e] + es) + tail;
            bits != [] && bits[0] == e.bit && bits[1..] == Bits(es) + tail
  {
    assert ([e] + es)[1..] == es;
  }

  /** Everything a parser read: the bits of its events, and nothing else. */
  ghost predicate Accounts<T>(p: Parse<T>, bits: seq<bool>) {
    p.Parsed? ==> bits == Bits(p.events) + p.rest
  }

  lemma AccountsCons<T>(e: Event, p: Parse<T>, bits: seq<bool>)
    requires bits != [] && bits[0] == e.bit && p.Parsed? && Accounts(p, bits[1..])
    ensures Accounts(Prepend(e, p), bits)
  {
    BitsCons(e, p.events, p.rest);
  }

  lemma AccountsConcat<T, U>(p: Parse<T>, q: Parse<U>, bits: seq<bool>)
    requires p.Parsed? && q.Parsed? && Accounts(p, bits) && Accounts(q, p.rest)
    ensures bits == Bits(p.events + q.events) + q.rest
  {
    BitsConcat(p.events, q.events);
  }

  /** A parser that ran out of bits has used them all. */
  ghost predicate Exhausts<T>(p: Parse<T>, bits: seq<bool>) {
    p.Starved? ==> bits == Bits(p.events)
  }

  lemma ExhaustsNext<T>(es: seq<Event>, p: Parse<T>, rest: seq<bool>)
    requires Exhausts(p, rest)
    ensures Exhausts(Continue(es, p), Bits(es) + rest)
  {
    BitsConcat(es, p.events);
  }

  /** The events fs go on after es with a bit in context next. */
  ghost predicate AsksNext(es: seq<Event>, next: int, fs: seq<Event>) {
    |es| < |fs| && fs[..|es|] == es && fs[|es|].ctx == next
  }

  /** What a parser does with more bits: nothing if it was done, else it goes on where it ran out. */
  ghost predicate Extends<T>(p: Parse<T>, q: Parse<T>, more: seq<bool>) {
    match p
    case Parsed(v, es, rest) => q == Parsed(v, es, rest + more)
    case Starved(es, next) => AsksNext(es, next, q.events)
  }

  lemma ExtendsNext<T>(es: seq<Event>, p: Parse<T>, q: Parse<T>, more: seq<bool>)
    requires Extends(p, q, more)
    ensures Extends(Continue(es, p), Continue(es, q), more)
  {
    if p.Starved? {
      assert (es + q.events)[..|es + p.events|] == es + q.events[..|p.events|];
    }
  }

  lemma AsksNextLonger(es: seq<Event>, next: int, fs: seq<Event>, gs: seq<Event>)
    requires AsksNext(es, next, fs)
    ensures AsksNext(es, next, fs + gs)
  {
    assert (fs + gs)[..|es|] == fs[..|es|];
  }

  lemma MoreBits(bits: seq<bool>, more: seq<bool>)
    requires bits != []
    ensures (bits + more)[0] == bits[0] && (bits + more)[1..] == bits[1..] + more
  {
  }

  // ---- Numbers

  const OFFSET_GROUP: nat := 3
  const LENGTH_GROUP: nat := 4

  function NumberContext(group: nat, index: nat): nat {
    Or(group * 0x100, index)
  }

  /** The groups of numbers lie above all other contexts, whatever the index. */
  lemma NumberContextAtLeast(group: nat, index: nat)
    ensures NumberContext(group, index) >= group * 0x100
  {
    OrAtLeast(group * 0x100, index);
  }

  /** The number of binary digits below the leading one. */
  function Log2(n: nat): nat
    requires n >= 1
  {
    if n == 1 then 0 else 1 + Log2(n / 2)
  }

  /** The digit count in unary: ones, then a zero, in contexts 2, 4, 6, ... */
  function UnaryEvents(group: nat, i: nat, m: nat): seq<Event>
    requires 1 <= i <= m
    decreases m - i
  {
    [Event(NumberContext(group, 2 * i), i < m)] + if i < m then UnaryEvents(group, i + 1, m) else []
  }

  /** The i low digits of n, highest first, in contexts 2i-1, ..., 3, 1. */
  function PayloadEvents(group: nat, i: nat, n: nat): seq<Event> {
    if i == 0 then []
    else [Event(NumberContext(group, 2 * i - 1), Digit(n, i - 1) == 1)] + PayloadEvents(group, i - 1, n)
  }

  function NumberEvents(group: nat, n: nat): seq<Event>
    requires n >= 2
  {
    UnaryEvents(group, 1, Log2(n)) + PayloadEvents(group, Log2(n), n)
  }

  function ParseUnary(group: nat, i: nat, bits: seq<bool>): (p: Parse<nat>)
    ensures p.Parsed? ==> p.value >= i && |p.rest| < |bits|
    decreases |bits|
  {
    if bits == [] then Starved([], NumberContext(group, 2 * i))
    else
      var e := Event(NumberContext(group, 2 * i), bits[0]);
      if bits[0] then Prepend(e, ParseUnary(group, i + 1, bits[1..])) else Parsed(i, [e], bits[1..])
  }

  function ParsePayload(group: nat, i: nat, acc: nat, bits: seq<bool>): (p: Parse<nat>)
    ensures p.Parsed? ==> |p.rest| <= |bits| && p.value >= if i == 0 then acc else 2 * acc
    decreases i
  {
    if i == 0 then Parsed(acc, [], bits)
    else if bits == [] then Starved([], NumberContext(group, 2 * i - 1))
    else
      var e := Event(NumberContext(group, 2 * i - 1), bits[0]);
      Prepend(e, ParsePayload(group, i - 1, 2 * acc + if bits[0] then 1 else 0, bits[1..]))
  }

  function ParseNumber(group: nat, bits: seq<bool>): (p: Parse<nat>)
    ensures p.Parsed? ==> |p.rest| < |bits| && p.value >= 2
  {
    match ParseUnary(group, 1, bits)
    case Starved(es, next) => Starved(es, next)
    case Parsed(m, es, rest) => Continue(es, ParsePayload(group, m, 1, rest))
  }

  /** Dropping all but m >= 1 digits leaves 1 exactly when m digits follow the leading one. */
  lemma {:induction false} LeadingOne(n: nat, m: nat)
    requires n >= 1
    ensures Drop(n, m) == 1 <==> Log2(n) == m
    decreases m
  {
    if m == 0 {
    } else if n == 1 {
      DropAll(0, m - 1);
    } else {
      LeadingOne(n / 2, m - 1);
    }
  }

  lemma {:induction false} DigitsBelow(n: nat, k: nat)
    requires n >= 1
    ensures n < Pow2(k) <==> Log2(n) < k
    decreases k
  {
    if n > 1 && k > 0 { DigitsBelow(n / 2, k - 1); }
  }

  lemma AtLeastOneDigit(n: nat)
    requires n >= 2
    ensures Log2(n) >= 1
  {
  }

  /** A 32-bit number has at most 31 digits below the leading one. */
  lemma NumberDigits(n: nat)
    requires 2 <= n < 0x1_0000_0000
    ensures 1 <= Log2(n) <= 31
  {
    Pow2Values();
    DigitsBelow(n, 32);
  }

  lemma {:induction false} UnaryParses(group: nat, i: nat, m: nat, tail: seq<bool>)
    requires 1 <= i <= m
    ensures ParseUnary(group, i, Bits(UnaryEvents(group, i, m)) + tail)
         == Parsed(m, UnaryEvents(group, i, m), tail)
    decreases m - i
  {
    var es := if i < m then UnaryEvents(group, i + 1, m) else [];
    BitsCons(Event(NumberContext(group, 2 * i), i < m), es, tail);
    if i < m {
      UnaryParses(group, i + 1, m, tail);
    }
  }

  lemma {:induction false} PayloadParses(group: nat, i: nat, n: nat, tail: seq<bool>)
    ensures ParsePayload(group, i, Drop(n, i), Bits(PayloadEvents(group, i, n)) + tail)
         == Parsed(n, PayloadEvents(group, i, n), tail)
    decreases i
  {
    if i == 0 {
    } else {
      HalfStep(n, i);
      BitsCons(PayloadEvents(group, i, n)[0], PayloadEvents(group, i - 1, n), tail);
      PayloadParses(group, i - 1, n, tail);
    }
  }

  /** Printing then parsing a number gives it back and asks for the printed contexts. */
  lemma NumberParses(group: nat, n: nat, tail: seq<bool>)
    requires n >= 2
    ensures ParseNumber(group, Bits(NumberEvents(group, n)) + tail)
         == Parsed(n, NumberEvents(group, n), tail)
  {
    var m := Log2(n);
    var us, ps := UnaryEvents(group, 1, m), PayloadEvents(group, m, n);
    BitsConcat(us, ps);
    assert Bits(NumberEvents(group, n)) + tail == Bits(us) + (Bits(ps) + tail);
    UnaryParses(group, 1, m, Bits(ps) + tail);
    LeadingOne(n, m);
    PayloadParses(group, m, n, tail);
  }

  lemma {:induction false} UnaryPrints(group: nat, i: nat, bits: seq<bool>)
    requires i >= 1 && ParseUnary(group, i, bits).Parsed?
    ensures var p := ParseUnary(group, i, bits);
            p.events == UnaryEvents(group, i, p.value) && Accounts(p, bits)
    decreases |bits|
  {
    if bits[0] {
      var e := Event(NumberContext(group, 2 * i), true);
      UnaryPrints(group, i + 1, bits[1..]);
      AccountsCons(e, ParseUnary(group, i + 1, bits[1..]), bits);
    }
  }

  lemma {:induction false} PayloadPrints(group: nat, i: nat, acc: nat, bits: seq<bool>)
    requires ParsePayload(group, i, acc, bits).Parsed?
    ensures var p := ParsePayload(group, i, acc, bits);
            Drop(p.value, i) == acc && p.events == PayloadEvents(group, i, p.value) && Accounts(p, bits)
    decreases i
  {
    if i == 0 {
    } else {
      var acc' := 2 * acc + if bits[0] then 1 else 0;
      var e := Event(NumberContext(group, 2 * i - 1), bits[0]);
      PayloadPrints(group, i - 1, acc', bits[1..]);
      AccountsCons(e, ParsePayload(group, i - 1, acc', bits[1..]), bits);
      HalfStep(ParsePayload(group, i, acc, bits).value, i);
    }
  }

  /** Whatever getnumber completes on is at least 2, and is the code of what it returns. */
  lemma NumberPrints(group: nat, bits: seq<bool>)
    requires ParseNumber(group, bits).Parsed?
    ensures var p := ParseNumber(group, bits);
            p.value >= 2 && p.events == NumberEvents(group, p.value) && Accounts(p, bits)
  {
    var u := ParseUnary(group, 1, bits);
    UnaryPrints(group, 1, bits);
    PayloadPrints(group, u.value, 1, u.rest);
    var p := ParsePayload(group, u.value, 1, u.rest);
    DropAll(0, u.value);
    LeadingOne(p.value, u.value);
    AccountsConcat(u, p, bits);
  }

  lemma {:induction false} UnaryExhausts(group: nat, i: nat, bits: seq<bool>)
    ensures Exhausts(ParseUnary(group, i, bits), bits)
    decreases |bits|
  {
    if bits != [] && bits[0] {
      var e := Event(NumberContext(group, 2 * i), bits[0]);
      UnaryExhausts(group, i + 1, bits[1..]);
      ExhaustsNext([e], ParseUnary(group, i + 1, bits[1..]), bits[1..]);
    }
  }

  lemma {:induction false} PayloadExhausts(group: nat, i: nat, acc: nat, bits: seq<bool>)
    ensures Exhausts(ParsePayload(group, i, acc, bits), bits)
    decreases i
  {
    if i > 0 && bits != [] {
      var e := Event(NumberContext(group, 2 * i - 1), bits[0]);
      var acc' := 2 * acc + if bits[0] then 1 else 0;
      PayloadExhausts(group, i - 1, acc', bits[1..]);
      ExhaustsNext([e], ParsePayload(group, i - 1, acc', bits[1..]), bits[1..]);
    }
  }

  lemma NumberExhausts(group: nat, bits: seq<bool>)
    ensures Exhausts(ParseNumber(group, bits), bits)
  {
    var u := ParseUnary(group, 1, bits);
    UnaryExhausts(group, 1, bits);
    if u.Parsed? {
      UnaryPrints(group, 1, bits);
      PayloadExhausts(group, u.value, 1, u.rest);
      ExhaustsNext(u.events, ParsePayload(group, u.value, 1, u.rest), u.rest);
    }
  }

  lemma {:induction false} UnaryExtends(group: nat, i: nat, bits: seq<bool>, more: seq<bool>)
    requires more != []
    ensures Extends(ParseUnary(group, i, bits), ParseUnary(group, i, bits + more), more)
    decreases |bits|
  {
    hide NumberContext;
    if bits == [] {
      assert bits + more == more;
    } else {
      MoreBits(bits, more);
      if bits[0] {
        UnaryExtends(group, i + 1, bits[1..], more);
        ExtendsNext([Event(NumberContext(group, 2 * i), true)], ParseUnary(group, i + 1, bits[1..]),
                    ParseUnary(group, i + 1, bits[1..] + more), more);
      }
    }
  }

  lemma {:induction false} PayloadExtends(group: nat, i: nat, acc: nat, bits: seq<bool>, more: seq<bool>)
    requires more != []
    ensures Extends(ParsePayload(group, i, acc, bits), ParsePayload(group, i, acc, bits + more), more)
    decreases i
  {
    hide NumberContext;
    if i == 0 {
    } else if bits == [] {
      assert bits + more == more;
    } else {
      MoreBits(bits, more);
      var acc' := 2 * acc + if bits[0] then 1 else 0;
      PayloadExtends(group, i - 1, acc', bits[1..], more);
      ExtendsNext([Event(NumberContext(group, 2 * i - 1), bits[0])], ParsePayload(group, i - 1, acc', bits[1..]),
                  ParsePayload(group, i - 1, acc', bits[1..] + more), more);
    }
  }

  lemma NumberExtends(group: nat, bits: seq<bool>, more: seq<bool>)
    requires more != []
    ensures Extends(ParseNumber(group, bits), ParseNumber(group, bits + more), more)
  {
    var u, v := ParseUnary(group, 1, bits), ParseUnary(group, 1, bits + more);
    UnaryExtends(group, 1, bits, more);
    if u.Parsed? {
      PayloadExtends(group, u.value, 1, u.rest, more);
      ExtendsNext(u.events, ParsePayload(group, u.value, 1, u.rest),
                  ParsePayload(group, u.value, 1, u.rest + more), more);
    } else if v.Parsed? {
      AsksNextLonger(u.events, u.next, v.events, ParsePayload(group, v.value, 1, v.rest).events);
    }
  }

  /** No number's code is a prefix of another number's code. */
  lemma NumberCodePrefixFree(group: nat, a: nat, b: nat, tail: seq<bool>)
    requires a >= 2 && b >= 2
    requires Bits(NumberEvents(group, a)) + tail == Bits(NumberEvents(group, b))
    ensures a == b && tail == []
  {
    NumberParses(group, a, tail);
    NumberParses(group, b, []);
    assert Bits(NumberEvents(group, b)) + [] == Bits(NumberEvents(group, b));
  }

  // ---- Literals

  function LiteralContext(parity: nat, node: nat): nat {
    parity * 0x100 + node
  }

  /** The i low digits of a byte, highest first; the context is 1 followed by the digits so far. */
  function LiteralEvents(parity: nat, i: nat, b: nat): seq<Event> {
    if i == 0 then []
    else
      var e := Event(LiteralContext(parity, Drop(0x100 + b, i)), Digit(b, i - 1) == 1);
      [e] + LiteralEvents(parity, i - 1, b)
  }

  /** The node below node on a literal's path. */
  function Child(node: nat, bit: bool): nat {
    2 * node + if bit then 1 else 0
  }

  function ParseLiteral(parity: nat, node: nat, bits: seq<bool>): (p: Parse<nat>)
    requires 1 <= node < 0x200
    ensures p.Parsed? ==> p.value < 0x100 && |p.rest| <= |bits| && (node <= 0xff ==> |p.rest| < |bits|)
    decreases 0x200 - node
  {
    if node > 0xff then Parsed(node - 0x100, [], bits)
    else if bits == [] then Starved([], LiteralContext(parity, node))
    else
      Prepend(Event(LiteralContext(parity, node), bits[0]),
              ParseLiteral(parity, Child(node, bits[0]), bits[1..]))
  }

  lemma LiteralNode(b: nat, i: nat)
    requires i <= 8 && b < 0x100
    ensures Pow2(8 - i) <= Drop(0x100 + b, i) < 2 * Pow2(8 - i)
    ensures i >= 1 ==> 1 <= Drop(0x100 + b, i) <= 0xff
    ensures i >= 1 ==> Drop(0x100 + b, i - 1) == 2 * Drop(0x100 + b, i) + Digit(b, i - 1)
  {
    Pow2Values();
    DropRange(0x100 + b, 8, i);
    if i >= 1 {
      HalfStep(0x100 + b, i);
      DigitAddsHigh(b, i - 1, 8);
      Pow2Increases(8 - i, 7);
      assert Pow2(8) == 2 * Pow2(7);
    }
  }

  lemma LiteralRoot(b: nat)
    requires b < 0x100
    ensures Drop(0x100 + b, 8) == 1
  {
    LiteralNode(b, 8);
    assert Pow2(0) == 1;
  }

  /** The node exceeds 255 exactly when all eight bits are read. */
  lemma LiteralEnd(b: nat, i: nat)
    requires i <= 8 && b < 0x100
    ensures Drop(0x100 + b, i) <= 0xff <==> i >= 1
    ensures i == 0 ==> Drop(0x100 + b, i) == 0x100 + b
  {
    if i >= 1 { LiteralNode(b, i); }
  }

  lemma {:induction false} Pow2Increases(a: nat, b: nat)
    requires a <= b
    ensures Pow2(a) <= Pow2(b)
    decreases b
  {
    if a < b { Pow2Increases(a, b - 1); }
  }

  /** Adding a higher power of two leaves the lower digits alone. */
  lemma {:induction false} DigitAddsHigh(n: nat, i: nat, k: nat)
    requires i < k
    ensures Digit(Pow2(k) + n, i) == Digit(n, i)
    decreases k
  {
    if i == 0 {
    } else {
      DigitAddsHigh(n / 2, i - 1, k - 1);
      assert (Pow2(k) + n) / 2 == Pow2(k - 1) + n / 2;
    }
  }

  /** Splitting off the first event of a literal whose node is known on both sides. */
  lemma LiteralEventsStep(parity: nat, i: nat, b: nat, node: nat, bit: bool)
    requires 1 <= i <= 8 && b < 0x100
    requires Drop(0x100 + b, i) == node || Drop(0x100 + b, i - 1) == Child(node, bit)
    requires bit == (Digit(b, i - 1) == 1) || Drop(0x100 + b, i - 1) == Child(node, bit)
    ensures Drop(0x100 + b, i) == node && Drop(0x100 + b, i - 1) == Child(node, bit)
    ensures LiteralEvents(parity, i, b)
         == [Event(LiteralContext(parity, node), bit)] + LiteralEvents(parity, i - 1, b)
  {
    LiteralNode(b, i);
  }

  lemma ParseLiteralStep(parity: nat, node: nat, bits: seq<bool>)
    requires 1 <= node <= 0xff && bits != []
    ensures ParseLiteral(parity, node, bits)
         == Prepend(Event(LiteralContext(parity, node), bits[0]),
                    ParseLiteral(parity, Child(node, bits[0]), bits[1..]))
  {
  }

  lemma {:induction false} LiteralParsesFrom(parity: nat, i: nat, b: nat, node: nat, tail: seq<bool>)
    requires i <= 8 && b < 0x100 && 1 <= node < 0x200 && Drop(0x100 + b, i) == node
    ensures ParseLiteral(parity, node, Bits(LiteralEvents(parity, i, b)) + tail)
         == Parsed(b, LiteralEvents(parity, i, b), tail)
    decreases i
  {
    if i == 0 {
    } else {
      LiteralNode(b, i);
      var bit := Digit(b, i - 1) == 1;
      LiteralEventsStep(parity, i, b, node, bit);
      var e, es := Event(LiteralContext(parity, node), bit), LiteralEvents(parity, i - 1, b);
      BitsCons(e, es, tail);
      ParseLiteralStep(parity, node, Bits([e] + es) + tail);
      LiteralParsesFrom(parity, i - 1, b, Child(node, bit), tail);
    }
  }

  /** A literal takes exactly eight bits and comes back as the byte that was coded. */
  lemma LiteralParses(parity: nat, b: nat, tail: seq<bool>)
    requires b < 0x100
    ensures ParseLiteral(parity, 1, Bits(LiteralEvents(parity, 8, b)) + tail)
         == Parsed(b, LiteralEvents(parity, 8, b), tail)
    ensures |LiteralEvents(parity, 8, b)| == 8
  {
    Pow2Values();
    LiteralNode(b, 8);
    LiteralParsesFrom(parity, 8, b, 1, tail);
    LiteralLength(parity, 8, b);
  }

  lemma {:induction false} LiteralLength(parity: nat, i: nat, b: nat)
    ensures |LiteralEvents(parity, i, b)| == i
  {
    if i > 0 { LiteralLength(parity, i - 1, b); }
  }

  /** Nodes at depth 8 - i of the tree have 8 - i digits after the leading one. */
  lemma LiteralPath(i: nat, node: nat)
    requires i <= 8 && Pow2(8 - i) <= node < 2 * Pow2(8 - i)
    ensures i == 0 <==> node > 0xff
    ensures i >= 1 ==> forall bit :: Pow2(8 - (i - 1)) <= Child(node, bit) < 2 * Pow2(8 - (i - 1))
  {
    Pow2Values();
    if i >= 1 {
      Pow2Increases(8 - i, 7);
      assert Pow2(8) == 2 * Pow2(7);
    }
  }

  lemma {:induction false} LiteralPrintsFrom(parity: nat, i: nat, node: nat, bits: seq<bool>)
    requires i <= 8 && Pow2(8 - i) <= node < 2 * Pow2(8 - i) && 1 <= node < 0x200
    requires ParseLiteral(parity, node, bits).Parsed?
    ensures var p := ParseLiteral(parity, node, bits);
            Drop(0x100 + p.value, i) == node
            && p.events == LiteralEvents(parity, i, p.value) && Accounts(p, bits)
    decreases i
  {
    LiteralPath(i, node);
    if i == 0 {
    } else {
      ParseLiteralStep(parity, node, bits);
      var p := ParseLiteral(parity, Child(node, bits[0]), bits[1..]);
      LiteralPrintsFrom(parity, i - 1, Child(node, bits[0]), bits[1..]);
      LiteralEventsStep(parity, i, p.value, node, bits[0]);
      AccountsCons(Event(LiteralContext(parity, node), bits[0]), p, bits);
    }
  }

  lemma LiteralPrints(parity: nat, bits: seq<bool>)
    requires ParseLiteral(parity, 1, bits).Parsed?
    ensures var p := ParseLiteral(parity, 1, bits);
            p.events == LiteralEvents(parity, 8, p.value) && Accounts(p, bits)
  {
    LiteralPrintsFrom(parity, 8, 1, bits);
  }

  lemma {:induction false} LiteralExhausts(parity: nat, node: nat, bits: seq<bool>)
    requires 1 <= node < 0x200
    ensures Exhausts(ParseLiteral(parity, node, bits), bits)
    decreases |bits|
  {
    if node <= 0xff && bits != [] {
      var e, p := Event(LiteralContext(parity, node), bits[0]), ParseLiteral(parity, Child(node, bits[0]), bits[1..]);
      LiteralExhausts(parity, Child(node, bits[0]), bits[1..]);
      ExhaustsNext([e], p, bits[1..]);
    }
  }

  lemma {:induction false} LiteralExtends(parity: nat, node: nat, bits: seq<bool>, more: seq<bool>)
    requires 1 <= node < 0x200 && more != []
    ensures Extends(ParseLiteral(parity, node, bits), ParseLiteral(parity, node, bits + more), more)
    decreases |bits|
  {
    if node > 0xff {
    } else if bits == [] {
      assert bits + more == more;
    } else {
      MoreBits(bits, more);
      var child := Child(node, bits[0]);
      LiteralExtends(parity, child, bits[1..], more);
      ExtendsNext([Event(LiteralContext(parity, node), bits[0])], ParseLiteral(parity, child, bits[1..]),
                  ParseLiteral(parity, child, bits[1..] + more), more);
    }
  }
}
