/**
 The 32-bit arithmetic of the emitted Thumb code. Registers hold integers in
 0..2^32-1; every instruction that can wrap is written with Wrap, and every carry
 is an explicit comparison.
 */
module Words {

  type Word = x: int | 0 <= x < 0x1_0000_0000
  type Half = x: int | 0 <= x < 0x1_0000
  type Byte = x: int | 0 <= x < 0x100

  function Wrap(x: int): Word {
    x % 0x1_0000_0000
  }

  /** A halfword from its bytes, as stored in little-endian order. */
  function JoinBytes(low: Byte, high: Byte): Half {
    var h: int := high;
    low + 0x100 * h
  }

  /** A word from its low and high halves. */
  function Join(low: Half, high: Half): Word {
    var h: int := high;
    low + 0x1_0000 * h
  }

  lemma JoinHalves(v: Word)
    ensures Join(v % 0x1_0000, v / 0x1_0000) == v
  {
  }

  function Pow2(n: nat): (p: nat)
    ensures p >= 1
  {
    if n == 0 then 1 else 2 * Pow2(n - 1)
  }

  /** Bitwise or, bit by bit. */
  function Or(a: nat, b: nat): nat {
    if a == 0 then b
    else if b == 0 then a
    else (if a % 2 == 1 || b % 2 == 1 then 1 else 0) + 2 * Or(a / 2, b / 2)
  }

  /** n with its i low binary digits dropped. */
  function Drop(n: nat, i: nat): nat {
    if i == 0 then n else Drop(n / 2, i - 1)
  }

  /** The binary digit of weight 2^i. */
  function Digit(n: nat, i: nat): (d: nat)
    ensures d <= 1
  {
    Drop(n, i) % 2
  }

  /** j left shifts by one in a 32-bit register. */
  function ShiftedLeft(w: Word, j: nat): Word {
    if j == 0 then w else Wrap(2 * ShiftedLeft(w, j - 1))
  }

  lemma {:induction false} Pow2Add(a: nat, b: nat)
    ensures Pow2(a + b) == Pow2(a) * Pow2(b)
  {
    if a == 0 {
    } else {
      Pow2Add(a - 1, b);
      MulAssoc(2, Pow2(a - 1), Pow2(b));
    }
  }

  lemma Pow2Values()
    ensures Pow2(1) == 2 && Pow2(8) == 0x100 && Pow2(16) == 0x1_0000
    ensures Pow2(31) == 0x8000_0000 && Pow2(32) == 0x1_0000_0000
  {
    assert Pow2(4) == 16;
    assert Pow2(8) == 0x100;
    assert Pow2(12) == 0x1000;
    assert Pow2(16) == 0x1_0000;
    Pow2Add(15, 16);
    Pow2Add(16, 16);
  }

  lemma OrTwice(a: nat, b: nat, d: nat)
    requires d <= 1
    ensures Or(2 * a, 2 * b + d) == 2 * Or(a, b) + d
  {
    assert Or(a, 0) == a;
  }

  /** Or works on the digits below and above position k separately. */
  lemma {:induction false} OrSplit(a: nat, b: nat, low: nat, k: nat)
    requires low < Pow2(k)
    ensures a * Pow2(k) >= 0 && b * Pow2(k) >= 0
    ensures Or(a * Pow2(k), b * Pow2(k) + low) == Or(a, b) * Pow2(k) + low
    decreases k
  {
    MulMonotonic(0, a, Pow2(k));
    MulMonotonic(0, b, Pow2(k));
    if k > 0 {
      var p := Pow2(k - 1);
      OrSplit(a, b, low / 2, k - 1);
      OrTwice(a * p, b * p + low / 2, low % 2);
      DoubleRight(a, p);
      DoubleRight(b, p);
      DoubleRight(Or(a, b), p);
    }
  }

  lemma DoubleRight(v: int, p: int)
    ensures v * (2 * p) == 2 * (v * p)
  {
  }

  lemma OrOne(h: nat)
    ensures Or(2 * h, 1) == 2 * h + 1
  {
    assert Or(h, 0) == h;
  }

  lemma {:induction false} OrCommutes(a: nat, b: nat)
    ensures Or(a, b) == Or(b, a)
  {
    if a == 0 || b == 0 {
    } else {
      OrCommutes(a / 2, b / 2);
    }
  }

  lemma {:induction false} OrAtLeast(a: nat, b: nat)
    ensures Or(a, b) >= a
  {
    if a != 0 && b != 0 { OrAtLeast(a / 2, b / 2); }
  }

  lemma {:induction false} OrAtMost(a: nat, b: nat)
    ensures Or(a, b) <= a + b
  {
    if a != 0 && b != 0 { OrAtMost(a / 2, b / 2); }
  }

  /** Both halves of the initial table word are the initial probability. */
  lemma InitialProbabilities()
    ensures Or(0x8000, 0x8000_0000) == 0x8000_8000
  {
    Pow2Values();
    OrSplit(0x8000, 0, 0x8000, 16);
    OrCommutes(0x8000, 0x8000_0000);
  }

  /** lsl by 31, then lsr by 23: the lowest bit moves to bit 8. */
  lemma ParityShift(x: Word)
    ensures Wrap(x * 0x8000_0000) / 0x80_0000 == x % 2 * 0x100
  {
    DivModUnique(x * 0x8000_0000, 0x1_0000_0000, x / 2, x % 2 * 0x8000_0000);
  }

  /** What the source's groups of 256 contexts rely on: group * 256 | index. */
  lemma OrContext(group: nat, index: nat)
    requires index < 0x100
    ensures Or(group * 0x100, index) == group * 0x100 + index
  {
    Pow2Values();
    OrSplit(group, 0, index, 8);
  }

  // Products of two unknowns, one step at a time.

  lemma MulAssoc(a: int, b: int, c: int)
    ensures (a * b) * c == a * (b * c)
  {
  }

  lemma MulDist(a: int, b: int, c: int)
    ensures (a + b) * c == a * c + b * c
  {
  }

  lemma MulMonotonic(a: int, b: int, p: nat)
    requires a <= b
    ensures a * p <= b * p
  {
  }

  lemma MulCancel(a: int, b: int, p: nat)
    requires a * p < b * p
    ensures a < b
  {
    if b <= a { MulMonotonic(b, a, p); }
  }

  /** Quotient and remainder are unique. */
  lemma DivModUnique(x: int, n: int, q: int, y: int)
    requires x == q * n + y && 0 <= y < n
    ensures x % n == y && x / n == q
  {
    var d, m := x / n, x % n;
    assert x == d * n + m;
    MulDist(q, -d, n);
    assert (q - d) * n == m - y;
    if q > d { MulMonotonic(1, q - d, n); }
    if q < d { MulMonotonic(q - d, -1, n); }
    assert q == d;
  }

  /** The lowest bit above position log2(s) splits off. */
  lemma SplitTop(w: nat, s: nat)
    requires s >= 1
    ensures w % (2 * s) == w / s % 2 * s + w % s
    ensures w / (2 * s) == w / s / 2
  {
    var q, m := w / s, w % s;
    var h, b := q / 2, q % 2;
    assert w == q * s + m;
    MulDist(2 * h, b, s);
    assert 2 * h * s == h * (2 * s);
    MulMonotonic(0, b, s);
    MulMonotonic(b, 1, s);
    DivModUnique(w, 2 * s, h, b * s + m);
  }

  /** Dropping one digit less: the next lower digit of n becomes the new last one. */
  lemma {:induction false} HalfStep(n: nat, i: nat)
    requires i >= 1
    ensures Drop(n, i - 1) == 2 * Drop(n, i) + Digit(n, i - 1)
    decreases i
  {
    if i == 1 {
      assert Drop(n, 1) == Drop(n / 2, 0);
    } else {
      HalfStep(n / 2, i - 1);
    }
  }

  lemma {:induction false} DropBelow(n: nat, i: nat)
    ensures Drop(n, i) <= n
    decreases i
  {
    if i > 0 { DropBelow(n / 2, i - 1); }
  }

  lemma {:induction false} DropRange(n: nat, k: nat, i: nat)
    requires i <= k && Pow2(k) <= n < 2 * Pow2(k)
    ensures Pow2(k - i) <= Drop(n, i) < 2 * Pow2(k - i)
    decreases i
  {
    if i == 0 {
    } else {
      DropRange(n / 2, k - 1, i - 1);
    }
  }

  /** A left shift by log2(p) in 32 bits keeps the low log2(r) bits. */
  lemma ShiftLeft(w: nat, p: nat, r: nat)
    requires p >= 1 && r >= 1 && p * r == 0x1_0000_0000
    ensures w * p % 0x1_0000_0000 == w % r * p
  {
    var q, m := w / r, w % r;
    assert w == q * r + m;
    MulDist(q * r, m, p);
    MulAssoc(q, r, p);
    assert r * p == p * r;
    MulMonotonic(0, m, p);
    MulMonotonic(m + 1, r, p);
    MulDist(m, 1, p);
    assert w * p == q * 0x1_0000_0000 + m * p;
  }

  lemma {:induction false} DropIsQuotient(n: nat, i: nat)
    ensures Drop(n, i) == n / Pow2(i)
  {
    if i == 0 {
    } else {
      DropIsQuotient(n / 2, i - 1);
      DivTwice(n, Pow2(i - 1));
    }
  }

  lemma {:induction false} DropAll(n: nat, i: nat)
    requires n < Pow2(i)
    ensures Drop(n, i) == 0
    decreases i
  {
    if i > 0 { DropAll(n / 2, i - 1); }
  }

  lemma TopDigit(w: Word)
    ensures Digit(w, 31) == if w >= 0x8000_0000 then 1 else 0
  {
    Pow2Values();
    if w >= 0x8000_0000 {
      DropRange(w, 31, 31);
    } else {
      DropAll(w, 31);
    }
  }

  lemma DivTwice(n: nat, p: nat)
    requires p >= 1
    ensures n / (2 * p) == n / 2 / p
  {
    var q, m := n / 2 / p, n / 2 % p;
    assert n / 2 == q * p + m;
    assert 2 * (q * p) == q * (2 * p);
    DivModUnique(n, 2 * p, q, 2 * m + n % 2);
  }

  lemma {:induction false} ShiftedLeftIsProduct(w: Word, j: nat)
    ensures ShiftedLeft(w, j) == w * Pow2(j) % 0x1_0000_0000
  {
    if j == 0 {
    } else {
      ShiftedLeftIsProduct(w, j - 1);
      var x := w * Pow2(j - 1);
      assert w * Pow2(j) == 2 * x;
      WrapTwice(x, 0);
    }
  }

  lemma WrapAdds(x: int, y: int)
    ensures Wrap(Wrap(x) + y) == Wrap(x + y)
  {
    var n, s := 0x1_0000_0000, Wrap(x) + y;
    assert s == s / n * n + Wrap(s);
    DivModUnique(x + y, n, x / n + s / n, Wrap(s));
  }

  /** Doubling a register and adding a digit depends on x only modulo 2^32. */
  lemma WrapTwice(x: int, d: int)
    ensures Wrap(2 * Wrap(x) + d) == Wrap(2 * x + d)
  {
    var n, q, w := 0x1_0000_0000, x / 0x1_0000_0000, Wrap(x);
    assert x == q * n + w;
    var y := 2 * w + d;
    assert y == y / n * n + Wrap(y);
    DivModUnique(2 * x + d, n, 2 * q + y / n, Wrap(y));
  }
}
