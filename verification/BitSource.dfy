/**
 The compressed data as a list of bits, and the one-register bit buffer with a
 sentinel bit that the depacker reads it through.
 */
module BitSource {
  import opened Words

  /** Bit i of the stream: the words in order, each from its top bit down. */
  function Bit(rom: seq<Word>, i: nat): (b: nat)
    requires i < 32 * |rom|
    ensures b <= 1
  {
    Digit(rom[i / 32], 31 - i % 32)
  }

  /** The integer made of the first k bits of the stream. */
  function Value(rom: seq<Word>, k: nat): nat
    requires k <= 32 * |rom|
  {
    if k == 0 then 0 else 2 * Value(rom, k - 1) + Bit(rom, k - 1)
  }

  /** The number of words loaded once k bits were read. */
  function WordsLoaded(k: nat): nat {
    (k + 31) / 32
  }

  /**
   The bit buffer after k bits: the unread bits of the current word at the top, then
   the sentinel. With no unread bit left only the sentinel remains, in bit 31.
   */
  function Buffer(rom: seq<Word>, k: nat): (b: int)
    requires k <= 32 * |rom|
  {
    if k % 32 == 0 then 0x8000_0000 else Unread(rom[k / 32], k % 32)
  }

  function Unread(w: Word, j: nat): int
    requires j >= 1
  {
    ShiftedLeft(w, j) + Pow2(j - 1)
  }

  /** A word is loaded exactly when the number of bits read is a multiple of 32. */
  lemma LoadPoints(k: nat)
    ensures WordsLoaded(k + 1) == if k % 32 == 0 then WordsLoaded(k) + 1 else WordsLoaded(k)
    ensures k % 32 == 0 ==> WordsLoaded(k) == k / 32
  {
  }

  lemma BufferAtWordEnd(rom: seq<Word>, k: nat)
    requires k <= 32 * |rom| && k % 32 == 0
    ensures Buffer(rom, k) == 0x8000_0000
  {
  }

  /** A fresh word gives its top bit, and doubling it leaves room for the sentinel. */
  lemma LoadWord(rom: seq<Word>, k: nat, w: Word)
    requires k < 32 * |rom| && k % 32 == 0 && w == rom[k / 32]
    ensures Wrap(2 * Buffer(rom, k)) == 0
    ensures Bit(rom, k) == if w >= 0x8000_0000 then 1 else 0
    ensures Or(Wrap(2 * w), 1) == Buffer(rom, k + 1) < 0x1_0000_0000
  {
    hide Unread, Digit, Or;
    LoadUnread(w);
    assert (k + 1) / 32 == k / 32 && (k + 1) % 32 == 1;
  }

  lemma LoadUnread(w: Word)
    ensures Or(Wrap(2 * w), 1) == Unread(w, 1) < 0x1_0000_0000
    ensures Digit(w, 31) == if w >= 0x8000_0000 then 1 else 0
  {
    var h := if w >= 0x8000_0000 then w - 0x8000_0000 else w;
    assert Wrap(2 * w) == 2 * h;
    OrOne(h);
    assert ShiftedLeft(w, 1) == Wrap(2 * ShiftedLeft(w, 0));
    TopDigit(w);
  }

  /**
   The arithmetic of one left shift of a word's unread part: with p * s == 2^31, the
   bits of w * p below 2^32 are one top bit b and a rest, and doubling drops b.
   */
  lemma ShiftArithmetic(w: nat, p: nat, s: nat)
    requires p >= 2 && s >= 1 && p * s == 0x8000_0000
    ensures var b, x := w / s % 2, w * p % 0x1_0000_0000;
            0 <= x - b * 0x8000_0000 <= 0x8000_0000 - p
            && w * (2 * p) % 0x1_0000_0000 == 2 * (x - b * 0x8000_0000)
  {
    var b, m := w / s % 2, w % s;
    assert p * (2 * s) == 0x1_0000_0000;
    ShiftLeft(w, p, 2 * s);
    SplitTop(w, s);
    MulDist(b * s, m, p);
    MulAssoc(b, s, p);
    assert s * p == p * s;
    MulMonotonic(0, m, p);
    MulMonotonic(m + 1, s, p);
    MulDist(m, 1, p);
    MulAssoc(2, p, s);
    ShiftLeft(w, 2 * p, s);
    assert m * (2 * p) == 2 * (m * p);
  }

  lemma ShiftedTop(w: Word, j: nat)
    requires 1 <= j <= 31
    ensures var rest := ShiftedLeft(w, j) - Digit(w, 31 - j) * 0x8000_0000;
            0 <= rest <= 0x8000_0000 - Pow2(j) && ShiftedLeft(w, j + 1) == 2 * rest
  {
    Pow2Values();
    Pow2Add(j, 31 - j);
    assert Pow2(j) == 2 * Pow2(j - 1);
    ShiftArithmetic(w, Pow2(j), Pow2(31 - j));
    DropIsQuotient(w, 31 - j);
    ShiftedLeftIsProduct(w, j);
    ShiftedLeftIsProduct(w, j + 1);
  }

  lemma ShiftUnread(w: Word, j: nat)
    requires 1 <= j <= 31
    ensures 0 <= Unread(w, j) < 0x1_0000_0000
    ensures Wrap(2 * Unread(w, j)) == if j < 31 then Unread(w, j + 1) else 0x8000_0000
    ensures Wrap(2 * Unread(w, j)) != 0
    ensures Digit(w, 31 - j) == if Unread(w, j) >= 0x8000_0000 then 1 else 0
  {
    hide ShiftedLeft, Digit;
    ShiftedTop(w, j);
    if j == 31 { Pow2Values(); }
  }

  /** Inside a word a left shift moves the next stream bit into the carry. */
  lemma ShiftBuffer(rom: seq<Word>, k: nat)
    requires k < 32 * |rom| && k % 32 != 0
    ensures 0 <= Buffer(rom, k) < 0x1_0000_0000
    ensures Wrap(2 * Buffer(rom, k)) == Buffer(rom, k + 1) != 0
    ensures Bit(rom, k) == if Buffer(rom, k) >= 0x8000_0000 then 1 else 0
  {
    hide Unread, Digit;
    ShiftUnread(rom[k / 32], k % 32);
  }

  /** Reading m more bits extends the value by m binary digits. */
  lemma {:induction false} ValueExtends(rom: seq<Word>, k: nat, m: nat)
    requires k + m <= 32 * |rom|
    ensures Value(rom, k) * Pow2(m) <= Value(rom, k + m) < (Value(rom, k) + 1) * Pow2(m)
  {
    if m == 0 {
    } else {
      ValueExtends(rom, k, m - 1);
      var v, p := Value(rom, k), Pow2(m - 1);
      DoubleRight(v, p);
      DoubleRight(v + 1, p);
      assert Value(rom, k + m) == 2 * Value(rom, k + m - 1) + Bit(rom, k + m - 1);
    }
  }
}
