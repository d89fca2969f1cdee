/**
 The Adler-32 checksum of section 2.2 of RFC 1950, computed in two ways: with
 remainders on the packing side, and with conditional subtractions in the debug code
 that checks the unpacked data.
 */
module Adler {
  import opened Words

  const BASE: Word := 65521

  /** The sum of all bytes. */
  function Sum(data: seq<Byte>): nat {
    if data == [] then 0 else data[0] + Sum(data[1..])
  }

  /** Each byte counted as often as there are bytes from it to the end. */
  function WeightedSum(data: seq<Byte>): nat {
    if data == [] then 0 else |data| * data[0] + WeightedSum(data[1..])
  }

  function S1(data: seq<Byte>): (r: nat)
    ensures r < BASE
  {
    (1 + Sum(data)) % BASE
  }

  function S2(data: seq<Byte>): (r: nat)
    ensures r < BASE
  {
    (|data| + WeightedSum(data)) % BASE
  }

  function Checksum(data: seq<Byte>): Word {
    S2(data) * 0x1_0000 + S1(data)
  }

  lemma {:induction false} SumAppend(data: seq<Byte>, b: Byte)
    ensures Sum(data + [b]) == Sum(data) + b
    decreases |data|
  {
    if data == [] {
    } else {
      assert (data + [b])[1..] == data[1..] + [b];
      SumAppend(data[1..], b);
    }
  }

  lemma {:induction false} WeightedSumAppend(data: seq<Byte>, b: Byte)
    ensures WeightedSum(data + [b]) == WeightedSum(data) + Sum(data) + b
    decreases |data|
  {
    if data == [] {
      assert [b][1..] == [];
      assert WeightedSum([b]) == b;
    } else {
      assert (data + [b])[1..] == data[1..] + [b];
      WeightedSumAppend(data[1..], b);
      var n, d := |data|, data[0];
      assert (n + 1) * d == n * d + d;
    }
  }

  /** The low half is the sum of section 2.2 that starts at 1, the high half the weighted one. */
  lemma ChecksumHalves(data: seq<Byte>)
    ensures Checksum(data) % 0x1_0000 == (1 + Sum(data)) % 65521
    ensures Checksum(data) / 0x1_0000 == (|data| + WeightedSum(data)) % 65521
  {
    DivModUnique(Checksum(data), 0x1_0000, S2(data), S1(data));
  }

  /** One byte more, on the closed sums. */
  lemma ChecksumAppend(data: seq<Byte>, b: Byte)
    ensures S1(data + [b]) == (S1(data) + b) % BASE
    ensures S2(data + [b]) == (S2(data) + S1(data + [b])) % BASE
  {
    SumAppend(data, b);
    WeightedSumAppend(data, b);
    hide Sum, WeightedSum;
    var x, y := 1 + Sum(data), |data| + WeightedSum(data);
    RemainderAdds(x, b);
    RemainderAdds(x + b, y % BASE);
    RemainderAdds(y, x + b);
  }

  lemma RemainderAdds(x: int, y: int)
    ensures (x % BASE + y) % BASE == (x + y) % BASE
  {
    var q := x / BASE;
    DivModUnique(x + y, BASE, q + (x % BASE + y) / BASE, (x % BASE + y) % BASE);
  }

  lemma Packed(s1: int, s2: int)
    requires 0 <= s1 < BASE && 0 <= s2 < BASE
    ensures Wrap(s2 * 0x1_0000) == s2 * 0x1_0000 && Or(s2 * 0x1_0000, s1) == s2 * 0x1_0000 + s1
  {
    Pow2Values();
    OrSplit(s2, 0, s1, 16);
  }

  method AddRemainder(s: Word, x: Word) returns (r: Word)
    requires s < BASE && x < BASE
    ensures r == (s + x) % BASE
  {
    r := Wrap(s + x) % BASE;
  }

  /** The form with remainders; both sums stay far below 2^32. */
  method Adler32(data: seq<Byte>) returns (checksum: Word)
    ensures checksum == Checksum(data)
    ensures checksum % 0x1_0000 == (1 + Sum(data)) % 65521
    ensures checksum / 0x1_0000 == (|data| + WeightedSum(data)) % 65521
  {
    hide S1, S2, Or;
    var s1: Word, s2: Word := 1, 0;
    EmptyChecksum();
    ghost var done := [];
    for i := 0 to |data|
      invariant done == data[..i] && s1 == S1(done) && s2 == S2(done)
    {
      ChecksumAppend(done, data[i]);
      done := done + [data[i]];
      s1 := AddRemainder(s1, data[i]);
      s2 := AddRemainder(s2, s1);
    }
    assert done == data;
    Packed(s1, s2);
    checksum := Or(Wrap(s2 * 0x1_0000), s1);
    ChecksumHalves(data);
  }

  lemma EmptyChecksum()
    ensures S1([]) == 1 && S2([]) == 0
  {
  }

  /** add, cmp, blo, sub: for reduced operands one subtraction is a remainder. */
  method AddReduced(s: Word, x: Word, base: Word) returns (r: Word)
    requires base == BASE && s < base && x < base
    ensures r == (s + x) % BASE
  {
    r := Wrap(s + x);
    if r >= base { r := Wrap(r - base); }
  }

  /**
   The debug code on the unpacked bytes, from address loadAddress of a memory whose first
   byte has address ramBase. The loop tests its counter at the end.
   */
  method ThumbAdler32(ram: array<Byte>, ramBase: Word, loadAddress: Word, size: Word) returns (s1: Word)
    requires 1 <= size && ramBase <= loadAddress && loadAddress + size <= ramBase + ram.Length
    requires ramBase + ram.Length < 0x1_0000_0000
    ensures var data := ram[loadAddress - ramBase..loadAddress - ramBase + size];
            s1 == Checksum(data) && s1 % 0x1_0000 == (1 + Sum(data)) % 65521
            && s1 / 0x1_0000 == (size + WeightedSum(data)) % 65521
  {
    hide S1, S2, Or, Sum, WeightedSum;
    var base: Word := BASE;
    ghost var lo := loadAddress - ramBase;
    var decompressedData: Word := loadAddress;
    s1 := 1;
    var s2: Word := 0;
    var loopCounter: Word := size;
    EmptyChecksum();
    ghost var done := [];
    var more := true;
    while more
      invariant decompressedData + loopCounter == loadAddress + size && loadAddress <= decompressedData
      invariant more <==> loopCounter >= 1
      invariant done == ram[lo..decompressedData - ramBase]
      invariant s1 == S1(done) && s2 == S2(done)
      decreases loopCounter
    {
      var byte := ram[decompressedData - ramBase];
      ChecksumAppend(done, byte);
      done := done + [byte];
      s1 := AddReduced(s1, byte, base);
      s2 := AddReduced(s2, s1, base);
      decompressedData := Wrap(decompressedData + 1);
      loopCounter := Wrap(loopCounter - 1);
      more := loopCounter != 0;
    }
    Packed(s1, s2);
    s2 := Wrap(s2 * 0x1_0000);
    OrCommutes(s1, s2);
    s1 := Or(s1, s2);
    ChecksumHalves(done);
  }
}
