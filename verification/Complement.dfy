/**
 The cartridge header checksum. Any byte of the checksummed area can be the one that
 is adjusted: with code in the header it is the game version, not the complement.
 */
module Complement {
  import opened Words

  const OFS_GAME_TITLE: nat := 0xa0
  const OFS_GAME_VERSION: nat := 0xbc
  const OFS_COMPLEMENT: nat := 0xbd
  const CHECKSUM_AREA_SIZE: nat := OFS_COMPLEMENT - OFS_GAME_TITLE + 1

  /** The sum of the first n bytes, leaving out the one at index skip. */
  function SumExcept(area: seq<Byte>, skip: int, n: nat): nat
    requires n <= |area|
  {
    if n == 0 then 0
    else SumExcept(area, skip, n - 1) + if n - 1 == skip then 0 else area[n - 1]
  }

  /** The sum of the whole area. */
  function Total(area: seq<Byte>): nat
    requires |area| == CHECKSUM_AREA_SIZE
  {
    SumExcept(area, -1, CHECKSUM_AREA_SIZE)
  }

  /** What the hardware checks: the area and 0x19 sum to 0 modulo 256. */
  predicate ChecksumOk(area: seq<Byte>)
    requires |area| == CHECKSUM_AREA_SIZE
  {
    (0x19 + Total(area)) % 0x100 == 0
  }

  /** The byte that completes the sum of all others to 0 modulo 256. */
  function Completing(area: seq<Byte>, index: nat): (c: Byte)
    requires |area| == CHECKSUM_AREA_SIZE
    ensures (0x19 + SumExcept(area, index, CHECKSUM_AREA_SIZE) + c) % 0x100 == 0
  {
    (-(0x19 + SumExcept(area, index, CHECKSUM_AREA_SIZE))) % 0x100
  }

  lemma {:induction false} SumSplits(area: seq<Byte>, k: nat, n: nat)
    requires n <= |area|
    ensures SumExcept(area, -1, n) == SumExcept(area, k, n) + if k < n then area[k] else 0
  {
    if n > 0 { SumSplits(area, k, n - 1); }
  }

  lemma {:induction false} SumIgnores(area: seq<Byte>, k: nat, b: Byte, n: nat)
    requires n <= |area| && k < |area|
    ensures SumExcept(area[k := b], k, n) == SumExcept(area, k, n)
  {
    if n > 0 { SumIgnores(area, k, b, n - 1); }
  }

  /** The checksum is right exactly when any one byte is what the others ask for. */
  lemma ChecksumOkIff(area: seq<Byte>, k: nat)
    requires |area| == CHECKSUM_AREA_SIZE && k < CHECKSUM_AREA_SIZE
    ensures ChecksumOk(area) <==> area[k] == Completing(area, k)
  {
    SumSplits(area, k, CHECKSUM_AREA_SIZE);
    hide SumExcept;
  }

  /** Writing the completing byte at any index makes every index's byte completing. */
  lemma PatchFixesChecksum(area: seq<Byte>, k: nat)
    requires |area| == CHECKSUM_AREA_SIZE && k < CHECKSUM_AREA_SIZE
    ensures ChecksumOk(area[k := Completing(area, k)])
  {
    var patched := area[k := Completing(area, k)];
    SumIgnores(area, k, Completing(area, k), CHECKSUM_AREA_SIZE);
    ChecksumOkIff(patched, k);
  }

  lemma NoBytes(area: seq<Byte>, index: nat)
    ensures SumExcept(area, index, 0) == 0
  {
  }

  lemma SumStep(area: seq<Byte>, index: nat, i: nat)
    requires i < |area|
    ensures SumExcept(area, index, i + 1) == SumExcept(area, index, i) + if i == index then 0 else area[i]
  {
  }

  lemma WrapAdds(x: int, y: int)
    ensures (x % 0x100 + y) % 0x100 == (x + y) % 0x100
  {
    var s := x % 0x100 + y;
    DivModUnique(x + y, 0x100, x / 0x100 + s / 0x100, s % 0x100);
  }

  lemma WrapNegates(x: int)
    ensures (-(x % 0x100)) % 0x100 == (-x) % 0x100
  {
    var s := -(x % 0x100);
    DivModUnique(-x, 0x100, s / 0x100 - x / 0x100, s % 0x100);
  }

  /** The wrapping byte sum over the area, negated; index may also lie outside the area. */
  method CalculateComplement(area: seq<Byte>, index: nat) returns (complement: Byte)
    requires |area| == CHECKSUM_AREA_SIZE
    ensures complement == Completing(area, index)
  {
    hide SumExcept;
    var sum: int := 0x19;
    NoBytes(area, index);
    for i := 0 to CHECKSUM_AREA_SIZE
      invariant 0 <= sum < 0x100 && sum == (0x19 + SumExcept(area, index, i)) % 0x100
    {
      SumStep(area, index, i);
      if i != index {
        WrapAdds(0x19 + SumExcept(area, index, i), area[i]);
        sum := (sum + area[i]) % 0x100;
      }
    }
    WrapNegates(0x19 + SumExcept(area, index, CHECKSUM_AREA_SIZE));
    complement := (-sum) % 0x100;
  }

  ghost function Area(cartridge: seq<Byte>): seq<Byte>
    requires |cartridge| > OFS_COMPLEMENT
  {
    cartridge[OFS_GAME_TITLE..OFS_COMPLEMENT + 1]
  }

  /** The number of values of size_t. */
  const SIZE_RANGE: nat := 0x1_0000_0000_0000_0000

  /** An offset relative to the area: one before the area wraps to a number far behind it. */
  function IndexInArea(offset: nat): nat {
    (offset - OFS_GAME_TITLE) % SIZE_RANGE
  }

  /** write_complement, for every offset inside the cartridge. */
  method WriteComplement(cartridge: array<Byte>, offset: nat)
    requires OFS_COMPLEMENT < cartridge.Length <= SIZE_RANGE && offset < cartridge.Length
    modifies cartridge
    ensures cartridge[offset]
         == Completing(old(cartridge[0xa0..0xbe]), (offset - 0xa0) % 0x1_0000_0000_0000_0000)
    ensures forall i :: 0 <= i < cartridge.Length && i != offset ==> cartridge[i] == old(cartridge[i])
    ensures 0xa0 <= offset < 0xbe ==> ChecksumOk(cartridge[0xa0..0xbe])
  {
    var index := IndexInArea(offset);
    ghost var area := Area(cartridge[..]);
    var complement := CalculateComplement(cartridge[OFS_GAME_TITLE..OFS_COMPLEMENT + 1], index);
    assert cartridge[OFS_GAME_TITLE..OFS_COMPLEMENT + 1] == area;
    cartridge[(OFS_GAME_TITLE + index) % SIZE_RANGE] := complement;
    if OFS_GAME_TITLE <= offset <= OFS_COMPLEMENT {
      assert Area(cartridge[..]) == area[index := complement];
      PatchFixesChecksum(area, index);
    }
  }

  /** throw_if_complement_wrong: false stands for the exception. */
  method CheckComplement(cartridge: seq<Byte>) returns (ok: bool)
    requires |cartridge| > OFS_COMPLEMENT
    ensures ok <==> ChecksumOk(cartridge[0xa0..0xbe])
  {
    var expected := CalculateComplement(cartridge[OFS_GAME_TITLE..OFS_COMPLEMENT + 1], OFS_COMPLEMENT - OFS_GAME_TITLE);
    var actual := cartridge[OFS_COMPLEMENT];
    ChecksumOkIff(Area(cartridge), OFS_COMPLEMENT - OFS_GAME_TITLE);
    ok := actual == expected;
  }

  /** The byte that is patched. */
  function PatchedOffset(codeInHeader: bool): nat {
    if codeInHeader then OFS_GAME_VERSION else OFS_COMPLEMENT
  }

  /** The end of assembling a cartridge: the check after the patch never fails. */
  method PatchAndCheck(cartridge: array<Byte>, codeInHeader: bool) returns (ok: bool)
    requires OFS_COMPLEMENT < cartridge.Length <= SIZE_RANGE
    modifies cartridge
    ensures ok && ChecksumOk(cartridge[0xa0..0xbe])
    ensures forall i :: 0 <= i < cartridge.Length && i != (if codeInHeader then 0xbc else 0xbd) ==>
              cartridge[i] == old(cartridge[i])
  {
    WriteComplement(cartridge, PatchedOffset(codeInHeader));
    ok := CheckComplement(cartridge[..]);
  }
}
