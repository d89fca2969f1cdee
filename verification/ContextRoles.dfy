/**
 What the contexts are used for, and from which sizes on two uses share a halfword of
 the table.
 */
module ContextRoles {
  import opened Words
  import opened Codes
  import opened LzFormat
  import opened ContextTable

  datatype Role =
    | RepeatBit
    | KindBit(parity: nat)
    | LiteralBit(parity: nat, node: nat)
    | OffsetBit(index: nat)
    | LengthBit(index: nat)

  function RoleContext(r: Role): int {
    match r
    case RepeatBit => REPEATED_OFFSET
    case KindBit(parity) => KindContext(parity)
    case LiteralBit(parity, node) => LiteralContext(parity, node)
    case OffsetBit(index) => NumberContext(OFFSET_GROUP, index)
    case LengthBit(index) => NumberContext(LENGTH_GROUP, index)
  }

  /** The numbers of the contexts, as the comment of the source lists them. */
  lemma ContextNumbers(parity: nat, i: nat)
    requires parity <= 1 && 1 <= i <= 0xff
    ensures RoleContext(RepeatBit) == -1
    ensures RoleContext(KindBit(parity)) == if parity == 0 then 0x000 else 0x100
    ensures RoleContext(LiteralBit(parity, i)) == if parity == 0 then i else 0x100 + i
    ensures RoleContext(OffsetBit(i)) == 0x300 + i && RoleContext(LengthBit(i)) == 0x400 + i
  {
    hide NumberContext;
    OffsetContext(i);
    LengthContext(i);
  }

  lemma OffsetContext(i: nat)
    requires 1 <= i <= 256
    ensures NumberContext(OFFSET_GROUP, i) == 0x300 + i % 0x100
  {
    hide NumberContext, Or;
    NumberContextBytes(OFFSET_GROUP, i);
    SmallOrs();
  }

  lemma LengthContext(i: nat)
    requires 1 <= i <= 1024
    ensures NumberContext(LENGTH_GROUP, i) == 0x400 + i % 0x400
  {
    hide NumberContext, Or;
    NumberContextBytes(LENGTH_GROUP, i);
    SmallOrs();
    var h := i / 0x100;
    assert h == 0 || h == 1 || h == 2 || h == 3 || h == 4;
  }

  /**
   Repeat bit, kinds, literal nodes, offsets of up to 128 digits and lengths of up to 511
   each have halfwords of the table to themselves.
   */
  lemma RolesAreDistinct(a: Role, b: Role)
    requires a.KindBit? || a.LiteralBit? ==> a.parity <= 1
    requires b.KindBit? || b.LiteralBit? ==> b.parity <= 1
    requires (a.LiteralBit? ==> 1 <= a.node <= 0xff) && (b.LiteralBit? ==> 1 <= b.node <= 0xff)
    requires (a.OffsetBit? ==> 1 <= a.index <= 2 * 128) && (b.OffsetBit? ==> 1 <= b.index <= 2 * 128)
    requires (a.LengthBit? ==> 1 <= a.index <= 2 * 511) && (b.LengthBit? ==> 1 <= b.index <= 2 * 511)
    requires a != b
    ensures IsContext(RoleContext(a)) && IsContext(RoleContext(b))
    ensures Slot(RoleContext(a)) != Slot(RoleContext(b))
  {
    hide NumberContext;
    NumberRole(a);
    NumberRole(b);
  }

  lemma NumberRole(r: Role)
    requires (r.OffsetBit? ==> 1 <= r.index <= 256) && (r.LengthBit? ==> 1 <= r.index <= 1022)
    ensures r.OffsetBit? ==> RoleContext(r) == 0x300 + r.index % 0x100
    ensures r.LengthBit? ==> RoleContext(r) == 0x400 + r.index
  {
    hide NumberContext;
    match r
    case OffsetBit(i) => OffsetContext(i);
    case LengthBit(i) => LengthContext(i);
    case _ =>
  }

  // ---- Longer numbers

  /** Offsets reuse contexts from 129 digits on; lengths only beyond what the table holds. */
  lemma ReusesIff(group: nat, digits: nat)
    requires IsGroup(group)
    ensures (exists i, j :: 1 <= i < j <= 2 * digits && NumberContext(group, i) == NumberContext(group, j))
       <==> digits >= if group == OFFSET_GROUP then 129 else 513
  {
    hide NumberContext, Or;
    var first := if group == OFFSET_GROUP then 257 else 1025;
    NumberContextBytes(group, 1);
    NumberContextBytes(group, first);
    SmallOrs();
    assert NumberContext(group, 1) == NumberContext(group, first);
    if 2 * digits < first {
      forall i, j | 1 <= i < j <= 2 * digits ensures NumberContext(group, i) != NumberContext(group, j) {
        if group == OFFSET_GROUP {
          OffsetContext(i);
          OffsetContext(j);
        } else {
          LengthContext(i);
          LengthContext(j);
        }
      }
    }
  }

  /** To share one in the table takes an offset of at least 512 digits and a length of at least 384. */
  lemma OverlapIff(offsetDigits: nat, lengthDigits: nat)
    requires offsetDigits < 640 && lengthDigits < 512
    ensures (exists i, j :: 1 <= i <= 2 * offsetDigits && 1 <= j <= 2 * lengthDigits
                            && NumberContext(OFFSET_GROUP, i) == NumberContext(LENGTH_GROUP, j))
       <==> offsetDigits >= 512 && lengthDigits >= 384
  {
    hide NumberContext, Or;
    SmallOrs();
    NumberContextBytes(OFFSET_GROUP, 1024);
    NumberContextBytes(LENGTH_GROUP, 768);
    assert NumberContext(OFFSET_GROUP, 1024) == NumberContext(LENGTH_GROUP, 768);
    if offsetDigits < 512 || lengthDigits < 384 {
      forall i, j | 1 <= i <= 2 * offsetDigits && 1 <= j <= 2 * lengthDigits
        ensures NumberContext(OFFSET_GROUP, i) != NumberContext(LENGTH_GROUP, j)
      {
        NumberContextBytes(OFFSET_GROUP, i);
        LengthContext(j);
        var h := i / 0x100;
        assert h == 0 || h == 1 || h == 2 || h == 3 || h == 4;
      }
    }
  }
}
