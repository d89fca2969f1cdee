/**
 What compressed data means: literals and copies from the output so far.
 */
module Symbols {
  import opened Words
  import opened Codes
  import opened ContextTable

  /**
   A copy either brings its own offset or repeats the last one. Numbers are those of the
   stream, of any size; the registers keep them modulo 2^32. So the data ends at every
   number 2 + 2^32 * wraps in place of an offset; the usual end has wraps 0.
   */
  datatype Symbol =
    | Literal(value: nat)
    | Match(offset: nat, length: nat)
    | Repeat(length: nat)
    | End(wraps: nat)

  datatype Prev = AtStart | AfterLiteral | AfterReference

  function EndNumber(wraps: nat): nat {
    2 + 0x1_0000_0000 * wraps
  }

  /** Symbol sequences the format can express at all. */
  predicate Printable(syms: seq<Symbol>, prev: Prev)
    decreases |syms|
  {
    syms != [] &&
    match syms[0]
    case Literal(b) => b < 0x100 && Printable(syms[1..], AfterLiteral)
    case Match(o, l) => prev != AtStart && Wrap(o) != 0 && l >= 2 && Printable(syms[1..], AfterReference)
    case Repeat(l) => prev == AfterLiteral && l >= 2 && Printable(syms[1..], AfterReference)
    case End(_) => prev != AtStart && |syms| == 1
  }

  /** The numbers of the symbol are not too long for the context table. */
  predicate SymbolFits(sym: Symbol) {
    match sym
    case Literal(_) => true
    case Match(o, l) => NumberFits(OFFSET_GROUP, o + 2) && NumberFits(LENGTH_GROUP, l)
    case Repeat(l) => NumberFits(LENGTH_GROUP, l)
    case End(w) => NumberFits(OFFSET_GROUP, EndNumber(w))
  }

  ghost predicate SymbolsFit(syms: seq<Symbol>) {
    forall sym :: sym in syms ==> SymbolFits(sym)
  }

  lemma FitFirst(syms: seq<Symbol>)
    requires syms != []
    ensures SymbolsFit(syms) <==> SymbolFits(syms[0]) && SymbolsFit(syms[1..])
  {
    hide SymbolFits;
    assert syms[0] in syms;
    forall s | s in syms ensures s == syms[0] || s in syms[1..] {
    }
  }

  /**
   Symbol sequences with a meaning: every copy reads output that exists, a repeated
   offset has an earlier one to repeat (last is 0 before the first copy), and no copy has
   a length that is 0 as a register. A number too long for the table stops the run, so
   nothing is asked of what follows it.
   */
  predicate WellFormed(syms: seq<Symbol>, produced: nat, last: nat, prev: Prev): (ok: bool)
    ensures ok ==> Printable(syms, prev)
    decreases |syms|
  {
    Printable(syms, prev)
    && (SymbolFits(syms[0]) ==>
          match syms[0]
          case Literal(b) => WellFormed(syms[1..], produced + 1, last, AfterLiteral)
          case Match(o, l) =>
            Wrap(o) <= produced && Wrap(l) != 0
            && WellFormed(syms[1..], produced + Wrap(l), Wrap(o), AfterReference)
          case Repeat(l) =>
            1 <= last <= produced && Wrap(l) != 0
            && WellFormed(syms[1..], produced + Wrap(l), last, AfterReference)
          case End(_) => true)
  }

  /** How a run over the symbols goes: to the end, or out of the table in a first context. */
  datatype Outcome = Finishes | LeavesTable(ctx: nat)

  function SymbolOutcome(sym: Symbol): (r: Outcome)
    requires (sym.Match? || sym.Repeat?) ==> sym.length >= 1
    ensures r.Finishes? <==> SymbolFits(sym)
    ensures r.LeavesTable? ==> r.ctx in {0x7ff, 0xb00, 0xc00}
  {
    if SymbolFits(sym) then Finishes
    else
      match sym
      case Match(o, l) =>
        LeavesTable(if NumberFits(OFFSET_GROUP, o + 2) then OutsideContext(LENGTH_GROUP, l)
                    else OutsideContext(OFFSET_GROUP, o + 2))
      case Repeat(l) => LeavesTable(OutsideContext(LENGTH_GROUP, l))
      case End(w) => LeavesTable(OutsideContext(OFFSET_GROUP, EndNumber(w)))
  }

  /** The first symbol that does not fit decides. */
  function RunOutcome(syms: seq<Symbol>, prev: Prev): (r: Outcome)
    requires Printable(syms, prev)
    ensures r.LeavesTable? ==> r.ctx in {0x7ff, 0xb00, 0xc00}
    decreases |syms|
  {
    if !SymbolFits(syms[0]) || syms[0].End? then SymbolOutcome(syms[0])
    else RunOutcome(syms[1..], if syms[0].Literal? then AfterLiteral else AfterReference)
  }

  lemma {:induction false} FinishesIff(syms: seq<Symbol>, prev: Prev)
    requires Printable(syms, prev)
    ensures RunOutcome(syms, prev).Finishes? <==> SymbolsFit(syms)
    decreases |syms|
  {
    hide SymbolFits, SymbolsFit;
    FitFirst(syms);
    if syms[0].End? {
      NothingFits();
      assert syms[1..] == [];
    } else if SymbolFits(syms[0]) {
      FinishesIff(syms[1..], if syms[0].Literal? then AfterLiteral else AfterReference);
    }
  }

  lemma NothingFits()
    ensures SymbolsFit([])
  {
  }

  /** length bytes, each the one offset places before it; the copy may read its own output. */
  function Copy(out: seq<Byte>, offset: nat, length: nat): (r: seq<Byte>)
    requires 1 <= offset <= |out|
    ensures |r| == |out| + length
    decreases length
  {
    if length == 0 then out else Copy(out + [out[|out| - offset]], offset, length - 1)
  }

  /** The output up to the end, or up to the first number too long for the table. */
  function Expand(out: seq<Byte>, last: nat, syms: seq<Symbol>, prev: Prev): seq<Byte>
    requires WellFormed(syms, |out|, last, prev)
    decreases |syms|
  {
    if !SymbolFits(syms[0]) then out
    else
      match syms[0]
      case Literal(b) => Expand(out + [b], last, syms[1..], AfterLiteral)
      case Match(o, l) => Expand(Copy(out, Wrap(o), Wrap(l)), Wrap(o), syms[1..], AfterReference)
      case Repeat(l) => Expand(Copy(out, last, Wrap(l)), last, syms[1..], AfterReference)
      case End(_) => out
  }

  /** The uncompressed data of a whole symbol sequence. */
  function Decompressed(syms: seq<Symbol>): seq<Byte>
    requires WellFormed(syms, 0, 0, AtStart)
  {
    Expand([], 0, syms, AtStart)
  }

  /** The earlier output stays, and each new byte is the one offset places before it. */
  lemma {:induction false} CopyRepeats(out: seq<Byte>, offset: nat, length: nat)
    requires 1 <= offset <= |out|
    ensures Copy(out, offset, length)[..|out|] == out
    ensures forall i :: |out| <= i < |out| + length ==>
              Copy(out, offset, length)[i] == Copy(out, offset, length)[i - offset]
    decreases length
  {
    if length == 0 {
    } else {
      var out' := out + [out[|out| - offset]];
      var r := Copy(out, offset, length);
      CopyRepeats(out', offset, length - 1);
      assert r[..|out|] == r[..|out| + 1][..|out|] == out;
      assert r[|out|] == out'[|out|] && r[|out| - offset] == out[|out| - offset];
    }
  }

  /** A copy is the periodic continuation of the last offset bytes. */
  lemma {:induction false} CopyIsPeriodic(out: seq<Byte>, offset: nat, length: nat, k: nat)
    requires 1 <= offset <= |out| && k < length
    ensures Copy(out, offset, length)[|out| + k] == out[|out| - offset + k % offset]
    decreases k
  {
    hide Copy;
    CopyRepeats(out, offset, length);
    var r := Copy(out, offset, length);
    if k < offset {
      DivModUnique(k, offset, 0, k);
      assert r[|out| + k - offset] == r[..|out|][|out| + k - offset];
    } else {
      CopyIsPeriodic(out, offset, length, k - offset);
      ModMinus(k, offset);
    }
  }

  lemma ModMinus(k: nat, n: nat)
    requires 1 <= n <= k
    ensures (k - n) % n == k % n
  {
    assert k == k / n * n + k % n;
    MulDist(k / n, -1, n);
    DivModUnique(k - n, n, k / n - 1, k % n);
  }

  /** The number of bytes that a symbol adds to the output. */
  function Added(sym: Symbol): nat {
    match sym
    case Literal(_) => 1
    case Match(_, l) => Wrap(l)
    case Repeat(l) => Wrap(l)
    case End(_) => 0
  }

  /** The bytes that the symbols add, and the offset that a repetition after them uses. */
  function TotalAdded(syms: seq<Symbol>): nat {
    if syms == [] then 0 else Added(syms[0]) + TotalAdded(syms[1..])
  }

  function LastOffset(syms: seq<Symbol>, last: nat): nat {
    if syms == [] then last
    else LastOffset(syms[1..], if syms[0].Match? then Wrap(syms[0].offset) else last)
  }

  /** The condition on one symbol after n bytes, when a repetition would use the offset last. */
  predicate CopyReads(sym: Symbol, n: nat, last: nat) {
    (sym.Match? ==> Wrap(sym.offset) <= n && Wrap(sym.length) != 0)
    && (sym.Repeat? ==> 1 <= last <= n && Wrap(sym.length) != 0)
  }

  /** If the symbols up to the i-th fit, and it is a copy, then it has a length and its source exists. */
  ghost predicate CopyOk(syms: seq<Symbol>, i: nat, produced: nat, last: nat)
    requires i < |syms|
  {
    SymbolsFit(syms[..i + 1]) ==>
      CopyReads(syms[i], produced + TotalAdded(syms[..i]), LastOffset(syms[..i], last))
  }

  lemma CopyOkFirst(syms: seq<Symbol>, produced: nat, last: nat)
    requires syms != []
    ensures CopyOk(syms, 0, produced, last) <==>
              (SymbolFits(syms[0]) ==> CopyReads(syms[0], produced, last))
  {
    hide SymbolFits;
    assert syms[..1] == [syms[0]] && syms[..0] == [];
  }

  lemma CopyOkNext(syms: seq<Symbol>, i: nat, produced: nat, last: nat)
    requires i + 1 < |syms|
    ensures CopyOk(syms, i + 1, produced, last) <==>
              !SymbolFits(syms[0])
              || CopyOk(syms[1..], i, produced + Added(syms[0]),
                        if syms[0].Match? then Wrap(syms[0].offset) else last)
  {
    hide SymbolsFit, SymbolFits;
    var a, b := syms[..i + 2], syms[..i + 1];
    assert a[0] == syms[0] && a[1..] == syms[1..][..i + 1];
    assert b[0] == syms[0] && b[1..] == syms[1..][..i];
    FitFirst(a);
  }

  ghost predicate AllCopiesOk(syms: seq<Symbol>, produced: nat, last: nat) {
    forall i {:trigger syms[i]} | 0 <= i < |syms| :: CopyOk(syms, i, produced, last)
  }

  lemma AllCopiesFirst(syms: seq<Symbol>, produced: nat, last: nat)
    requires syms != []
    ensures var rest, n := syms[1..], produced + Added(syms[0]);
            var o := if syms[0].Match? then Wrap(syms[0].offset) else last;
            AllCopiesOk(syms, produced, last)
            <==> CopyOk(syms, 0, produced, last) && (SymbolFits(syms[0]) ==> AllCopiesOk(rest, n, o))
  {
    hide CopyOk, SymbolFits;
    var rest, n := syms[1..], produced + Added(syms[0]);
    var o := if syms[0].Match? then Wrap(syms[0].offset) else last;
    if AllCopiesOk(syms, produced, last) && SymbolFits(syms[0]) {
      forall i | 0 <= i < |rest| ensures CopyOk(rest, i, n, o) {
        assert rest[i] == syms[i + 1];
        CopyOkNext(syms, i, produced, last);
      }
    }
    if CopyOk(syms, 0, produced, last) && (SymbolFits(syms[0]) ==> AllCopiesOk(rest, n, o)) {
      forall i | 0 <= i < |syms| ensures CopyOk(syms, i, produced, last) {
        if i > 0 {
          assert rest[i - 1] == syms[i];
          CopyOkNext(syms, i - 1, produced, last);
        }
      }
    }
    assert syms[0] == syms[0];
  }

  lemma {:induction false} CopiesOk(syms: seq<Symbol>, produced: nat, last: nat, prev: Prev)
    requires Printable(syms, prev)
    ensures WellFormed(syms, produced, last, prev) <==> AllCopiesOk(syms, produced, last)
    decreases |syms|
  {
    hide CopyOk, AllCopiesOk, SymbolFits;
    CopyOkFirst(syms, produced, last);
    AllCopiesFirst(syms, produced, last);
    match syms[0]
    case Literal(b) => CopiesOk(syms[1..], produced + 1, last, AfterLiteral);
    case Match(o, l) => CopiesOk(syms[1..], produced + Wrap(l), Wrap(o), AfterReference);
    case Repeat(l) => CopiesOk(syms[1..], produced + Wrap(l), last, AfterReference);
    case End(_) => NoCopies(produced, last);
  }

  lemma NoCopies(produced: nat, last: nat)
    ensures AllCopiesOk([], produced, last)
  {
  }

  /** Without recursion: every copy before the first number too long has its source and a length. */
  lemma WellFormedIff(syms: seq<Symbol>, produced: nat, last: nat, prev: Prev)
    requires Printable(syms, prev)
    ensures WellFormed(syms, produced, last, prev) <==>
            forall i | 0 <= i < |syms| && SymbolsFit(syms[..i + 1]) ::
              var n := produced + TotalAdded(syms[..i]);
              (syms[i].Match? ==> Wrap(syms[i].offset) <= n && Wrap(syms[i].length) != 0)
              && (syms[i].Repeat? ==> 1 <= LastOffset(syms[..i], last) <= n && Wrap(syms[i].length) != 0)
  {
    hide WellFormed, SymbolsFit, CopyOk;
    CopiesOk(syms, produced, last, prev);
    if WellFormed(syms, produced, last, prev) {
      forall i | 0 <= i < |syms| && SymbolsFit(syms[..i + 1])
        ensures CopyReads(syms[i], produced + TotalAdded(syms[..i]), LastOffset(syms[..i], last))
      {
        CopyOkMeans(syms, i, produced, last);
        assert syms[i] == syms[i];
      }
    } else {
      var i :| 0 <= i < |syms| && !CopyOk(syms, i, produced, last);
      CopyOkMeans(syms, i, produced, last);
    }
  }

  lemma CopyOkMeans(syms: seq<Symbol>, i: nat, produced: nat, last: nat)
    requires i < |syms|
    ensures CopyOk(syms, i, produced, last) <==>
            (SymbolsFit(syms[..i + 1]) ==>
               CopyReads(syms[i], produced + TotalAdded(syms[..i]), LastOffset(syms[..i], last)))
  {
  }

  /**
   What the first symbol means for the output r: a literal is the next byte, a copy
   repeats the bytes offset places back, the end adds nothing; and r goes on from there.
   */
  lemma SymbolMeaning(out: seq<Byte>, last: nat, syms: seq<Symbol>, prev: Prev)
    requires WellFormed(syms, |out|, last, prev) && SymbolFits(syms[0])
    ensures var r, sym := Expand(out, last, syms, prev), syms[0];
            out <= r && |out| + Added(sym) <= |r|
            && (sym.Literal? ==> r[|out|] == sym.value)
            && (sym.End? ==> r == out)
    ensures var r, sym := Expand(out, last, syms, prev), syms[0];
            sym.Match? || sym.Repeat? ==>
              var o, n := if sym.Match? then Wrap(sym.offset) else last, Wrap(sym.length);
              1 <= o <= |out| && |out| + n <= |r| && forall k | 0 <= k < n :: r[|out| + k] == out[|out| - o + k % o]
    ensures var r, sym := Expand(out, last, syms, prev), syms[0];
            var n, o := |out| + Added(sym), if sym.Match? then Wrap(sym.offset) else last;
            var prev' := if sym.Literal? then AfterLiteral else AfterReference;
            sym.End? || (WellFormed(syms[1..], n, o, prev') && r == Expand(r[..n], o, syms[1..], prev'))
  {
    hide SymbolFits, Copy, Expand, WellFormed;
    var sym := syms[0];
    var out', o, prev' := ExpandFirst(out, last, syms, prev);
    ExpandExtends(out, last, syms, prev);
    if !sym.End? { ExpandExtends(out', o, syms[1..], prev'); }
    if sym.Match? || sym.Repeat? { CopyMeaning(out, o, Added(sym)); }
    assert sym.Literal? ==> out' == out + [sym.value] && out'[|out|] == sym.value;
    assert Expand(out, last, syms, prev)[..|out'|] == out';
  }

  /** The state of the expansion after one symbol. */
  lemma ExpandFirst(out: seq<Byte>, last: nat, syms: seq<Symbol>, prev: Prev)
    returns (out': seq<Byte>, o: nat, prev': Prev)
    requires WellFormed(syms, |out|, last, prev) && SymbolFits(syms[0])
    ensures o == (if syms[0].Match? then Wrap(syms[0].offset) else last)
    ensures prev' == if syms[0].Literal? then AfterLiteral else AfterReference
    ensures syms[0].Literal? ==> syms[0].value < 0x100 && out' == out + [syms[0].value]
    ensures syms[0].Match? || syms[0].Repeat? ==> 1 <= o <= |out| && out' == Copy(out, o, Wrap(syms[0].length))
    ensures if syms[0].End? then out' == out == Expand(out, last, syms, prev)
            else
              WellFormed(syms[1..], |out'|, o, prev')
              && Expand(out, last, syms, prev) == Expand(out', o, syms[1..], prev')
  {
    hide SymbolFits, Copy;
    var sym := syms[0];
    o := if sym.Match? then Wrap(sym.offset) else last;
    prev' := if sym.Literal? then AfterLiteral else AfterReference;
    out' := match sym
      case Literal(b) => out + [b]
      case Match(_, l) => Copy(out, o, Wrap(l))
      case Repeat(l) => Copy(out, o, Wrap(l))
      case End(_) => out;
  }

  lemma CopyMeaning(out: seq<Byte>, offset: nat, length: nat)
    requires 1 <= offset <= |out|
    ensures forall k | 0 <= k < length :: Copy(out, offset, length)[|out| + k] == out[|out| - offset + k % offset]
  {
    hide Copy;
    forall k | 0 <= k < length
      ensures Copy(out, offset, length)[|out| + k] == out[|out| - offset + k % offset]
    {
      CopyIsPeriodic(out, offset, length, k);
    }
  }

  /** Decompression only ever appends. */
  lemma {:induction false} ExpandExtends(out: seq<Byte>, last: nat, syms: seq<Symbol>, prev: Prev)
    requires WellFormed(syms, |out|, last, prev)
    ensures out <= Expand(out, last, syms, prev)
    decreases |syms|
  {
    hide SymbolFits, Copy;
    if SymbolFits(syms[0]) {
      match syms[0]
      case Literal(b) =>
        ExpandExtends(out + [b], last, syms[1..], AfterLiteral);
      case Match(o, l) =>
        CopyRepeats(out, Wrap(o), Wrap(l));
        ExpandExtends(Copy(out, Wrap(o), Wrap(l)), Wrap(o), syms[1..], AfterReference);
      case Repeat(l) =>
        CopyRepeats(out, last, Wrap(l));
        ExpandExtends(Copy(out, last, Wrap(l)), last, syms[1..], AfterReference);
      case End(_) =>
    }
  }

  /** Data without any copy. */
  function AsLiterals(data: seq<Byte>): seq<Symbol> {
    if data == [] then [End(0)] else [Literal(data[0])] + AsLiterals(data[1..])
  }

  lemma EndOnly(out: seq<Byte>, last: nat, prev: Prev)
    requires prev != AtStart
    ensures WellFormed([End(0)], |out|, last, prev) && Expand(out, last, [End(0)], prev) == out
    ensures RunOutcome([End(0)], prev) == Finishes
  {
    WordFits(OFFSET_GROUP, 2);
  }

  lemma LiteralFirst(out: seq<Byte>, last: nat, b: nat, rest: seq<Symbol>, prev: Prev)
    requires b < 0x100 && WellFormed(rest, |out| + 1, last, AfterLiteral)
    ensures WellFormed([Literal(b)] + rest, |out|, last, prev)
    ensures Expand(out, last, [Literal(b)] + rest, prev) == Expand(out + [b], last, rest, AfterLiteral)
    ensures RunOutcome([Literal(b)] + rest, prev) == RunOutcome(rest, AfterLiteral)
  {
    assert ([Literal(b)] + rest)[1..] == rest;
  }

  lemma FirstMoves(out: seq<Byte>, data: seq<Byte>)
    requires data != []
    ensures out + [data[0]] + data[1..] == out + data
  {
  }

  lemma {:induction false} LiteralsExpand(out: seq<Byte>, last: nat, data: seq<Byte>, prev: Prev)
    requires data != [] || prev != AtStart
    ensures WellFormed(AsLiterals(data), |out|, last, prev)
    ensures Expand(out, last, AsLiterals(data), prev) == out + data
    ensures RunOutcome(AsLiterals(data), prev) == Finishes
    decreases |data|
  {
    hide WellFormed, Expand, RunOutcome;
    if data == [] {
      EndOnly(out, last, prev);
      assert out + data == out;
    } else {
      LiteralsExpand(out + [data[0]], last, data[1..], AfterLiteral);
      LiteralFirst(out, last, data[0], AsLiterals(data[1..]), prev);
      FirstMoves(out, data);
    }
  }

  /** Every non-empty program is the decompressed data of some symbols. */
  lemma EveryProgramHasSymbols(data: seq<Byte>)
    requires data != []
    ensures WellFormed(AsLiterals(data), 0, 0, AtStart) && Decompressed(AsLiterals(data)) == data
    ensures RunOutcome(AsLiterals(data), AtStart) == Finishes
  {
    LiteralsExpand([], 0, data, AtStart);
  }
}
