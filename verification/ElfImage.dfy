/**
 Building the flat program image from the sections of an ELF file: the included
 sections sorted by address, checked for overlap, and concatenated with zero padding.
 */
module ElfImage {
  import opened Words

  const SHT_NULL: nat := 0
  const SHT_NOBITS: nat := 8
  const SHF_ALLOC: nat := 2

  /** A section as read from the file; data holds size bytes unless the kind has none. */
  datatype Section = Section(kind: nat, flags: nat, address: Word, size: Word, data: seq<Byte>) {
    ghost predicate Valid() {
      kind != SHT_NULL && kind != SHT_NOBITS ==> |data| == size
    }

    function End(): nat {
      address + size
    }
  }

  predicate IsIncluded(s: Section) {
    if s.kind == SHT_NULL || s.kind == SHT_NOBITS then false
    else if s.address == 0 then false
    else if s.size == 0 then false
    else s.flags / SHF_ALLOC % 2 == 1
  }

  function Included(sections: seq<Section>): (r: seq<Section>)
    ensures forall s :: s in r <==> s in sections && IsIncluded(s)
    ensures forall s :: multiset(r)[s] == if IsIncluded(s) then multiset(sections)[s] else 0
  {
    if sections == [] then []
    else
      assert sections == [sections[0]] + sections[1..];
      (if IsIncluded(sections[0]) then [sections[0]] else []) + Included(sections[1..])
  }

  /** In plain fields: neither a null nor a no-bits section, somewhere, not empty, and allocated. */
  lemma IsIncludedIff(s: Section)
    ensures IsIncluded(s) <==> s.kind != 0 && s.kind != 8 && s.address != 0 && s.size != 0 && s.flags % 4 >= 2
  {
  }

  predicate Disjoint(a: Section, b: Section) {
    a.End() <= b.address || b.End() <= a.address
  }

  /** Sections with bytes are disjoint exactly when no address lies in both. */
  lemma DisjointIff(a: Section, b: Section)
    requires a.size >= 1 && b.size >= 1
    ensures Disjoint(a, b) <==>
            forall x: int :: !(a.address <= x < a.address + a.size && Covers(b, x))
  {
    if !Disjoint(a, b) {
      var x := if a.address <= b.address then b.address else a.address;
      assert Covers(b, x);
    }
  }

  /** No two sections of the list share an address. */
  ghost predicate PairwiseDisjoint(secs: seq<Section>) {
    forall i, j :: 0 <= i < j < |secs| ==> Disjoint(secs[i], secs[j])
  }

  ghost predicate Sorted(secs: seq<Section>) {
    forall i, j :: 0 <= i < j < |secs| ==> secs[i].address <= secs[j].address
  }

  /** Sections as load_binary sees them: each has at least one byte, and its data. */
  ghost predicate Loadable(secs: seq<Section>) {
    forall s :: s in secs ==> s.size >= 1 && |s.data| == s.size
  }

  predicate Covers(s: Section, address: int) {
    s.address <= address < s.End()
  }

  /** The byte the sections put at an address; zero where there is none. */
  function ByteAt(secs: seq<Section>, address: int): Byte
    requires Loadable(secs)
  {
    if secs == [] then 0
    else
      var s := secs[|secs| - 1];
      assert forall t :: t in secs[..|secs| - 1] ==> t in secs;
      if Covers(s, address) then s.data[address - s.address] else ByteAt(secs[..|secs| - 1], address)
  }

  ghost predicate IsLowest(secs: seq<Section>, address: int) {
    (exists s :: s in secs && s.address == address) && forall s :: s in secs ==> address <= s.address
  }

  ghost predicate IsHighest(secs: seq<Section>, end: int) {
    (exists s :: s in secs && s.End() == end) && forall s :: s in secs ==> s.End() <= end
  }

  /** data, placed at load, spans the sections exactly and shows their bytes, else zeros. */
  ghost predicate IsImage(secs: seq<Section>, load: int, data: seq<Byte>) {
    Loadable(secs)
    && (secs == [] ==> load == 0 && data == [])
    && (secs != [] ==> IsLowest(secs, load) && IsHighest(secs, load + |data|))
    && forall i :: 0 <= i < |data| ==> data[i] == ByteAt(secs, load + i)
  }

  /** The image, or two sections that share an address. */
  datatype LoadResult =
    | Loaded(loadAddress: int, data: seq<Byte>)
    | Overlap(section: Section, previous: Section)

  // ---- Sorting

  /** Some order by address; sections at equal addresses may come out in any order. */
  method SortByAddress(sections: seq<Section>) returns (r: seq<Section>)
    ensures Sorted(r) && multiset(r) == multiset(sections)
  {
    r := [];
    for i := 0 to |sections|
      invariant Sorted(r) && multiset(r) == multiset(sections[..i])
    {
      assert sections[..i + 1] == sections[..i] + [sections[i]];
      r := Insert(r, sections[i]);
    }
    assert sections[..|sections|] == sections;
  }

  method Insert(r: seq<Section>, s: Section) returns (t: seq<Section>)
    requires Sorted(r)
    ensures Sorted(t) && multiset(t) == multiset(r) + multiset{s}
  {
    hide Sorted;
    var k := |r|;
    while k > 0 && s.address < r[k - 1].address
      invariant 0 <= k <= |r|
      invariant forall j :: k <= j < |r| ==> s.address < r[j].address
    {
      k := k - 1;
    }
    InsertSorted(r, k, s);
    InsertKeeps(r, k, s);
    t := r[..k] + [s] + r[k..];
  }

  lemma InsertSorted(r: seq<Section>, k: nat, s: Section)
    requires Sorted(r) && k <= |r|
    requires k > 0 ==> r[k - 1].address <= s.address
    requires forall j :: k <= j < |r| ==> s.address < r[j].address
    ensures Sorted(r[..k] + [s] + r[k..])
  {
    var t := r[..k] + [s] + r[k..];
    assert forall i :: 0 <= i < k ==> t[i] == r[i] && r[i].address <= s.address;
    assert forall i :: k < i < |t| ==> t[i] == r[i - 1];
    assert t[k] == s;
  }

  lemma InsertKeeps(r: seq<Section>, k: nat, s: Section)
    requires k <= |r|
    ensures multiset(r[..k] + [s] + r[k..]) == multiset(r) + multiset{s}
  {
    assert r == r[..k] + r[k..];
  }

  // ---- The image grows by one section

  lemma ByteAtAppend(secs: seq<Section>, s: Section, a: int)
    requires Loadable(secs) && Loadable(secs + [s])
    ensures ByteAt(secs + [s], a) == if Covers(s, a) then s.data[a - s.address] else ByteAt(secs, a)
  {
    assert (secs + [s])[..|secs|] == secs;
  }

  lemma {:induction false} NoByteAbove(secs: seq<Section>, a: int)
    requires Loadable(secs) && forall s :: s in secs ==> s.End() <= a
    ensures ByteAt(secs, a) == 0
    decreases |secs|
  {
    if secs != [] {
      NoByteAbove(secs[..|secs| - 1], a);
    }
  }

  lemma FirstSection(s: Section)
    requires s.size >= 1 && |s.data| == s.size
    ensures IsImage([s], s.address, s.data)
  {
    assert s in [s];
    forall i | 0 <= i < |s.data| ensures s.data[i] == ByteAt([s], s.address + i) {
      ByteAtAppend([], s, s.address + i);
      assert [] + [s] == [s];
    }
  }

  function Zeros(n: nat): seq<Byte> {
    seq(n, _ => 0)
  }

  lemma NextSection(secs: seq<Section>, s: Section, load: int, data: seq<Byte>, gap: nat)
    requires secs != [] && IsImage(secs, load, data) && s.size >= 1 && |s.data| == s.size
    requires s.address == load + |data| + gap
    ensures IsImage(secs + [s], load, data + Zeros(gap) + s.data)
  {
    var r := data + Zeros(gap) + s.data;
    assert s in secs + [s];
    assert forall t :: t in secs ==> t in secs + [s];
    forall i | 0 <= i < |r| ensures r[i] == ByteAt(secs + [s], load + i) {
      ByteAtAppend(secs, s, load + i);
      if i >= |data| { NoByteAbove(secs, load + i); }
    }
    SpanGrows(secs, s, load, |data|, gap);
  }

  lemma SpanGrows(secs: seq<Section>, s: Section, load: int, n: nat, gap: nat)
    requires IsLowest(secs, load) && IsHighest(secs, load + n) && s.size >= 1 && s.address == load + n + gap
    ensures IsLowest(secs + [s], load) && IsHighest(secs + [s], load + n + gap + s.size)
  {
    var lowest :| lowest in secs && lowest.address == load;
    assert lowest in secs + [s];
    assert s in secs + [s];
  }

  // ---- Loading

  class InputFile {
    var loadAddress: int
    var data: seq<Byte>

    constructor ()
      ensures loadAddress == 0 && data == []
    {
      loadAddress, data := 0, [];
    }

    /** Bytes of one section, after the zeros that fill the hole before it. */
    method CopySection(s: Section, outputAddress: int, ghost secs: seq<Section>) returns (newOutputAddress: int)
      requires Loadable(secs + [s]) && IsImage(secs, loadAddress, data)
      requires secs != [] ==> |data| != 0 && outputAddress == loadAddress + |data| <= s.address
      modifies this
      ensures IsImage(secs + [s], loadAddress, data) && |data| != 0
      ensures newOutputAddress == loadAddress + |data| == s.End()
    {
      hide ByteAt;
      assert s in secs + [s];
      newOutputAddress := outputAddress;
      if |data| != 0 {
        var padding := s.address - outputAddress;
        NextSection(secs, s, loadAddress, data, padding);
        if padding > 0 {
          newOutputAddress := newOutputAddress + padding;
        }
        data := data + Zeros(padding);
      } else {
        assert secs == [];
        FirstSection(s);
        assert [] + [s] == [s] && data + s.data == s.data;
        newOutputAddress := s.address;
        loadAddress := newOutputAddress;
      }
      data := data + s.data;
      newOutputAddress := newOutputAddress + s.size;
    }

    /**
     load_binary: succeeds exactly when no two included sections share an address, in
     whatever order the file lists them, and then holds their image.
     */
    method LoadBinary(sections: seq<Section>) returns (r: LoadResult)
      requires forall s :: s in sections && s.kind != 0 && s.kind != 8 ==> |s.data| == s.size
      requires loadAddress == 0 && data == []
      modifies this
      ensures r.Loaded? <==> PairwiseDisjoint(Included(sections))
      ensures r.Loaded? ==> r == Loaded(loadAddress, data) && IsImage(Included(sections), loadAddress, data)
      ensures r.Overlap? ==>
                r.section in Included(sections) && r.previous in Included(sections)
                && !Disjoint(r.section, r.previous)
      ensures r.Loaded? ==>
                forall s | s in sections && s.kind != 0 && s.kind != 8 && s.address != 0 && s.size != 0
                           && s.flags % 4 >= 2 :: Shows(s, loadAddress, data)
      ensures r.Loaded? ==>
                forall i | 0 <= i < |data| && data[i] != 0 ::
                  exists s :: s in sections && s.kind != 0 && s.kind != 8 && s.address != 0 && s.size != 0
                              && s.flags % 4 >= 2 && Covers(s, loadAddress + i)
    {
      hide IsImage, Included, IsIncluded, PairwiseDisjoint, Sorted, Disjoint, Shows, Covers;
      var included := Included(sections);
      var sorted := SortByAddress(included);
      SameMembers(sorted, included);
      IncludedIsLoadable(sections);
      r := LoadSorted(sorted);
      DisjointBagIff(included);
      DisjointBagIff(sorted);
      if r.Loaded? {
        ImageOfPermutation(sorted, included, loadAddress, data);
        ImageMeaning(sections, loadAddress, data);
      }
    }

    /** The loop over the sorted sections; an overlap stops it. */
    method LoadSorted(secs: seq<Section>) returns (r: LoadResult)
      requires Loadable(secs) && Sorted(secs) && loadAddress == 0 && data == []
      modifies this
      ensures r.Loaded? <==> PairwiseDisjoint(secs)
      ensures r.Loaded? ==> r == Loaded(loadAddress, data) && IsImage(secs, loadAddress, data)
      ensures r.Overlap? ==> r.section in secs && r.previous in secs && !Disjoint(r.section, r.previous)
    {
      hide IsImage;
      EmptyImage();
      var outputAddress: int := 0;
      for i := 0 to |secs|
        invariant IsImage(secs[..i], loadAddress, data) && PairwiseDisjoint(secs[..i])
        invariant i == 0 ==> data == []
        invariant i > 0 ==> |data| != 0 && outputAddress == loadAddress + |data| == secs[i - 1].End()
      {
        var s := secs[i];
        assert secs[..i + 1] == secs[..i] + [s];
        if |data| != 0 && s.address < outputAddress {
          assert !Disjoint(secs[i - 1], secs[i]);
          return Overlap(s, secs[i - 1]);
        }
        NeighboursSuffice(secs, i);
        outputAddress := CopySection(s, outputAddress, secs[..i]);
      }
      assert secs[..|secs|] == secs;
      r := Loaded(loadAddress, data);
    }
  }

  lemma EmptyImage()
    ensures IsImage([], 0, [])
  {
  }

  /** Only neighbours are compared, but in sorted order that finds every overlap. */
  lemma NeighboursSuffice(secs: seq<Section>, i: nat)
    requires Sorted(secs) && Loadable(secs) && i < |secs| && PairwiseDisjoint(secs[..i])
    requires i > 0 ==> secs[i - 1].End() <= secs[i].address
    ensures PairwiseDisjoint(secs[..i + 1])
  {
    forall j | 0 <= j < i ensures Disjoint(secs[j], secs[i]) {
      if j < i - 1 {
        assert secs[..i][j] == secs[j] && secs[..i][i - 1] == secs[i - 1];
        assert Disjoint(secs[..i][j], secs[..i][i - 1]);
        assert secs[j].size >= 1 && secs[i - 1].size >= 1;
        assert secs[j].address <= secs[i - 1].address;
      }
    }
    var t := secs[..i + 1];
    forall j, k | 0 <= j < k < |t| ensures Disjoint(t[j], t[k]) {
      if k < i { assert Disjoint(secs[..i][j], secs[..i][k]); }
    }
  }

  // ---- Any input order

  /** The same list without an order: no address shared, and no section listed twice. */
  ghost predicate DisjointBag(bag: multiset<Section>) {
    (forall s :: s in bag ==> bag[s] == 1)
    && forall s, t :: s in bag && t in bag && s != t ==> Disjoint(s, t)
  }

  lemma {:induction false} DisjointBagIff(secs: seq<Section>)
    requires Loadable(secs)
    ensures PairwiseDisjoint(secs) <==> DisjointBag(multiset(secs))
    decreases |secs|
  {
    if secs != [] {
      var init, last := secs[..|secs| - 1], secs[|secs| - 1];
      assert secs == init + [last];
      assert Loadable(init) && last in secs;
      DisjointBagIff(init);
      DisjointSplit(init, last);
      DisjointBagSplit(multiset(init), last);
    }
  }

  /** One more section keeps a list disjoint if it is clear of every member. */
  lemma DisjointSplit(secs: seq<Section>, s: Section)
    ensures PairwiseDisjoint(secs + [s]) <==> PairwiseDisjoint(secs) && forall t :: t in secs ==> Disjoint(t, s)
  {
    var r := secs + [s];
    if PairwiseDisjoint(r) {
      forall i, j | 0 <= i < j < |secs| ensures Disjoint(secs[i], secs[j]) {
        assert Disjoint(r[i], r[j]) && r[i] == secs[i] && r[j] == secs[j];
      }
      forall t | t in secs ensures Disjoint(t, s) {
        var i :| 0 <= i < |secs| && secs[i] == t;
        assert Disjoint(r[i], r[|secs|]);
      }
    }
  }

  lemma DisjointBagSplit(bag: multiset<Section>, s: Section)
    requires s.size >= 1 && forall t :: t in bag ==> t.size >= 1
    ensures DisjointBag(bag + multiset{s}) <==> DisjointBag(bag) && forall t :: t in bag ==> Disjoint(t, s)
  {
    var r := bag + multiset{s};
    assert s in r && forall t :: t in bag ==> t in r;
    if DisjointBag(bag) && forall t :: t in bag ==> Disjoint(t, s) {
      assert s !in bag;
    }
    if DisjointBag(r) {
      assert r[s] == 1;
      assert forall t :: t in bag ==> r[t] == 1 && t != s;
    }
  }

  /** In a disjoint list a byte has one source: the section covering its address, or none. */
  lemma {:induction false} ByteAtMeaning(secs: seq<Section>, a: int)
    requires Loadable(secs) && PairwiseDisjoint(secs)
    ensures forall s :: s in secs && Covers(s, a) ==> ByteAt(secs, a) == s.data[a - s.address]
    ensures (forall s :: s in secs ==> !Covers(s, a)) ==> ByteAt(secs, a) == 0
    decreases |secs|
  {
    hide PairwiseDisjoint;
    if secs != [] {
      var init, last := secs[..|secs| - 1], secs[|secs| - 1];
      assert secs == init + [last];
      DisjointSplit(init, last);
      assert forall s :: s in init ==> s in secs;
      ByteAtMeaning(init, a);
      assert last in secs;
    }
  }

  /** The sections determine load address and image. */
  lemma ImageIsUnique(secs: seq<Section>, load: int, data: seq<Byte>, load': int, data': seq<Byte>)
    requires IsImage(secs, load, data) && IsImage(secs, load', data')
    ensures load == load' && data == data'
  {
    hide ByteAt;
    if secs != [] { SameSpan(secs, load, |data|, load', |data'|); }
  }

  lemma SameSpan(secs: seq<Section>, load: int, n: nat, load': int, n': nat)
    requires IsLowest(secs, load) && IsHighest(secs, load + n)
    requires IsLowest(secs, load') && IsHighest(secs, load' + n')
    ensures load == load' && n == n'
  {
  }

  /** The image does not depend on the order of the sections. */
  lemma ImageOfPermutation(a: seq<Section>, b: seq<Section>, load: int, data: seq<Byte>)
    requires multiset(a) == multiset(b) && PairwiseDisjoint(a) && IsImage(a, load, data)
    ensures IsImage(b, load, data)
  {
    hide PairwiseDisjoint, ByteAt;
    SameMembers(a, b);
    DisjointBagIff(a);
    DisjointBagIff(b);
    forall i | 0 <= i < |data| ensures data[i] == ByteAt(b, load + i) {
      SameByte(a, b, load + i);
    }
    if a != [] { SameExtremes(a, b, load, load + |data|); }
  }

  /** The section's bytes are in the data at the section's address. */
  predicate Shows(s: Section, load: int, data: seq<Byte>) {
    load <= s.address && s.End() <= load + |data| && data[s.address - load..s.End() - load] == s.data
  }

  /** An image in plain fields: the bytes of every included section, and no others but zeros. */
  lemma ImageMeaning(sections: seq<Section>, load: int, data: seq<Byte>)
    requires forall s :: s in sections ==> s.Valid()
    requires PairwiseDisjoint(Included(sections)) && IsImage(Included(sections), load, data)
    ensures forall s | s in sections && s.kind != 0 && s.kind != 8 && s.address != 0 && s.size != 0
                       && s.flags % 4 >= 2 :: Shows(s, load, data)
    ensures forall i | 0 <= i < |data| && data[i] != 0 ::
              exists s :: s in sections && s.kind != 0 && s.kind != 8 && s.address != 0 && s.size != 0
                          && s.flags % 4 >= 2 && Covers(s, load + i)
  {
    var secs := Included(sections);
    hide Included, ByteAt, PairwiseDisjoint, Shows, IsIncluded;
    forall s | s in sections && s.kind != 0 && s.kind != 8 && s.address != 0 && s.size != 0 && s.flags % 4 >= 2
      ensures Shows(s, load, data)
    {
      IsIncludedIff(s);
      SectionShows(secs, s, load, data);
    }
    forall i | 0 <= i < |data| && data[i] != 0
      ensures exists s :: s in sections && s.kind != 0 && s.kind != 8 && s.address != 0 && s.size != 0
                          && s.flags % 4 >= 2 && Covers(s, load + i)
    {
      ByteAtMeaning(secs, load + i);
      var s :| s in secs && Covers(s, load + i);
      IsIncludedIff(s);
    }
  }

  lemma SectionShows(secs: seq<Section>, s: Section, load: int, data: seq<Byte>)
    requires s in secs && PairwiseDisjoint(secs) && IsImage(secs, load, data)
    ensures Shows(s, load, data)
  {
    hide ByteAt, PairwiseDisjoint;
    assert s.size >= 1 && |s.data| == s.size;
    forall k | 0 <= k < s.size ensures data[s.address - load + k] == s.data[k] {
      ByteAtMeaning(secs, s.address + k);
    }
  }

  lemma SameExtremes(a: seq<Section>, b: seq<Section>, load: int, end: int)
    requires forall s :: s in a <==> s in b
    requires IsLowest(a, load) && IsHighest(a, end)
    ensures IsLowest(b, load) && IsHighest(b, end)
  {
    var s :| s in a && s.address == load;
    var u :| u in a && u.End() == end;
    assert s in b && u in b;
  }

  lemma IncludedIsLoadable(sections: seq<Section>)
    requires forall s :: s in sections ==> s.Valid()
    ensures Loadable(Included(sections))
  {
  }

  lemma SameMembers(a: seq<Section>, b: seq<Section>)
    requires multiset(a) == multiset(b)
    ensures |a| == |b| && forall s :: s in a <==> s in b
  {
    assert forall s :: s in a <==> s in multiset(a);
    assert forall s :: s in b <==> s in multiset(b);
    assert |multiset(a)| == |multiset(b)|;
  }

  lemma SameByte(a: seq<Section>, b: seq<Section>, address: int)
    requires Loadable(a) && Loadable(b) && PairwiseDisjoint(a) && PairwiseDisjoint(b)
    requires forall s :: s in a <==> s in b
    ensures ByteAt(a, address) == ByteAt(b, address)
  {
    hide ByteAt, PairwiseDisjoint;
    ByteAtMeaning(a, address);
    ByteAtMeaning(b, address);
    if exists s :: s in a && Covers(s, address) {
      var s :| s in a && Covers(s, address);
      assert s in b;
    }
  }
}
