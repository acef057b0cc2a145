/** What entering and looking up a page mean word by word: which group the processor searches
    for a page, and which two words of the table make up its entry. */
module Entries {
  import opened Words
  import opened Wrappers
  import opened PageTable
  import opened Translation

  /** The primary hash joins the nineteen low bits of the VSID and the page index by an exclusive
      or, and the secondary hash is its complement. */
  lemma {:induction false} HashJoinsVsidAndPage(k: Key)
    ensures BitXor(Hash(k, 0), k.page) == k.vsid % 0x8_0000
    ensures Hash(k, 0) < 0x8_0000 && Hash(k, 0) + Hash(k, 1) == 0xFFFF_FFFF
  {
    XorTwice(k.vsid % 0x8_0000, k.page);
    PrimaryHashBound(k.vsid, k.page);
  }

  /** The ten low bits of a page's group and of its page index give those of its VSID. */
  lemma {:induction false} HomeShowsVsid(sdr1: uint32, k: Key, h: HashBit)
    ensures BitXor(Home(sdr1, k, h) % 0x400, k.page % 0x400)
            == if h == 0 then k.vsid % 0x400 else 0x3FF - k.vsid % 0x400
  {
    hide BitXor, Group;
    var v, x := k.vsid % 0x400, k.page % 0x400;
    Pow2Values();
    GroupLowBits(sdr1, Hash(k, h));
    DivModUnique(k.vsid % 0x8_0000, 0x400, k.vsid % 0x8_0000 / 0x400, k.vsid % 0x8_0000 % 0x400);
    LowBitsOfVsid(k.vsid);
    XorLowBits(k.vsid % 0x8_0000, k.page, 10, 0x400);
    XorTwice(v, x);
    if h == 1 {
      ComplementLowBits(Hash(k, 0));
      XorBound(v, x, 10);
      XorComplement(BitXor(v, x), x, 10, 0x400);
    }
  }

  lemma {:induction false} LowBitsOfVsid(v: nat)
    ensures v % 0x8_0000 % 0x400 == v % 0x400
  {
    DivModUnique(v, 0x400, v / 0x8_0000 * 0x200 + v % 0x8_0000 / 0x400, v % 0x8_0000 % 0x400);
  }

  lemma {:induction false} SlotWords(t: Table, g: nat, s: nat)
    requires HasGroup(t, g) && s < 8
    ensures Pteh(t, g, s) == t[16 * g + 2 * s] && Ptel(t, g, s) == t[16 * g + 2 * s + 1]
  {
  }

  /** Entering a page writes two words: slot s of group g, the highest free slot but slot 0, gets
      a valid bit, the VSID, the hash bit and the six high bits of the page index, and behind it the
      lower word.  The group is the one the hash of VSID and page index selects, so that its ten low
      bits and those of the page index give those of the VSID; the complemented group is taken only
      if slots 1 to 7 of the primary one are. */
  lemma {:induction false} EnteredWords(sdr1: uint32, t: Table, p: Page) returns (g: nat, s: nat, h: HashBit)
    requires Fits(|t|, sdr1) && Insert(sdr1, t, p).Some?
    ensures HasGroup(t, g) && 1 <= s < 8
    ensures t[16 * g + 2 * s] == 0 && forall j :: s < j < 8 ==> Pteh(t, g, j) != 0
    ensures Insert(sdr1, t, p).value
            == t[16 * g + 2 * s := 0x8000_0000 + p.key.vsid * 0x80 + h * 0x40 + p.key.page / 0x20]
                [16 * g + 2 * s + 1 := p.ptel]
    ensures var x := BitXor(p.key.vsid % 0x8_0000, p.key.page);
            var hash := if h == 0 then x else 0xFFFF_FFFF - x;
            g == BitAnd(hash / 0x400, sdr1 % 0x200) * 0x400 + hash % 0x400
    ensures BitXor(g % 0x400, p.key.page % 0x400)
            == if h == 0 then p.key.vsid % 0x400 else 0x3FF - p.key.vsid % 0x400
    ensures h == 1 ==> Full(t, Home(sdr1, p.key, 0))
  {
    hide BitXor, BitAnd, TopFree;
    h := if InsertByHash(sdr1, t, p, 0).Some? then 0 else 1;
    g := Home(sdr1, p.key, h);
    HomeInTable(sdr1, p.key, h, |t|);
    HomeShowsVsid(sdr1, p.key, h);
    s := TopFree(t, g, 8 - 1);
    SlotWords(t, g, s);
  }

  /** A word that marks a valid entry for the page under hash h. */
  predicate Marks(w: uint32, k: Key, h: HashBit) {
    && w >= 0x8000_0000 && w / 0x40 % 2 == h
    && w / 0x80 % 0x100_0000 == k.vsid && w % 0x40 == k.page / 0x20
  }

  lemma {:induction false} MarksTag(w: uint32, k: Key, h: HashBit)
    ensures Marks(w, k, h) <==> w == Tag(k, h)
  {
    FieldsMakeTag(w, k, h);
    hide Tag;
    assert w / 0x8000_0000 != 0 <==> w >= 0x8000_0000;
  }

  /** The search of one group finds the first slot of the eight whose upper word marks the page. */
  lemma {:induction false} FindFindsFirst(t: Table, g: nat, k: Key, h: HashBit)
    requires HasGroup(t, g)
    ensures Find(t, g, Tag(k, h)).Some? <==> exists s :: 0 <= s < 8 && Marks(Pteh(t, g, s), k, h)
    ensures Find(t, g, Tag(k, h)).Some? ==>
              exists s :: 0 <= s < 8 && Marks(Pteh(t, g, s), k, h) && Find(t, g, Tag(k, h)).value.ptel == Ptel(t, g, s)
                          && forall j :: 0 <= j < s ==> !Marks(Pteh(t, g, j), k, h)
  {
    hide Tag, Marks, Pteh, Ptel;
    forall s | 0 <= s < 8
      ensures Marks(Pteh(t, g, s), k, h) <==> Pteh(t, g, s) == Tag(k, h)
    {
      MarksTag(Pteh(t, g, s), k, h);
    }
  }

  /** With the flag off, an entry is found if and only if a slot of the primary group holds a valid
      entry with hash bit 0, this VSID and this abbreviated page index. */
  lemma {:induction false} PrimaryLookupFinds(sdr1: uint32, t: Table, k: Key)
    requires Fits(|t|, sdr1)
    ensures var x := BitXor(k.vsid % 0x8_0000, k.page);
            var g := BitAnd(x / 0x400, sdr1 % 0x200) * 0x400 + x % 0x400;
            && HasGroup(t, g)
            && (Lookup(sdr1, t, k, false).Some? <==> exists s :: 0 <= s < 8 && Marks(Pteh(t, g, s), k, 0))
  {
    hide BitXor, BitAnd, Tag, Marks, Find, Pteh;
    HomeInTable(sdr1, k, 0, |t|);
    FindFindsFirst(t, Home(sdr1, k, 0), k, 0);
  }

  /** With the flag on, the complemented group is searched for an entry with hash bit 1 if and only
      if the primary group has none. */
  lemma {:induction false} FullLookupFinds(sdr1: uint32, t: Table, k: Key)
    requires Fits(|t|, sdr1)
    ensures var x := 0xFFFF_FFFF - BitXor(k.vsid % 0x8_0000, k.page);
            var g := BitAnd(x / 0x400, sdr1 % 0x200) * 0x400 + x % 0x400;
            && HasGroup(t, g)
            && (Lookup(sdr1, t, k, true).Some? <==>
                Lookup(sdr1, t, k, false).Some? || exists s :: 0 <= s < 8 && Marks(Pteh(t, g, s), k, 1))
            && (Lookup(sdr1, t, k, false).Some? ==> Lookup(sdr1, t, k, true) == Lookup(sdr1, t, k, false))
  {
    hide BitXor, BitAnd, Tag, Marks, Find, Pteh;
    HomeInTable(sdr1, k, 1, |t|);
    FindFindsFirst(t, Home(sdr1, k, 1), k, 1);
  }

  /** What mapMemory writes for one page, from the registers and the two addresses. */
  lemma {:induction false} MappedPageWords(sr: Registers, t: Table, paStart: uint32, eaStart: uint32, i: nat)
    returns (g: nat, s: nat, h: HashBit)
    requires Sixteen(sr) && Fits(|t|, sr.sdr1) && Insert(sr.sdr1, t, PageAt(sr, paStart, eaStart, i)).Some?
    ensures HasGroup(t, g) && 1 <= s < 8 && t[16 * g + 2 * s] == 0
    ensures forall j :: s < j < 8 ==> Pteh(t, g, j) != 0
    ensures h == 1 ==> Full(t, Home(sr.sdr1, PageAt(sr, paStart, eaStart, i).key, 0))
    ensures var ea, pa := Wrap(eaStart + i), Wrap(paStart + i);
            var vsid := sr.value[ea / 0x1000_0000] % 0x100_0000;
            var x := BitXor(vsid % 0x8_0000, ea / 0x2_0000 % 0x800);
            var hash := if h == 0 then x else 0xFFFF_FFFF - x;
            && g == BitAnd(hash / 0x400, sr.sdr1 % 0x200) * 0x400 + hash % 0x400
            && Insert(sr.sdr1, t, PageAt(sr, paStart, eaStart, i)).value
               == t[16 * g + 2 * s := 0x8000_0000 + vsid * 0x80 + h * 0x40 + ea / 0x40_0000 % 0x40]
                   [16 * g + 2 * s + 1 := pa / 0x1000 * 0x1000 + 0x192]
  {
    hide BitXor, BitAnd, Insert, Home;
    AbbreviatedIndex(Wrap(eaStart + i));
    g, s, h := EnteredWords(sr.sdr1, t, PageAt(sr, paStart, eaStart, i));
  }

  lemma {:induction false} LowBitOfEven(x: nat)
    requires x % 2 == 0
    ensures BitAnd(x, 1) == 0
  {
    HalveAnd(x, 1);
  }

  lemma {:induction false} EmptyTableTakes(sdr1: uint32, t: Table, p: Page)
    requires Fits(|t|, sdr1) && forall x :: 0 <= x < |t| ==> t[x] == 0
    ensures Insert(sdr1, t, p).Some? && !Full(t, Home(sdr1, p.key, 0))
  {
    hide Home, InsertByHash;
    HomeInTable(sdr1, p.key, 0, |t|);
    assert Pteh(t, Home(sdr1, p.key, 0), 1) == 0;
  }

  /** The first page of the address range at 0x80000000, entered in an empty table. */
  lemma {:induction false} OnePageEntered(sr: Registers, t: Table)
    requires Sixteen(sr) && sr.sdr1 == 1 && sr.value[8] == 0x00AA_BBCC
    requires |t| == 0x8000 && forall x :: 0 <= x < |t| ==> t[x] == 0
    ensures Fits(|t|, 1)
    ensures Insert(1, t, PageAt(sr, 0x2800_0000, 0x8000_0000, 0))
            == Some(t[0x3CCE := 0xD55D_E600][0x3CCF := 0x2800_0192])
  {
    hide BitXor, BitAnd, Insert, Home, Full, PageAt;
    var p := PageAt(sr, 0x2800_0000, 0x8000_0000, 0);
    EmptyTableTakes(1, t, p);
    var g, s, h := MappedPageWords(sr, t, 0x2800_0000, 0x8000_0000, 0);
    assert Pteh(t, g, 7) == 0;
    XorZero(0x2_BBCC);
    LowBitOfEven(0xAE);
  }

  /** One page mapped into an empty table. */
  lemma {:induction false} OnePageMapped(sr: Registers, t: Table)
    requires Sixteen(sr) && sr.sdr1 == 1 && sr.value[8] == 0x00AA_BBCC
    requires |t| == 0x8000 && forall x :: 0 <= x < |t| ==> t[x] == 0
    ensures Fits(|t|, sr.sdr1)
    ensures RunPages(sr.sdr1, t, PagesTried(sr, 0x2800_0000, 0x8000_0000, 0x2_0000, |t|))
            == Run(t[0x3CCE := 0xD55D_E600][0x3CCF := 0x2800_0192], true)
  {
    hide Insert, InsertAll, PageAt;
    var pages := PagesTried(sr, 0x2800_0000, 0x8000_0000, 0x2_0000, |t|);
    OnePageEntered(sr, t);
    assert pages == [PageAt(sr, 0x2800_0000, 0x8000_0000, 0)];
    InsertAllStep(1, t, pages);
    InsertNone(1, t[0x3CCE := 0xD55D_E600][0x3CCF := 0x2800_0192]);
  }
}
