/** The page table that the region mapper fills agrees with the software translators. */
module Agreement {
  import opened Words
  import opened PageTable
  import opened Occupancy
  import opened Translation
  import opened Layout
  import opened Translators
  import opened RegionMapper

  /** A region of the layout lies, at least in part, in segment s. */
  ghost predicate UsesSegment(m: Mapping, s: nat)
    requires Terminated(m)
  {
    exists ea: uint32 :: EaMapped(m, ea) && Segment(ea) == s
  }

  /** No other segment that the layout uses has the VSID of segment s. */
  ghost predicate Unaliased(sr: Registers, m: Mapping, s: nat)
    requires Sixteen(sr) && Terminated(m) && s < 16
  {
    forall s' :: 0 <= s' < 16 && s' != s && UsesSegment(m, s')
      ==> sr.value[s'] % 0x100_0000 != sr.value[s] % 0x100_0000
  }

  /** The segments the layout uses have pairwise distinct VSIDs. */
  ghost predicate DistinctVsids(sr: Registers, m: Mapping)
    requires Sixteen(sr) && Terminated(m)
  {
    forall s :: 0 <= s < 16 && UsesSegment(m, s) ==> Unaliased(sr, m, s)
  }

  /** No valid entry carries the VSID. */
  ghost predicate FreshVsid(t: Table, vsid: Vsid) {
    forall g, s :: 0 <= g && HasGroup(t, g) && 0 <= s < 8
      ==> !(Pteh(t, g, s) / 0x8000_0000 == 1 && Pteh(t, g, s) / 0x80 % 0x100_0000 == vsid)
  }

  lemma {:induction false} FreshVsidMisses(sdr1: uint32, t: Table, k: Key)
    requires Fits(|t|, sdr1) && FreshVsid(t, k.vsid)
    ensures FindByHash(sdr1, t, k, 0).None? && FindByHash(sdr1, t, k, 1).None?
    ensures Translate(sdr1, t, k).None?
  {
    forall h: HashBit
      ensures FindByHash(sdr1, t, k, h).None?
    {
      TagFields(k, h);
      hide Tag, Home;
      var g := Home(sdr1, k, h);
      assert forall s :: 0 <= s < 8 ==> Pteh(t, g, s) != Tag(k, h);
    }
  }

  /** Without aliases, distinct pages have distinct keys. */
  lemma {:induction false} KeyIdentifiesPage(sr: Registers, m: Mapping, ea: uint32, ea': uint32)
    requires Sixteen(sr) && Terminated(m) && EaMapped(m, ea) && Unaliased(sr, m, Segment(ea'))
    requires KeyOf(sr, ea) == KeyOf(sr, ea')
    ensures ea / 0x2_0000 == ea' / 0x2_0000
  {
    assert UsesSegment(m, Segment(ea));
    assert Segment(ea) == Segment(ea');
    PageNumberParts(ea);
    PageNumberParts(ea');
  }

  lemma {:induction false} PageNumberParts(ea: uint32)
    ensures ea / 0x2_0000 == ea / 0x1000_0000 * 0x800 + ea / 0x2_0000 % 0x800
  {
    var x := ea / 0x2_0000;
    DivModUnique(ea, 0x1000_0000, x / 0x800, x % 0x800 * 0x2_0000 + ea % 0x2_0000);
  }

  /** An address and the start of its page have the same key. */
  lemma {:induction false} KeyOfPage(sr: Registers, ea: uint32)
    requires Sixteen(sr)
    ensures KeyOf(sr, ea - ea % 0x2_0000) == KeyOf(sr, ea)
    ensures (ea - ea % 0x2_0000) / 0x2_0000 == ea / 0x2_0000
  {
    var e := ea - ea % 0x2_0000;
    DivModUnique(e, 0x2_0000, ea / 0x2_0000, 0);
    SamePageKey(sr, ea, e);
  }

  /** The pages of the layout, each with the address it starts at. */
  lemma {:induction false} ListedPage(sr: Registers, m: Mapping, p: nat)
    requires Sixteen(sr) && Mappable(m) && p < |MappingPages(sr, m, 0)|
    ensures |Eas(m, 0)| == |MappingPages(sr, m, 0)|
    ensures var ea := Eas(m, 0)[p];
            && 0 <= ea < 0x1_0000_0000 && ea % 0x2_0000 == 0 && EaMapped(m, ea)
            && MappingPages(sr, m, 0)[p] == PageFor(sr, ea, Physical(m, ea))
  {
    hide MappingPages, Eas, Physical;
    MappingPagesBacked(sr, m, 0);
    var ea := Eas(m, 0)[p];
    EasMembers(m, 0, ea);
    var r :| 0 <= r < Regions(m) && m[r].eaStart <= ea < m[r].eaEnd;
    assert InRegion(m[r], ea);
  }

  lemma {:induction false} MappingKeysDistinct(sr: Registers, m: Mapping)
    requires Sixteen(sr) && Mappable(m) && DistinctVsids(sr, m)
    ensures DistinctKeys(MappingPages(sr, m, 0))
  {
    hide MappingPages, Eas, Physical, KeyOf, Unaliased;
    var pages := MappingPages(sr, m, 0);
    EasDistinct(m, 0);
    forall p, q | 0 <= p < q < |pages|
      ensures pages[p].key != pages[q].key
    {
      ListedPage(sr, m, p);
      ListedPage(sr, m, q);
      assert UsesSegment(m, Segment(Eas(m, 0)[q]));
      if pages[p].key == pages[q].key {
        KeyIdentifiesPage(sr, m, Eas(m, 0)[p], Eas(m, 0)[q]);
        assert false;
      }
    }
  }

  lemma {:induction false} StartListed(m: Mapping, ea: uint32)
    requires Mappable(m) && EaMapped(m, ea)
    ensures EaMapped(m, ea - ea % 0x2_0000) && ea - ea % 0x2_0000 in Eas(m, 0)
  {
    hide Eas, Mappable;
    MappableIsTerminated(m);
    var start := ea - ea % 0x2_0000;
    var r :| 0 <= r < Regions(m) && InRegion(m[r], ea);
    PageShape(m, r);
    assert InRegion(m[r], start);
    EasMembers(m, 0, start);
  }

  /** The position in the flattened list of the page that holds a mapped address. */
  lemma {:induction false} PositionOf(sr: Registers, m: Mapping, ea: uint32) returns (p: nat)
    requires Sixteen(sr) && Mappable(m) && EaMapped(m, ea)
    ensures p < |MappingPages(sr, m, 0)|
    ensures var start := ea - ea % 0x2_0000;
            MappingPages(sr, m, 0)[p] == PageFor(sr, start, Physical(m, start)) && EaMapped(m, start)
  {
    hide MappingPages, Eas, Physical, KeyOf, PtelFor;
    StartListed(m, ea);
    MappingPagesBacked(sr, m, 0);
    p :| 0 <= p < |Eas(m, 0)| && Eas(m, 0)[p] == ea - ea % 0x2_0000;
  }

  /** Both the start of a page and a byte in it are backed by one physical page. */
  lemma {:induction false} PhysicalWithinPage(m: Mapping, ea: uint32)
    requires Mappable(m) && EaMapped(m, ea)
    ensures Physical(m, ea) % 0x2_0000 == ea % 0x2_0000
    ensures Physical(m, ea - ea % 0x2_0000) == Physical(m, ea) - ea % 0x2_0000
  {
    hide Physical;
    var l := LocateEa(m, ea);
    var x := ea % 0x2_0000;
    LocationAligned(m, l);
    var l' := Location(l.i, l.j, l.d - x);
    assert Within(m, l');
    PhysicalAt(m, l);
    PhysicalAt(m, l');
  }

  lemma {:induction false} LocationAligned(m: Mapping, l: Location)
    requires Mappable(m) && Within(m, l)
    ensures EaOf(m, l) % 0x2_0000 == l.d % 0x2_0000 == PaOf(m, l) % 0x2_0000
  {
    PageShape(m, l.i);
    OffsetAligned(Chunks(m, l.i), l.j);
    AlignedSum(m[l.i].eaStart, Offset(Chunks(m, l.i), l.j), l.d);
    AlignedSum(Chunks(m, l.i)[l.j].start, 0, l.d);
  }

  /** What the mapper does to the translation of ea: if ea lies in a region and the page of ea
      was reached before the table filled up, ea is translated to where the software walk puts
      it; every other address keeps the translation it had.  Of the segment of ea it asks only
      that no used segment shares its VSID. */
  lemma {:induction false} MapperEffect(sr: Registers, m: Mapping, t: Table, ea: uint32)
    requires Sixteen(sr) && Fits(|t|, sr.sdr1) && Mappable(m)
    requires DistinctVsids(sr, m) && Unaliased(sr, m, Segment(ea))
    requires AllMissing(sr.sdr1, t, MappingPages(sr, m, 0))
    ensures var o := InsertAll(sr.sdr1, t, MappingPages(sr, m, 0));
            var now := Translate(sr.sdr1, o.table, KeyOf(sr, ea));
            if EaMapped(m, ea) && KeyOf(sr, ea) in KeysOf(MappingPages(sr, m, 0)[..o.count])
            then now.Some? && Frame(now.value) + ea % 0x2_0000 == Physical(m, ea)
            else now == Translate(sr.sdr1, t, KeyOf(sr, ea))
  {
    hide MappingPages, Physical, KeyOf, DistinctVsids, Unaliased, InsertAll, Translate, AllMissing;
    var pages := MappingPages(sr, m, 0);
    var n := InsertAll(sr.sdr1, t, pages).count;
    var k := KeyOf(sr, ea);
    MappingKeysDistinct(sr, m);
    InsertAllRefinesUpdate(sr.sdr1, t, pages, k);
    KeysAssigned(pages[..n], k);
    if k in KeysOf(pages[..n]) {
      var p :| 0 <= p < n && pages[p].key == k;
      AssignedAt(pages[..n], p);
      ListedKey(sr, m, p, ea);
    }
  }

  function KeysOf(pages: seq<Page>): set<Key> {
    set p | 0 <= p < |pages| :: pages[p].key
  }

  lemma {:induction false} KeysAssigned(pages: seq<Page>, k: Key)
    ensures k in KeysOf(pages) <==> Assigned(pages, k).Some?
  {
  }

  /** A listed page with the key of ea is the page of ea. */
  lemma {:induction false} ListedKey(sr: Registers, m: Mapping, p: nat, ea: uint32)
    requires Sixteen(sr) && Mappable(m) && Unaliased(sr, m, Segment(ea)) && p < |MappingPages(sr, m, 0)|
    requires MappingPages(sr, m, 0)[p].key == KeyOf(sr, ea)
    ensures EaMapped(m, ea)
    ensures Frame(MappingPages(sr, m, 0)[p].ptel) + ea % 0x2_0000 == Physical(m, ea)
  {
    hide MappingPages, Eas, Physical, KeyOf, Unaliased;
    ListedPage(sr, m, p);
    var e := Eas(m, 0)[p];
    KeyIdentifiesPage(sr, m, e, ea);
    SamePageMapped(m, e, ea);
    PhysicalWithinPage(m, ea);
    FrameOfEntry(Physical(m, e));
  }

  lemma {:induction false} SamePageMapped(m: Mapping, e: uint32, ea: uint32)
    requires Mappable(m) && EaMapped(m, e) && e % 0x2_0000 == 0 && e / 0x2_0000 == ea / 0x2_0000
    ensures EaMapped(m, ea) && e == ea - ea % 0x2_0000
  {
    hide Mappable;
    MappableIsTerminated(m);
    var r :| 0 <= r < Regions(m) && InRegion(m[r], e);
    PageShape(m, r);
    PageInside(m[r].eaEnd, e, ea);
    assert InRegion(m[r], ea);
  }

  lemma {:induction false} PageInside(end: nat, e: nat, ea: nat)
    requires end % 0x2_0000 == 0 && e % 0x2_0000 == 0 && e < end && e / 0x2_0000 == ea / 0x2_0000
    ensures e <= ea < end && e == ea - ea % 0x2_0000
  {
  }

  /** Every page of the layout found a slot. */
  predicate Complete(sr: Registers, m: Mapping, t: Table)
    requires Sixteen(sr) && Fits(|t|, sr.sdr1) && Terminated(m)
  {
    InsertAll(sr.sdr1, t, MappingPages(sr, m, 0)).count == |MappingPages(sr, m, 0)|
  }

  /** No entry for a segment that the layout uses. */
  ghost predicate FreshSegments(sr: Registers, m: Mapping, t: Table)
    requires Sixteen(sr) && Terminated(m)
  {
    forall s :: 0 <= s < 16 && UsesSegment(m, s) ==> FreshVsid(t, sr.value[s] % 0x100_0000)
  }

  lemma {:induction false} FreshSegmentsMiss(sr: Registers, m: Mapping, t: Table)
    requires Sixteen(sr) && Fits(|t|, sr.sdr1) && Mappable(m) && FreshSegments(sr, m, t)
    ensures AllMissing(sr.sdr1, t, MappingPages(sr, m, 0))
    ensures MissingInPrimary(sr.sdr1, t, MappingPages(sr, m, 0))
  {
    hide MappingPages, Eas, Physical, FreshVsid, Translate, FindByHash;
    var pages := MappingPages(sr, m, 0);
    forall p | 0 <= p < |pages|
      ensures Translate(sr.sdr1, t, pages[p].key).None? && FindByHash(sr.sdr1, t, pages[p].key, 0).None?
    {
      ListedPage(sr, m, p);
      var ea := Eas(m, 0)[p];
      assert UsesSegment(m, Segment(ea));
      FreshVsidMisses(sr.sdr1, t, KeyOf(sr, ea));
    }
  }

  /** The page table agrees with the software walk.  After mapping a well-formed layout into a
      table without entries for its segments, in which every page found a slot: every address
      of a region is translated to where the software walk puts it, and the pages of those
      segments outside the regions are not translated, where the software walk gives 0. */
  lemma {:induction false} PageTableAgreesWithWalk(sr: Registers, m: Mapping, t: Table, ea: uint32)
    requires Sixteen(sr) && Fits(|t|, sr.sdr1) && Mappable(m) && DistinctVsids(sr, m)
    requires FreshSegments(sr, m, t) && Complete(sr, m, t)
    requires UsesSegment(m, Segment(ea))
    ensures var now := Translate(sr.sdr1, InsertAll(sr.sdr1, t, MappingPages(sr, m, 0)).table, KeyOf(sr, ea));
            && (now.Some? <==> EaMapped(m, ea))
            && (now.Some? ==> Frame(now.value) + ea % 0x2_0000 == Physical(m, ea))
            && (now.None? && !InEaWindow(ea) ==> Physical(m, ea) == 0)
  {
    hide MappingPages, Physical, KeyOf, Unaliased, InsertAll, Translate, AllMissing, FreshVsid;
    var pages := MappingPages(sr, m, 0);
    assert pages[..|pages|] == pages;
    FreshSegmentsMiss(sr, m, t);
    MapperEffect(sr, m, t, ea);
    EffectiveRoundTrip(m, ea);
    if EaMapped(m, ea) {
      var p := PositionOf(sr, m, ea);
      KeyOfPage(sr, ea);
      assert pages[p].key in KeysOf(pages);
    } else {
      FreshSegmentMiss(sr, m, t, ea);
    }
  }

  lemma {:induction false} FreshSegmentMiss(sr: Registers, m: Mapping, t: Table, ea: uint32)
    requires Sixteen(sr) && Fits(|t|, sr.sdr1) && Terminated(m) && FreshSegments(sr, m, t)
    requires UsesSegment(m, Segment(ea))
    ensures Translate(sr.sdr1, t, KeyOf(sr, ea)).None? && FindByHash(sr.sdr1, t, KeyOf(sr, ea), 0).None?
  {
    hide FreshVsid, Translate, FindByHash;
    FreshVsidMisses(sr.sdr1, t, KeyOf(sr, ea));
  }

  /** The whole layout lies in segment s. */
  predicate InOneSegment(m: Mapping, s: nat)
    requires Terminated(m)
  {
    forall i :: 0 <= i < Regions(m) ==> s * 0x1000_0000 <= m[i].eaStart && m[i].eaEnd <= (s + 1) * 0x1000_0000
  }

  lemma {:induction false} OneSegmentPages(sr: Registers, m: Mapping, s: nat)
    requires Sixteen(sr) && Mappable(m) && s < 16 && InOneSegment(m, s)
    ensures OneVsid(MappingPages(sr, m, 0), sr.value[s] % 0x100_0000)
  {
    hide MappingPages, Eas, Physical;
    var pages := MappingPages(sr, m, 0);
    forall p | 0 <= p < |pages|
      ensures pages[p].key.vsid == sr.value[s] % 0x100_0000
    {
      ListedPage(sr, m, p);
      MappedInSegment(m, s, Eas(m, 0)[p]);
    }
  }

  lemma {:induction false} MappedInSegment(m: Mapping, s: nat, ea: uint32)
    requires Terminated(m) && InOneSegment(m, s) && EaMapped(m, ea)
    ensures Segment(ea) == s
  {
  }

  lemma {:induction false} OneSegmentUnaliased(sr: Registers, m: Mapping, s: nat)
    requires Sixteen(sr) && Terminated(m) && s < 16 && InOneSegment(m, s)
    ensures Unaliased(sr, m, s) && DistinctVsids(sr, m)
    ensures forall s' :: UsesSegment(m, s') ==> s' == s
  {
    hide InOneSegment;
    forall s' | UsesSegment(m, s')
      ensures s' == s
    {
      var ea: uint32 :| EaMapped(m, ea) && Segment(ea) == s';
      MappedInSegment(m, s, ea);
    }
  }

  /** A layout inside one segment, bit 0 of the hash mask set, a free slot in the primary group
      of each page: mapping cannot fail, and already the primary-only lookup finds every page
      and only those. */
  lemma {:induction false} OneSegmentSucceeds(sr: Registers, m: Mapping, s: nat, t: Table, ea: uint32)
    requires Sixteen(sr) && Fits(|t|, sr.sdr1) && Mappable(m)
    requires s < 16 && InOneSegment(m, s) && UsesSegment(m, s) && FreshSegments(sr, m, t)
    requires Mask(sr.sdr1) % 2 == 1 && HasRoom(sr.sdr1, t, MappingPages(sr, m, 0))
    requires Segment(ea) == s
    ensures Complete(sr, m, t)
    ensures var hit := Lookup(sr.sdr1, InsertAll(sr.sdr1, t, MappingPages(sr, m, 0)).table, KeyOf(sr, ea), false);
            && (hit.Some? <==> EaMapped(m, ea))
            && (hit.Some? ==> Frame(hit.value.ptel) + ea % 0x2_0000 == Physical(m, ea))
  {
    hide MappingPages, Physical, KeyOf, DistinctVsids, Unaliased, InsertAll, FindByHash, HasRoom, FreshVsid,
      AllMissing, Translate;
    var pages := MappingPages(sr, m, 0);
    var k := KeyOf(sr, ea);
    var vsid := sr.value[s] % 0x100_0000;
    FreshSegmentsMiss(sr, m, t);
    OneSegmentUnaliased(sr, m, s);
    MappingKeysDistinct(sr, m);
    OneSegmentPages(sr, m, s);
    RoomSuffices(sr.sdr1, t, pages, vsid);
    PrimaryLookupSeesAll(sr.sdr1, t, pages, vsid, k);
    KeysAssigned(pages, k);
    FreshSegmentMiss(sr, m, t, ea);
    if EaMapped(m, ea) {
      var p := PositionOf(sr, m, ea);
      KeyOfPage(sr, ea);
      assert pages[p].key in KeysOf(pages);
    }
    if k in KeysOf(pages) {
      var p :| 0 <= p < |pages| && pages[p].key == k;
      AssignedAt(pages, p);
      ListedKey(sr, m, p, ea);
    }
  }
}
