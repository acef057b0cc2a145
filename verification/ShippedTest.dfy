/** The shipped layout from setup to the passed memory test. */
module ShippedTest {
  import opened PageTable
  import opened Occupancy
  import opened Layout
  import opened RegionMapper
  import opened Agreement
  import opened Shipped
  import opened MemoryTest
  import opened ReadingTest

  /** The shipped chunks lie below physical address 0x32000000. */
  lemma {:induction false} ShippedChunksInRam(words: nat)
    requires words >= 0xC80_0000
    ensures Terminated(MemMapping()) && AllInRam(MemMapping(), words)
  {
    ShippedRegions();
    assert InRam(NO_CHUNK, words) && InRam(HEAP_1, words) && InRam(HEAP_2, words) && InRam(HEAP_3, words);
    assert InRam(HEAP_4, words) && InRam(VIDEO, words);
  }

  /** Only segment 8 is used, it is paged, and it has no entry yet. */
  lemma {:induction false} ShippedSegments(sr: Registers, t: Table)
    requires Sixteen(sr) && sr.value[8] == SEGMENT_UNIQUE_ID && FreshVsid(t, SEGMENT_UNIQUE_ID)
    ensures Terminated(MemMapping())
    ensures DistinctVsids(sr, MemMapping()) && PagedSegments(sr, MemMapping()) && FreshSegments(sr, MemMapping(), t)
  {
    hide FreshVsid, MemMapping, InOneSegment, UsesSegment, DistinctVsids, Unaliased, CountableChunks;
    ShippedLayoutInSegment();
    OneSegmentUnaliased(sr, MemMapping(), 8);
  }

  /** On a table with bit 0 of the mask set, the unique VSID unused and a free slot in each primary
      group: after setup and after writing, the memory test of every shipped region passes through
      the page table. */
  lemma {:induction false} ShippedTestPasses(srTable: Registers, t: Table, r: Ram)
    requires Sixteen(srTable) && Fits(|t|, srTable.sdr1) && Mask(srTable.sdr1) % 2 == 1
    requires FreshVsid(t, SEGMENT_UNIQUE_ID) && |r| >= 0xC80_0000
    requires Terminated(MemMapping())
    requires HasRoom(srTable.sdr1, t, MappingPages(SetupRegisters(srTable), MemMapping(), 0))
    ensures AllInRam(MemMapping(), |r|)
    ensures var sr, m := SetupRegisters(srTable), MemMapping();
            AllPass(PageTableMmu(sr, InsertAll(sr.sdr1, t, MappingPages(sr, m, 0)).table), m, FilledRegions(r, m, 0))
  {
    hide MappingPages, HasRoom, FreshVsid, MemMapping, Fits, Mask, InsertAll, AllPass, AllInRam, PagedSegments,
      DistinctVsids, FreshSegments, FilledRegions, PageTableMmu, Complete, InOneSegment, UsesSegment, Mappable;
    var sr, m := SetupRegisters(srTable), MemMapping();
    ShippedLayoutWellFormed();
    ShippedLayoutInSegment();
    ShippedLayoutUsesSegment();
    ShippedSegments(sr, t);
    ShippedChunksInRam(|r|);
    OneSegmentSucceeds(sr, m, 8, t, 0x8000_0000);
    MappedRegionsPassTest(sr, m, t, r);
  }

  /** In particular on a table without entries. */
  lemma {:induction false} ShippedTestPassesOnEmptyTable(srTable: Registers, t: Table, r: Ram)
    requires Sixteen(srTable) && Fits(|t|, srTable.sdr1) && Mask(srTable.sdr1) % 2 == 1
    requires (forall x :: 0 <= x < |t| ==> t[x] == 0) && |r| >= 0xC80_0000
    ensures Terminated(MemMapping()) && AllInRam(MemMapping(), |r|)
    ensures var sr, m := SetupRegisters(srTable), MemMapping();
            AllPass(PageTableMmu(sr, InsertAll(sr.sdr1, t, MappingPages(sr, m, 0)).table), m, FilledRegions(r, m, 0))
  {
    hide MappingPages, HasRoom, FreshVsid, MemMapping, Fits, Mask, InsertAll, AllPass, AllInRam, FilledRegions,
      PageTableMmu;
    ShippedChunksInRam(|r|);
    EmptyTableIsReady(SetupRegisters(srTable), t, MemMapping());
    ShippedTestPasses(srTable, t, r);
  }
}
