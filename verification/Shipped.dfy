/** The layout and the setup that the module ships. */
module Shipped {
  import opened Words
  import opened Wrappers
  import opened PageTable
  import opened Occupancy
  import opened Translation
  import opened Layout
  import opened Translators
  import opened RegionMapper
  import opened Agreement

  const SEGMENT_UNIQUE_ID: uint32 := 0x00AA_BBCC

  // The single chunk of each region.
  const HEAP_1 := Chunk(0x2800_0000 + 0x0662_0000 + 0x2A_0000, 0x2800_0000 + 0x07F8_0000)
  const HEAP_2 := Chunk(0x2800_0000 + 0x0900_0000, 0x2800_0000 + 0x09E2_0000)
  const HEAP_3 := Chunk(0x2800_0000 + 0x058E_0000, 0x2800_0000 + 0x0600_0000)
  const HEAP_4 := Chunk(0x2800_0000 + 0x053C_0000, 0x2800_0000 + 0x0588_0000)
  const VIDEO := Chunk(0x1A02_0000, 0x1A02_0000 + 0xE6_0000)

  function OneChunk(ea: uint32, eaEnd: uint32, c: Chunk): Region {
    Region(ea, eaEnd, Some([c, NO_CHUNK]))
  }

  function MemMapping(): Mapping {
    [ OneChunk(0x8000_0000, 0x816C_0000, HEAP_1),
      OneChunk(0x816C_0000, 0x824E_0000, HEAP_2),
      OneChunk(0x824E_0000, 0x82C0_0000, HEAP_3),
      OneChunk(0x82C0_0000, 0x830C_0000, HEAP_4),
      OneChunk(0x8800_0000, 0x88E6_0000, VIDEO),
      Region(0, 0, None) ]
  }

  /** Region i is filled by the single chunk c and clear of the window. */
  lemma {:induction false} OneChunkRegion(m: Mapping, i: nat, c: Chunk)
    requires Terminated(m) && i < Regions(m) && m[i].physical == Some([c, NO_CHUNK])
    requires 0 < m[i].eaStart && WellFormedChunk(c)
    requires m[i].eaEnd - m[i].eaStart == Size(c)
    requires Disjoint(m[i].eaStart, m[i].eaEnd, WINDOW_EA, WINDOW_EA_END)
    requires Disjoint(c.start, c.end, WINDOW_PA, WINDOW_PA_END)
    ensures Chunks(m, i) == [c]
    ensures WellFormedRegion(m[i], Chunks(m, i)) && ClearOfWindow(m[i], Chunks(m, i)) && SelfDisjoint(Chunks(m, i))
  {
    assert [c, NO_CHUNK][..1] == [c];
    assert Offset([c], 1) == Size(c);
  }

  lemma {:induction false} ShippedRegions()
    ensures var m := MemMapping();
            && Terminated(m) && Regions(m) == 5
            && Chunks(m, 0) == [HEAP_1] && Chunks(m, 1) == [HEAP_2] && Chunks(m, 2) == [HEAP_3]
            && Chunks(m, 3) == [HEAP_4] && Chunks(m, 4) == [VIDEO]
            && forall i :: 0 <= i < 5 ==>
                 WellFormedRegion(m[i], Chunks(m, i)) && ClearOfWindow(m[i], Chunks(m, i))
                   && SelfDisjoint(Chunks(m, i))
  {
    hide WellFormedRegion, ClearOfWindow, SelfDisjoint;
    var m := MemMapping();
    assert Terminated(m);
    OneChunkRegion(m, 0, HEAP_1);
    OneChunkRegion(m, 1, HEAP_2);
    OneChunkRegion(m, 2, HEAP_3);
    OneChunkRegion(m, 3, HEAP_4);
    OneChunkRegion(m, 4, VIDEO);
  }

  lemma {:induction false} ShippedChunksDisjoint()
    ensures ChunksDisjoint([HEAP_1], [HEAP_2]) && ChunksDisjoint([HEAP_1], [HEAP_3])
    ensures ChunksDisjoint([HEAP_1], [HEAP_4]) && ChunksDisjoint([HEAP_1], [VIDEO])
    ensures ChunksDisjoint([HEAP_2], [HEAP_3]) && ChunksDisjoint([HEAP_2], [HEAP_4])
    ensures ChunksDisjoint([HEAP_2], [VIDEO]) && ChunksDisjoint([HEAP_3], [HEAP_4])
    ensures ChunksDisjoint([HEAP_3], [VIDEO]) && ChunksDisjoint([HEAP_4], [VIDEO])
  {
  }

  /** The shipped layout obeys its own alignment rule, its ranges are disjoint, its chunks fill
      its regions, and it stays clear of the fixed window. */
  lemma {:induction false} ShippedLayoutWellFormed()
    ensures Mappable(MemMapping())
  {
    hide WellFormedRegion, ClearOfWindow, SelfDisjoint, ChunksDisjoint;
    var m := MemMapping();
    ShippedRegions();
    ShippedChunksDisjoint();
    assert forall i :: 0 <= i < Regions(m) ==> m[i].eaStart % 0x2_0000 == 0 && AlignedChunks(Chunks(m, i));
  }

  lemma {:induction false} ShippedLayoutInSegment()
    ensures Terminated(MemMapping()) && CountableChunks(MemMapping()) && InOneSegment(MemMapping(), 8)
  {
    hide WellFormed, PageAligned, CountableChunks;
    ShippedLayoutWellFormed();
    ShippedRegions();
    WellFormedIsCountable(MemMapping());
  }

  lemma {:induction false} ShippedLayoutUsesSegment()
    ensures Terminated(MemMapping()) && UsesSegment(MemMapping(), 8)
  {
    hide ChunksTerminated;
    ShippedLayoutInSegment();
    assert InRegion(MemMapping()[0], 0x8000_0000) && EaMapped(MemMapping(), 0x8000_0000) && Segment(0x8000_0000) == 8;
  }

  /** The registers after setup. */
  function SetupRegisters(srTable: Registers): Registers
    requires Sixteen(srTable)
  {
    srTable.(value := srTable.value[8 := SEGMENT_UNIQUE_ID])
  }

  /** setupMemoryMapping, from the copied registers and page table on: give segment 8 its own
      VSID and map the shipped layout. */
  method SetupMemoryMapping(srTable: Registers, pageTable: array<uint32>) returns (sr: Registers)
    requires Sixteen(srTable) && AlignedOrigin(srTable.sdr1)
    requires pageTable.Length == 0x8000 && Fits(0x8000, srTable.sdr1)
    modifies pageTable
    ensures sr == SetupRegisters(srTable)
    ensures sr.sdr1 == srTable.sdr1 && Sixteen(sr) && sr.value[8] == 0x00AA_BBCC
    ensures forall s :: 0 <= s < 16 && s != 8 ==> sr.value[s] == srTable.value[s]
    ensures pageTable[..] == InsertAll(sr.sdr1, old(pageTable[..]), MappingPages(sr, MemMapping(), 0)).table
  {
    ShippedLayoutInSegment();
    var segmentIndex := 0x8000_0000 / 0x1000_0000;
    var segmentContent := 0x0000_0000 + SEGMENT_UNIQUE_ID;
    sr := srTable.(value := srTable.value[segmentIndex := segmentContent]);
    MemoryMappingForRegions(MemMapping(), sr, pageTable);
  }

  /** Setup gives segment 8 a paged segment with the unique VSID and keeps SDR1 and all other
      registers. */
  lemma {:induction false} SetupKeepsRegisters(srTable: Registers, s: nat)
    requires Sixteen(srTable) && s < 16
    ensures var sr := SetupRegisters(srTable);
            && sr.sdr1 == srTable.sdr1 && Sixteen(sr)
            && sr.value[s] == if s == 8 then 0x00AA_BBCC else srTable.value[s]
    ensures var sr := SetupRegisters(srTable); !DirectStore(sr, 8) && sr.value[8] % 0x100_0000 == 0x00AA_BBCC
  {
  }

  /** Setup keeps the translation of every address outside segment 8 whose segment does not have
      the unique VSID, whatever the table holds and whether or not all pages found a slot. */
  lemma {:induction false} SetupKeepsOthers(srTable: Registers, t: Table, ea: uint32, both: bool)
    requires Sixteen(srTable) && Fits(|t|, srTable.sdr1) && Segment(ea) != 8
    requires srTable.value[Segment(ea)] % 0x100_0000 != 0x00AA_BBCC
    ensures Terminated(MemMapping())
    ensures var sr := SetupRegisters(srTable);
            var t' := InsertAll(sr.sdr1, t, MappingPages(sr, MemMapping(), 0)).table;
            && DirectStore(sr, Segment(ea)) == DirectStore(srTable, Segment(ea))
            && Lookup(sr.sdr1, t', KeyOf(sr, ea), both) == Lookup(srTable.sdr1, t, KeyOf(srTable, ea), both)
  {
    hide MappingPages, Lookup, InsertAll, MemMapping, Mappable, InOneSegment, CountableChunks;
    var sr := SetupRegisters(srTable);
    ShippedLayoutWellFormed();
    ShippedLayoutInSegment();
    OneSegmentPages(sr, MemMapping(), 8);
    InsertAllKeepsOthers(sr.sdr1, t, MappingPages(sr, MemMapping(), 0), KeyOf(srTable, ea), both);
  }

  /** Where the shipped layout puts the byte at distance d from the start of each region. */
  lemma {:induction false} ShippedTranslations(d: nat)
    ensures var m := MemMapping();
            && Terminated(m)
            && (d < 0x16C_0000 ==> Physical(m, 0x8000_0000 + d) == 0x2E8C_0000 + d)
            && (d < 0xE2_0000 ==> Physical(m, 0x816C_0000 + d) == 0x3100_0000 + d)
            && (d < 0x72_0000 ==> Physical(m, 0x824E_0000 + d) == 0x2D8E_0000 + d)
            && (d < 0x4C_0000 ==> Physical(m, 0x82C0_0000 + d) == 0x2D3C_0000 + d)
            && (d < 0xE6_0000 ==> Physical(m, 0x8800_0000 + d) == 0x1A02_0000 + d)
  {
    hide Physical, Mappable;
    ShippedLayoutWellFormed();
    ShippedRegions();
    ShippedByte(0, d);
    ShippedByte(1, d);
    ShippedByte(2, d);
    ShippedByte(3, d);
    ShippedByte(4, d);
  }

  /** Byte d of region i is byte d of its only chunk. */
  lemma {:induction false} ShippedByte(i: nat, d: nat)
    requires i < 5
    ensures var m := MemMapping(); Terminated(m) && Regions(m) == 5 && |Chunks(m, i)| == 1
    ensures var m := MemMapping();
            d < Size(Chunks(m, i)[0]) ==>
              m[i].eaStart + d < 0x1_0000_0000 && Physical(m, m[i].eaStart + d) == Chunks(m, i)[0].start + d
  {
    hide Physical, Mappable, WellFormed, WellFormedRegion, ClearOfWindow, SelfDisjoint;
    ShippedRegions();
    ShippedMappable();
    if d < Size(Chunks(MemMapping(), i)[0]) {
      PhysicalAt(MemMapping(), Location(i, 0, d));
    }
  }

  lemma {:induction false} ShippedMappable()
    ensures WellFormed(MemMapping())
  {
    ShippedLayoutWellFormed();
  }

  /** After setup, on a table with bit 0 of the mask set, the unique VSID unused and a free slot in
      each primary group: in segment 8 the page table translates exactly the addresses of the
      shipped regions, to where the software walk puts them. */
  lemma {:induction false} SetupAgrees(srTable: Registers, t: Table, ea: uint32)
    requires Sixteen(srTable) && Fits(|t|, srTable.sdr1) && Mask(srTable.sdr1) % 2 == 1
    requires FreshVsid(t, SEGMENT_UNIQUE_ID)
    requires var sr := SetupRegisters(srTable);
             Terminated(MemMapping()) && HasRoom(sr.sdr1, t, MappingPages(sr, MemMapping(), 0))
    requires Segment(ea) == 8
    ensures var sr := SetupRegisters(srTable);
            var m := MemMapping();
            var hit := Lookup(sr.sdr1, InsertAll(sr.sdr1, t, MappingPages(sr, m, 0)).table, KeyOf(sr, ea), false);
            && (hit.Some? <==> EaMapped(m, ea))
            && (hit.Some? ==> Frame(hit.value.ptel) + ea % 0x2_0000 == Physical(m, ea))
  {
    hide MappingPages, HasRoom, FreshVsid, Lookup, InsertAll, KeyOf, Physical, MemMapping;
    var sr := SetupRegisters(srTable);
    var m := MemMapping();
    ShippedLayoutWellFormed();
    ShippedLayoutInSegment();
    ShippedLayoutUsesSegment();
    OneSegmentUnaliased(sr, m, 8);
    OneSegmentSucceeds(sr, m, 8, t, ea);
  }

  /** The conditions can be met: a page table without entries is ready for the shipped layout. */
  lemma {:induction false} EmptyTableIsReady(sr: Registers, t: Table, m: Mapping)
    requires Sixteen(sr) && Fits(|t|, sr.sdr1) && Terminated(m)
    requires forall x :: 0 <= x < |t| ==> t[x] == 0
    ensures FreshVsid(t, SEGMENT_UNIQUE_ID) && HasRoom(sr.sdr1, t, MappingPages(sr, m, 0))
  {
    hide MappingPages;
    forall g | 0 <= g && HasGroup(t, g)
      ensures !Full(t, g)
    {
      assert Pteh(t, g, 1) == 0;
    }
    var pages := MappingPages(sr, m, 0);
    forall i | 0 <= i < |pages|
      ensures !Full(t, Home(sr.sdr1, pages[i].key, 0))
    {
    }
  }
}
