/** The two software translators that walk the layout table. */
module Translators {
  import opened Words
  import opened Wrappers
  import opened Layout

  // ---- Effective to physical

  /** The walk over a chunk list from effective address curOffset on. */
  function ChunkWalk(v: seq<Chunk>, ea: uint32, curOffset: uint32): uint32 {
    if v == [] || v[0].end == 0 then 0
    else
      var next := Wrap(curOffset + Wrap(v[0].end - v[0].start));
      if ea < next then Wrap(ea - curOffset + v[0].start) else ChunkWalk(v[1..], ea, next)
  }

  /** The first region from i on that holds ea, or the terminator. */
  function FindRegion(m: Mapping, ea: uint32, i: nat): (r: nat)
    requires Terminated(m) && i <= Regions(m)
    ensures i <= r <= Regions(m)
    ensures r < Regions(m) ==> InRegion(m[r], ea)
    ensures forall k :: i <= k < r ==> !InRegion(m[k], ea)
    decreases Regions(m) - i
  {
    if i == Regions(m) || InRegion(m[i], ea) then i else FindRegion(m, ea, i + 1)
  }

  function Physical(m: Mapping, ea: uint32): uint32
    requires Terminated(m)
  {
    if WINDOW_EA <= ea < WINDOW_EA_END then ea + (WINDOW_PA - WINDOW_EA)
    else
      var r := FindRegion(m, ea, 0);
      if r == Regions(m) then 0 else ChunkWalk(m[r].physical.value, ea, m[r].eaStart)
  }

  method EffectiveToPhysical(m: Mapping, effectiveAddress: uint32) returns (result: uint32)
    requires Terminated(m)
    ensures result == Physical(m, effectiveAddress)
  {
    if effectiveAddress >= 0x0080_0000 && effectiveAddress < 0x0100_0000 {
      return effectiveAddress + (0x3080_0000 - 0x0080_0000);
    }
    result := 0;
    var curMemValues: Option<seq<Chunk>> := None;
    var curOffset: uint32 := 0;

    var i := 0;
    while m[i].physical.Some?
      invariant 0 <= i <= Regions(m)
      invariant FindRegion(m, effectiveAddress, 0) == FindRegion(m, effectiveAddress, i)
      invariant curMemValues.None?
      decreases Regions(m) - i
    {
      if effectiveAddress >= m[i].eaStart && effectiveAddress < m[i].eaEnd {
        curMemValues := m[i].physical;
        curOffset := m[i].eaStart;
        break;
      }
      i := i + 1;
    }
    if curMemValues.None? {
      return;
    }
    var v := curMemValues.value;
    var j := 0;
    while v[j].end != 0
      invariant 0 <= j < |v|
      invariant result == 0
      invariant ChunkWalk(v, effectiveAddress, m[i].eaStart) == ChunkWalk(v[j..], effectiveAddress, curOffset)
      decreases |v| - j
    {
      assert v[j..][1..] == v[j + 1..];
      var curChunkSize := Wrap(v[j].end - v[j].start);
      if effectiveAddress < Wrap(curOffset + curChunkSize) {
        result := Wrap(effectiveAddress - curOffset + v[j].start);
        break;
      }
      curOffset := Wrap(curOffset + curChunkSize);
      j := j + 1;
    }
  }

  // ---- Physical to effective

  /** The search of a chunk list whose first chunk lies curOffset bytes into the region. */
  function ChunkSearch(v: seq<Chunk>, pa: uint32, eaStart: uint32, curOffset: uint32): Option<uint32> {
    if v == [] || v[0].end == 0 then None
    else if InChunk(v[0], pa) then Some(Wrap(pa - v[0].start + (eaStart + curOffset)))
    else ChunkSearch(v[1..], pa, eaStart, Wrap(curOffset + (v[0].end - v[0].start)))
  }

  function RegionSearch(m: Mapping, pa: uint32, i: nat): uint32
    requires Terminated(m) && i <= Regions(m)
    decreases Regions(m) - i
  {
    if i == Regions(m) then 0
    else
      match ChunkSearch(m[i].physical.value, pa, m[i].eaStart, 0)
      case Some(ea) => ea
      case None => RegionSearch(m, pa, i + 1)
  }

  function Effective(m: Mapping, pa: uint32): uint32
    requires Terminated(m)
  {
    if WINDOW_PA <= pa < WINDOW_PA_END then pa - (WINDOW_PA - WINDOW_EA) else RegionSearch(m, pa, 0)
  }

  method PhysicalToEffective(m: Mapping, physicalAddress: uint32) returns (result: uint32)
    requires Terminated(m)
    ensures result == Effective(m, physicalAddress)
  {
    if physicalAddress >= 0x3080_0000 && physicalAddress < 0x3100_0000 {
      return physicalAddress - (0x3080_0000 - 0x0080_0000);
    }
    result := 0;
    var i := 0;
    while m[i].physical.Some?
      invariant 0 <= i <= Regions(m)
      invariant result == 0
      invariant RegionSearch(m, physicalAddress, 0) == RegionSearch(m, physicalAddress, i)
      decreases Regions(m) - i
    {
      var v := m[i].physical.value;
      var curOffsetInEA: uint32 := 0;
      var j := 0;
      while v[j].end != 0
        invariant 0 <= j < |v|
        invariant ChunkSearch(v, physicalAddress, m[i].eaStart, 0)
                  == ChunkSearch(v[j..], physicalAddress, m[i].eaStart, curOffsetInEA)
        decreases |v| - j
      {
        assert v[j..][1..] == v[j + 1..];
        if physicalAddress >= v[j].start && physicalAddress < v[j].end {
          result := Wrap(physicalAddress - v[j].start + (m[i].eaStart + curOffsetInEA));
          return;
        }
        curOffsetInEA := Wrap(curOffsetInEA + (v[j].end - v[j].start));
        j := j + 1;
      }
      i := i + 1;
    }
  }

  /** Whatever the layout: the first region with a chunk that holds the address answers. */
  lemma {:induction false} FirstRegionAnswers(m: Mapping, pa: uint32, i: nat, k: nat)
    requires Terminated(m) && i <= k < Regions(m) && ChunkSearch(m[k].physical.value, pa, m[k].eaStart, 0).Some?
    requires forall n :: i <= n < k ==> ChunkSearch(m[n].physical.value, pa, m[n].eaStart, 0).None?
    ensures RegionSearch(m, pa, i) == ChunkSearch(m[k].physical.value, pa, m[k].eaStart, 0).value
    decreases k - i
  {
    hide ChunkSearch;
    if i < k {
      FirstRegionAnswers(m, pa, i + 1, k);
    }
  }

  // ---- What the walks compute on a well-formed layout

  predicate AllWellFormed(chunks: seq<Chunk>) {
    forall j :: 0 <= j < |chunks| ==> WellFormedChunk(chunks[j])
  }

  lemma {:induction false} OffsetTail(chunks: seq<Chunk>, j: nat)
    requires chunks != [] && j < |chunks|
    ensures Offset(chunks, j + 1) == Size(chunks[0]) + Offset(chunks[1..], j)
  {
    if j > 0 {
      OffsetTail(chunks, j - 1);
    }
  }

  /** Byte d of chunk j lies inside a list of chunks. */
  lemma {:induction false} InsideList(chunks: seq<Chunk>, j: nat, d: nat)
    requires AllWellFormed(chunks) && j < |chunks| && d < Size(chunks[j])
    ensures 0 <= Offset(chunks, j) && Offset(chunks, j) + d < Offset(chunks, |chunks|)
  {
    OffsetMonotone(chunks, j, j + 1);
    OffsetMonotone(chunks, j + 1, |chunks|);
  }

  /** The offsets of a list in terms of those of its tail. */
  lemma {:induction false} TailOffsets(chunks: seq<Chunk>, j: nat)
    requires AllWellFormed(chunks) && 0 < j < |chunks|
    ensures Offset(chunks, j) == Size(chunks[0]) + Offset(chunks[1..], j - 1)
    ensures Offset(chunks, |chunks|) == Size(chunks[0]) + Offset(chunks[1..], |chunks| - 1)
    ensures 0 <= Offset(chunks[1..], |chunks| - 1)
    ensures (chunks + [NO_CHUNK])[1..] == chunks[1..] + [NO_CHUNK]
  {
    OffsetTail(chunks, j - 1);
    OffsetTail(chunks, |chunks| - 1);
    OffsetMonotone(chunks[1..], 0, |chunks| - 1);
  }

  lemma {:induction false} ChunkWalkStep(chunks: seq<Chunk>, ea: uint32, base: uint32)
    requires chunks != [] && chunks[0].start < chunks[0].end && base <= ea && base + Size(chunks[0]) < 0x1_0000_0000
    ensures ChunkWalk(chunks + [NO_CHUNK], ea, base)
            == if ea < base + Size(chunks[0]) then chunks[0].start + (ea - base)
               else ChunkWalk(chunks[1..] + [NO_CHUNK], ea, base + Size(chunks[0]))
  {
    var v, c := chunks + [NO_CHUNK], chunks[0];
    assert v[0] == c && v[1..] == chunks[1..] + [NO_CHUNK];
    assert Wrap(base + Wrap(c.end - c.start)) == base + Size(c);
  }

  lemma {:induction false} ChunkSearchStep(chunks: seq<Chunk>, pa: uint32, base: uint32, off: uint32)
    requires chunks != [] && chunks[0].start < chunks[0].end && base + off + Size(chunks[0]) < 0x1_0000_0000
    ensures ChunkSearch(chunks + [NO_CHUNK], pa, base, off)
            == if InChunk(chunks[0], pa) then Some(base + off + (pa - chunks[0].start))
               else ChunkSearch(chunks[1..] + [NO_CHUNK], pa, base, off + Size(chunks[0]))
  {
    assert (chunks + [NO_CHUNK])[1..] == chunks[1..] + [NO_CHUNK];
  }

  /** The walk reaches byte d of chunk j when asked for the address that lies that far on. */
  lemma {:induction false} ChunkWalkAt(chunks: seq<Chunk>, base: uint32, j: nat, d: nat, ea: uint32)
    requires AllWellFormed(chunks) && j < |chunks| && d < Size(chunks[j])
    requires base + Offset(chunks, |chunks|) < 0x1_0000_0000
    requires ea == base + Offset(chunks, j) + d
    ensures ChunkWalk(chunks + [NO_CHUNK], ea, base) == chunks[j].start + d
    decreases |chunks|
  {
    hide ChunkWalk;
    InsideList(chunks, j, d);
    InsideList(chunks, 0, Size(chunks[0]) - 1);
    ChunkWalkStep(chunks, ea, base);
    if j > 0 {
      TailOffsets(chunks, j);
      InsideList(chunks[1..], j - 1, d);
      ChunkWalkAt(chunks[1..], base + Size(chunks[0]), j - 1, d, ea);
    }
  }

  /** An address behind all chunks of its region is translated to 0. */
  lemma {:induction false} WalkBehindChunks(chunks: seq<Chunk>, base: uint32, ea: uint32)
    requires AllWellFormed(chunks) && base + Offset(chunks, |chunks|) <= ea
    ensures ChunkWalk(chunks + [NO_CHUNK], ea, base) == 0
    decreases |chunks|
  {
    if chunks == [] {
      assert chunks + [NO_CHUNK] == [NO_CHUNK];
    } else {
      hide ChunkWalk;
      OffsetTail(chunks, |chunks| - 1);
      OffsetMonotone(chunks[1..], 0, |chunks| - 1);
      ChunkWalkStep(chunks, ea, base);
      WalkBehindChunks(chunks[1..], base + Size(chunks[0]), ea);
    }
  }

  /** The search for byte d of chunk j finds the address that lies that far on. */
  lemma {:induction false} ChunkSearchAt(chunks: seq<Chunk>, base: uint32, off: uint32, j: nat, d: nat, pa: uint32)
    requires AllWellFormed(chunks) && SelfDisjoint(chunks) && j < |chunks| && d < Size(chunks[j])
    requires base + off + Offset(chunks, |chunks|) < 0x1_0000_0000
    requires pa == chunks[j].start + d
    ensures ChunkSearch(chunks + [NO_CHUNK], pa, base, off) == Some(base + off + Offset(chunks, j) + d)
    decreases |chunks|
  {
    hide ChunkSearch;
    InsideList(chunks, j, d);
    InsideList(chunks, 0, Size(chunks[0]) - 1);
    ChunkSearchStep(chunks, pa, base, off);
    if j > 0 {
      assert Disjoint(chunks[0].start, chunks[0].end, chunks[j].start, chunks[j].end);
      TailOffsets(chunks, j);
      InsideList(chunks[1..], j - 1, d);
      ChunkSearchAt(chunks[1..], base, off + Size(chunks[0]), j - 1, d, pa);
    }
  }

  /** Searching a list that does not hold the address finds nothing. */
  lemma {:induction false} ChunkSearchMiss(chunks: seq<Chunk>, pa: uint32, base: uint32, off: uint32)
    requires forall j :: 0 <= j < |chunks| ==> !InChunk(chunks[j], pa)
    ensures ChunkSearch(chunks + [NO_CHUNK], pa, base, off).None?
    decreases |chunks|
  {
    if chunks != [] && chunks[0].end != 0 {
      assert (chunks + [NO_CHUNK])[1..] == chunks[1..] + [NO_CHUNK];
      ChunkSearchMiss(chunks[1..], pa, base, Wrap(off + (chunks[0].end - chunks[0].start)));
    }
  }

  lemma {:induction false} RawChunks(m: Mapping, i: nat)
    requires Terminated(m) && i < Regions(m)
    ensures m[i].physical.value == Chunks(m, i) + [NO_CHUNK]
  {
  }

  lemma {:induction false} OnlyRegion(m: Mapping, i: nat, ea: uint32)
    requires WellFormed(m) && i < Regions(m) && InRegion(m[i], ea)
    ensures FindRegion(m, ea, 0) == i
  {
    forall k | 0 <= k < i
      ensures !InRegion(m[k], ea)
    {
      assert Disjoint(m[k].eaStart, m[k].eaEnd, m[i].eaStart, m[i].eaEnd);
    }
  }

  /** EffectiveToPhysical takes the effective address of a location to its physical address. */
  lemma {:induction false} PhysicalAt(m: Mapping, l: Location)
    requires WellFormed(m) && Within(m, l)
    ensures 0 <= EaOf(m, l) < 0x1_0000_0000 && Physical(m, EaOf(m, l)) == PaOf(m, l)
  {
    LocationBounds(m, l);
    assert WellFormedRegion(m[l.i], Chunks(m, l.i)) && ClearOfWindow(m[l.i], Chunks(m, l.i));
    OnlyRegion(m, l.i, EaOf(m, l));
    RawChunks(m, l.i);
    ChunkWalkAt(Chunks(m, l.i), m[l.i].eaStart, l.j, l.d, EaOf(m, l));
  }

  lemma {:induction false} OtherRegionsMiss(m: Mapping, i: nat, i': nat, j: nat, pa: uint32)
    requires WellFormed(m) && i < i' < Regions(m) && j < |Chunks(m, i')| && InChunk(Chunks(m, i')[j], pa)
    ensures forall k :: 0 <= k < |Chunks(m, i)| ==> !InChunk(Chunks(m, i)[k], pa)
  {
    assert ChunksDisjoint(Chunks(m, i), Chunks(m, i'));
    forall k | 0 <= k < |Chunks(m, i)|
      ensures !InChunk(Chunks(m, i)[k], pa)
    {
      assert Disjoint(Chunks(m, i)[k].start, Chunks(m, i)[k].end, Chunks(m, i')[j].start, Chunks(m, i')[j].end);
    }
  }

  lemma {:induction false} FoundInRegion(m: Mapping, l: Location, pa: uint32)
    requires WellFormed(m) && Within(m, l) && pa == PaOf(m, l)
    ensures ChunkSearch(m[l.i].physical.value, pa, m[l.i].eaStart, 0) == Some(EaOf(m, l))
  {
    RawChunks(m, l.i);
    assert WellFormedRegion(m[l.i], Chunks(m, l.i)) && SelfDisjoint(Chunks(m, l.i));
    ChunkSearchAt(Chunks(m, l.i), m[l.i].eaStart, 0, l.j, l.d, pa);
  }

  lemma {:induction false} RegionSkipped(m: Mapping, i: nat, i': nat, j: nat, pa: uint32)
    requires WellFormed(m) && i < i' < Regions(m) && j < |Chunks(m, i')| && InChunk(Chunks(m, i')[j], pa)
    ensures RegionSearch(m, pa, i) == RegionSearch(m, pa, i + 1)
  {
    RawChunks(m, i);
    OtherRegionsMiss(m, i, i', j, pa);
    ChunkSearchMiss(Chunks(m, i), pa, m[i].eaStart, 0);
  }

  lemma {:induction false} RegionSearchSkips(m: Mapping, i: nat, i': nat, j: nat, pa: uint32)
    requires WellFormed(m) && i <= i' < Regions(m) && j < |Chunks(m, i')| && InChunk(Chunks(m, i')[j], pa)
    ensures RegionSearch(m, pa, i) == RegionSearch(m, pa, i')
    decreases i' - i
  {
    hide WellFormed, RegionSearch, InChunk;
    if i < i' {
      RegionSkipped(m, i, i', j, pa);
      RegionSearchSkips(m, i + 1, i', j, pa);
    }
  }

  /** PhysicalToEffective takes the physical address of a location to its effective address. */
  lemma {:induction false} EffectiveAt(m: Mapping, l: Location)
    requires WellFormed(m) && Within(m, l)
    ensures 0 <= PaOf(m, l) < 0x1_0000_0000 && 0 <= EaOf(m, l) < 0x1_0000_0000
    ensures Effective(m, PaOf(m, l)) == EaOf(m, l)
  {
    LocationBounds(m, l);
    assert ClearOfWindow(m[l.i], Chunks(m, l.i));
    assert Disjoint(Chunks(m, l.i)[l.j].start, Chunks(m, l.i)[l.j].end, WINDOW_PA, WINDOW_PA_END);
    RegionSearchSkips(m, 0, l.i, l.j, PaOf(m, l));
    FoundInRegion(m, l, PaOf(m, l));
  }

  /** Addresses outside every chunk and the window translate to 0; so does address 0. */
  lemma {:induction false} RegionSearchMiss(m: Mapping, pa: uint32, i: nat)
    requires WellFormed(m) && !PaMapped(m, pa) && i <= Regions(m)
    ensures RegionSearch(m, pa, i) == 0
    decreases Regions(m) - i
  {
    if i < Regions(m) {
      RawChunks(m, i);
      ChunkSearchMiss(Chunks(m, i), pa, m[i].eaStart, 0);
      RegionSearchMiss(m, pa, i + 1);
    }
  }

  lemma {:induction false} ZeroUnmapped(m: Mapping)
    requires WellFormed(m)
    ensures !PaMapped(m, 0) && !EaMapped(m, 0)
    ensures Physical(m, 0) == 0 && Effective(m, 0) == 0
  {
    forall i, j | 0 <= i < Regions(m) && 0 <= j < |Chunks(m, i)|
      ensures !InChunk(Chunks(m, i)[j], 0)
    {
      assert WellFormedRegion(m[i], Chunks(m, i));
    }
    forall i | 0 <= i < Regions(m)
      ensures !InRegion(m[i], 0)
    {
      assert WellFormedRegion(m[i], Chunks(m, i));
    }
    RegionSearchMiss(m, 0, 0);
  }

  predicate InEaWindow(ea: uint32) {
    WINDOW_EA <= ea < WINDOW_EA_END
  }

  predicate InPaWindow(pa: uint32) {
    WINDOW_PA <= pa < WINDOW_PA_END
  }

  /** The fixed window lies 0x30000000 bytes lower in effective than in physical addresses. */
  lemma {:induction false} WindowTranslation(m: Mapping, a: uint32)
    requires Terminated(m)
    ensures 0x0080_0000 <= a < 0x0100_0000 ==> Physical(m, a) == a + 0x3000_0000
    ensures 0x3080_0000 <= a < 0x3100_0000 ==> Effective(m, a) == a - 0x3000_0000
  {
  }

  /** Translating an effective address to physical and back returns it, exactly for the
      addresses in a region or in the fixed window and for 0; addresses outside give 0. */
  lemma {:induction false} EffectiveRoundTrip(m: Mapping, ea: uint32)
    requires WellFormed(m)
    ensures Effective(m, Physical(m, ea)) == ea <==> EaMapped(m, ea) || InEaWindow(ea) || ea == 0
    ensures Physical(m, ea) == 0 <==> !(EaMapped(m, ea) || InEaWindow(ea))
  {
    ZeroUnmapped(m);
    if !InEaWindow(ea) && EaMapped(m, ea) {
      var l := LocateEa(m, ea);
      LocationBounds(m, l);
      PhysicalAt(m, l);
      EffectiveAt(m, l);
    }
  }

  /** The converse round trip. */
  lemma {:induction false} PhysicalRoundTrip(m: Mapping, pa: uint32)
    requires WellFormed(m)
    ensures Physical(m, Effective(m, pa)) == pa <==> PaMapped(m, pa) || InPaWindow(pa) || pa == 0
    ensures Effective(m, pa) == 0 <==> !(PaMapped(m, pa) || InPaWindow(pa))
  {
    ZeroUnmapped(m);
    if !InPaWindow(pa) && PaMapped(m, pa) {
      var l := LocatePa(m, pa);
      LocationBounds(m, l);
      EffectiveAt(m, l);
      PhysicalAt(m, l);
    } else if !InPaWindow(pa) {
      RegionSearchMiss(m, pa, 0);
    }
  }
}
