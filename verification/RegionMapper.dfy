/** Mapping a whole layout into the page table, and why the table then agrees with the
    software translators. */
module RegionMapper {
  import opened Words
  import opened PageTable
  import opened Occupancy
  import opened Translation
  import opened Layout
  import opened Translators

  /** The pages of a chunk list laid out contiguously from effective address ea on. */
  function ListPages(sr: Registers, v: seq<Chunk>, ea: uint32): seq<Page>
    requires Sixteen(sr)
  {
    if v == [] || v[0] == NO_CHUNK then []
    else
      var size := Wrap(v[0].end - v[0].start);
      PagesOf(sr, v[0].start, ea, size) + ListPages(sr, v[1..], Wrap(ea + size))
  }

  /** The pages of all regions from region i on. */
  function MappingPages(sr: Registers, m: Mapping, i: nat): seq<Page>
    requires Sixteen(sr) && Terminated(m) && i <= Regions(m)
    decreases Regions(m) - i
  {
    if i == Regions(m) then []
    else ListPages(sr, m[i].physical.value, m[i].eaStart) + MappingPages(sr, m, i + 1)
  }

  /** No chunk is so large that mapMemory's counter cannot reach its size. */
  predicate Countable(v: seq<Chunk>) {
    forall j :: 0 <= j < |v| ==> Wrap(v[j].end - v[j].start) <= 0xFFFE_0000
  }

  predicate CountableChunks(m: Mapping)
    requires Terminated(m)
  {
    forall i :: 0 <= i < Regions(m) ==> Countable(m[i].physical.value)
  }

  // ---- The mapper

  /** The run over a chunk list, chunk by chunk. */
  function RunChunks(sr: Registers, t: Table, v: seq<Chunk>, ea: uint32): (r: Run)
    requires Sixteen(sr) && Fits(|t|, sr.sdr1)
    ensures |r.table| == |t|
    decreases |v|
  {
    if v == [] || v[0] == NO_CHUNK then Run(t, true)
    else
      var size := Wrap(v[0].end - v[0].start);
      var r := RunPages(sr.sdr1, t, PagesTried(sr, v[0].start, ea, size, |t|));
      if r.ok then RunChunks(sr, r.table, v[1..], Wrap(ea + size)) else r
  }

  /** The run over the regions from region i on. */
  function RunRegions(sr: Registers, t: Table, m: Mapping, i: nat): (r: Run)
    requires Sixteen(sr) && Fits(|t|, sr.sdr1) && Terminated(m) && i <= Regions(m)
    ensures |r.table| == |t|
    decreases Regions(m) - i
  {
    if i == Regions(m) then Run(t, true)
    else
      var r := RunChunks(sr, t, m[i].physical.value, m[i].eaStart);
      if r.ok then RunRegions(sr, r.table, m, i + 1) else r
  }

  /** The inner loop of memoryMappingForRegions: map the chunks of one region until one does
      not fit. */
  method MapChunks(memVals: seq<Chunk>, eaStart: uint32, sr: Registers, translationTable: array<uint32>)
    returns (ok: bool)
    requires ChunksTerminated(memVals)
    requires Sixteen(sr) && AlignedOrigin(sr.sdr1) && Fits(translationTable.Length, sr.sdr1)
    modifies translationTable
    ensures RunChunks(sr, old(translationTable[..]), memVals, eaStart) == Run(translationTable[..], ok)
  {
    hide RunPages, PagesTried, AlignedOrigin;
    var curEaStartAddress: uint32 := eaStart;
    assert memVals[0..] == memVals;
    var j := 0;
    while memVals[j] != NO_CHUNK
      invariant 0 <= j < |memVals|
      invariant RunChunks(sr, old(translationTable[..]), memVals, eaStart)
                == RunChunks(sr, translationTable[..], memVals[j..], curEaStartAddress)
      decreases |memVals| - j
    {
      assert memVals[j..][0] == memVals[j] && memVals[j..][1..] == memVals[j + 1..];
      var paStart: uint32, paEnd: uint32 := memVals[j].start, memVals[j].end;
      var paSize: uint32 := Wrap(paEnd - paStart);
      ok := MapMemory(paStart, paEnd, curEaStartAddress, sr, translationTable);
      if !ok {
        return;
      }
      curEaStartAddress := Wrap(curEaStartAddress + paSize);
      j := j + 1;
    }
    ok := true;
  }

  /** memoryMappingForRegions: map the regions in order and give up at the first failure. */
  method MemoryMappingForRegions(m: Mapping, sr: Registers, translationTable: array<uint32>)
    requires Terminated(m)
    requires Sixteen(sr) && AlignedOrigin(sr.sdr1) && Fits(translationTable.Length, sr.sdr1)
    modifies translationTable
    ensures translationTable[..] == RunRegions(sr, old(translationTable[..]), m, 0).table
    ensures CountableChunks(m) ==>
              translationTable[..] == InsertAll(sr.sdr1, old(translationTable[..]), MappingPages(sr, m, 0)).table
  {
    hide RunChunks, RunPages, InsertAll, MappingPages, AlignedOrigin, CountableChunks;
    if CountableChunks(m) {
      WholeRun(sr, translationTable[..], m);
    }
    var i := 0;
    while m[i].physical.Some?
      invariant 0 <= i <= Regions(m)
      invariant RunRegions(sr, old(translationTable[..]), m, 0) == RunRegions(sr, translationTable[..], m, i)
      decreases Regions(m) - i
    {
      var ok := MapChunks(m[i].physical.value, m[i].eaStart, sr, translationTable);
      if !ok {
        return;
      }
      i := i + 1;
    }
  }

  // ---- Runs enter flattened page lists

  lemma {:induction false} RunPagesAppend(sdr1: uint32, t: Table, a: seq<Page>, b: seq<Page>)
    requires Fits(|t|, sdr1)
    ensures var r := RunPages(sdr1, t, a);
            RunPages(sdr1, t, a + b) == if r.ok then RunPages(sdr1, r.table, b) else r
  {
    InsertAllAppend(sdr1, t, a, b);
  }

  lemma {:induction false} RunNone(sdr1: uint32, t: Table)
    requires Fits(|t|, sdr1)
    ensures RunPages(sdr1, t, []) == Run(t, true)
  {
  }

  lemma {:induction false} RunChunksIsRunPages(sr: Registers, t: Table, v: seq<Chunk>, ea: uint32)
    requires Sixteen(sr) && Fits(|t|, sr.sdr1) && Countable(v)
    ensures RunChunks(sr, t, v, ea) == RunPages(sr.sdr1, t, ListPages(sr, v, ea))
    decreases |v|
  {
    hide RunPages, FirstPages;
    if v == [] || v[0] == NO_CHUNK {
      RunNone(sr.sdr1, t);
    } else {
      var size := Wrap(v[0].end - v[0].start);
      var pages := PagesOf(sr, v[0].start, ea, size);
      RunPagesAppend(sr.sdr1, t, pages, ListPages(sr, v[1..], Wrap(ea + size)));
      RunChunksIsRunPages(sr, RunPages(sr.sdr1, t, pages).table, v[1..], Wrap(ea + size));
    }
  }

  /** Mapping the regions one by one enters the flattened list of all their pages. */
  lemma {:induction false} RunRegionsIsRunPages(sr: Registers, t: Table, m: Mapping, i: nat)
    requires Sixteen(sr) && Fits(|t|, sr.sdr1) && Terminated(m) && CountableChunks(m) && i <= Regions(m)
    ensures RunRegions(sr, t, m, i) == RunPages(sr.sdr1, t, MappingPages(sr, m, i))
    decreases Regions(m) - i
  {
    hide RunPages, ListPages, RunChunks;
    if i == Regions(m) {
      RunNone(sr.sdr1, t);
    } else {
      var pages := ListPages(sr, m[i].physical.value, m[i].eaStart);
      RunChunksIsRunPages(sr, t, m[i].physical.value, m[i].eaStart);
      RunPagesAppend(sr.sdr1, t, pages, MappingPages(sr, m, i + 1));
      RunRegionsIsRunPages(sr, RunPages(sr.sdr1, t, pages).table, m, i + 1);
    }
  }

  /** A chunk above 0xFFFE0000 bytes makes the mapping of its region fail. */
  lemma {:induction false} OversizeChunkFails(sr: Registers, t: Table, v: seq<Chunk>, ea: uint32, j: nat)
    requires Sixteen(sr) && Fits(|t|, sr.sdr1) && j < |v|
    requires (forall k :: 0 <= k <= j ==> v[k] != NO_CHUNK) && Wrap(v[j].end - v[j].start) > 0xFFFE_0000
    ensures !RunChunks(sr, t, v, ea).ok
    decreases |v|
  {
    hide RunPages, PagesTried;
    assert v[0] != NO_CHUNK;
    var size := Wrap(v[0].end - v[0].start);
    var r := RunPages(sr.sdr1, t, PagesTried(sr, v[0].start, ea, size, |t|));
    if j == 0 {
      OversizeRunFails(sr, t, v[0].start, ea, size);
    } else if r.ok {
      OversizeChunkFails(sr, r.table, v[1..], Wrap(ea + size), j - 1);
    }
  }

  /** More pages than the table has slots cannot all be entered. */
  lemma {:induction false} OversizeRunFails(sr: Registers, t: Table, pa: uint32, ea: uint32, size: nat)
    requires Sixteen(sr) && Fits(|t|, sr.sdr1) && size > 0xFFFE_0000
    ensures !RunPages(sr.sdr1, t, PagesTried(sr, pa, ea, size, |t|)).ok
  {
    hide FirstPages, InsertAll, Preserves, Taken;
    var pages := PagesTried(sr, pa, ea, size, |t|);
    InsertAllConserves(sr.sdr1, t, pages);
    TakenBound(InsertAll(sr.sdr1, t, pages).table, |t| / 2);
  }

  /** The bytes, and the pages, of the first j chunks. */
  function BytesBefore(v: seq<Chunk>, j: nat): int
    requires j <= |v|
  {
    if j == 0 then 0 else Size(v[0]) + BytesBefore(v[1..], j - 1)
  }

  function PagesBefore(v: seq<Chunk>, j: nat): nat
    requires j <= |v|
  {
    if j == 0 then 0 else PageCount(Wrap(Size(v[0]))) + PagesBefore(v[1..], j - 1)
  }

  /** For chunks of any size and alignment: page x of chunk j is entered for the effective address
      that lies as many bytes behind the start as the chunks before it have, and x pages, and it is
      backed by page x of the chunk. */
  lemma {:induction false} PageOfChunk(sr: Registers, v: seq<Chunk>, ea: uint32, j: nat, x: nat)
    requires Sixteen(sr) && j < |v| && forall k :: 0 <= k <= j ==> v[k] != NO_CHUNK
    requires x < PageCount(Wrap(v[j].end - v[j].start))
    ensures var n := PagesBefore(v, j) + x;
            && n < |ListPages(sr, v, ea)|
            && ListPages(sr, v, ea)[n]
               == Page(KeyOf(sr, Wrap(ea + BytesBefore(v, j) + x * 0x2_0000)), PtelFor(Wrap(v[j].start + x * 0x2_0000)))
    decreases j
  {
    hide KeyOf, PtelFor, Wrap, PageCount;
    assert v[0] != NO_CHUNK;
    var size := Wrap(v[0].end - v[0].start);
    var first, rest := PagesOf(sr, v[0].start, ea, size), ListPages(sr, v[1..], Wrap(ea + size));
    assert ListPages(sr, v, ea) == first + rest;
    if j == 0 {
      assert first[x] == PageAt(sr, v[0].start, ea, x * 0x2_0000);
    } else {
      PageOfChunk(sr, v[1..], Wrap(ea + size), j - 1, x);
      WrapSum(ea, v[0].end - v[0].start);
      WrapSum(BytesBefore(v[1..], j - 1) + x * 0x2_0000, ea + size);
      WrapSum(BytesBefore(v[1..], j - 1) + x * 0x2_0000, ea + Size(v[0]));
    }
  }

  lemma {:induction false} WholeRun(sr: Registers, t: Table, m: Mapping)
    requires Sixteen(sr) && Fits(|t|, sr.sdr1) && Terminated(m) && CountableChunks(m)
    ensures RunRegions(sr, t, m, 0).table == InsertAll(sr.sdr1, t, MappingPages(sr, m, 0)).table
  {
    RunRegionsIsRunPages(sr, t, m, 0);
  }

  // ---- The flattened page list of a well-formed layout

  lemma {:induction false} SizeWithinList(chunks: seq<Chunk>, j: nat)
    requires AllWellFormed(chunks) && j < |chunks|
    ensures Size(chunks[j]) <= Offset(chunks, |chunks|)
  {
    OffsetMonotone(chunks, 0, j);
    OffsetMonotone(chunks, j + 1, |chunks|);
  }

  /** The window alone keeps every chunk of a well-formed layout countable. */
  lemma {:induction false} WellFormedIsCountable(m: Mapping)
    requires WellFormed(m)
    ensures Terminated(m) && CountableChunks(m)
  {
    hide WellFormed, Offset;
    IsTerminated(m);
    forall i, j | 0 <= i < Regions(m) && 0 <= j < |m[i].physical.value|
      ensures Wrap(m[i].physical.value[j].end - m[i].physical.value[j].start) <= 0xFFFE_0000
    {
      RegionShape(m, i);
      RawChunks(m, i);
      if j < |Chunks(m, i)| {
        assert WellFormedChunk(Chunks(m, i)[j]);
        SizeWithinList(Chunks(m, i), j);
      }
    }
  }

  /** The number of pages of region i. */
  function PagesIn(m: Mapping, i: nat): int
    requires Terminated(m) && i < Regions(m)
  {
    (m[i].eaEnd - m[i].eaStart) / 0x2_0000
  }

  /** The effective addresses of n pages from start on. */
  function SpanEas(start: int, n: nat): seq<int> {
    seq(n, x => start + x * 0x2_0000)
  }

  /** The effective addresses of all pages of the regions from i on. */
  function Eas(m: Mapping, i: nat): seq<int>
    requires Terminated(m) && i <= Regions(m)
    decreases Regions(m) - i
  {
    if i == Regions(m) then []
    else SpanEas(m[i].eaStart, if 0 <= PagesIn(m, i) then PagesIn(m, i) else 0) + Eas(m, i + 1)
  }

  function PageFor(sr: Registers, ea: uint32, pa: uint32): Page
    requires Sixteen(sr)
  {
    Page(KeyOf(sr, ea), PtelFor(pa))
  }

  lemma {:induction false} OffsetAligned(chunks: seq<Chunk>, j: nat)
    requires AllWellFormed(chunks) && AlignedChunks(chunks) && j <= |chunks|
    ensures Offset(chunks, j) % 0x2_0000 == 0
  {
    if j > 0 {
      OffsetAligned(chunks, j - 1);
    }
  }

  lemma {:induction false} AlignedSize(c: Chunk)
    requires c.start % 0x2_0000 == 0 && c.end % 0x2_0000 == 0
    ensures Size(c) % 0x2_0000 == 0
  {
    DivModUnique(Size(c), 0x2_0000, c.end / 0x2_0000 - c.start / 0x2_0000, 0);
  }

  lemma {:induction false} WholePages(size: nat)
    requires size % 0x2_0000 == 0
    ensures PageCount(size) == size / 0x2_0000 && size == size / 0x2_0000 * 0x2_0000
  {
    DivModUnique(size + 0x2_0000 - 1, 0x2_0000, size / 0x2_0000, 0x1_FFFF);
  }

  lemma {:induction false} PagesOfAt(sr: Registers, pa: uint32, ea: uint32, size: nat, x: nat)
    requires Sixteen(sr) && x < PageCount(size)
    requires pa + x * 0x2_0000 < 0x1_0000_0000 && ea + x * 0x2_0000 < 0x1_0000_0000
    ensures PagesOf(sr, pa, ea, size)[x] == PageFor(sr, ea + x * 0x2_0000, pa + x * 0x2_0000)
  {
  }

  /** A page of the first chunk of a list. */
  lemma {:induction false} FirstChunkPages(sr: Registers, chunks: seq<Chunk>, base: uint32, x: nat)
    requires Sixteen(sr) && chunks != [] && chunks[0].start < chunks[0].end && base + Size(chunks[0]) < 0x1_0000_0000
    requires x * 0x2_0000 < Size(chunks[0]) && x < PageCount(Size(chunks[0]))
    ensures PagesOf(sr, chunks[0].start, base, Size(chunks[0]))[x]
            == PageFor(sr, base + x * 0x2_0000, ChunkWalk(chunks + [NO_CHUNK], base + x * 0x2_0000, base))
  {
    hide ChunkWalk, PagesOf, KeyOf, PtelFor;
    ChunkWalkStep(chunks, base + x * 0x2_0000, base);
    PagesOfAt(sr, chunks[0].start, base, Size(chunks[0]), x);
  }

  lemma {:induction false} ListPagesEmpty(sr: Registers, base: uint32)
    requires Sixteen(sr)
    ensures ListPages(sr, [NO_CHUNK], base) == []
  {
  }

  lemma {:induction false} ListPagesStep(sr: Registers, chunks: seq<Chunk>, base: uint32)
    requires Sixteen(sr) && chunks != [] && WellFormedChunk(chunks[0]) && base + Size(chunks[0]) < 0x1_0000_0000
    ensures ListPages(sr, chunks + [NO_CHUNK], base)
            == PagesOf(sr, chunks[0].start, base, Size(chunks[0]))
               + ListPages(sr, chunks[1..] + [NO_CHUNK], base + Size(chunks[0]))
  {
    hide FirstPages, PageCount;
    assert (chunks + [NO_CHUNK])[1..] == chunks[1..] + [NO_CHUNK];
    WrapSmall(chunks[0].end - chunks[0].start);
    WrapSmall(base + Size(chunks[0]));
  }

  /** Page x of a region is page x of its effective range, backed by what the software walk
      finds there. */
  lemma {:induction false} ListPagesAt(sr: Registers, chunks: seq<Chunk>, base: uint32, x: nat)
    requires Sixteen(sr) && AllWellFormed(chunks) && AlignedChunks(chunks)
    requires base + Offset(chunks, |chunks|) < 0x1_0000_0000
    ensures |ListPages(sr, chunks + [NO_CHUNK], base)| == Offset(chunks, |chunks|) / 0x2_0000
    ensures x < Offset(chunks, |chunks|) / 0x2_0000 ==>
              && base + x * 0x2_0000 < 0x1_0000_0000
              && ListPages(sr, chunks + [NO_CHUNK], base)[x]
                 == PageFor(sr, base + x * 0x2_0000, ChunkWalk(chunks + [NO_CHUNK], base + x * 0x2_0000, base))
    decreases |chunks|
  {
    hide ListPages, PagesOf, ChunkWalk, PageFor;
    if chunks == [] {
      assert chunks + [NO_CHUNK] == [NO_CHUNK];
      ListPagesEmpty(sr, base);
    } else {
      var size, tail := Size(chunks[0]), chunks[1..];
      var n := size / 0x2_0000;
      assert WellFormedChunk(chunks[0]);
      AlignedSize(chunks[0]);
      OffsetTail(chunks, |chunks| - 1);
      OffsetMonotone(tail, 0, |tail|);
      OffsetAligned(tail, |tail|);
      WholePages(size);
      WholePages(Offset(tail, |tail|));
      ListPagesStep(sr, chunks, base);
      if x < n {
        ListPagesAt(sr, tail, base + size, 0);
        FirstChunkPages(sr, chunks, base, x);
      } else {
        ListPagesAt(sr, tail, base + size, x - n);
        if x < Offset(chunks, |chunks|) / 0x2_0000 {
          ChunkWalkStep(chunks, base + x * 0x2_0000, base);
        }
      }
    }
  }

  /** The shape of a region in whole pages. */
  lemma {:induction false} PageShape(m: Mapping, i: nat)
    requires Mappable(m) && i < Regions(m)
    ensures AllWellFormed(Chunks(m, i)) && AlignedChunks(Chunks(m, i))
    ensures m[i].eaStart % 0x2_0000 == 0 && m[i].eaEnd % 0x2_0000 == 0
    ensures Offset(Chunks(m, i), |Chunks(m, i)|) == m[i].eaEnd - m[i].eaStart == PagesIn(m, i) * 0x2_0000
    ensures 0 <= PagesIn(m, i)
  {
    RegionShape(m, i);
    hide WellFormed;
    OffsetAligned(Chunks(m, i), |Chunks(m, i)|);
    WholePages(Offset(Chunks(m, i), |Chunks(m, i)|));
    AlignedSum(m[i].eaStart, Offset(Chunks(m, i), |Chunks(m, i)|), 0);
  }

  lemma {:induction false} AlignedSum(a: int, b: int, d: int)
    requires a % 0x2_0000 == 0 && b % 0x2_0000 == 0
    ensures (a + b + d) % 0x2_0000 == d % 0x2_0000
  {
    DivModUnique(a + b + d, 0x2_0000, a / 0x2_0000 + b / 0x2_0000 + d / 0x2_0000, d % 0x2_0000);
  }

  lemma {:induction false} RegionPagesAt(sr: Registers, m: Mapping, i: nat, x: nat)
    requires Sixteen(sr) && Mappable(m) && i < Regions(m)
    ensures |ListPages(sr, m[i].physical.value, m[i].eaStart)| == PagesIn(m, i)
    ensures x < PagesIn(m, i) ==>
              && InRegion(m[i], m[i].eaStart + x * 0x2_0000)
              && ListPages(sr, m[i].physical.value, m[i].eaStart)[x]
                 == PageFor(sr, m[i].eaStart + x * 0x2_0000, Physical(m, m[i].eaStart + x * 0x2_0000))
  {
    hide ListPages, ChunkWalk, PageFor;
    PageShape(m, i);
    RawChunks(m, i);
    ListPagesAt(sr, Chunks(m, i), m[i].eaStart, x);
    if x < PagesIn(m, i) {
      OnlyRegion(m, i, m[i].eaStart + x * 0x2_0000);
    }
  }

  /** The page at ea, backed by what the software walk finds there. */
  function BackedPage(sr: Registers, m: Mapping, ea: int): Page
    requires Sixteen(sr) && Terminated(m)
  {
    if 0 <= ea < 0x1_0000_0000 then PageFor(sr, ea, Physical(m, ea)) else Page(Key(0, 0), 0)
  }

  function BackedPages(sr: Registers, m: Mapping, eas: seq<int>): (pages: seq<Page>)
    requires Sixteen(sr) && Terminated(m)
    ensures |pages| == |eas|
    ensures forall p :: 0 <= p < |eas| ==> pages[p] == BackedPage(sr, m, eas[p])
  {
    seq(|eas|, p requires 0 <= p < |eas| => BackedPage(sr, m, eas[p]))
  }

  lemma {:induction false} RegionPages(sr: Registers, m: Mapping, i: nat)
    requires Sixteen(sr) && Mappable(m) && i < Regions(m)
    ensures 0 <= PagesIn(m, i)
    ensures ListPages(sr, m[i].physical.value, m[i].eaStart) == BackedPages(sr, m, SpanEas(m[i].eaStart, PagesIn(m, i)))
  {
    hide ListPages, Physical;
    var pages := ListPages(sr, m[i].physical.value, m[i].eaStart);
    PageShape(m, i);
    RegionPagesAt(sr, m, i, 0);
    forall x | 0 <= x < PagesIn(m, i)
      ensures pages[x] == BackedPage(sr, m, m[i].eaStart + x * 0x2_0000)
    {
      RegionPagesAt(sr, m, i, x);
    }
  }

  lemma {:induction false} BackedPagesAppend(sr: Registers, m: Mapping, a: seq<int>, b: seq<int>)
    requires Sixteen(sr) && Terminated(m)
    ensures BackedPages(sr, m, a + b) == BackedPages(sr, m, a) + BackedPages(sr, m, b)
  {
  }

  /** The flattened list: one page per page of a region, each backed by what the software walk
      finds there. */
  lemma {:induction false} MappingPagesBacked(sr: Registers, m: Mapping, i: nat)
    requires Sixteen(sr) && Mappable(m) && i <= Regions(m)
    ensures MappingPages(sr, m, i) == BackedPages(sr, m, Eas(m, i))
    decreases Regions(m) - i
  {
    if i < Regions(m) {
      RegionPages(sr, m, i);
      BackedPagesAppend(sr, m, SpanEas(m[i].eaStart, PagesIn(m, i)), Eas(m, i + 1));
      MappingPagesBacked(sr, m, i + 1);
    }
  }

  lemma {:induction false} SpanEasMembers(start: int, n: nat, e: int)
    requires start % 0x2_0000 == 0
    ensures e in SpanEas(start, n) <==> start <= e < start + n * 0x2_0000 && e % 0x2_0000 == 0
  {
    var x := (e - start) / 0x2_0000;
    if start <= e < start + n * 0x2_0000 && e % 0x2_0000 == 0 {
      assert SpanEas(start, n)[x] == e;
    }
  }

  /** e is an address of one of the regions from i on. */
  predicate InLaterRegion(m: Mapping, i: nat, e: int)
    requires Terminated(m)
  {
    exists r :: i <= r < Regions(m) && m[r].eaStart <= e < m[r].eaEnd
  }

  lemma {:induction false} LaterRegionStep(m: Mapping, i: nat, e: int)
    requires Terminated(m) && i <= Regions(m)
    ensures InLaterRegion(m, i, e) <==> i < Regions(m) && (m[i].eaStart <= e < m[i].eaEnd || InLaterRegion(m, i + 1, e))
  {
  }

  /** The listed addresses are exactly the page-aligned addresses of the regions. */
  lemma {:induction false} EasMembers(m: Mapping, i: nat, e: int)
    requires Mappable(m) && i <= Regions(m)
    ensures e in Eas(m, i) <==> InLaterRegion(m, i, e) && e % 0x2_0000 == 0
    decreases Regions(m) - i
  {
    hide Mappable, InLaterRegion, SpanEas, PagesIn;
    MappableIsTerminated(m);
    LaterRegionStep(m, i, e);
    if i < Regions(m) {
      PageShape(m, i);
      SpanEasMembers(m[i].eaStart, PagesIn(m, i), e);
      EasMembers(m, i + 1, e);
    }
  }

  predicate Distinct(s: seq<int>) {
    forall p, q :: 0 <= p < q < |s| ==> s[p] != s[q]
  }

  lemma {:induction false} DistinctAppend(a: seq<int>, b: seq<int>)
    requires Distinct(a) && Distinct(b) && forall e :: e in a ==> e !in b
    ensures Distinct(a + b)
  {
    forall p, q | 0 <= p < q < |a + b|
      ensures (a + b)[p] != (a + b)[q]
    {
      if p < |a| <= q {
        assert a[p] in a && b[q - |a|] in b;
      }
    }
  }

  lemma {:induction false} LaterRegionDiffers(m: Mapping, i: nat, e: int)
    requires Mappable(m) && i < Regions(m) && m[i].eaStart <= e < m[i].eaEnd
    ensures !InLaterRegion(m, i + 1, e)
  {
    forall r | i + 1 <= r < Regions(m)
      ensures !(m[r].eaStart <= e < m[r].eaEnd)
    {
      assert Disjoint(m[i].eaStart, m[i].eaEnd, m[r].eaStart, m[r].eaEnd);
    }
  }

  /** No effective page is listed twice. */
  lemma {:induction false} EasDistinct(m: Mapping, i: nat)
    requires Mappable(m) && i <= Regions(m)
    ensures Distinct(Eas(m, i))
    decreases Regions(m) - i
  {
    hide Mappable, InLaterRegion, PagesIn;
    MappableIsTerminated(m);
    if i < Regions(m) {
      PageShape(m, i);
      EasDistinct(m, i + 1);
      var span := SpanEas(m[i].eaStart, PagesIn(m, i));
      forall e | e in span
        ensures e !in Eas(m, i + 1)
      {
        SpanEasMembers(m[i].eaStart, PagesIn(m, i), e);
        LaterRegionDiffers(m, i, e);
        EasMembers(m, i + 1, e);
      }
      DistinctAppend(span, Eas(m, i + 1));
    }
  }
}
