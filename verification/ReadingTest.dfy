/** The reading half of the memory test: the numbers are read back through effective addresses,
    by whatever translation the processor applies, and by the page table in particular. */
module ReadingTest {
  import opened Words
  import opened Wrappers
  import opened PageTable
  import opened Translation
  import opened Layout
  import opened Translators
  import opened RegionMapper
  import opened Agreement
  import opened MemoryTest

  /** The processor's translation of effective addresses; None is an access that faults. */
  type Mmu = uint32 -> Option<uint32>

  /** The processor can read a word of memory at ea. */
  predicate Loads(mmu: Mmu, words: nat, ea: uint32) {
    match mmu(ea)
    case None => false
    case Some(pa) => pa % 4 == 0 && pa / 4 < words
  }

  /** The word the processor reads at ea. */
  function Load(mmu: Mmu, r: Ram, ea: uint32): uint32
    requires Loads(mmu, |r|, ea)
  {
    r[mmu(ea).value / 4]
  }

  /** The bytes of a chunk list as the reading test adds them up. */
  function ListSize(v: seq<Chunk>, start: uint32): uint32 {
    if v == [] || v[0] == NO_CHUNK then start else ListSize(v[1..], Wrap(start + (v[0].end - v[0].start)))
  }

  /** The number of words the test reads in region i. */
  function WordCount(m: Mapping, i: nat): nat
    requires Terminated(m) && i < Regions(m)
  {
    ListSize(m[i].physical.value, 0) / 4
  }

  function WordEa(m: Mapping, i: nat, w: nat): uint32
    requires Terminated(m) && i < Regions(m)
  {
    Wrap(m[i].eaStart + 4 * w)
  }

  /** The words of region i can be read. */
  predicate Readable(mmu: Mmu, m: Mapping, i: nat, words: nat)
    requires Terminated(m) && i < Regions(m)
  {
    forall w :: 0 <= w < WordCount(m, i) ==> Loads(mmu, words, WordEa(m, i, w))
  }

  /** Every word of region i that the processor reads is its index. */
  predicate ReadsBack(mmu: Mmu, m: Mapping, r: Ram, i: nat)
    requires Terminated(m) && i < Regions(m) && Readable(mmu, m, i, |r|)
  {
    forall w :: 0 <= w < WordCount(m, i) ==> Load(mmu, r, WordEa(m, i, w)) == w
  }

  /** The summing loop of readTestValuesFromMemory. */
  method RegionSize(v: seq<Chunk>) returns (eaSize: uint32)
    requires ChunksTerminated(v)
    ensures eaSize == ListSize(v, 0)
  {
    eaSize := 0;
    assert v[0..] == v;
    var k := 0;
    while v[k] != NO_CHUNK
      invariant 0 <= k < |v|
      invariant ListSize(v, 0) == ListSize(v[k..], eaSize)
      decreases |v| - k
    {
      ListSizeStep(v, k, eaSize);
      eaSize := Wrap(eaSize + (v[k].end - v[k].start));
      k := k + 1;
    }
    ListSizeStep(v, k, eaSize);
  }

  lemma {:induction false} ListSizeStep(v: seq<Chunk>, k: nat, start: uint32)
    requires k < |v|
    ensures ListSize(v[k..], start)
            == if v[k] == NO_CHUNK then start else ListSize(v[k + 1..], Wrap(start + (v[k].end - v[k].start)))
  {
    assert v[k..][1..] == v[k + 1..];
  }

  /** readTestValuesFromMemory for one region: after the first bad word of a run the test goes on
      at the next multiple of 0x8000 words, yet the result is exact. */
  method ReadRegion(mmu: Mmu, m: Mapping, i: nat, ram: array<uint32>) returns (success: bool)
    requires Terminated(m) && i < Regions(m) && Readable(mmu, m, i, ram.Length)
    ensures success <==> ReadsBack(mmu, m, ram[..], i)
  {
    hide ListSize, Wrap;
    var eaSize := RegionSize(m[i].physical.value);
    ghost var r := ram[..];
    ghost var n := WordCount(m, i);

    success := true;
    var inFailRange := false;
    var j: nat := 0;
    while j < eaSize / 4
      invariant success ==> !inFailRange
      invariant success ==> forall w :: 0 <= w < j && w < n ==> Load(mmu, r, WordEa(m, i, w)) == w
      invariant !success ==> exists w :: 0 <= w < n && Load(mmu, r, WordEa(m, i, w)) != w
      decreases n - j
    {
      assert Loads(mmu, ram.Length, WordEa(m, i, j));
      var pa := mmu(Wrap(m[i].eaStart + 4 * j)).value;
      if ram[pa / 4] != j {
        assert Load(mmu, r, WordEa(m, i, j)) != j;
        success := false;
        if !inFailRange {
          inFailRange := true;
          j := j / 0x8000 * 0x8000 + 0x8000 - 1;
        }
      } else if inFailRange {
        inFailRange := false;
      }
      j := j + 1;
    }
  }

  /** readTestValuesFromMemory: the outcome for each region. */
  method ReadTestValuesFromMemory(mmu: Mmu, m: Mapping, ram: array<uint32>) returns (successes: seq<bool>)
    requires Terminated(m) && forall i :: 0 <= i < Regions(m) ==> Readable(mmu, m, i, ram.Length)
    ensures |successes| == Regions(m)
    ensures forall i :: 0 <= i < Regions(m) ==> (successes[i] <==> ReadsBack(mmu, m, ram[..], i))
  {
    hide ReadsBack, Readable;
    successes := [];
    var i := 0;
    while m[i].physical.Some?
      invariant 0 <= i <= Regions(m) && |successes| == i
      invariant forall k :: 0 <= k < i ==> (successes[k] <==> ReadsBack(mmu, m, ram[..], k))
      decreases Regions(m) - i
    {
      var success := ReadRegion(mmu, m, i, ram);
      successes := successes + [success];
      i := i + 1;
    }
  }

  /** A passed test shows that the words of a region lie at different places in memory. */
  lemma {:induction false} PassedTestSeparates(mmu: Mmu, m: Mapping, r: Ram, i: nat, w: nat, w': nat)
    requires Terminated(m) && i < Regions(m) && Readable(mmu, m, i, |r|) && ReadsBack(mmu, m, r, i)
    requires w < w' < WordCount(m, i)
    ensures mmu(WordEa(m, i, w)).Some? && mmu(WordEa(m, i, w')).Some?
    ensures mmu(WordEa(m, i, w)).value / 4 != mmu(WordEa(m, i, w')).value / 4
  {
    hide ListSize;
    assert Loads(mmu, |r|, WordEa(m, i, w)) && Loads(mmu, |r|, WordEa(m, i, w'));
    assert Load(mmu, r, WordEa(m, i, w)) == w && Load(mmu, r, WordEa(m, i, w')) == w';
  }

  // ---- What the one half writes, the other accepts

  /** The processor translates the addresses of region i as the software walk does. */
  ghost predicate FollowsWalk(mmu: Mmu, m: Mapping, i: nat)
    requires Terminated(m) && i < Regions(m)
  {
    forall ea: uint32 :: InRegion(m[i], ea) ==> mmu(ea) == Some(Physical(m, ea))
  }

  lemma {:induction false} ListSizeIsOffset(chunks: seq<Chunk>, start: uint32)
    requires AllWellFormed(chunks) && start + Offset(chunks, |chunks|) < 0x1_0000_0000
    ensures ListSize(chunks + [NO_CHUNK], start) == start + Offset(chunks, |chunks|)
    decreases |chunks|
  {
    if chunks != [] {
      assert (chunks + [NO_CHUNK])[0] == chunks[0] && (chunks + [NO_CHUNK])[1..] == chunks[1..] + [NO_CHUNK];
      OffsetTail(chunks, |chunks| - 1);
      OffsetMonotone(chunks[1..], 0, |chunks| - 1);
      assert WellFormedChunk(chunks[0]);
      WrapSmall(start + Size(chunks[0]));
      ListSizeIsOffset(chunks[1..], start + Size(chunks[0]));
    }
  }

  /** The test reads the words that lie in the region as a whole. */
  lemma {:induction false} WordsRead(m: Mapping, i: nat)
    requires WellFormed(m) && i < Regions(m)
    ensures WordCount(m, i) == (m[i].eaEnd - m[i].eaStart) / 4
  {
    RegionShape(m, i);
    RawChunks(m, i);
    hide WellFormed;
    ListSizeIsOffset(Chunks(m, i), 0);
  }

  lemma {:induction false} WordInRegion(m: Mapping, i: nat, w: nat)
    requires WellFormed(m) && i < Regions(m) && w < WordCount(m, i)
    ensures WordEa(m, i, w) == m[i].eaStart + 4 * w < m[i].eaEnd
  {
    hide WellFormed, WordCount;
    IsTerminated(m);
    WordsRead(m, i);
  }

  /** Reading back through a translation that follows the walk shows the numbers found through
      the walk. */
  lemma {:induction false} ReadWord(mmu: Mmu, m: Mapping, r: Ram, i: nat, w: nat)
    requires WellFormed(m) && i < Regions(m) && FollowsWalk(mmu, m, i) && w < WordCount(m, i)
    ensures WordEa(m, i, w) == m[i].eaStart + 4 * w < m[i].eaEnd
    ensures HoldsNumber(m, r, i, w) <==>
            Loads(mmu, |r|, WordEa(m, i, w)) && Load(mmu, r, WordEa(m, i, w)) == w
  {
    hide WellFormed, WordCount, Physical;
    IsTerminated(m);
    WordInRegion(m, i, w);
    assert InRegion(m[i], m[i].eaStart + 4 * w);
  }

  /** Written by the one half and read by the other through a translation that follows the walk,
      every region of a layout whose chunk sizes are multiples of 0x4000 bytes passes the test. */
  lemma {:induction false} TestSucceeds(mmu: Mmu, r: Ram, m: Mapping, i: nat)
    requires WellFormed(m) && AllInRam(m, |r|) && AllWholeBuffers(m) && i < Regions(m) && FollowsWalk(mmu, m, i)
    ensures Readable(mmu, m, i, |r|) && ReadsBack(mmu, m, FilledRegions(r, m, 0), i)
  {
    hide WellFormed, WordCount, FilledRegions, AllInRam, AllWholeBuffers, FollowsWalk, Load, Loads, WordEa, HoldsNumber;
    IsTerminated(m);
    var r' := FilledRegions(r, m, 0);
    forall w | 0 <= w < WordCount(m, i)
      ensures Loads(mmu, |r'|, WordEa(m, i, w)) && Load(mmu, r', WordEa(m, i, w)) == w
    {
      ReadWord(mmu, m, r', i, w);
      WrittenWordsReadBack(r, m, i, w);
    }
  }

  /** Every region is a whole number of words. */
  predicate WholeWords(m: Mapping)
    requires Terminated(m)
  {
    forall i :: 0 <= i < Regions(m) ==> (m[i].eaEnd - m[i].eaStart) % 4 == 0
  }

  /** The test of every region can be run and passes. */
  ghost predicate AllPass(mmu: Mmu, m: Mapping, r: Ram)
    requires Terminated(m)
  {
    forall i :: 0 <= i < Regions(m) ==> Readable(mmu, m, i, |r|) && ReadsBack(mmu, m, r, i)
  }

  /** The test reads word w of a region, and it is good exactly if it holds its number. */
  lemma {:induction false} GoodWord(mmu: Mmu, m: Mapping, r: Ram, i: nat, w: nat)
    requires WellFormed(m) && WholeWords(m) && i < Regions(m) && FollowsWalk(mmu, m, i)
    ensures w < WordCount(m, i) <==> m[i].eaStart + 4 * w < m[i].eaEnd
    ensures w < WordCount(m, i) ==>
              (HoldsNumber(m, r, i, w) <==> Loads(mmu, |r|, WordEa(m, i, w)) && Load(mmu, r, WordEa(m, i, w)) == w)
  {
    hide WellFormed, WordCount, FollowsWalk, Load, Loads, WordEa, HoldsNumber;
    IsTerminated(m);
    WordsRead(m, i);
    if w < WordCount(m, i) {
      ReadWord(mmu, m, r, i, w);
    }
  }

  lemma {:induction false} PassingIsNumbered(mmu: Mmu, m: Mapping, r: Ram)
    requires WellFormed(m) && WholeWords(m) && forall i :: 0 <= i < Regions(m) ==> FollowsWalk(mmu, m, i)
    ensures AllPass(mmu, m, r) <==> Numbered(m, r)
  {
    hide WellFormed, WholeWords, WordCount, FollowsWalk, Load, Loads, WordEa, HoldsNumber;
    IsTerminated(m);
    if AllPass(mmu, m, r) {
      forall i, w | 0 <= i < Regions(m) && 0 <= w && m[i].eaStart + 4 * w < m[i].eaEnd
        ensures HoldsNumber(m, r, i, w)
      {
        GoodWord(mmu, m, r, i, w);
        assert Readable(mmu, m, i, |r|) && ReadsBack(mmu, m, r, i);
      }
    }
    if Numbered(m, r) {
      forall i, w | 0 <= i < Regions(m) && 0 <= w < WordCount(m, i)
        ensures Loads(mmu, |r|, WordEa(m, i, w)) && Load(mmu, r, WordEa(m, i, w)) == w
      {
        GoodWord(mmu, m, r, i, w);
      }
    }
  }

  /** Whatever memory held before, the test passes in every region if and only if the size of
      every chunk is a multiple of 0x4000 bytes. */
  lemma {:induction false} TestPassesIffWholeBuffers(mmu: Mmu, m: Mapping, words: nat)
    requires WellFormed(m) && WholeWords(m) && AllInRam(m, words)
    requires forall i :: 0 <= i < Regions(m) ==> FollowsWalk(mmu, m, i)
    ensures (forall r: Ram :: |r| == words ==> AllPass(mmu, m, FilledRegions(r, m, 0))) <==> AllWholeBuffers(m)
  {
    hide WellFormed, AllPass, Numbered, AllInRam, AllWholeBuffers, FollowsWalk, FilledRegions;
    IsTerminated(m);
    forall r: Ram
      ensures AllPass(mmu, m, r) <==> Numbered(m, r)
    {
      PassingIsNumbered(mmu, m, r);
    }
    NumberedIffWholeBuffers(m, words);
  }

  // ---- Through the page table

  /** The processor's translation by segment registers and page table. */
  function PageTableMmu(sr: Registers, t: Table): Mmu
    requires Sixteen(sr) && Fits(|t|, sr.sdr1)
  {
    (ea: uint32) =>
      if DirectStore(sr, Segment(ea)) then None
      else
        match Translate(sr.sdr1, t, KeyOf(sr, ea))
        case None => None
        case Some(ptel) => Some(Wrap(Frame(ptel) + ea % 0x2_0000))
  }

  /** The segments the layout uses are paged. */
  ghost predicate PagedSegments(sr: Registers, m: Mapping)
    requires Sixteen(sr) && Terminated(m)
  {
    forall s :: 0 <= s < 16 && UsesSegment(m, s) ==> !DirectStore(sr, s)
  }

  lemma {:induction false} UsedSegment(m: Mapping, i: nat, ea: uint32)
    requires Terminated(m) && i < Regions(m) && InRegion(m[i], ea)
    ensures EaMapped(m, ea) && UsesSegment(m, Segment(ea))
  {
    assert EaMapped(m, ea);
  }

  /** After the region mapper, the processor follows the software walk. */
  lemma {:induction false} PageTableFollowsWalk(sr: Registers, m: Mapping, t: Table, i: nat)
    requires Sixteen(sr) && Fits(|t|, sr.sdr1) && Mappable(m) && DistinctVsids(sr, m) && PagedSegments(sr, m)
    requires FreshSegments(sr, m, t) && Complete(sr, m, t) && i < Regions(m)
    ensures FollowsWalk(PageTableMmu(sr, InsertAll(sr.sdr1, t, MappingPages(sr, m, 0)).table), m, i)
  {
    hide MappingPages, Physical, KeyOf, DistinctVsids, FreshSegments, Complete, InsertAll, Translate, Mappable, Fits,
      EaMapped, UsesSegment, Frame;
    MappableIsTerminated(m);
    var t' := InsertAll(sr.sdr1, t, MappingPages(sr, m, 0)).table;
    forall ea: uint32 | InRegion(m[i], ea)
      ensures PageTableMmu(sr, t')(ea) == Some(Physical(m, ea))
    {
      UsedSegment(m, i, ea);
      PageTableAgreesWithWalk(sr, m, t, ea);
    }
  }

  lemma {:induction false} AlignedIsWhole(m: Mapping)
    requires Mappable(m)
    ensures WellFormed(m) && AllWholeBuffers(m)
  {
    hide WellFormed;
    MappableIsTerminated(m);
    forall i, j | 0 <= i < Regions(m) && 0 <= j < |Chunks(m, i)|
      ensures Size(Chunks(m, i)[j]) % 0x4000 == 0
    {
      var c := Chunks(m, i)[j];
      AlignedSize(c);
      DivModUnique(Size(c), 0x4000, 8 * (Size(c) / 0x2_0000), 0);
    }
  }

  /** The word that starts at a physical address. */
  function WordAt(r: Ram, pa: nat): Option<uint32> {
    if pa % 4 == 0 && pa / 4 < |r| then Some(r[pa / 4]) else None
  }

  /** Mapping and writing together: after mapping a layout and numbering its words in physical
      memory, the word at the frame that the page table gives for region start + 4w is w. */
  lemma {:induction false} MappedWordsReadBack(sr: Registers, m: Mapping, t: Table, r: Ram, i: nat, w: nat, ea: uint32)
    requires Sixteen(sr) && Fits(|t|, sr.sdr1) && Mappable(m) && DistinctVsids(sr, m)
    requires FreshSegments(sr, m, t) && Complete(sr, m, t) && AllInRam(m, |r|)
    requires i < Regions(m) && InRegion(m[i], ea) && ea == m[i].eaStart + 4 * w
    ensures var now := Translate(sr.sdr1, InsertAll(sr.sdr1, t, MappingPages(sr, m, 0)).table, KeyOf(sr, ea));
            now.Some? && WordAt(FilledRegions(r, m, 0), Frame(now.value) + ea % 0x2_0000) == Some(w)
  {
    hide MappingPages, DistinctVsids, FreshSegments, Complete, InsertAll, Mappable, Fits, AllInRam, EaMapped,
      UsesSegment, FilledRegions, Physical, WellFormed, AllWholeBuffers, Translate, KeyOf, Frame;
    MappableIsTerminated(m);
    AlignedIsWhole(m);
    UsedSegment(m, i, ea);
    PageTableAgreesWithWalk(sr, m, t, ea);
    WrittenWordsReadBack(r, m, i, w);
  }

  /** Mapping, writing and reading together: the test of every region passes through the page
      table. */
  lemma {:induction false} MappedRegionsPassTest(sr: Registers, m: Mapping, t: Table, r: Ram)
    requires Sixteen(sr) && Fits(|t|, sr.sdr1) && Mappable(m) && DistinctVsids(sr, m) && PagedSegments(sr, m)
    requires FreshSegments(sr, m, t) && Complete(sr, m, t) && AllInRam(m, |r|)
    ensures var mmu := PageTableMmu(sr, InsertAll(sr.sdr1, t, MappingPages(sr, m, 0)).table);
            AllPass(mmu, m, FilledRegions(r, m, 0))
  {
    hide MappingPages, DistinctVsids, FreshSegments, Complete, InsertAll, Mappable, Fits, PageTableMmu, AllInRam,
      FilledRegions, PagedSegments, WellFormed, AllWholeBuffers, ReadsBack, Readable;
    MappableIsTerminated(m);
    var mmu := PageTableMmu(sr, InsertAll(sr.sdr1, t, MappingPages(sr, m, 0)).table);
    AlignedIsWhole(m);
    forall i | 0 <= i < Regions(m)
      ensures Readable(mmu, m, i, |r|) && ReadsBack(mmu, m, FilledRegions(r, m, 0), i)
    {
      PageTableFollowsWalk(sr, m, t, i);
      TestSucceeds(mmu, r, m, i);
    }
  }
}
