/** The size of the mapped area that starts at an address, read off the page table. */
module AreaSize {
  import opened Words
  import opened PageTable
  import opened Translation
  import opened Occupancy
  import opened Layout
  import opened RegionMapper
  import opened Agreement
  import opened Entries

  /** The primary-only lookup finds an entry for the page of ea. */
  predicate Hit(sr: Registers, t: Table, ea: uint32)
    requires Sixteen(sr) && Fits(|t|, sr.sdr1)
  {
    HitKey(sr, t, KeyOf(sr, ea))
  }

  /** The primary-only lookup finds an entry for the page. */
  predicate HitKey(sr: Registers, t: Table, k: Key)
    requires Sixteen(sr) && Fits(|t|, sr.sdr1)
  {
    Lookup(sr.sdr1, t, k, false).Some?
  }

  /** A page is hit exactly if a slot of its primary group holds a valid entry with hash bit 0, its
      VSID and its abbreviated page index; the complemented group does not count. */
  lemma {:induction false} HitIsPrimaryEntry(sr: Registers, t: Table, ea: uint32)
    requires Sixteen(sr) && Fits(|t|, sr.sdr1)
    ensures var k := Key(sr.value[ea / 0x1000_0000] % 0x100_0000, ea / 0x2_0000 % 0x800);
            var x := BitXor(k.vsid % 0x8_0000, k.page);
            var g := BitAnd(x / 0x400, sr.sdr1 % 0x200) * 0x400 + x % 0x400;
            && HasGroup(t, g)
            && (Hit(sr, t, ea) <==> exists s :: 0 <= s < 8 && Marks(Pteh(t, g, s), k, 0))
  {
    hide BitXor, BitAnd, Lookup, Marks, Pteh;
    PrimaryLookupFinds(sr.sdr1, t, KeyOf(sr, ea));
  }

  /** The number of pages hit one after another from addr on, stopping at end or at a miss. */
  function HitRun(sr: Registers, t: Table, addr: nat, end: uint32): (n: nat)
    requires Sixteen(sr) && Fits(|t|, sr.sdr1)
    decreases end - addr
  {
    if addr < end && Hit(sr, t, addr) then 1 + HitRun(sr, t, addr + 0x2_0000, end) else 0
  }

  /** Every page from addr up to end is hit. */
  predicate AllHit(sr: Registers, t: Table, addr: nat, end: uint32)
    requires Sixteen(sr) && Fits(|t|, sr.sdr1)
    decreases end - addr
  {
    addr < end ==> Hit(sr, t, addr) && AllHit(sr, t, addr + 0x2_0000, end)
  }

  function SegmentStart(segment: nat, start: uint32): nat {
    if segment == start / 0x1000_0000 then start else segment * 0x1000_0000
  }

  function SegmentEnd(segment: nat, end: uint32): nat {
    if segment == end / 0x1000_0000 then end else (segment + 1) * 0x1000_0000
  }

  // ---- Addresses that wrap

  /** Stepping from `from` in pages, the 32-bit address wraps to the first page before it
      reaches `to`. */
  predicate Wraps(from: nat, to: nat) {
    from < to && from % 0x2_0000 + 0xFFFE_0000 < to
  }

  function NextPage(page: PageIndex, k: nat): PageIndex {
    (page + k) % 0x800
  }

  /** The number of pages of a VSID hit one after another from an index on, going round after
      the last index, but at most n. */
  function CyclicHits(sr: Registers, t: Table, vsid: Vsid, page: PageIndex, n: nat): (hits: nat)
    requires Sixteen(sr) && Fits(|t|, sr.sdr1)
    ensures hits <= n
    decreases n
  {
    if n == 0 || !HitKey(sr, t, Key(vsid, page)) then 0
    else 1 + CyclicHits(sr, t, vsid, NextPage(page, 1), n - 1)
  }

  lemma {:induction false} NextPageStep(page: PageIndex, k: nat)
    ensures NextPage(NextPage(page, 1), k) == NextPage(page, k + 1)
  {
    if page == 0x7FF {
      DivModUnique(0x800 + k, 0x800, k / 0x800 + 1, k % 0x800);
    }
  }

  /** These are the pages up to the first miss. */
  lemma {:induction false} CyclicHitsEndAtMiss(sr: Registers, t: Table, vsid: Vsid, page: PageIndex, n: nat)
    requires Sixteen(sr) && Fits(|t|, sr.sdr1)
    ensures var hits := CyclicHits(sr, t, vsid, page, n);
            && (forall k :: 0 <= k < hits ==> HitKey(sr, t, Key(vsid, NextPage(page, k))))
            && (hits < n ==> !HitKey(sr, t, Key(vsid, NextPage(page, hits))))
    decreases n
  {
    hide HitKey, NextPage;
    NextPageZero(page);
    if n > 0 && HitKey(sr, t, Key(vsid, page)) {
      var rest := CyclicHits(sr, t, vsid, NextPage(page, 1), n - 1);
      CyclicHitsEndAtMiss(sr, t, vsid, NextPage(page, 1), n - 1);
      NextPageStep(page, rest);
      forall k | 0 <= k < 1 + rest
        ensures HitKey(sr, t, Key(vsid, NextPage(page, k)))
      {
        if k > 0 {
          NextPageStep(page, k - 1);
        }
      }
    }
  }

  lemma {:induction false} NextPageZero(page: PageIndex)
    ensures NextPage(page, 0) == page
  {
  }

  function VsidOf(sr: Registers, segment: nat): Vsid
    requires Sixteen(sr) && segment < 16
  {
    sr.value[segment] % 0x100_0000
  }

  /** Every page of the segment is hit. */
  predicate AllPagesHit(sr: Registers, t: Table, segment: nat)
    requires Sixteen(sr) && Fits(|t|, sr.sdr1) && segment < 16
  {
    forall page: PageIndex :: HitKey(sr, t, Key(VsidOf(sr, segment), page))
  }

  /** The pages counted in the segments from `segment` on: direct-store segments are passed over,
      the first miss ends the count; in the last segment the count may go round. */
  function AreaPages(sr: Registers, t: Table, start: uint32, end: uint32, segment: nat): nat
    requires Sixteen(sr) && Fits(|t|, sr.sdr1)
    decreases 16 - segment
  {
    if segment > end / 0x1000_0000 then 0
    else if DirectStore(sr, segment) then AreaPages(sr, t, start, end, segment + 1)
    else
      var from, to := SegmentStart(segment, start), SegmentEnd(segment, end);
      if Wraps(from, to) then CyclicHits(sr, t, VsidOf(sr, segment), from / 0x2_0000 % 0x800, 0x800)
      else
        HitRun(sr, t, from, to) + (if AllHit(sr, t, from, to) then AreaPages(sr, t, start, end, segment + 1) else 0)
  }

  /** The paged segments from that of start up to the last one are hit as far as they are looked
      at, the address wraps in the last segment, and all its pages are hit. */
  predicate Endless(sr: Registers, t: Table, start: uint32, end: uint32)
    requires Sixteen(sr) && Fits(|t|, sr.sdr1)
  {
    && end / 0x1000_0000 == 15 && !DirectStore(sr, 15) && Wraps(SegmentStart(15, start), end) && AllPagesHit(sr, t, 15)
    && forall s :: start / 0x1000_0000 <= s < 15 && !DirectStore(sr, s)
         ==> AllHit(sr, t, SegmentStart(s, start), SegmentEnd(s, end))
  }

  /** getAreaSizeFromPageTable, on the registers and page table it reads, wherever it ends. */
  method GetAreaSizeFromPageTable(start: uint32, maxSize: uint32, srTable: Registers, pageTable: array<uint32>)
    returns (memSize: uint32)
    requires Sixteen(srTable) && Fits(pageTable.Length, srTable.sdr1)
    requires !Endless(srTable, pageTable[..], start, Wrap(start + maxSize))
    ensures var end := Wrap(start + maxSize);
            memSize == Wrap(0x2_0000 * AreaPages(srTable, pageTable[..], start, end, start / 0x1000_0000))
  {
    hide AreaPages, Endless, AllHit, Fits, SegmentHits, Wraps, AllPagesHit;
    var srStart := start / 0x1000_0000;
    var srEnd := Wrap(start + maxSize) / 0x1000_0000;
    if srEnd < srStart {
      NoPagesBeyond(srTable, pageTable[..], start, Wrap(start + maxSize), srStart);
      return 0;
    }
    var curAddress: nat := start;
    var endAddress := Wrap(start + maxSize);
    memSize := 0;
    ghost var t := pageTable[..];
    ghost var pages: nat := 0;

    var segment := srStart;
    while segment <= srEnd
      invariant srStart <= segment <= srEnd + 1
      invariant memSize == Wrap(0x2_0000 * pages)
      invariant curAddress == start || segment > srStart
      invariant AreaPages(srTable, t, start, endAddress, srStart)
                == pages + AreaPages(srTable, t, start, endAddress, segment)
      invariant forall s :: srStart <= s < segment && s < 15 && !DirectStore(srTable, s)
                  ==> AllHit(srTable, t, SegmentStart(s, start), SegmentEnd(s, endAddress))
    {
      var sr := srTable.value[segment];
      AreaPagesStep(srTable, t, start, endAddress, segment);
      if sr / 0x8000_0000 != 0 {
      } else {
        var vsid := sr % 0x100_0000;
        var curEndAddr := if segment == srEnd then endAddress else (segment + 1) * 0x1000_0000;
        if segment != srStart {
          curAddress := segment * 0x1000_0000;
        }
        WrapsInLastSegment(curAddress, curEndAddr, segment);
        if Wraps(curAddress, curEndAddr) {
          NotEndless(srTable, t, start, endAddress, segment);
        }
        ghost var hits := SegmentHits(srTable, t, segment, curAddress, curEndAddr, 0x800);
        WrapPages(memSize, pages, hits);
        pages := pages + hits;
        var success;
        success, memSize := AddHits(memSize, curAddress, curEndAddr, segment, vsid, srTable, pageTable);
        if !success {
          return;
        }
      }
      segment := segment + 1;
    }
    NoPagesBeyond(srTable, t, start, endAddress, segment);
  }

  /** The pages counted in one paged segment from addr on, going round at most once. */
  ghost function SegmentHits(sr: Registers, t: Table, segment: nat, addr: uint32, to: uint32, n: nat): nat
    requires Sixteen(sr) && Fits(|t|, sr.sdr1) && segment < 16
  {
    if Wraps(addr, to) then CyclicHits(sr, t, VsidOf(sr, segment), addr / 0x2_0000 % 0x800, n)
    else HitRun(sr, t, addr, to)
  }

  /** One segment of the count. */
  lemma {:induction false} AreaPagesStep(sr: Registers, t: Table, start: uint32, end: uint32, segment: nat)
    requires Sixteen(sr) && Fits(|t|, sr.sdr1) && start / 0x1000_0000 <= segment <= end / 0x1000_0000
    ensures var from, to := SegmentStart(segment, start), SegmentEnd(segment, end);
            var rest := AreaPages(sr, t, start, end, segment + 1);
            && from < 0x1_0000_0000 && to < 0x1_0000_0000
            && AreaPages(sr, t, start, end, segment)
               == if DirectStore(sr, segment) then rest
                  else SegmentHits(sr, t, segment, from, to, 0x800)
                       + (if !Wraps(from, to) && AllHit(sr, t, from, to) then rest else 0)
  {
    hide HitRun, AllHit, CyclicHits, Wraps;
  }

  lemma {:induction false} NotEndless(sr: Registers, t: Table, start: uint32, end: uint32, segment: nat)
    requires Sixteen(sr) && Fits(|t|, sr.sdr1) && !Endless(sr, t, start, end)
    requires start / 0x1000_0000 <= segment <= end / 0x1000_0000 && !DirectStore(sr, segment)
    requires forall s :: start / 0x1000_0000 <= s < segment && s < 15 && !DirectStore(sr, s)
               ==> AllHit(sr, t, SegmentStart(s, start), SegmentEnd(s, end))
    requires segment == 15 && Wraps(SegmentStart(segment, start), SegmentEnd(segment, end))
    ensures !AllPagesHit(sr, t, segment)
  {
    hide AllHit, Wraps, AllPagesHit;
  }

  lemma {:induction false} WrapsInLastSegment(from: nat, to: uint32, segment: nat)
    requires segment < 16 && to <= (segment + 1) * 0x1000_0000
    ensures Wraps(from, to) ==> segment == 15
  {
  }

  lemma {:induction false} WrapPages(memSize: uint32, pages: nat, count: nat)
    requires memSize == Wrap(0x2_0000 * pages)
    ensures Wrap(memSize + 0x2_0000 * count) == Wrap(0x2_0000 * (pages + count))
  {
    assert 0x2_0000 * (pages + count) == 0x2_0000 * count + 0x2_0000 * pages;
    WrapSum(0x2_0000 * count, 0x2_0000 * pages);
  }

  lemma {:induction false} StepInside(addr: uint32, to: uint32)
    requires addr < to && !Wraps(addr, to)
    ensures addr + 0x2_0000 < 0x1_0000_0000 && !Wraps(addr + 0x2_0000, to)
  {
    DivModUnique(addr + 0x2_0000, 0x2_0000, addr / 0x2_0000 + 1, addr % 0x2_0000);
  }

  lemma {:induction false} StepRound(addr: uint32, to: uint32)
    requires Wraps(addr, to)
    ensures Wraps(Wrap(addr + 0x2_0000), to)
    ensures Wrap(addr + 0x2_0000) / 0x2_0000 % 0x800 == NextPage(addr / 0x2_0000 % 0x800, 1)
  {
    AfterTurns(addr, 1);
    var q, r := addr / 0x2_0000, addr % 0x2_0000;
    if q < 0x7FFF {
      WrapSmall(addr + 0x2_0000);
      DivModUnique(addr + 0x2_0000, 0x2_0000, q + 1, r);
    } else {
      DivModUnique(addr + 0x2_0000, 0x1_0000_0000, 1, r);
    }
  }

  /** A hit page adds one to the count and moves on; a miss ends it. */
  lemma {:induction false} HitsStep(sr: Registers, t: Table, segment: nat, addr: uint32, to: uint32, n: nat)
    requires Sixteen(sr) && Fits(|t|, sr.sdr1) && segment < 16 && addr < to
    requires if Wraps(addr, to) then n > 0 else Segment(addr) == segment
    ensures Wraps(Wrap(addr + 0x2_0000), to) == Wraps(addr, to)
    ensures !Wraps(addr, to) ==> Wrap(addr + 0x2_0000) == addr + 0x2_0000
    ensures SegmentHits(sr, t, segment, addr, to, n)
            == if !HitKey(sr, t, Key(VsidOf(sr, segment), addr / 0x2_0000 % 0x800)) then 0
               else 1 + SegmentHits(sr, t, segment, Wrap(addr + 0x2_0000), to, if n == 0 then 0 else n - 1)
    ensures !Wraps(addr, to) ==>
              (AllHit(sr, t, addr, to)
               <==> HitKey(sr, t, Key(VsidOf(sr, segment), addr / 0x2_0000 % 0x800))
                    && AllHit(sr, t, addr + 0x2_0000, to))
  {
    hide HitKey;
    if Wraps(addr, to) {
      StepRound(addr, to);
    } else {
      hide Wraps;
      StepInside(addr, to);
      assert KeyOf(sr, addr) == Key(VsidOf(sr, segment), addr / 0x2_0000 % 0x800);
    }
  }

  lemma {:induction false} EndOfRange(sr: Registers, t: Table, segment: nat, addr: uint32, to: uint32, n: nat)
    requires Sixteen(sr) && Fits(|t|, sr.sdr1) && segment < 16 && to <= addr
    ensures !Wraps(addr, to) && SegmentHits(sr, t, segment, addr, to, n) == 0 && AllHit(sr, t, addr, to)
  {
  }

  /** A count that goes all the way round has seen every page of the segment. */
  lemma {:induction false} FullRound(sr: Registers, t: Table, segment: nat, page: PageIndex)
    requires Sixteen(sr) && Fits(|t|, sr.sdr1) && segment < 16
    ensures CyclicHits(sr, t, VsidOf(sr, segment), page, 0x800) == 0x800 <==> AllPagesHit(sr, t, segment)
  {
    hide HitKey, CyclicHits, VsidOf;
    CyclicHitsEndAtMiss(sr, t, VsidOf(sr, segment), page, 0x800);
    if CyclicHits(sr, t, VsidOf(sr, segment), page, 0x800) == 0x800 {
      forall p: PageIndex
        ensures HitKey(sr, t, Key(VsidOf(sr, segment), p))
      {
        NextPageReaches(page, p);
      }
    }
  }

  /** The inner loop: add up the pages of one segment until the first miss. */
  method AddHits(memSizeIn: uint32, curAddress: uint32, curEndAddr: uint32, ghost segment: nat, vsid: Vsid,
                 srTable: Registers, pageTable: array<uint32>)
    returns (success: bool, memSize: uint32)
    requires Sixteen(srTable) && Fits(pageTable.Length, srTable.sdr1)
    requires segment < 16 && vsid == VsidOf(srTable, segment)
    requires segment * 0x1000_0000 <= curAddress && curEndAddr <= (segment + 1) * 0x1000_0000
    requires Wraps(curAddress, curEndAddr) ==> !AllPagesHit(srTable, pageTable[..], segment)
    ensures memSize
            == Wrap(memSizeIn + 0x2_0000 * SegmentHits(srTable, pageTable[..], segment, curAddress, curEndAddr, 0x800))
    ensures success <==> !Wraps(curAddress, curEndAddr) && AllHit(srTable, pageTable[..], curAddress, curEndAddr)
  {
    hide Lookup, Fits, Wrap, Wraps, HitRun, CyclicHits, AllPagesHit;
    success := true;
    memSize := memSizeIn;
    ghost var t := pageTable[..];
    ghost var count: nat := 0;
    ghost var left: nat := 0x800;
    ghost var round := Wraps(curAddress, curEndAddr);
    WrapSmall(memSizeIn);
    FullRound(srTable, t, segment, curAddress / 0x2_0000 % 0x800);
    var addr: uint32 := curAddress;
    while addr < curEndAddr
      invariant success && round == Wraps(addr, curEndAddr)
      invariant memSize == Wrap(memSizeIn + 0x2_0000 * count)
      invariant SegmentHits(srTable, t, segment, curAddress, curEndAddr, 0x800)
                == count + SegmentHits(srTable, t, segment, addr, curEndAddr, left)
      invariant round ==> count + left == 0x800
      invariant !round ==> segment * 0x1000_0000 <= addr
      invariant !round ==> AllHit(srTable, t, curAddress, curEndAddr) == AllHit(srTable, t, addr, curEndAddr)
      decreases if round then left else curEndAddr - addr
    {
      var entry := GetPageEntryForAddress(srTable.sdr1, addr, vsid, pageTable, false);
      assert entry.Some? <==> HitKey(srTable, t, Key(VsidOf(srTable, segment), addr / 0x2_0000 % 0x800));
      HitsStep(srTable, t, segment, addr, curEndAddr, left);
      if entry.Some? {
        WrapNextPage(memSizeIn, count);
        memSize := Wrap(memSize + 0x2_0000);
        count := count + 1;
      } else {
        success := false;
        break;
      }
      left := if left == 0 then 0 else left - 1;
      addr := Wrap(addr + 0x2_0000);
    }
    if success {
      EndOfRange(srTable, t, segment, addr, curEndAddr, left);
    }
  }

  /** The inner loop of a segment goes on for ever if and only if its address wraps before it
      reaches the end and all pages of the segment are hit. */
  lemma {:induction false} SegmentEndlessIff(sr: Registers, t: Table, segment: nat, from: uint32, to: uint32)
    requires Sixteen(sr) && Fits(|t|, sr.sdr1) && segment < 16
    ensures (forall n: nat :: Turn(sr, t, segment, from, to, n)) <==> Wraps(from, to) && AllPagesHit(sr, t, segment)
  {
    hide HitKey, Wrap, NextPage, VsidOf;
    var first: PageIndex := from / 0x2_0000 % 0x800;
    if Wraps(from, to) && AllPagesHit(sr, t, segment) {
      forall n: nat
        ensures Turn(sr, t, segment, from, to, n)
      {
        AfterTurns(from, n);
      }
    } else if forall n: nat :: Turn(sr, t, segment, from, to, n) {
      LastTurn(sr, t, segment, from, to);
      forall p: PageIndex
        ensures HitKey(sr, t, Key(VsidOf(sr, segment), p))
      {
        var n := (p - first) % 0x800;
        NextPageReaches(first, p);
        AfterTurns(from, n);
        assert Turn(sr, t, segment, from, to, n);
      }
    }
  }

  /** The whole scan goes on for ever if and only if it gets as far as segment 15 and the inner loop
      of that segment goes on for ever. */
  lemma {:induction false} EndlessExactly(sr: Registers, t: Table, start: uint32, end: uint32)
    requires Sixteen(sr) && Fits(|t|, sr.sdr1)
    ensures Endless(sr, t, start, end) <==>
            && end / 0x1000_0000 == 15 && sr.value[15] < 0x8000_0000
            && (forall s :: start / 0x1000_0000 <= s < 15 && !DirectStore(sr, s)
                  ==> AllHit(sr, t, SegmentStart(s, start), SegmentEnd(s, end)))
            && forall n: nat :: Turn(sr, t, 15, SegmentStart(15, start), end, n)
  {
    hide AllHit, Wraps, Turn, AllPagesHit;
    SegmentEndlessIff(sr, t, 15, SegmentStart(15, start), end);
  }

  lemma {:induction false} NextPageReaches(page: PageIndex, p: PageIndex)
    ensures NextPage(page, (p - page) % 0x800) == p
  {
    DivModUnique(page + (p - page) % 0x800, 0x800, if p >= page then 0 else 1, p);
  }

  /** A loop that does not end meets the last address below 2^32. */
  lemma {:induction false} LastTurn(sr: Registers, t: Table, segment: nat, from: uint32, to: uint32)
    requires Sixteen(sr) && Fits(|t|, sr.sdr1) && segment < 16
    requires forall n: nat :: Turn(sr, t, segment, from, to, n)
    ensures Wraps(from, to)
  {
    hide HitKey;
    var last := 0x7FFF - from / 0x2_0000;
    assert Turn(sr, t, segment, from, to, 0) && Turn(sr, t, segment, from, to, last);
    assert from + last * 0x2_0000 == from % 0x2_0000 + 0xFFFE_0000;
  }

  /** After n turns the inner loop is inside its range and hits a page. */
  predicate Turn(sr: Registers, t: Table, segment: nat, from: uint32, to: uint32, n: nat)
    requires Sixteen(sr) && Fits(|t|, sr.sdr1) && segment < 16
  {
    var addr := Wrap(from + n * 0x2_0000);
    addr < to && HitKey(sr, t, Key(VsidOf(sr, segment), addr / 0x2_0000 % 0x800))
  }

  lemma {:induction false} AfterTurns(from: uint32, n: nat)
    ensures Wrap(from + n * 0x2_0000) <= from % 0x2_0000 + 0xFFFE_0000
    ensures Wrap(from + n * 0x2_0000) / 0x2_0000 % 0x800 == NextPage(from / 0x2_0000 % 0x800, n)
  {
    var r, x := from % 0x2_0000, from / 0x2_0000 + n;
    var y := x % 0x8000;
    DivModUnique(from + n * 0x2_0000, 0x1_0000_0000, x / 0x8000, y * 0x2_0000 + r);
    DivModUnique(y * 0x2_0000 + r, 0x2_0000, y, r);
    DivModUnique(x, 0x800, x / 0x8000 * 0x10 + y / 0x800, y % 0x800);
    var f := from / 0x2_0000;
    DivModUnique(f % 0x800 + n, 0x800, x / 0x800 - f / 0x800, x % 0x800);
  }

  lemma {:induction false} WrapNextPage(memSize: uint32, count: nat)
    ensures Wrap(Wrap(memSize + 0x2_0000 * count) + 0x2_0000) == Wrap(memSize + 0x2_0000 * (count + 1))
  {
    WrapSum(0x2_0000, memSize + 0x2_0000 * count);
  }

  // ---- What the size means

  /** n is the length of the longest prefix of the pages of [start, end) that are all hit. */
  ghost predicate LongestHitPrefix(sr: Registers, t: Table, start: nat, end: uint32, n: nat)
    requires Sixteen(sr) && Fits(|t|, sr.sdr1)
  {
    && (forall k :: 0 <= k < n ==> start + k * 0x2_0000 < end && Hit(sr, t, start + k * 0x2_0000))
    && (start + n * 0x2_0000 < end ==> !Hit(sr, t, start + n * 0x2_0000))
  }

  lemma {:induction false} HitRunIsLongest(sr: Registers, t: Table, start: nat, end: uint32)
    requires Sixteen(sr) && Fits(|t|, sr.sdr1)
    ensures LongestHitPrefix(sr, t, start, end, HitRun(sr, t, start, end))
    decreases end - start
  {
    hide Hit;
    if start < end && Hit(sr, t, start) {
      HitRunIsLongest(sr, t, start + 0x2_0000, end);
      var n := HitRun(sr, t, start + 0x2_0000, end);
      forall k | 0 <= k < n + 1
        ensures start + k * 0x2_0000 < end && Hit(sr, t, start + k * 0x2_0000)
      {
        if k > 0 {
          assert start + 0x2_0000 + (k - 1) * 0x2_0000 == start + k * 0x2_0000;
        }
      }
      assert start + 0x2_0000 + n * 0x2_0000 == start + (n + 1) * 0x2_0000;
    }
  }

  /** A run over [addr, end) is a run over [addr, mid) continued at mid if that was all hit. */
  lemma {:induction false} HitRunSplits(sr: Registers, t: Table, addr: nat, mid: uint32, end: uint32)
    requires Sixteen(sr) && Fits(|t|, sr.sdr1) && addr <= mid <= end && (mid - addr) % 0x2_0000 == 0
    ensures AllHit(sr, t, addr, end) <==> AllHit(sr, t, addr, mid) && AllHit(sr, t, mid, end)
    ensures HitRun(sr, t, addr, end)
            == HitRun(sr, t, addr, mid) + (if AllHit(sr, t, addr, mid) then HitRun(sr, t, mid, end) else 0)
    decreases mid - addr
  {
    hide Hit;
    if addr < mid && Hit(sr, t, addr) {
      HitRunSplits(sr, t, addr + 0x2_0000, mid, end);
    }
  }

  predicate NoDirectStore(sr: Registers, start: uint32, end: uint32)
    requires Sixteen(sr)
  {
    forall s :: start / 0x1000_0000 <= s <= end / 0x1000_0000 ==> !DirectStore(sr, s)
  }

  /** The pages counted behind an end above 0xFFFE0000: when all pages from `from` on are hit, the
      address wraps and the count goes on with the first pages of the last segment, up to those
      where it started. */
  function Overrun(sr: Registers, t: Table, start: uint32, from: nat, end: uint32): nat
    requires Sixteen(sr) && Fits(|t|, sr.sdr1)
  {
    if end > 0xFFFE_0000 && AllHit(sr, t, from, end)
    then CyclicHits(sr, t, VsidOf(sr, 15), 0, SegmentStart(15, start) / 0x2_0000 % 0x800)
    else 0
  }

  lemma {:induction false} CyclicStep(sr: Registers, t: Table, from: nat, end: uint32, n: nat)
    requires Sixteen(sr) && Fits(|t|, sr.sdr1) && 0xF000_0000 <= from <= 0xFFFE_0000 < end
    requires from % 0x2_0000 == 0 && n > 0
    ensures CyclicHits(sr, t, VsidOf(sr, 15), from / 0x2_0000 % 0x800, n)
            == if Hit(sr, t, from)
               then 1 + CyclicHits(sr, t, VsidOf(sr, 15), (from + 0x2_0000) / 0x2_0000 % 0x800, n - 1)
               else 0
  {
    hide HitKey;
    assert Segment(from) == 15;
    assert NextPage(from / 0x2_0000 % 0x800, 1) == (from + 0x2_0000) / 0x2_0000 % 0x800;
  }

  /** Going round from an address of the last segment: first the pages up to the end of the
      address space, then those from the start of the segment on. */
  lemma {:induction false} CyclicIsRun(sr: Registers, t: Table, from: nat, end: uint32, n: nat)
    requires Sixteen(sr) && Fits(|t|, sr.sdr1) && 0xF000_0000 <= from <= 0x1_0000_0000 && from % 0x2_0000 == 0
    requires end > 0xFFFE_0000 && n + from / 0x2_0000 >= 0x8000
    ensures CyclicHits(sr, t, VsidOf(sr, 15), from / 0x2_0000 % 0x800, n)
            == HitRun(sr, t, from, end)
               + (if AllHit(sr, t, from, end)
                  then CyclicHits(sr, t, VsidOf(sr, 15), 0, n + from / 0x2_0000 - 0x8000) else 0)
    decreases 0x1_0000_0000 - from
  {
    hide Hit, CyclicHits;
    if from < 0x1_0000_0000 {
      DivModUnique(from + 0x2_0000, 0x2_0000, from / 0x2_0000 + 1, 0);
      CyclicStep(sr, t, from, end, n);
      if Hit(sr, t, from) {
        CyclicIsRun(sr, t, from + 0x2_0000, end, n - 1);
      }
    }
  }

  /** The last segment of the count, for a range whose end makes the address wrap or not. */
  lemma {:induction false} LastSegmentRun(sr: Registers, t: Table, start: uint32, end: uint32)
    requires Sixteen(sr) && Fits(|t|, sr.sdr1) && start <= end && start % 0x2_0000 == 0
    ensures var segment := end / 0x1000_0000; var from := SegmentStart(segment, start);
            from <= end
            && SegmentHits(sr, t, segment, from, end, 0x800)
               == HitRun(sr, t, from, end) + Overrun(sr, t, start, from, end)
  {
    hide Hit, HitRun, CyclicHits, AllHit;
    var segment := end / 0x1000_0000;
    var from := SegmentStart(segment, start);
    SegmentStartAligned(segment, start);
    if end > 0xFFFE_0000 {
      CyclicIsRun(sr, t, from, end, 0x800);
    }
  }

  lemma {:induction false} SegmentStartAligned(segment: nat, start: uint32)
    requires start % 0x2_0000 == 0
    ensures SegmentStart(segment, start) % 0x2_0000 == 0
  {
    DivModUnique(segment * 0x1000_0000, 0x2_0000, segment * 0x800, 0);
  }

  /** The pages counted are one run over the range, and the overrun. */
  lemma {:induction false} AreaIsRunAndOverrun(sr: Registers, t: Table, start: uint32, end: uint32, segment: nat)
    requires Sixteen(sr) && Fits(|t|, sr.sdr1) && NoDirectStore(sr, start, end)
    requires start <= end && start % 0x2_0000 == 0
    requires start / 0x1000_0000 <= segment <= end / 0x1000_0000
    ensures var from := SegmentStart(segment, start);
            AreaPages(sr, t, start, end, segment) == HitRun(sr, t, from, end) + Overrun(sr, t, start, from, end)
    decreases 16 - segment
  {
    hide Hit, HitRun, AllHit, AreaPages, CyclicHits, SegmentHits;
    var from := SegmentStart(segment, start);
    AreaPagesStep(sr, t, start, end, segment);
    if segment < end / 0x1000_0000 {
      var mid := (segment + 1) * 0x1000_0000;
      SegmentAligned(segment, start);
      HitRunSplits(sr, t, from, mid, end);
      AreaIsRunAndOverrun(sr, t, start, end, segment + 1);
      InnerSegmentHits(sr, t, segment, from, mid);
    } else {
      LastSegmentRun(sr, t, start, end);
      NoPagesBeyond(sr, t, start, end, segment + 1);
    }
  }

  lemma {:induction false} InnerSegmentHits(sr: Registers, t: Table, segment: nat, from: uint32, to: uint32)
    requires Sixteen(sr) && Fits(|t|, sr.sdr1) && segment < 16 && to <= 0xF000_0000
    ensures !Wraps(from, to) && SegmentHits(sr, t, segment, from, to, 0x800) == HitRun(sr, t, from, to)
  {
  }

  lemma {:induction false} NoPagesBeyond(sr: Registers, t: Table, start: uint32, end: uint32, segment: nat)
    requires Sixteen(sr) && Fits(|t|, sr.sdr1) && segment > end / 0x1000_0000
    ensures AreaPages(sr, t, start, end, segment) == 0
  {
  }

  lemma {:induction false} SegmentAligned(segment: nat, start: uint32)
    requires start % 0x2_0000 == 0 && start / 0x1000_0000 <= segment
    ensures SegmentStart(segment, start) <= (segment + 1) * 0x1000_0000
    ensures ((segment + 1) * 0x1000_0000 - SegmentStart(segment, start)) % 0x2_0000 == 0
  {
    DivModUnique((segment + 1) * 0x1000_0000 - SegmentStart(segment, start), 0x2_0000,
                 (segment + 1) * 0x800 - SegmentStart(segment, start) / 0x2_0000, 0);
  }

  lemma {:induction false} PagesBelow(start: uint32, end: uint32, n: nat)
    requires end <= 0xFFFE_0000 && (n > 0 ==> start + (n - 1) * 0x2_0000 < end)
    ensures 0x2_0000 * n < 0x1_0000_0000
  {
  }

  /** For a page-aligned start and no direct-store segment in reach, the size is the page size
      times the length of the longest prefix of hit pages, across segment boundaries. */
  lemma {:induction false} AreaSizeIsLongestPrefix(sr: Registers, t: Table, start: uint32, maxSize: uint32)
    requires Sixteen(sr) && Fits(|t|, sr.sdr1) && start % 0x2_0000 == 0
    requires start + maxSize <= 0xFFFE_0000 && NoDirectStore(sr, start, start + maxSize)
    ensures var n := AreaPages(sr, t, start, start + maxSize, start / 0x1000_0000);
            Wrap(0x2_0000 * n) == 0x2_0000 * n && LongestHitPrefix(sr, t, start, start + maxSize, n)
  {
    hide HitRun, AreaPages, Hit;
    AreaIsRunAndOverrun(sr, t, start, start + maxSize, start / 0x1000_0000);
    HitRunIsLongest(sr, t, start, start + maxSize);
    var n := HitRun(sr, t, start, start + maxSize);
    PagesBelow(start, start + maxSize, n);
  }

  /** For an end above 0xFFFE0000 as well: the count is that of the longest prefix if and only if
      it does not overrun, which it does exactly when all pages of a range that starts inside the
      last segment are hit and the first page of that segment is hit too. */
  lemma {:induction false} LongestPrefixUnlessOverrun(sr: Registers, t: Table, start: uint32, end: uint32)
    requires Sixteen(sr) && Fits(|t|, sr.sdr1) && start % 0x2_0000 == 0 && start <= end && NoDirectStore(sr, start, end)
    ensures LongestHitPrefix(sr, t, start, end, AreaPages(sr, t, start, end, start / 0x1000_0000))
            <==> !(end > 0xFFFE_0000 && start > 0xF000_0000 && AllHit(sr, t, start, end)
                   && HitKey(sr, t, Key(VsidOf(sr, 15), 0)))
  {
    hide HitRun, AreaPages, Hit, HitKey, AllHit;
    AreaIsRunAndOverrun(sr, t, start, end, start / 0x1000_0000);
    HitRunIsLongest(sr, t, start, end);
    if end > 0xFFFE_0000 && AllHit(sr, t, start, end) {
      AllHitRun(sr, t, start, end);
      OverrunStarts(sr, t, start);
    }
  }

  lemma {:induction false} AllHitRun(sr: Registers, t: Table, start: nat, end: uint32)
    requires Sixteen(sr) && Fits(|t|, sr.sdr1)
    ensures AllHit(sr, t, start, end) ==> start + HitRun(sr, t, start, end) * 0x2_0000 >= end
    decreases end - start
  {
    hide Hit;
    if start < end {
      AllHitRun(sr, t, start + 0x2_0000, end);
    }
  }

  lemma {:induction false} OverrunStarts(sr: Registers, t: Table, start: uint32)
    requires Sixteen(sr) && Fits(|t|, sr.sdr1) && start % 0x2_0000 == 0
    ensures CyclicHits(sr, t, VsidOf(sr, 15), 0, SegmentStart(15, start) / 0x2_0000 % 0x800) > 0
            <==> start > 0xF000_0000 && HitKey(sr, t, Key(VsidOf(sr, 15), 0))
  {
    hide HitKey;
  }

  /** A range that wraps around the address space has size 0. */
  lemma {:induction false} WrappedRangeIsEmpty(sr: Registers, t: Table, start: uint32, maxSize: uint32)
    requires Sixteen(sr) && Fits(|t|, sr.sdr1) && start + maxSize >= 0x1_0000_0000
    ensures AreaPages(sr, t, start, Wrap(start + maxSize), start / 0x1000_0000) == 0
  {
    var end := Wrap(start + maxSize);
    assert end == start + maxSize - 0x1_0000_0000 && end < start;
    hide Hit;
    if start / 0x1000_0000 == end / 0x1000_0000 {
      NoPagesBeyond(sr, t, start, end, end / 0x1000_0000 + 1);
    }
  }

  /** n is the length of the longest prefix of the pages of [start, end) that lie in regions. */
  ghost predicate LongestMappedPrefix(m: Mapping, start: uint32, end: uint32, n: nat)
    requires Terminated(m)
  {
    && (forall k :: 0 <= k < n ==> start + k * 0x2_0000 < end && EaMapped(m, start + k * 0x2_0000))
    && (start + n * 0x2_0000 < end ==> !EaMapped(m, start + n * 0x2_0000))
  }

  /** Inside a segment mapped by the region mapper, the measured size is the size of the mapped
      area, as the layout describes it. */
  lemma {:induction false} MeasuredAreaIsMappedArea(sr: Registers, m: Mapping, s: nat, t: Table, start: uint32,
      maxSize: uint32)
    requires Sixteen(sr) && Fits(|t|, sr.sdr1) && Mappable(m)
    requires s < 16 && InOneSegment(m, s) && UsesSegment(m, s) && FreshSegments(sr, m, t)
    requires Mask(sr.sdr1) % 2 == 1 && HasRoom(sr.sdr1, t, MappingPages(sr, m, 0))
    requires start % 0x2_0000 == 0 && start + maxSize <= 0xFFFE_0000
    requires Segment(start) == s && start + maxSize < (s + 1) * 0x1000_0000 && !DirectStore(sr, s)
    ensures var t' := InsertAll(sr.sdr1, t, MappingPages(sr, m, 0)).table;
            LongestMappedPrefix(m, start, start + maxSize, AreaPages(sr, t', start, start + maxSize, s))
  {
    hide MappingPages, InsertAll, AreaPages, FreshSegments, HasRoom, KeyOf, Fits, Mappable, InOneSegment,
      UsesSegment, Lookup;
    MappableIsTerminated(m);
    var t' := InsertAll(sr.sdr1, t, MappingPages(sr, m, 0)).table;
    AreaSizeIsLongestPrefix(sr, t', start, maxSize);
    forall ea: uint32 | Segment(ea) == s
      ensures Hit(sr, t', ea) <==> EaMapped(m, ea)
    {
      OneSegmentSucceeds(sr, m, s, t, ea);
    }
  }
}
