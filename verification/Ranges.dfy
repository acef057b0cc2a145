/** One call of mapMemory as an update of the translation: which ranges have pages with
    distinct keys, and what a call does to the pages of its range and to all others. */
module Ranges {
  import opened Words
  import opened Wrappers
  import opened PageTable
  import opened Translation

  /** The effective address of page i of a range. */
  function PageEa(ea: uint32, i: nat): uint32 {
    Wrap(ea + i * 0x2_0000)
  }

  function VsidOfPage(sr: Registers, ea: uint32, i: nat): Vsid
    requires Sixteen(sr)
  {
    sr.value[Segment(PageEa(ea, i))] % 0x100_0000
  }

  /** Pages a multiple of 2048 pages apart have different VSIDs. */
  predicate NoAlias(sr: Registers, ea: uint32, count: nat)
    requires Sixteen(sr)
  {
    forall i, j :: 0 <= i < j < count && (j - i) % 0x800 == 0 ==> VsidOfPage(sr, ea, i) != VsidOfPage(sr, ea, j)
  }

  lemma {:induction false} PageIndexOf(ea: uint32, i: nat)
    ensures PageEa(ea, i) / 0x2_0000 % 0x800 == (ea / 0x2_0000 + i) % 0x800
    ensures Segment(PageEa(ea, i)) == (ea / 0x2_0000 + i) % 0x8000 / 0x800
  {
    var n := ea / 0x2_0000 + i;
    var q, x := n / 0x8000, n % 0x8000;
    DivModUnique(ea + i * 0x2_0000, 0x1_0000_0000, q, x * 0x2_0000 + ea % 0x2_0000);
    DivModUnique(x * 0x2_0000 + ea % 0x2_0000, 0x2_0000, x, ea % 0x2_0000);
    DivModUnique(x * 0x2_0000 + ea % 0x2_0000, 0x1000_0000, x / 0x800, x % 0x800 * 0x2_0000 + ea % 0x2_0000);
    DivModUnique(n, 0x800, q * 0x10 + x / 0x800, x % 0x800);
  }

  lemma {:induction false} SameIndex(n: nat, i: nat, j: nat)
    requires i < j
    ensures (n + i) % 0x800 == (n + j) % 0x800 <==> (j - i) % 0x800 == 0
  {
    var a, b := (n + i) / 0x800, (n + i) % 0x800;
    if (j - i) % 0x800 == 0 {
      DivModUnique(n + j, 0x800, a + (j - i) / 0x800, b);
    } else if (n + i) % 0x800 == (n + j) % 0x800 {
      DivModUnique(j - i, 0x800, (n + j) / 0x800 - a, 0);
    }
  }

  /** Two pages of a range have the same key exactly when they lie a multiple of 2048 pages
      apart, under the same VSID. */
  lemma {:induction false} SameKey(sr: Registers, ea: uint32, i: nat, j: nat)
    requires Sixteen(sr) && i < j
    ensures KeyOf(sr, PageEa(ea, i)) == KeyOf(sr, PageEa(ea, j))
            <==> (j - i) % 0x800 == 0 && VsidOfPage(sr, ea, i) == VsidOfPage(sr, ea, j)
  {
    hide PageEa;
    PageIndexOf(ea, i);
    PageIndexOf(ea, j);
    SameIndex(ea / 0x2_0000, i, j);
  }

  lemma {:induction false} PageKey(sr: Registers, pa: uint32, ea: uint32, count: nat, i: nat)
    requires Sixteen(sr) && i < count
    ensures FirstPages(sr, pa, ea, count)[i] == Page(KeyOf(sr, PageEa(ea, i)), PtelFor(Wrap(pa + i * 0x2_0000)))
  {
  }

  /** The pages of a range have distinct keys if and only if no two pages that lie a multiple of
      2048 pages apart have the same VSID. */
  lemma {:induction false} RangeKeysDistinctIff(sr: Registers, pa: uint32, ea: uint32, count: nat)
    requires Sixteen(sr)
    ensures DistinctKeys(FirstPages(sr, pa, ea, count)) <==> NoAlias(sr, ea, count)
  {
    hide KeyOf, PageEa, VsidOfPage, FirstPages, PtelFor;
    var pages := FirstPages(sr, pa, ea, count);
    forall i, j | 0 <= i < j < |pages|
      ensures pages[i].key == pages[j].key
              <==> (j - i) % 0x800 == 0 && VsidOfPage(sr, ea, i) == VsidOfPage(sr, ea, j)
    {
      PageKey(sr, pa, ea, count, i);
      PageKey(sr, pa, ea, count, j);
      SameKey(sr, ea, i, j);
    }
  }

  lemma {:induction false} FewPages(size: nat)
    requires size <= 0x1000_0000
    ensures PageCount(size) <= 0x800
  {
    DivModUnique(0x1000_0000 + 0x2_0000 - 1, 0x2_0000, 0x800, 0x1_FFFF);
  }

  /** That holds for every range of at most 256 MiB, whatever the registers. */
  lemma {:induction false} SmallRangeKeysDistinct(sr: Registers, pa: uint32, ea: uint32, size: nat)
    requires Sixteen(sr) && size <= 0x1000_0000
    ensures NoAlias(sr, ea, PageCount(size)) && DistinctKeys(PagesOf(sr, pa, ea, size))
  {
    hide DistinctKeys, FirstPages, VsidOfPage, PageCount;
    FewPages(size);
    RangeKeysDistinctIff(sr, pa, ea, PageCount(size));
  }

  /** The segments that the range covers have distinct VSIDs. */
  predicate CoveredVsidsDistinct(sr: Registers, ea: uint32, count: nat)
    requires Sixteen(sr)
  {
    forall i, j :: 0 <= i < j < count && Segment(PageEa(ea, i)) != Segment(PageEa(ea, j))
      ==> VsidOfPage(sr, ea, i) != VsidOfPage(sr, ea, j)
  }

  lemma {:induction false} SegmentsApart(n: nat, d: nat)
    requires 0 < d < 0x8000 && d % 0x800 == 0
    ensures n % 0x8000 / 0x800 != (n + d) % 0x8000 / 0x800
  {
    var x, k := n % 0x8000, d / 0x800;
    var s := x / 0x800 + k;
    if s < 0x10 {
      DivModUnique(n + d, 0x8000, n / 0x8000, x + d);
      DivModUnique(x + d, 0x800, s, x % 0x800);
    } else {
      DivModUnique(n + d, 0x8000, n / 0x8000 + 1, x + d - 0x8000);
      DivModUnique(x + d - 0x8000, 0x800, s - 0x10, x % 0x800);
    }
  }

  /** And for every larger range, up to the whole address space, whose segments have distinct VSIDs. */
  lemma {:induction false} LargeRangeKeysDistinct(sr: Registers, pa: uint32, ea: uint32, count: nat)
    requires Sixteen(sr) && count <= 0x8000 && CoveredVsidsDistinct(sr, ea, count)
    ensures NoAlias(sr, ea, count) && DistinctKeys(FirstPages(sr, pa, ea, count))
  {
    hide PageEa, VsidOfPage, FirstPages, DistinctKeys;
    forall i, j | 0 <= i < j < count && (j - i) % 0x800 == 0
      ensures VsidOfPage(sr, ea, i) != VsidOfPage(sr, ea, j)
    {
      PageIndexOf(ea, i);
      PageIndexOf(ea, j);
      SegmentsApart(ea / 0x2_0000 + i, j - i);
    }
    RangeKeysDistinctIff(sr, pa, ea, count);
  }

  /** k is the key of one of the first n pages of the range. */
  predicate InFirstPages(sr: Registers, ea: uint32, n: nat, k: Key)
    requires Sixteen(sr)
  {
    exists i :: 0 <= i < n && KeyOf(sr, PageEa(ea, i)) == k
  }

  /** mapMemory refines a finite-map update.  When lookup missed for every page of a range whose
      keys are distinct: of the pages of the range exactly those before the first failure are
      translated afterwards, page i to the physical page pa + i, and every other page of the
      virtual address space keeps its translation.  On success these are all pages. */
  lemma {:induction false} MapMemoryRefinesUpdate(sr: Registers, t: Table, pa: uint32, ea: uint32, count: nat, i: nat,
      k: Key)
    requires Sixteen(sr) && Fits(|t|, sr.sdr1)
    requires NoAlias(sr, ea, count) && AllMissing(sr.sdr1, t, FirstPages(sr, pa, ea, count))
    ensures var o := InsertAll(sr.sdr1, t, FirstPages(sr, pa, ea, count));
            && (RunPages(sr.sdr1, t, FirstPages(sr, pa, ea, count)).ok <==> o.count == count)
            && (i < o.count ==>
                  Translate(sr.sdr1, o.table, KeyOf(sr, PageEa(ea, i))) == Some(PtelFor(Wrap(pa + i * 0x2_0000))))
            && (!InFirstPages(sr, ea, o.count, k) ==> Translate(sr.sdr1, o.table, k) == Translate(sr.sdr1, t, k))
  {
    hide KeyOf, PageEa, FirstPages, PtelFor, InsertAll, Translate, AllMissing, NoAlias;
    var pages := FirstPages(sr, pa, ea, count);
    var n := InsertAll(sr.sdr1, t, pages).count;
    RangeKeysDistinctIff(sr, pa, ea, count);
    if i < n {
      PageKey(sr, pa, ea, count, i);
      InsertAllRefinesUpdate(sr.sdr1, t, pages, pages[i].key);
      AssignedAt(pages[..n], i);
    }
    InsertAllRefinesUpdate(sr.sdr1, t, pages, k);
    if Assigned(pages[..n], k).Some? {
      var j :| 0 <= j < n && pages[..n][j].key == k;
      PageKey(sr, pa, ea, count, j);
    }
  }

  /** Every one of the first n pages of the range is translated to its own physical page. */
  predicate RangeTranslated(sr: Registers, t: Table, pa: uint32, ea: uint32, n: nat)
    requires Sixteen(sr) && Fits(|t|, sr.sdr1)
  {
    forall i :: 0 <= i < n ==>
      Translate(sr.sdr1, t, KeyOf(sr, PageEa(ea, i))) == Some(PtelFor(Wrap(pa + i * 0x2_0000)))
  }

  lemma {:induction false} OwnPhysicalPages(pa: uint32, i: nat, j: nat)
    requires i < j < i + 0x8000
    ensures PtelFor(Wrap(pa + i * 0x2_0000)) != PtelFor(Wrap(pa + j * 0x2_0000))
  {
    var a, b := Wrap(pa + i * 0x2_0000), Wrap(pa + j * 0x2_0000);
    var d := (j - i) * 0x2_0000;
    if a + d < 0x1_0000_0000 {
      DivModUnique(pa + j * 0x2_0000, 0x1_0000_0000, (pa + i * 0x2_0000) / 0x1_0000_0000, a + d);
    } else {
      DivModUnique(pa + j * 0x2_0000, 0x1_0000_0000, (pa + i * 0x2_0000) / 0x1_0000_0000 + 1, a + d - 0x1_0000_0000);
    }
    assert b - a == d || b - a == d - 0x1_0000_0000;
  }

  /** Two pages of a range that share a key can never both be translated to their own physical
      pages. */
  lemma {:induction false} AliasedRangeNotTranslated(sr: Registers, t: Table, pa: uint32, ea: uint32, count: nat)
    requires Sixteen(sr) && Fits(|t|, sr.sdr1) && count <= 0x8000 && !NoAlias(sr, ea, count)
    ensures !RangeTranslated(sr, t, pa, ea, count)
  {
    hide KeyOf, PageEa, VsidOfPage, Translate, PtelFor;
    var i, j :| 0 <= i < j < count && (j - i) % 0x800 == 0 && VsidOfPage(sr, ea, i) == VsidOfPage(sr, ea, j);
    SameKey(sr, ea, i, j);
    OwnPhysicalPages(pa, i, j);
  }

  /** A successful call that met no translated page leaves every page of its range translated to
      its own physical page if and only if no two pages of the range alias. */
  lemma {:induction false} RangeTranslatedIff(sr: Registers, t: Table, pa: uint32, ea: uint32, count: nat)
    requires Sixteen(sr) && Fits(|t|, sr.sdr1) && count <= 0x8000
    requires AllMissing(sr.sdr1, t, FirstPages(sr, pa, ea, count))
    requires RunPages(sr.sdr1, t, FirstPages(sr, pa, ea, count)).ok
    ensures RangeTranslated(sr, RunPages(sr.sdr1, t, FirstPages(sr, pa, ea, count)).table, pa, ea, count)
            <==> NoAlias(sr, ea, count)
  {
    hide KeyOf, PageEa, Translate, PtelFor, InsertAll, AllMissing, NoAlias, FirstPages;
    var t' := RunPages(sr.sdr1, t, FirstPages(sr, pa, ea, count)).table;
    if NoAlias(sr, ea, count) {
      forall i | 0 <= i < count
        ensures Translate(sr.sdr1, t', KeyOf(sr, PageEa(ea, i))) == Some(PtelFor(Wrap(pa + i * 0x2_0000)))
      {
        MapMemoryRefinesUpdate(sr, t, pa, ea, count, i, KeyOf(sr, ea));
      }
    } else {
      AliasedRangeNotTranslated(sr, t', pa, ea, count);
    }
  }

  /** For page-aligned ranges the update reaches every byte: byte x of the range is translated
      to byte x of the physical range. */
  lemma {:induction false} MappedRangeBytes(sr: Registers, t: Table, pa: uint32, ea: uint32, count: nat, x: nat)
    requires Sixteen(sr) && Fits(|t|, sr.sdr1) && pa % 0x2_0000 == 0 && ea % 0x2_0000 == 0
    requires NoAlias(sr, ea, count) && AllMissing(sr.sdr1, t, FirstPages(sr, pa, ea, count))
    requires RunPages(sr.sdr1, t, FirstPages(sr, pa, ea, count)).ok && x < count * 0x2_0000
    ensures var t' := RunPages(sr.sdr1, t, FirstPages(sr, pa, ea, count)).table;
            var now := Translate(sr.sdr1, t', KeyOf(sr, Wrap(ea + x)));
            now.Some? && Frame(now.value) + x % 0x2_0000 == Wrap(pa + x)
  {
    hide KeyOf, FirstPages, InsertAll, Translate, AllMissing, NoAlias, Frame, PtelFor;
    var i := x / 0x2_0000;
    assert i < count;
    MapMemoryRefinesUpdate(sr, t, pa, ea, count, i, KeyOf(sr, ea));
    ByteOfPage(ea, x);
    ByteOfPage(pa, x);
    SamePageKey(sr, Wrap(ea + x), PageEa(ea, i));
    FrameOfEntry(Wrap(pa + i * 0x2_0000));
  }

  lemma {:induction false} ByteOfPage(a: uint32, x: nat)
    requires a % 0x2_0000 == 0
    ensures Wrap(a + x) == Wrap(a + x / 0x2_0000 * 0x2_0000) + x % 0x2_0000
    ensures Wrap(a + x / 0x2_0000 * 0x2_0000) % 0x2_0000 == 0
  {
    var n := a / 0x2_0000 + x / 0x2_0000;
    DivModUnique(a + x, 0x1_0000_0000, n / 0x8000, n % 0x8000 * 0x2_0000 + x % 0x2_0000);
    DivModUnique(a + x / 0x2_0000 * 0x2_0000, 0x1_0000_0000, n / 0x8000, n % 0x8000 * 0x2_0000);
    DivModUnique(n % 0x8000 * 0x2_0000, 0x2_0000, n % 0x8000, 0);
  }
}
