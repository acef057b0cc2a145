/** The listing of mapped runs that summarises a page table. */
module PageRuns {
  import opened Words
  import opened Wrappers
  import opened PageTable
  import opened Translation

  datatype PageInformation =
    PageInformation(addr: uint32, size: uint32, ks: nat, kp: nat, nx: nat, pp: nat, phys: uint32)

  const NO_RUN := PageInformation(0, 0, 0, 0, 0, 0, 0)

  /** The run being built and the runs pushed so far. */
  datatype Scan = Scan(current: PageInformation, pushed: seq<PageInformation>)

  /** The segment's protection bits Ks, Kp and N, and the entry's PP and frame. */
  function Shown(sr: Registers, ea: uint32, ptel: uint32): PageInformation
    requires Sixteen(sr)
  {
    var v := sr.value[ea / 0x1000_0000];
    PageInformation(ea, 0x2_0000, v / 0x4000_0000 % 2, v / 0x2000_0000 % 2, v / 0x1000_0000 % 2,
                    ptel % 4, Frame(ptel))
  }

  /** The page continues the run: same attributes, and the next physical page. */
  predicate Continues(run: PageInformation, page: PageInformation) {
    && run.ks == page.ks && run.kp == page.kp && run.nx == page.nx && run.pp == page.pp
    && run.phys == Wrap(page.phys - run.size)
  }

  function Close(st: Scan): Scan {
    if st.current.addr != 0 && st.current.size != 0 then Scan(NO_RUN, st.pushed + [st.current]) else st
  }

  /** The page at ea is hit and continues the open run. */
  predicate Grows(sr: Registers, t: Table, run: PageInformation, ea: uint32)
    requires Sixteen(sr) && Fits(|t|, sr.sdr1)
  {
    match Lookup(sr.sdr1, t, KeyOf(sr, ea), false)
    case None => false
    case Some(e) => Continues(run, Shown(sr, ea, e.ptel))
  }

  /** What the loop body does with one address. */
  function Step(sr: Registers, t: Table, st: Scan, ea: uint32): Scan
    requires Sixteen(sr) && Fits(|t|, sr.sdr1)
  {
    match Lookup(sr.sdr1, t, KeyOf(sr, ea), false)
    case None => Close(st)
    case Some(e) =>
      var page := Shown(sr, ea, e.ptel);
      if Continues(st.current, page) then st.(current := st.current.(size := Wrap(st.current.size + 0x2_0000)))
      else Close(st).(current := page)
  }

  function ScanAll(sr: Registers, t: Table, eas: seq<uint32>): Scan
    requires Sixteen(sr) && Fits(|t|, sr.sdr1)
  {
    if eas == [] then Scan(NO_RUN, [])
    else Step(sr, t, ScanAll(sr, t, eas[..|eas| - 1]), eas[|eas| - 1])
  }

  /** The addresses looked at in the first n segments: the pages of those that are not
      direct-store segments; segment 15 is never looked at, because its end wraps to 0. */
  function Scanned(sr: Registers, n: nat): seq<uint32>
    requires Sixteen(sr) && n <= 16
  {
    if n == 0 then []
    else Scanned(sr, n - 1) + (if DirectStore(sr, n - 1) || n == 16 then [] else SegmentPages(n - 1, 0x800))
  }

  /** The first k pages of a segment. */
  function SegmentPages(segment: nat, k: nat): seq<uint32>
    requires segment < 15 && k <= 0x800
  {
    seq<uint32>(k, x requires 0 <= x < k => segment * 0x1000_0000 + x * 0x2_0000)
  }

  lemma {:induction false} ScanNext(sr: Registers, t: Table, eas: seq<uint32>, ea: uint32)
    requires Sixteen(sr) && Fits(|t|, sr.sdr1)
    ensures ScanAll(sr, t, eas + [ea]) == Step(sr, t, ScanAll(sr, t, eas), ea)
  {
    assert (eas + [ea])[..|eas|] == eas;
  }

  lemma {:induction false} PagesNext(eas: seq<uint32>, segment: nat, k: nat)
    requires segment < 15 && k < 0x800
    ensures eas + SegmentPages(segment, k) + [segment * 0x1000_0000 + k * 0x2_0000]
            == eas + SegmentPages(segment, k + 1)
  {
  }

  lemma {:induction false} NoPagesYet(eas: seq<uint32>, segment: nat)
    requires segment < 15
    ensures eas + SegmentPages(segment, 0) == eas
  {
  }

  /** The addresses looked at in the first n segments are exactly the page starts of those segments
      that are not direct-store segments, without segment 15 ... */
  lemma {:induction false} ScannedExactly(sr: Registers, n: nat, ea: uint32)
    requires Sixteen(sr) && n <= 16
    ensures ea in Scanned(sr, n) <==>
            ea % 0x2_0000 == 0 && ea / 0x1000_0000 < n && ea < 0xF000_0000 && sr.value[ea / 0x1000_0000] < 0x8000_0000
  {
    if n > 0 {
      ScannedExactly(sr, n - 1, ea);
      if n < 16 {
        SegmentPagesExactly(n - 1, ea);
      }
    }
  }

  lemma {:induction false} SegmentPagesExactly(segment: nat, ea: uint32)
    requires segment < 15
    ensures ea in SegmentPages(segment, 0x800) <==> ea % 0x2_0000 == 0 && ea / 0x1000_0000 == segment
  {
    var x := ea / 0x2_0000 % 0x800;
    var q := ea / 0x2_0000;
    DivModUnique(ea, 0x1000_0000, q / 0x800, x * 0x2_0000 + ea % 0x2_0000);
    if ea in SegmentPages(segment, 0x800) {
      var y :| 0 <= y < 0x800 && SegmentPages(segment, 0x800)[y] == ea;
      DivModUnique(ea, 0x1000_0000, segment, y * 0x2_0000);
      DivModUnique(ea, 0x2_0000, segment * 0x800 + y, 0);
    }
    if ea % 0x2_0000 == 0 && q / 0x800 == segment {
      assert SegmentPages(segment, 0x800)[x] == ea;
    }
  }

  /** ... in ascending order. */
  lemma {:induction false} ScannedAscending(sr: Registers, n: nat, i: nat, j: nat)
    requires Sixteen(sr) && n <= 16 && i < j < |Scanned(sr, n)|
    ensures Scanned(sr, n)[i] < Scanned(sr, n)[j]
  {
    hide DirectStore;
    var before := Scanned(sr, n - 1);
    if j < |before| {
      ScannedAscending(sr, n - 1, i, j);
    } else if i < |before| {
      ScannedExactly(sr, n - 1, before[i]);
    }
  }

  /** printPageTableTranslation: the runs it collects for printing. */
  method PrintPageTableTranslation(srTable: Registers, translationTable: array<uint32>)
    returns (pageInfos: seq<PageInformation>)
    requires Sixteen(srTable) && Fits(translationTable.Length, srTable.sdr1)
    ensures pageInfos == ScanAll(srTable, translationTable[..], Scanned(srTable, 16)).pushed
  {
    hide ScanAll, Fits;
    var current := NO_RUN;
    pageInfos := [];
    ScanNothing(srTable, translationTable[..]);
    var segment := 0;
    while segment < 16
      invariant 0 <= segment <= 16
      invariant Scan(current, pageInfos) == ScanAll(srTable, translationTable[..], Scanned(srTable, segment))
    {
      var sr := srTable.value[segment];
      if sr / 0x8000_0000 != 0 {
        assert Scanned(srTable, segment + 1) == Scanned(srTable, segment);
      } else {
        current, pageInfos := ScanSegment(segment, current, pageInfos, srTable, translationTable);
      }
      segment := segment + 1;
    }
  }

  lemma {:induction false} ScanNothing(sr: Registers, t: Table)
    requires Sixteen(sr) && Fits(|t|, sr.sdr1)
    ensures ScanAll(sr, t, []) == Scan(NO_RUN, [])
  {
  }

  /** The inner loop: the pages of one segment. */
  method ScanSegment(segment: nat, currentIn: PageInformation, pageInfosIn: seq<PageInformation>, srTable: Registers,
                     translationTable: array<uint32>)
    returns (current: PageInformation, pageInfos: seq<PageInformation>)
    requires Sixteen(srTable) && Fits(translationTable.Length, srTable.sdr1)
    requires segment < 16 && !DirectStore(srTable, segment)
    requires Scan(currentIn, pageInfosIn) == ScanAll(srTable, translationTable[..], Scanned(srTable, segment))
    ensures Scan(current, pageInfos) == ScanAll(srTable, translationTable[..], Scanned(srTable, segment + 1))
  {
    hide ScanAll, Fits, Lookup, Scanned;
    current, pageInfos := currentIn, pageInfosIn;
    var sr := srTable.value[segment];
    var ks, kp, nx := sr / 0x4000_0000 % 2, sr / 0x2000_0000 % 2, sr / 0x1000_0000 % 2;
    var vsid := sr % 0x100_0000;
    ghost var before := Scanned(srTable, segment);
    ghost var k: nat := 0;
    ScannedNext(srTable, segment);
    if segment < 15 {
      NoPagesYet(before, segment);
    }
    var addr: nat := segment * 0x1000_0000;
    while addr < Wrap((segment + 1) * 0x1000_0000)
      invariant segment == 15 ==> k == 0
      invariant addr == segment * 0x1000_0000 + k * 0x2_0000 && k <= 0x800
      invariant Scan(current, pageInfos)
                == ScanAll(srTable, translationTable[..],
                           if segment < 15 then before + SegmentPages(segment, k) else before)
      decreases 0x800 - k
    {
      var entry := GetPageEntryForAddress(srTable.sdr1, addr, vsid, translationTable, false);
      ghost var st := Scan(current, pageInfos);
      assert KeyOf(srTable, addr) == Key(vsid, addr / 0x2_0000 % 0x800);
      match entry {
        case Some(e) =>
          var pp := e.ptel % 4;
          var phys := e.ptel / 0x1000 * 0x1000;
          if current.ks == ks && current.kp == kp && current.nx == nx && current.pp == pp
             && current.phys == Wrap(phys - current.size) {
            current := current.(size := Wrap(current.size + 0x2_0000));
          } else {
            if current.addr != 0 && current.size != 0 {
              pageInfos := pageInfos + [current];
            }
            current := PageInformation(addr, 0x2_0000, ks, kp, nx, pp, phys);
          }
        case None =>
          if current.addr != 0 && current.size != 0 {
            pageInfos := pageInfos + [current];
            current := NO_RUN;
          }
      }
      assert Scan(current, pageInfos) == Step(srTable, translationTable[..], st, addr);
      ScanNext(srTable, translationTable[..], before + SegmentPages(segment, k), addr);
      PagesNext(before, segment, k);
      k := k + 1;
      addr := addr + 0x2_0000;
    }
  }

  lemma {:induction false} ScannedNext(sr: Registers, segment: nat)
    requires Sixteen(sr) && segment < 16 && !DirectStore(sr, segment)
    ensures Scanned(sr, segment + 1)
            == if segment < 15 then Scanned(sr, segment) + SegmentPages(segment, 0x800) else Scanned(sr, segment)
  {
  }

  // ---- Every pushed run is faithful

  /** The page table shows page k of the run at ea. */
  predicate ShowsPage(sr: Registers, t: Table, run: PageInformation, k: nat, ea: uint32)
    requires Sixteen(sr) && Fits(|t|, sr.sdr1)
  {
    match Lookup(sr.sdr1, t, KeyOf(sr, ea), false)
    case None => false
    case Some(e) =>
      var page := Shown(sr, ea, e.ptel);
      && run.ks == page.ks && run.kp == page.kp && run.nx == page.nx && run.pp == page.pp
      && page.phys == Wrap(run.phys + k * 0x2_0000)
  }

  /** What that means bit by bit: the page at ea is hit; the run has the bits Ks, Kp and N of the
      segment register and the bits PP of the entry, whose real page is page k of the run. */
  lemma {:induction false} ShownBits(sr: Registers, t: Table, run: PageInformation, k: nat, ea: uint32)
    requires Sixteen(sr) && Fits(|t|, sr.sdr1) && ShowsPage(sr, t, run, k, ea)
    ensures var v := sr.value[ea / 0x1000_0000];
            run.ks == v / 0x4000_0000 % 2 && run.kp == v / 0x2000_0000 % 2 && run.nx == v / 0x1000_0000 % 2
    ensures var hit := Lookup(sr.sdr1, t, Key(sr.value[ea / 0x1000_0000] % 0x100_0000, ea / 0x2_0000 % 0x800), false);
            && hit.Some? && run.pp == hit.value.ptel % 4
            && hit.value.ptel / 0x1000 * 0x1000 == (run.phys + k * 0x2_0000) % 0x1_0000_0000
  {
  }

  /** The run describes the n addresses looked at from position i on. */
  predicate Covers(sr: Registers, t: Table, eas: seq<uint32>, run: PageInformation, i: nat, n: nat)
    requires Sixteen(sr) && Fits(|t|, sr.sdr1)
  {
    && 0 < n && i + n <= |eas| && run.addr == eas[i] && run.size == n * 0x2_0000
    && forall x :: i <= x < i + n ==> ShowsPage(sr, t, run, x - i, eas[x])
  }

  /** The pushed runs describe consecutive, non-overlapping stretches [starts[r], starts[r] + size)
      of the addresses looked at, in order and all before position `bound`. */
  ghost predicate Faithful(sr: Registers, t: Table, eas: seq<uint32>, runs: seq<PageInformation>, starts: seq<nat>,
                           bound: nat)
    requires Sixteen(sr) && Fits(|t|, sr.sdr1)
  {
    && |starts| == |runs|
    && (forall r :: 0 <= r < |runs| ==> Covers(sr, t, eas, runs[r], starts[r], runs[r].size / 0x2_0000))
    && (forall r, q :: 0 <= r < q < |runs| ==> starts[r] + runs[r].size / 0x2_0000 <= starts[q])
    && (forall r :: 0 <= r < |runs| ==> starts[r] + runs[r].size / 0x2_0000 <= bound)
  }

  /** A run with a start address describes the addresses looked at last, from position cur on; a
      run at address 0 is never pushed, and only its size matters. */
  predicate OpenRun(sr: Registers, t: Table, eas: seq<uint32>, run: PageInformation, cur: nat)
    requires Sixteen(sr) && Fits(|t|, sr.sdr1)
  {
    && cur <= |eas|
    && (run.addr != 0 ==> cur < |eas| && Covers(sr, t, eas, run, cur, |eas| - cur))
    && (run.addr == 0 ==> cur == |eas|)
  }

  /** Where the pushed runs and the open run start in the list of addresses looked at. */
  datatype Places = Places(starts: seq<nat>, cur: nat)

  /** The places after one more address, at position n. */
  ghost function NextPlaces(sr: Registers, t: Table, st: Scan, at: Places, n: nat, ea: uint32): Places
    requires Sixteen(sr) && Fits(|t|, sr.sdr1)
  {
    var grows := Grows(sr, t, st.current, ea);
    Places(if !grows && st.current.addr != 0 && st.current.size != 0 then at.starts + [at.cur] else at.starts,
           if Step(sr, t, st, ea).current.addr == 0 then n + 1 else if grows then at.cur else n)
  }

  ghost function PlacesAll(sr: Registers, t: Table, eas: seq<uint32>): Places
    requires Sixteen(sr) && Fits(|t|, sr.sdr1)
  {
    if eas == [] then Places([], 0)
    else
      var n := |eas| - 1;
      NextPlaces(sr, t, ScanAll(sr, t, eas[..n]), PlacesAll(sr, t, eas[..n]), n, eas[n])
  }

  lemma {:induction false} PlacesNext(sr: Registers, t: Table, eas: seq<uint32>, ea: uint32)
    requires Sixteen(sr) && Fits(|t|, sr.sdr1)
    ensures PlacesAll(sr, t, eas + [ea])
            == NextPlaces(sr, t, ScanAll(sr, t, eas), PlacesAll(sr, t, eas), |eas|, ea)
  {
    assert (eas + [ea])[..|eas|] == eas;
  }

  lemma {:induction false} CoversExtended(sr: Registers, t: Table, eas: seq<uint32>, ea: uint32,
                                          run: PageInformation, i: nat, n: nat)
    requires Sixteen(sr) && Fits(|t|, sr.sdr1) && Covers(sr, t, eas, run, i, n)
    ensures Covers(sr, t, eas + [ea], run, i, n)
  {
    hide ShowsPage;
    forall x | i <= x < i + n
      ensures ShowsPage(sr, t, run, x - i, (eas + [ea])[x])
    {
      assert (eas + [ea])[x] == eas[x];
    }
  }

  lemma {:induction false} FaithfulExtended(sr: Registers, t: Table, eas: seq<uint32>, ea: uint32,
                                            runs: seq<PageInformation>, starts: seq<nat>,
                                            bound: nat, bound': nat)
    requires Sixteen(sr) && Fits(|t|, sr.sdr1) && Faithful(sr, t, eas, runs, starts, bound) && bound <= bound'
    ensures Faithful(sr, t, eas + [ea], runs, starts, bound')
  {
    hide Covers;
    forall r | 0 <= r < |runs|
      ensures Covers(sr, t, eas + [ea], runs[r], starts[r], runs[r].size / 0x2_0000)
    {
      CoversExtended(sr, t, eas, ea, runs[r], starts[r], runs[r].size / 0x2_0000);
    }
  }

  /** Closing the open run keeps the pushed runs faithful. */
  lemma {:induction false} CloseFaithful(sr: Registers, t: Table, eas: seq<uint32>, st: Scan, at: Places)
    requires Sixteen(sr) && Fits(|t|, sr.sdr1)
    requires Faithful(sr, t, eas, st.pushed, at.starts, at.cur) && OpenRun(sr, t, eas, st.current, at.cur)
    ensures var starts := if st.current.addr != 0 && st.current.size != 0 then at.starts + [at.cur] else at.starts;
            Faithful(sr, t, eas, Close(st).pushed, starts, |eas|)
  {
    hide ShowsPage;
    if st.current.addr != 0 && st.current.size != 0 {
      var starts := at.starts + [at.cur];
      SizeInPages(st.current.size, |eas| - at.cur);
      var runs := st.pushed + [st.current];
      forall r, q | 0 <= r < q < |runs|
        ensures starts[r] + runs[r].size / 0x2_0000 <= starts[q]
      {
        assert runs[r] == st.pushed[r] && starts[r] == at.starts[r];
      }
    }
  }

  lemma {:induction false} SizeInPages(size: uint32, n: nat)
    requires size == n * 0x2_0000
    ensures size / 0x2_0000 == n
  {
  }

  lemma {:induction false} NextFrame(runPhys: uint32, pagePhys: uint32, size: uint32)
    requires runPhys == Wrap(pagePhys - size)
    ensures pagePhys == Wrap(runPhys + size)
  {
  }

  lemma {:induction false} OpenRunGrows(sr: Registers, t: Table, eas: seq<uint32>, ea: uint32, run: PageInformation,
                                        cur: nat, e: Entry)
    requires Sixteen(sr) && Fits(|t|, sr.sdr1) && |eas| < 0x7800
    requires OpenRun(sr, t, eas, run, cur) && run.addr != 0
    requires Lookup(sr.sdr1, t, KeyOf(sr, ea), false) == Some(e) && Continues(run, Shown(sr, ea, e.ptel))
    ensures OpenRun(sr, t, eas + [ea], run.(size := Wrap(run.size + 0x2_0000)), cur)
  {
    hide Lookup, KeyOf, Frame, Fits;
    var n := |eas| - cur;
    var grown := run.(size := Wrap(run.size + 0x2_0000));
    assert grown.size == (n + 1) * 0x2_0000;
    NextFrame(run.phys, Shown(sr, ea, e.ptel).phys, run.size);
    assert ShowsPage(sr, t, grown, n, ea);
    forall x | cur <= x < cur + n + 1
      ensures ShowsPage(sr, t, grown, x - cur, (eas + [ea])[x])
    {
      if x < |eas| {
        assert ShowsPage(sr, t, run, x - cur, eas[x]);
      }
    }
  }

  lemma {:induction false} NewRun(sr: Registers, t: Table, eas: seq<uint32>, ea: uint32, e: Entry)
    requires Sixteen(sr) && Fits(|t|, sr.sdr1)
    requires Lookup(sr.sdr1, t, KeyOf(sr, ea), false) == Some(e) && ea != 0
    ensures OpenRun(sr, t, eas + [ea], Shown(sr, ea, e.ptel), |eas|)
  {
    hide Lookup, KeyOf, Frame, Fits;
    var page := Shown(sr, ea, e.ptel);
    WrapSmall(page.phys);
    assert ShowsPage(sr, t, page, 0, ea);
  }

  /** For any list of addresses looked at: the pushed runs are faithful. */
  lemma {:induction false} ScanFaithful(sr: Registers, t: Table, eas: seq<uint32>)
    requires Sixteen(sr) && Fits(|t|, sr.sdr1) && |eas| <= 0x7800
    ensures var at := PlacesAll(sr, t, eas);
            && Faithful(sr, t, eas, ScanAll(sr, t, eas).pushed, at.starts, at.cur)
            && OpenRun(sr, t, eas, ScanAll(sr, t, eas).current, at.cur)
    decreases |eas|
  {
    hide Fits, Lookup, Shown, Faithful, OpenRun, Continues, ScanAll, PlacesAll, NextPlaces;
    if eas == [] {
      ScanNothing(sr, t);
      NothingFaithful(sr, t);
      assert PlacesAll(sr, t, []) == Places([], 0) by {
        PlacesNothing(sr, t);
      }
    } else {
      var n := |eas| - 1;
      var before, ea := eas[..n], eas[n];
      assert before + [ea] == eas;
      ScanFaithful(sr, t, before);
      ScanNext(sr, t, before, ea);
      PlacesNext(sr, t, before, ea);
      StepFaithful(sr, t, before, ea, ScanAll(sr, t, before), PlacesAll(sr, t, before));
    }
  }

  lemma {:induction false} PlacesNothing(sr: Registers, t: Table)
    requires Sixteen(sr) && Fits(|t|, sr.sdr1)
    ensures PlacesAll(sr, t, []) == Places([], 0)
  {
  }

  lemma {:induction false} NothingFaithful(sr: Registers, t: Table)
    requires Sixteen(sr) && Fits(|t|, sr.sdr1)
    ensures Faithful(sr, t, [], [], [], 0) && OpenRun(sr, t, [], NO_RUN, 0)
  {
  }

  lemma {:induction false} AddressZeroOpen(sr: Registers, t: Table, eas: seq<uint32>, run: PageInformation)
    requires Sixteen(sr) && Fits(|t|, sr.sdr1) && run.addr == 0
    ensures OpenRun(sr, t, eas, run, |eas|)
  {
  }

  lemma {:induction false} StepFaithful(sr: Registers, t: Table, eas: seq<uint32>, ea: uint32, st: Scan, at: Places)
    requires Sixteen(sr) && Fits(|t|, sr.sdr1) && |eas| < 0x7800
    requires Faithful(sr, t, eas, st.pushed, at.starts, at.cur) && OpenRun(sr, t, eas, st.current, at.cur)
    ensures var at' := NextPlaces(sr, t, st, at, |eas|, ea);
            && Faithful(sr, t, eas + [ea], Step(sr, t, st, ea).pushed, at'.starts, at'.cur)
            && OpenRun(sr, t, eas + [ea], Step(sr, t, st, ea).current, at'.cur)
  {
    hide Fits, Lookup, Faithful, OpenRun, Covers, Continues, Frame, KeyOf;
    OpenRunBound(sr, t, eas, st.current, at.cur);
    var next := eas + [ea];
    var at' := NextPlaces(sr, t, st, at, |eas|, ea);
    match Lookup(sr.sdr1, t, KeyOf(sr, ea), false)
    case None =>
      if st.current.addr != 0 && st.current.size == 0 {
        OpenRunHasPages(sr, t, eas, st.current, at.cur);
      }
      CloseFaithful(sr, t, eas, st, at);
      FaithfulExtended(sr, t, eas, ea, Close(st).pushed, at'.starts, |eas|, at'.cur);
      AddressZeroOpen(sr, t, next, Close(st).current);
    case Some(e) =>
      var page := Shown(sr, ea, e.ptel);
      if Continues(st.current, page) {
        if st.current.addr != 0 {
          OpenRunGrows(sr, t, eas, ea, st.current, at.cur, e);
        } else {
          AddressZeroOpen(sr, t, next, Step(sr, t, st, ea).current);
        }
        FaithfulExtended(sr, t, eas, ea, st.pushed, at'.starts, at.cur, at'.cur);
      } else {
        CloseFaithful(sr, t, eas, st, at);
        if ea != 0 {
          NewRun(sr, t, eas, ea, e);
        } else {
          AddressZeroOpen(sr, t, next, page);
        }
        FaithfulExtended(sr, t, eas, ea, Close(st).pushed, at'.starts, |eas|, at'.cur);
      }
  }

  lemma {:induction false} OpenRunBound(sr: Registers, t: Table, eas: seq<uint32>, run: PageInformation, cur: nat)
    requires Sixteen(sr) && Fits(|t|, sr.sdr1) && OpenRun(sr, t, eas, run, cur)
    ensures cur <= |eas|
  {
  }

  lemma {:induction false} OpenRunHasPages(sr: Registers, t: Table, eas: seq<uint32>, run: PageInformation, cur: nat)
    requires Sixteen(sr) && Fits(|t|, sr.sdr1) && OpenRun(sr, t, eas, run, cur) && run.addr != 0
    ensures run.size != 0
  {
  }

  lemma {:induction false} ScannedBound(sr: Registers, n: nat)
    requires Sixteen(sr) && n <= 16
    ensures |Scanned(sr, n)| <= (if n < 16 then n else 15) * 0x800
  {
    if n > 0 {
      ScannedBound(sr, n - 1);
    }
  }

  /** Whatever the registers and the table: the listed runs are faithful about the addresses that
      were looked at, which skip direct-store segments. */
  lemma {:induction false} ListedRunsFaithfulWhereScanned(sr: Registers, t: Table)
    requires Sixteen(sr) && Fits(|t|, sr.sdr1)
    ensures var eas := Scanned(sr, 16);
            Faithful(sr, t, eas, ScanAll(sr, t, eas).pushed, PlacesAll(sr, t, eas).starts, |eas|)
  {
    hide Faithful, OpenRun, ScanAll, PlacesAll, Fits;
    var eas := Scanned(sr, 16);
    var at := PlacesAll(sr, t, eas);
    ScannedBound(sr, 16);
    ScanFaithful(sr, t, eas);
    OpenRunBound(sr, t, eas, ScanAll(sr, t, eas).current, at.cur);
    FaithfulBound(sr, t, eas, ScanAll(sr, t, eas).pushed, at.starts, at.cur, |eas|);
  }

  lemma {:induction false} FaithfulBound(sr: Registers, t: Table, eas: seq<uint32>, runs: seq<PageInformation>,
                                         starts: seq<nat>, bound: nat, bound': nat)
    requires Sixteen(sr) && Fits(|t|, sr.sdr1) && Faithful(sr, t, eas, runs, starts, bound) && bound <= bound'
    ensures Faithful(sr, t, eas, runs, starts, bound')
  {
  }

  // ---- Without direct-store segments

  predicate AllPaged(sr: Registers)
    requires Sixteen(sr)
  {
    forall s :: 0 <= s < 15 ==> !DirectStore(sr, s)
  }

  lemma {:induction false} ScannedWithoutDirectStore(sr: Registers, n: nat)
    requires Sixteen(sr) && AllPaged(sr) && n <= 15
    ensures |Scanned(sr, n)| == n * 0x800
    ensures forall x :: 0 <= x < n * 0x800 ==> Scanned(sr, n)[x] == x * 0x2_0000
  {
    if n > 0 {
      ScannedWithoutDirectStore(sr, n - 1);
      ScannedNext(sr, n - 1);
    }
  }

  /** Without direct-store segments each listed run is true of the page table: each of its pages
      is hit with the run's attributes and the physical page at the same distance, and the runs
      are ascending and disjoint. */
  lemma {:induction false} ListedRunsAreFaithful(sr: Registers, t: Table, r: nat, k: nat)
    requires Sixteen(sr) && Fits(|t|, sr.sdr1) && AllPaged(sr)
    requires r < |ScanAll(sr, t, Scanned(sr, 16)).pushed|
    ensures var runs := ScanAll(sr, t, Scanned(sr, 16)).pushed;
            && runs[r].addr + runs[r].size <= 0xF000_0000 && runs[r].size % 0x2_0000 == 0 && 0 < runs[r].size
            && (k * 0x2_0000 < runs[r].size ==> ShowsPage(sr, t, runs[r], k, runs[r].addr + k * 0x2_0000))
            && (forall q :: r < q < |runs| ==> runs[r].addr + runs[r].size <= runs[q].addr)
  {
    hide ShowsPage, ScanAll, PlacesAll, Scanned, Fits;
    LastSegmentSkipped(sr);
    ScannedWithoutDirectStore(sr, 15);
    var eas := Scanned(sr, 16);
    var starts := PlacesAll(sr, t, eas).starts;
    ScanFaithful(sr, t, eas);
    var runs := ScanAll(sr, t, eas).pushed;
    var n := runs[r].size / 0x2_0000;
    assert Covers(sr, t, eas, runs[r], starts[r], n);
    if k < n {
      assert eas[starts[r] + k] == runs[r].addr + k * 0x2_0000;
    }
    forall q | r < q < |runs|
      ensures runs[r].addr + runs[r].size <= runs[q].addr
    {
      assert Covers(sr, t, eas, runs[q], starts[q], runs[q].size / 0x2_0000);
    }
  }

  lemma {:induction false} LastSegmentSkipped(sr: Registers)
    requires Sixteen(sr)
    ensures Scanned(sr, 16) == Scanned(sr, 15)
  {
  }
}
