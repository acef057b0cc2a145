/** Which hit pages the listing of runs shows, and that its runs are as long as possible. */
module RunsComplete {
  import opened Words
  import opened Wrappers
  import opened PageTable
  import opened Translation
  import opened PageRuns

  /** The primary-only lookup finds an entry for the page of ea. */
  predicate HitAt(sr: Registers, t: Table, ea: uint32)
    requires Sixteen(sr) && Fits(|t|, sr.sdr1)
  {
    Lookup(sr.sdr1, t, KeyOf(sr, ea), false).Some?
  }

  /** The page of ea is hit with frame 0 and all attribute bits 0. */
  predicate ZeroPage(sr: Registers, t: Table, ea: uint32)
    requires Sixteen(sr) && Fits(|t|, sr.sdr1)
  {
    match Lookup(sr.sdr1, t, KeyOf(sr, ea), false)
    case None => false
    case Some(e) => sr.value[ea / 0x1000_0000] / 0x1000_0000 % 8 == 0 && e.ptel % 4 == 0 && e.ptel < 0x1000
  }

  /** A run that starts at position i is lost: at address 0, because runs there are never pushed, or
      at a zero page behind a miss, which looks like the continuation of the cleared run. */
  predicate LostAt(sr: Registers, t: Table, eas: seq<uint32>, i: nat)
    requires Sixteen(sr) && Fits(|t|, sr.sdr1) && i < |eas|
  {
    && HitAt(sr, t, eas[i])
    && (if i == 0 then eas[0] == 0 || ZeroPage(sr, t, eas[0])
        else ZeroPage(sr, t, eas[i]) && !HitAt(sr, t, eas[i - 1]))
  }

  predicate InRun(runs: seq<PageInformation>, starts: seq<nat>, r: nat, x: nat)
    requires |starts| == |runs| && r < |runs|
  {
    starts[r] <= x < starts[r] + runs[r].size / 0x2_0000
  }

  /** Position x lies in a pushed run. */
  predicate Listed(runs: seq<PageInformation>, starts: seq<nat>, x: nat)
    requires |starts| == |runs|
  {
    exists r :: 0 <= r < |runs| && InRun(runs, starts, r, x)
  }

  /** Every hit position lies in a pushed run or in the open one. */
  predicate Complete(sr: Registers, t: Table, eas: seq<uint32>, st: Scan, at: Places)
    requires Sixteen(sr) && Fits(|t|, sr.sdr1) && |at.starts| == |st.pushed|
  {
    forall x :: 0 <= x < |eas| && HitAt(sr, t, eas[x]) ==>
      Listed(st.pushed, at.starts, x) || (st.current.addr != 0 && at.cur <= x)
  }

  /** Without an open run the state is cleared, and the last address was a miss. */
  predicate Cleared(sr: Registers, t: Table, eas: seq<uint32>, st: Scan)
    requires Sixteen(sr) && Fits(|t|, sr.sdr1)
  {
    st.current.addr == 0 ==> st.current == NO_RUN && (eas == [] || !HitAt(sr, t, eas[|eas| - 1]))
  }

  lemma {:induction false} ZeroPageContinues(sr: Registers, t: Table, ea: uint32, e: Entry)
    requires Sixteen(sr) && Fits(|t|, sr.sdr1) && Lookup(sr.sdr1, t, KeyOf(sr, ea), false) == Some(e)
    ensures Continues(NO_RUN, Shown(sr, ea, e.ptel)) <==> ZeroPage(sr, t, ea)
  {
    hide Lookup, KeyOf, Fits;
    var v := sr.value[ea / 0x1000_0000];
    ThreeBits(v);
    FrameZero(e.ptel);
    WrapSmall(Frame(e.ptel));
  }

  lemma {:induction false} ThreeBits(v: uint32)
    ensures v / 0x1000_0000 % 8 == 0
            <==> v / 0x4000_0000 % 2 == 0 && v / 0x2000_0000 % 2 == 0 && v / 0x1000_0000 % 2 == 0
  {
    var x := v / 0x1000_0000;
    DivModUnique(v, 0x2000_0000, x / 2, x % 2 * 0x1000_0000 + v % 0x1000_0000);
    DivModUnique(v, 0x4000_0000, x / 2 / 2, x / 2 % 2 * 0x2000_0000 + x % 2 * 0x1000_0000 + v % 0x1000_0000);
    DivModUnique(x, 8, x / 2 / 2 / 2, x / 2 / 2 % 2 * 4 + x / 2 % 2 * 2 + x % 2);
  }

  lemma {:induction false} FrameZero(ptel: uint32)
    ensures Frame(ptel) == 0 <==> ptel < 0x1000
  {
  }

  /** The pushed runs and their places grow together. */
  lemma {:induction false} ListedStays(sr: Registers, t: Table, st: Scan, at: Places, n: nat, ea: uint32, x: nat)
    requires Sixteen(sr) && Fits(|t|, sr.sdr1) && |at.starts| == |st.pushed|
    ensures var st', at' := Step(sr, t, st, ea), NextPlaces(sr, t, st, at, n, ea);
            && |at'.starts| == |st'.pushed|
            && (Listed(st.pushed, at.starts, x) ==> Listed(st'.pushed, at'.starts, x))
  {
    hide Lookup, KeyOf, Shown, Continues, Fits;
    var st', at' := Step(sr, t, st, ea), NextPlaces(sr, t, st, at, n, ea);
    if Listed(st.pushed, at.starts, x) {
      var r :| 0 <= r < |st.pushed| && InRun(st.pushed, at.starts, r, x);
      assert st'.pushed[r] == st.pushed[r] && at'.starts[r] == at.starts[r];
      assert InRun(st'.pushed, at'.starts, r, x);
    }
  }

  /** The positions of the open run are listed once it is pushed. */
  lemma {:induction false} PushedIsListed(sr: Registers, t: Table, eas: seq<uint32>, st: Scan, at: Places, ea: uint32,
      x: nat)
    requires Sixteen(sr) && Fits(|t|, sr.sdr1) && |at.starts| == |st.pushed|
    requires OpenRun(sr, t, eas, st.current, at.cur) && st.current.addr != 0
    requires !Grows(sr, t, st.current, ea) && at.cur <= x < |eas|
    ensures var st', at' := Step(sr, t, st, ea), NextPlaces(sr, t, st, at, |eas|, ea);
            |at'.starts| == |st'.pushed| && Listed(st'.pushed, at'.starts, x)
  {
    hide Lookup, KeyOf, Shown, Continues, Fits, ShowsPage;
    var st', at' := Step(sr, t, st, ea), NextPlaces(sr, t, st, at, |eas|, ea);
    SizeInPages(st.current.size, |eas| - at.cur);
    assert InRun(st'.pushed, at'.starts, |st.pushed|, x);
  }

  /** One address keeps the account of the hit pages, unless it starts a lost run. */
  lemma {:induction false} StepComplete(sr: Registers, t: Table, eas: seq<uint32>, ea: uint32, st: Scan, at: Places)
    requires Sixteen(sr) && Fits(|t|, sr.sdr1) && |at.starts| == |st.pushed|
    requires OpenRun(sr, t, eas, st.current, at.cur)
    requires Complete(sr, t, eas, st, at) && Cleared(sr, t, eas, st)
    requires !LostAt(sr, t, eas + [ea], |eas|) && (eas != [] ==> ea != 0)
    ensures var st', at' := Step(sr, t, st, ea), NextPlaces(sr, t, st, at, |eas|, ea);
            && |at'.starts| == |st'.pushed|
            && Complete(sr, t, eas + [ea], st', at') && Cleared(sr, t, eas + [ea], st')
  {
    hide Lookup, KeyOf, Shown, Continues, Fits, OpenRun, Listed, ZeroPage;
    var next := eas + [ea];
    var st', at' := Step(sr, t, st, ea), NextPlaces(sr, t, st, at, |eas|, ea);
    assert next[|eas|] == ea && (eas != [] ==> next[|eas| - 1] == eas[|eas| - 1]);
    OpenRunBound(sr, t, eas, st.current, at.cur);
    if st.current.addr != 0 {
      OpenRunHasPages(sr, t, eas, st.current, at.cur);
    }
    StepCurrent(sr, t, eas, ea, st);
    ListedStays(sr, t, st, at, |eas|, ea, 0);
    forall x | 0 <= x < |next| && HitAt(sr, t, next[x])
      ensures Listed(st'.pushed, at'.starts, x) || (st'.current.addr != 0 && at'.cur <= x)
    {
      if x < |eas| {
        assert next[x] == eas[x];
        ListedStays(sr, t, st, at, |eas|, ea, x);
        if !Listed(st.pushed, at.starts, x) && !Grows(sr, t, st.current, ea) {
          PushedIsListed(sr, t, eas, st, at, ea, x);
        }
      }
    }
  }

  /** The open run after one address that starts no lost run. */
  lemma {:induction false} StepCurrent(sr: Registers, t: Table, eas: seq<uint32>, ea: uint32, st: Scan)
    requires Sixteen(sr) && Fits(|t|, sr.sdr1) && Cleared(sr, t, eas, st)
    requires st.current.addr != 0 ==> st.current.size != 0
    requires !LostAt(sr, t, eas + [ea], |eas|) && (eas != [] ==> ea != 0)
    ensures var st' := Step(sr, t, st, ea);
            && (HitAt(sr, t, ea) ==> st'.current.addr != 0)
            && (!HitAt(sr, t, ea) ==> st'.current == NO_RUN)
            && (Grows(sr, t, st.current, ea) ==> st.current.addr != 0)
  {
    hide Lookup, KeyOf, Continues, Fits, ZeroPage;
    var next := eas + [ea];
    assert next[|eas|] == ea && (eas != [] ==> next[|eas| - 1] == eas[|eas| - 1]);
    match Lookup(sr.sdr1, t, KeyOf(sr, ea), false)
    case None =>
    case Some(e) =>
      ZeroPageContinues(sr, t, ea, e);
  }

  predicate OnlyFirstZero(eas: seq<uint32>) {
    forall i :: 0 < i < |eas| ==> eas[i] != 0
  }

  /** No lost run starts before position n. */
  predicate NoneLost(sr: Registers, t: Table, eas: seq<uint32>, n: nat)
    requires Sixteen(sr) && Fits(|t|, sr.sdr1) && n <= |eas|
  {
    forall i :: 0 <= i < n ==> !LostAt(sr, t, eas, i)
  }

  lemma {:induction false} NoneLostPrefix(sr: Registers, t: Table, eas: seq<uint32>, n: nat)
    requires Sixteen(sr) && Fits(|t|, sr.sdr1) && n < |eas| && NoneLost(sr, t, eas, n + 1)
    ensures NoneLost(sr, t, eas[..n], n) && !LostAt(sr, t, eas[..n] + [eas[n]], n)
  {
    hide HitAt, ZeroPage;
    assert eas[..n] + [eas[n]] == eas[..n + 1];
    forall i | 0 <= i < n
      ensures !LostAt(sr, t, eas[..n], i)
    {
      assert !LostAt(sr, t, eas, i);
    }
    assert !LostAt(sr, t, eas, n);
  }

  /** Where the scan of the first n addresses stands. */
  lemma {:induction false} ScanComplete(sr: Registers, t: Table, eas: seq<uint32>)
    requires Sixteen(sr) && Fits(|t|, sr.sdr1) && |eas| <= 0x7800 && OnlyFirstZero(eas)
    requires NoneLost(sr, t, eas, |eas|)
    ensures var st, at := ScanAll(sr, t, eas), PlacesAll(sr, t, eas);
            |at.starts| == |st.pushed| && Complete(sr, t, eas, st, at) && Cleared(sr, t, eas, st)
    decreases |eas|
  {
    hide Fits, LostAt, ScanAll, PlacesAll, Step, NextPlaces, OpenRun, Complete, Cleared, Faithful;
    if eas == [] {
      NothingScanned(sr, t);
    } else {
      var n := |eas| - 1;
      var before, ea := eas[..n], eas[n];
      NoneLostPrefix(sr, t, eas, n);
      ScanComplete(sr, t, before);
      ScanFaithful(sr, t, before);
      assert before + [ea] == eas;
      ScanNext(sr, t, before, ea);
      PlacesNext(sr, t, before, ea);
      StepComplete(sr, t, before, ea, ScanAll(sr, t, before), PlacesAll(sr, t, before));
    }
  }

  lemma {:induction false} NothingScanned(sr: Registers, t: Table)
    requires Sixteen(sr) && Fits(|t|, sr.sdr1)
    ensures ScanAll(sr, t, []) == Scan(NO_RUN, []) && PlacesAll(sr, t, []) == Places([], 0)
    ensures Complete(sr, t, [], Scan(NO_RUN, []), Places([], 0)) && Cleared(sr, t, [], Scan(NO_RUN, []))
  {
  }

  lemma {:induction false} PlacesMatch(sr: Registers, t: Table, eas: seq<uint32>)
    requires Sixteen(sr) && Fits(|t|, sr.sdr1)
    ensures |PlacesAll(sr, t, eas).starts| == |ScanAll(sr, t, eas).pushed|
    decreases |eas|
  {
    hide Step, NextPlaces, Fits;
    if eas != [] {
      var n := |eas| - 1;
      PlacesMatch(sr, t, eas[..n]);
      ListedStays(sr, t, ScanAll(sr, t, eas[..n]), PlacesAll(sr, t, eas[..n]), n, eas[n], 0);
    }
  }

  /** What is listed after the first n addresses stays listed. */
  lemma {:induction false} ListedForGood(sr: Registers, t: Table, eas: seq<uint32>, n: nat, x: nat)
    requires Sixteen(sr) && Fits(|t|, sr.sdr1) && n <= |eas|
    requires |PlacesAll(sr, t, eas[..n]).starts| == |ScanAll(sr, t, eas[..n]).pushed|
    requires Listed(ScanAll(sr, t, eas[..n]).pushed, PlacesAll(sr, t, eas[..n]).starts, x)
    ensures |PlacesAll(sr, t, eas).starts| == |ScanAll(sr, t, eas).pushed|
    ensures Listed(ScanAll(sr, t, eas).pushed, PlacesAll(sr, t, eas).starts, x)
    decreases |eas| - n
  {
    hide Step, NextPlaces, Fits, Listed, ScanAll, PlacesAll;
    if n == |eas| {
      assert eas[..n] == eas;
    } else {
      assert eas[..n] + [eas[n]] == eas[..n + 1];
      ScanNext(sr, t, eas[..n], eas[n]);
      PlacesNext(sr, t, eas[..n], eas[n]);
      ListedStays(sr, t, ScanAll(sr, t, eas[..n]), PlacesAll(sr, t, eas[..n]), n, eas[n], x);
      ListedForGood(sr, t, eas, n + 1, x);
    }
  }

  lemma {:induction false} MissCloses(sr: Registers, t: Table, eas: seq<uint32>, n: nat)
    requires Sixteen(sr) && Fits(|t|, sr.sdr1) && n < |eas| <= 0x7800 && !HitAt(sr, t, eas[n])
    ensures ScanAll(sr, t, eas[..n + 1]).current.addr == 0
  {
    hide Fits, ScanAll, PlacesAll, OpenRun, Faithful, Lookup;
    assert eas[..n] + [eas[n]] == eas[..n + 1];
    ScanFaithful(sr, t, eas[..n]);
    ScanNext(sr, t, eas[..n], eas[n]);
    var st := ScanAll(sr, t, eas[..n]);
    if st.current.addr != 0 {
      OpenRunHasPages(sr, t, eas[..n], st.current, PlacesAll(sr, t, eas[..n]).cur);
    }
  }

  lemma {:induction false} LostInPrefix(sr: Registers, t: Table, eas: seq<uint32>, n: nat)
    requires Sixteen(sr) && Fits(|t|, sr.sdr1) && n <= |eas| && NoneLost(sr, t, eas, n)
    ensures NoneLost(sr, t, eas[..n], n)
  {
    hide HitAt, ZeroPage;
    forall i | 0 <= i < n
      ensures !LostAt(sr, t, eas[..n], i)
    {
      assert !LostAt(sr, t, eas, i);
    }
  }

  /** A hit position with a later miss, and no lost run started before the miss, is listed. */
  lemma {:induction false} HitBeforeMissListed(sr: Registers, t: Table, eas: seq<uint32>, x: nat, y: nat)
    requires Sixteen(sr) && Fits(|t|, sr.sdr1) && |eas| <= 0x7800 && OnlyFirstZero(eas) && x < y < |eas|
    requires HitAt(sr, t, eas[x]) && !HitAt(sr, t, eas[y]) && NoneLost(sr, t, eas, y)
    ensures |PlacesAll(sr, t, eas).starts| == |ScanAll(sr, t, eas).pushed|
    ensures Listed(ScanAll(sr, t, eas).pushed, PlacesAll(sr, t, eas).starts, x)
  {
    hide Fits, ScanAll, PlacesAll, Listed, HitAt, ZeroPage;
    var upTo := eas[..y + 1];
    assert !LostAt(sr, t, eas, y);
    LostInPrefix(sr, t, eas, y + 1);
    ScanComplete(sr, t, upTo);
    MissCloses(sr, t, eas, y);
    assert upTo[x] == eas[x];
    ListedForGood(sr, t, eas, y + 1, x);
  }

  // ---- Lost runs

  /** Position i lies in no pushed run and will not do so. */
  predicate Avoided(st: Scan, at: Places, i: nat) {
    && |at.starts| == |st.pushed| && i < at.cur
    && !Listed(st.pushed, at.starts, i)
  }

  lemma {:induction false} StepAvoids(sr: Registers, t: Table, st: Scan, at: Places, n: nat, ea: uint32, i: nat)
    requires Sixteen(sr) && Fits(|t|, sr.sdr1) && Avoided(st, at, i) && i < n
    ensures Avoided(Step(sr, t, st, ea), NextPlaces(sr, t, st, at, n, ea), i)
  {
    hide Lookup, KeyOf, Shown, Continues, Fits;
    var st', at' := Step(sr, t, st, ea), NextPlaces(sr, t, st, at, n, ea);
    forall r | 0 <= r < |st'.pushed|
      ensures !InRun(st'.pushed, at'.starts, r, i)
    {
      if r < |st.pushed| {
        assert !InRun(st.pushed, at.starts, r, i);
      }
    }
  }

  lemma {:induction false} AvoidedForGood(sr: Registers, t: Table, eas: seq<uint32>, n: nat, i: nat)
    requires Sixteen(sr) && Fits(|t|, sr.sdr1) && i < n <= |eas|
    requires Avoided(ScanAll(sr, t, eas[..n]), PlacesAll(sr, t, eas[..n]), i)
    ensures Avoided(ScanAll(sr, t, eas), PlacesAll(sr, t, eas), i)
    decreases |eas| - n
  {
    hide Step, NextPlaces, Fits, Avoided, ScanAll, PlacesAll;
    if n == |eas| {
      assert eas[..n] == eas;
    } else {
      assert eas[..n] + [eas[n]] == eas[..n + 1];
      ScanNext(sr, t, eas[..n], eas[n]);
      PlacesNext(sr, t, eas[..n], eas[n]);
      StepAvoids(sr, t, ScanAll(sr, t, eas[..n]), PlacesAll(sr, t, eas[..n]), n, eas[n], i);
      AvoidedForGood(sr, t, eas, n + 1, i);
    }
  }

  /** Where a lost run starts, the cleared state stays without a start address. */
  lemma {:induction false} LostStep(sr: Registers, t: Table, st: Scan, at: Places, eas: seq<uint32>, ea: uint32)
    requires Sixteen(sr) && Fits(|t|, sr.sdr1) && Faithful(sr, t, eas, st.pushed, at.starts, at.cur)
    requires st.current == NO_RUN && at.cur == |eas| && HitAt(sr, t, ea) && (ea == 0 || ZeroPage(sr, t, ea))
    ensures Avoided(Step(sr, t, st, ea), NextPlaces(sr, t, st, at, |eas|, ea), |eas|)
  {
    hide KeyOf, Continues, Fits, Lookup, ZeroPage, Covers;
    match Lookup(sr.sdr1, t, KeyOf(sr, ea), false)
    case Some(e) =>
      ZeroPageContinues(sr, t, ea, e);
      forall r | 0 <= r < |st.pushed|
        ensures !InRun(st.pushed, at.starts, r, |eas|)
      {
      }
  }

  /** The first lost run starts in the cleared state. */
  lemma {:induction false} ClearedBeforeLost(sr: Registers, t: Table, eas: seq<uint32>, i: nat)
    requires Sixteen(sr) && Fits(|t|, sr.sdr1) && i < |eas| <= 0x7800 && OnlyFirstZero(eas)
    requires NoneLost(sr, t, eas, i) && LostAt(sr, t, eas, i)
    ensures ScanAll(sr, t, eas[..i]).current == NO_RUN && PlacesAll(sr, t, eas[..i]).cur == i
  {
    hide Fits, PlacesAll, ScanAll, ZeroPage, HitAt, Faithful, Covers, Complete;
    LostInPrefix(sr, t, eas, i);
    ScanComplete(sr, t, eas[..i]);
    ScanFaithful(sr, t, eas[..i]);
    if i == 0 {
      assert eas[..0] == [];
      NothingScanned(sr, t);
    } else {
      MissCloses(sr, t, eas, i - 1);
    }
  }

  /** The first page of the first lost run is not listed. */
  lemma {:induction false} FirstLostNotListed(sr: Registers, t: Table, eas: seq<uint32>, i: nat)
    requires Sixteen(sr) && Fits(|t|, sr.sdr1) && i < |eas| <= 0x7800 && OnlyFirstZero(eas)
    requires NoneLost(sr, t, eas, i) && LostAt(sr, t, eas, i)
    ensures Avoided(ScanAll(sr, t, eas), PlacesAll(sr, t, eas), i)
  {
    hide Fits, PlacesAll, ScanAll, ZeroPage, HitAt, Faithful, OpenRun, Avoided, Step, NextPlaces;
    ClearedBeforeLost(sr, t, eas, i);
    ScanFaithful(sr, t, eas[..i]);
    assert eas[..i] + [eas[i]] == eas[..i + 1];
    ScanNext(sr, t, eas[..i], eas[i]);
    PlacesNext(sr, t, eas[..i], eas[i]);
    LostStep(sr, t, ScanAll(sr, t, eas[..i]), PlacesAll(sr, t, eas[..i]), eas[..i], eas[i]);
    AvoidedForGood(sr, t, eas, i + 1, i);
  }

  /** The first lost run up to position i. */
  lemma {:induction false} FirstLost(sr: Registers, t: Table, eas: seq<uint32>, i: nat) returns (first: nat)
    requires Sixteen(sr) && Fits(|t|, sr.sdr1) && i <= |eas| && !NoneLost(sr, t, eas, i)
    ensures first < i && LostAt(sr, t, eas, first) && NoneLost(sr, t, eas, first)
    decreases i
  {
    hide LostAt;
    if NoneLost(sr, t, eas, i - 1) {
      first := i - 1;
    } else {
      first := FirstLost(sr, t, eas, i - 1);
    }
  }

  // ---- Runs are as long as possible

  /** The two runs could be one: same attributes, and the frames of b follow those of a. */
  predicate Joins(a: PageInformation, b: PageInformation) {
    && a.ks == b.ks && a.kp == b.kp && a.nx == b.nx && a.pp == b.pp
    && b.phys == (a.phys + a.size) % 0x1_0000_0000
  }

  /** Run r ends at position x. */
  predicate EndsAt(runs: seq<PageInformation>, starts: seq<nat>, r: nat, x: nat)
    requires |starts| == |runs| && r < |runs|
  {
    starts[r] + runs[r].size / 0x2_0000 == x
  }

  /** No two adjacent runs could be one, among the pushed runs and with the open run; without an
      open run, all pushed runs ended before the last address. */
  predicate Longest(st: Scan, at: Places, n: nat) {
    && |at.starts| == |st.pushed|
    && (forall r, q :: 0 <= r && q == r + 1 < |st.pushed| && EndsAt(st.pushed, at.starts, r, at.starts[q])
          ==> !Joins(st.pushed[r], st.pushed[q]))
    && (forall r :: 0 <= r < |st.pushed| ==>
          if st.current.addr == 0 then at.starts[r] + st.pushed[r].size / 0x2_0000 < n
          else r == |st.pushed| - 1 && EndsAt(st.pushed, at.starts, r, at.cur) ==> !Joins(st.pushed[r], st.current))
  }

  lemma {:induction false} JoinsContinues(run: PageInformation, page: PageInformation)
    ensures Joins(run, page) <==> Continues(run, page)
  {
    WrapSum(-(run.size as int), run.phys + run.size);
    WrapSum(run.size, page.phys - run.size);
    WrapSmall(run.phys);
    WrapSmall(page.phys);
  }

  /** What one address does to the pushed runs and the places. */
  lemma {:induction false} StepShape(sr: Registers, t: Table, st: Scan, at: Places, n: nat, ea: uint32)
    requires Sixteen(sr) && Fits(|t|, sr.sdr1)
    ensures var st', at' := Step(sr, t, st, ea), NextPlaces(sr, t, st, at, n, ea);
            var grows := Grows(sr, t, st.current, ea);
            var pushes := !grows && st.current.addr != 0 && st.current.size != 0;
            && st'.pushed == (if pushes then st.pushed + [st.current] else st.pushed)
            && at'.starts == (if pushes then at.starts + [at.cur] else at.starts)
            && at'.cur == if st'.current.addr == 0 then n + 1 else if grows then at.cur else n
  {
    hide Lookup, KeyOf, Shown, Continues, Fits;
  }

  lemma {:induction false} StepLongest(sr: Registers, t: Table, eas: seq<uint32>, ea: uint32, st: Scan, at: Places)
    requires Sixteen(sr) && Fits(|t|, sr.sdr1)
    requires Faithful(sr, t, eas, st.pushed, at.starts, at.cur) && OpenRun(sr, t, eas, st.current, at.cur)
    requires Longest(st, at, |eas|)
    ensures Longest(Step(sr, t, st, ea), NextPlaces(sr, t, st, at, |eas|, ea), |eas| + 1)
  {
    hide Fits, Step, NextPlaces, Grows, Faithful, OpenRun, Joins;
    var st', at' := Step(sr, t, st, ea), NextPlaces(sr, t, st, at, |eas|, ea);
    OpenRunBound(sr, t, eas, st.current, at.cur);
    if st.current.addr != 0 {
      OpenRunHasPages(sr, t, eas, st.current, at.cur);
      OpenRunPages(sr, t, eas, st.current, at.cur);
    }
    StepJoins(sr, t, st, ea);
    StepShape(sr, t, st, at, |eas|, ea);
    RunsEndBefore(sr, t, eas, st, at);
  }

  lemma {:induction false} OpenRunPages(sr: Registers, t: Table, eas: seq<uint32>, run: PageInformation, cur: nat)
    requires Sixteen(sr) && Fits(|t|, sr.sdr1) && OpenRun(sr, t, eas, run, cur) && run.addr != 0
    ensures cur + run.size / 0x2_0000 == |eas|
  {
    SizeInPages(run.size, |eas| - cur);
  }

  lemma {:induction false} RunsEndBefore(sr: Registers, t: Table, eas: seq<uint32>, st: Scan, at: Places)
    requires Sixteen(sr) && Fits(|t|, sr.sdr1) && Faithful(sr, t, eas, st.pushed, at.starts, at.cur)
    ensures |at.starts| == |st.pushed|
    ensures forall r :: 0 <= r < |st.pushed| ==> at.starts[r] + st.pushed[r].size / 0x2_0000 <= at.cur
  {
    hide Covers;
  }

  /** A new run does not continue the one before it. */
  lemma {:induction false} StepJoins(sr: Registers, t: Table, st: Scan, ea: uint32)
    requires Sixteen(sr) && Fits(|t|, sr.sdr1)
    ensures var st' := Step(sr, t, st, ea);
            if Grows(sr, t, st.current, ea)
            then st'.current.addr == st.current.addr
                 && forall run :: Joins(run, st'.current) <==> Joins(run, st.current)
            else st'.current.addr != 0 && st.current.addr != 0 && st.current.size != 0 ==>
                   !Joins(st.current, st'.current)
  {
    hide KeyOf, Fits, Lookup, Frame;
    match Lookup(sr.sdr1, t, KeyOf(sr, ea), false)
    case None =>
    case Some(e) =>
      JoinsContinues(st.current, Shown(sr, ea, e.ptel));
  }

  lemma {:induction false} ScanLongest(sr: Registers, t: Table, eas: seq<uint32>)
    requires Sixteen(sr) && Fits(|t|, sr.sdr1) && |eas| <= 0x7800 && OnlyFirstZero(eas)
    ensures Longest(ScanAll(sr, t, eas), PlacesAll(sr, t, eas), |eas|)
    decreases |eas|
  {
    hide Fits, ScanAll, PlacesAll, Step, NextPlaces, OpenRun, Faithful, Joins;
    if eas == [] {
      NothingScanned(sr, t);
    } else {
      hide Longest;
      var n := |eas| - 1;
      var before, ea := eas[..n], eas[n];
      ScanLongest(sr, t, before);
      ScanFaithful(sr, t, before);
      assert before + [ea] == eas;
      ScanNext(sr, t, before, ea);
      PlacesNext(sr, t, before, ea);
      StepLongest(sr, t, before, ea, ScanAll(sr, t, before), PlacesAll(sr, t, before));
    }
  }

  // ---- For any registers

  lemma {:induction false} ScannedOnlyFirstZero(sr: Registers, n: nat)
    requires Sixteen(sr) && n <= 16
    ensures OnlyFirstZero(Scanned(sr, n))
  {
    if n > 0 {
      ScannedOnlyFirstZero(sr, n - 1);
    }
  }

  /** Among the addresses looked at: a hit with a later miss, before which no lost run started, is
      listed. */
  lemma {:induction false} ListedWhereScanned(sr: Registers, t: Table, x: nat, y: nat)
    requires Sixteen(sr) && Fits(|t|, sr.sdr1) && x < y < |Scanned(sr, 16)|
    requires HitAt(sr, t, Scanned(sr, 16)[x]) && !HitAt(sr, t, Scanned(sr, 16)[y])
    requires NoneLost(sr, t, Scanned(sr, 16), y)
    ensures |PlacesAll(sr, t, Scanned(sr, 16)).starts| == |ListedRuns(sr, t)|
    ensures Listed(ListedRuns(sr, t), PlacesAll(sr, t, Scanned(sr, 16)).starts, x)
  {
    hide Scanned, ScanAll, PlacesAll, Fits, HitAt, NoneLost, Listed;
    ScannedOnlyFirstZero(sr, 16);
    ScannedBound(sr, 16);
    HitBeforeMissListed(sr, t, Scanned(sr, 16), x, y);
  }

  // ---- Without direct-store segments

  /** The page table is scanned page by page: page x is the one at address x * 0x20000. */
  function PageAddress(x: nat): uint32
    requires x < 0x7800
  {
    x * 0x2_0000
  }

  predicate HitPage(sr: Registers, t: Table, x: nat)
    requires Sixteen(sr) && Fits(|t|, sr.sdr1) && x < 0x7800
  {
    HitAt(sr, t, PageAddress(x))
  }

  /** A later page of segments 0 to 14 is not hit. */
  predicate MissLater(sr: Registers, t: Table, x: nat)
    requires Sixteen(sr) && Fits(|t|, sr.sdr1)
  {
    exists y :: x < y < 0x7800 && !HitPage(sr, t, y)
  }

  predicate LostPage(sr: Registers, t: Table, x: nat)
    requires Sixteen(sr) && Fits(|t|, sr.sdr1) && x < 0x7800
  {
    HitPage(sr, t, x) && (x == 0 || (ZeroPage(sr, t, PageAddress(x)) && !HitPage(sr, t, x - 1)))
  }

  /** The page at ea lies in a listed run. */
  predicate InListedRun(runs: seq<PageInformation>, ea: uint32) {
    exists r :: 0 <= r < |runs| && runs[r].addr <= ea < runs[r].addr + runs[r].size
  }

  /** The runs that printPageTableTranslation collects. */
  function ListedRuns(sr: Registers, t: Table): seq<PageInformation>
    requires Sixteen(sr) && Fits(|t|, sr.sdr1)
  {
    ScanAll(sr, t, Scanned(sr, 16)).pushed
  }

  lemma {:induction false} ScannedPages(sr: Registers)
    requires Sixteen(sr) && AllPaged(sr)
    ensures |Scanned(sr, 16)| == 0x7800 && OnlyFirstZero(Scanned(sr, 16))
    ensures forall x :: 0 <= x < 0x7800 ==> Scanned(sr, 16)[x] == PageAddress(x)
  {
    hide Scanned;
    LastSegmentSkipped(sr);
    ScannedWithoutDirectStore(sr, 15);
  }

  lemma {:induction false} LostPageIsLost(sr: Registers, t: Table, x: nat)
    requires Sixteen(sr) && Fits(|t|, sr.sdr1) && AllPaged(sr) && x < 0x7800
    ensures |Scanned(sr, 16)| == 0x7800
    ensures LostAt(sr, t, Scanned(sr, 16), x) <==> LostPage(sr, t, x)
  {
    hide Scanned, HitAt, ZeroPage, Fits;
    ScannedPages(sr);
  }

  /** In pages: position and address agree. */
  lemma {:induction false} ListedByAddress(sr: Registers, t: Table, x: nat)
    requires Sixteen(sr) && Fits(|t|, sr.sdr1) && AllPaged(sr) && x < 0x7800
    ensures |PlacesAll(sr, t, Scanned(sr, 16)).starts| == |ListedRuns(sr, t)|
    ensures Listed(ListedRuns(sr, t), PlacesAll(sr, t, Scanned(sr, 16)).starts, x)
            <==> InListedRun(ListedRuns(sr, t), PageAddress(x))
  {
    hide Scanned, ScanAll, PlacesAll, Fits, ShowsPage, OpenRun;
    ScannedPages(sr);
    var eas, runs := Scanned(sr, 16), ListedRuns(sr, t);
    var starts := PlacesAll(sr, t, eas).starts;
    ScanFaithful(sr, t, eas);
    forall r | 0 <= r < |runs|
      ensures InRun(runs, starts, r, x) <==> runs[r].addr <= PageAddress(x) < runs[r].addr + runs[r].size
    {
      var n := runs[r].size / 0x2_0000;
      assert Covers(sr, t, eas, runs[r], starts[r], n);
    }
    if Listed(runs, starts, x) {
      var r :| 0 <= r < |runs| && InRun(runs, starts, r, x);
    }
    if InListedRun(runs, PageAddress(x)) {
      var r :| 0 <= r < |runs| && runs[r].addr <= PageAddress(x) < runs[r].addr + runs[r].size;
      assert InRun(runs, starts, r, x);
    }
  }

  lemma {:induction false} PageListed(sr: Registers, t: Table, x: nat)
    requires Sixteen(sr) && Fits(|t|, sr.sdr1) && AllPaged(sr) && x < 0x7800
    requires HitPage(sr, t, x) && MissLater(sr, t, x)
    requires forall i :: 0 <= i < 0x7800 && LostPage(sr, t, i) ==> !MissLater(sr, t, i)
    ensures InListedRun(ListedRuns(sr, t), PageAddress(x))
  {
    hide Scanned, Fits, LostPage, LostAt, HitAt, Listed, InListedRun, ListedRuns;
    ScannedPages(sr);
    var y :| x < y < 0x7800 && !HitPage(sr, t, y);
    forall i | 0 <= i < y
      ensures !LostAt(sr, t, Scanned(sr, 16), i)
    {
      LostPageIsLost(sr, t, i);
    }
    ListedByAddress(sr, t, x);
    RunsOf(sr, t);
    HitBeforeMissListed(sr, t, Scanned(sr, 16), x, y);
  }

  lemma {:induction false} RunsOf(sr: Registers, t: Table)
    requires Sixteen(sr) && Fits(|t|, sr.sdr1)
    ensures ListedRuns(sr, t) == ScanAll(sr, t, Scanned(sr, 16)).pushed
  {
  }

  lemma {:induction false} LostPageNotListed(sr: Registers, t: Table, i: nat) returns (first: nat)
    requires Sixteen(sr) && Fits(|t|, sr.sdr1) && AllPaged(sr) && i < 0x7800 && LostPage(sr, t, i)
    ensures first <= i && HitPage(sr, t, first) && !InListedRun(ListedRuns(sr, t), PageAddress(first))
  {
    hide Scanned, Fits, HitAt, Listed, InListedRun, ListedRuns, ScanAll, PlacesAll;
    var eas := Scanned(sr, 16);
    LostPageIsLost(sr, t, i);
    ScannedPages(sr);
    assert !NoneLost(sr, t, eas, i + 1);
    first := FirstLost(sr, t, eas, i + 1);
    LostPageIsLost(sr, t, first);
    FirstLostNotListed(sr, t, eas, first);
    RunsOf(sr, t);
    ListedByAddress(sr, t, first);
  }

  /** Without direct-store segments: every hit page of segments 0 to 14 with a later miss lies in a
      listed run if and only if no lost run, which starts at address 0 or at a zero page behind a
      miss, has a later miss. */
  lemma {:induction false} ListingCompleteIff(sr: Registers, t: Table)
    requires Sixteen(sr) && Fits(|t|, sr.sdr1) && AllPaged(sr)
    ensures (forall x :: 0 <= x < 0x7800 && HitPage(sr, t, x) && MissLater(sr, t, x)
               ==> InListedRun(ListedRuns(sr, t), PageAddress(x)))
            <==> (forall x :: 0 <= x < 0x7800 && LostPage(sr, t, x) ==> !MissLater(sr, t, x))
  {
    hide Fits, HitPage, LostPage, InListedRun, ListedRuns;
    if forall x :: 0 <= x < 0x7800 && LostPage(sr, t, x) ==> !MissLater(sr, t, x) {
      forall x | 0 <= x < 0x7800 && HitPage(sr, t, x) && MissLater(sr, t, x)
        ensures InListedRun(ListedRuns(sr, t), PageAddress(x))
      {
        PageListed(sr, t, x);
      }
    } else {
      var i :| 0 <= i < 0x7800 && LostPage(sr, t, i) && MissLater(sr, t, i);
      var first := LostPageNotListed(sr, t, i);
    }
  }

  /** In particular nothing is lost when the page at address 0 is not hit and no page is hit with
      frame 0 and all attribute bits 0. */
  lemma {:induction false} ListingComplete(sr: Registers, t: Table, x: nat)
    requires Sixteen(sr) && Fits(|t|, sr.sdr1) && AllPaged(sr) && x < 0x7800
    requires !HitPage(sr, t, 0) && forall i :: 0 <= i < 0x7800 ==> !ZeroPage(sr, t, PageAddress(i))
    requires HitPage(sr, t, x) && MissLater(sr, t, x)
    ensures InListedRun(ListedRuns(sr, t), PageAddress(x))
  {
    hide Fits, HitPage, ZeroPage, InListedRun, ListedRuns, MissLater;
    ListingCompleteIff(sr, t);
    forall i | 0 <= i < 0x7800
      ensures !LostPage(sr, t, i)
    {
    }
  }

  /** Two listed runs of which one ends where the other starts differ in their attributes or do not
      follow each other in physical memory. */
  lemma {:induction false} ListedRunsAreLongest(sr: Registers, t: Table, r: nat)
    requires Sixteen(sr) && Fits(|t|, sr.sdr1) && AllPaged(sr) && r + 1 < |ListedRuns(sr, t)|
    ensures var a, b := ListedRuns(sr, t)[r], ListedRuns(sr, t)[r + 1];
            a.addr + a.size == b.addr ==>
              !(a.ks == b.ks && a.kp == b.kp && a.nx == b.nx && a.pp == b.pp
                && b.phys == (a.phys + a.size) % 0x1_0000_0000)
  {
    hide Scanned, ScanAll, PlacesAll, Fits, ShowsPage, OpenRun;
    ScannedPages(sr);
    var eas, runs := Scanned(sr, 16), ListedRuns(sr, t);
    var starts := PlacesAll(sr, t, eas).starts;
    ScanFaithful(sr, t, eas);
    ScanLongest(sr, t, eas);
    assert Covers(sr, t, eas, runs[r], starts[r], runs[r].size / 0x2_0000);
    assert Covers(sr, t, eas, runs[r + 1], starts[r + 1], runs[r + 1].size / 0x2_0000);
    if runs[r].addr + runs[r].size == runs[r + 1].addr {
      assert EndsAt(runs, starts, r, starts[r + 1]);
    }
  }
}
