/** When entering pages succeeds, and what it leaves alone. */
module Occupancy {
  import opened Words
  import opened Wrappers
  import opened PageTable

  // ---- Exact failure

  /** Entering p fails in t: no slot is left in either of its groups. */
  predicate Stuck(sdr1: uint32, t: Table, p: Page)
    requires Fits(|t|, sdr1)
  {
    Full(t, Home(sdr1, p.key, 0)) && Full(t, Home(sdr1, p.key, 1))
  }

  /** Entering a list of pages ends with n pages entered exactly when the first n all find a
      slot and the next one, if any, is stuck in the table they leave. */
  lemma {:induction false} StopsWhereStuck(sdr1: uint32, t: Table, pages: seq<Page>, n: nat)
    requires Fits(|t|, sdr1) && n <= |pages|
    ensures InsertAll(sdr1, t, pages).count == n
            <==> var before := InsertAll(sdr1, t, pages[..n]);
                 before.count == n && (n < |pages| ==> Stuck(sdr1, before.table, pages[n]))
    ensures InsertAll(sdr1, t, pages).count == n
            ==> InsertAll(sdr1, t, pages).table == InsertAll(sdr1, t, pages[..n]).table
    decreases |pages|
  {
    if pages != [] && n > 0 {
      assert pages[..n][1..] == pages[1..][..n - 1];
      assert pages[..n][0] == pages[0];
      match Insert(sdr1, t, pages[0])
      case None =>
      case Some(t1) => StopsWhereStuck(sdr1, t1, pages[1..], n - 1);
    }
  }

  /** Entering one list and then another. */
  lemma {:induction false} InsertAllAppend(sdr1: uint32, t: Table, a: seq<Page>, b: seq<Page>)
    requires Fits(|t|, sdr1)
    ensures var first := InsertAll(sdr1, t, a);
            InsertAll(sdr1, t, a + b)
            == if first.count < |a| then first
               else var second := InsertAll(sdr1, first.table, b); Outcome(second.table, first.count + second.count)
    decreases |a|
  {
    if a == [] {
      assert a + b == b;
    } else {
      assert (a + b)[1..] == a[1..] + b;
      match Insert(sdr1, t, a[0])
      case None =>
      case Some(t1) => InsertAllAppend(sdr1, t1, a[1..], b);
    }
  }

  /** A page is found under the complemented hash only because its primary group was full. */
  lemma {:induction false} SecondaryOnlyWhenFull(sdr1: uint32, t: Table, p: Page)
    requires Fits(|t|, sdr1)
    requires Insert(sdr1, t, p).Some? && Translate(sdr1, t, p.key).None?
    ensures FindByHash(sdr1, Insert(sdr1, t, p).value, p.key, 1).Some? <==> Full(t, Home(sdr1, p.key, 0))
  {
    var h := if InsertByHash(sdr1, t, p, 0).Some? then 0 else 1;
    InsertByHashEffect(sdr1, t, p, h, p.key, 1);
  }

  // ---- Conservation

  /** Slots that were taken keep both words, and slot 0 of every group is not written. */
  ghost predicate Preserves(t: Table, t': Table) {
    && |t| == |t'|
    && forall g, s :: 0 <= g && HasGroup(t, g) && 0 <= s < 8 && (s == 0 || Pteh(t, g, s) != 0)
         ==> Pteh(t', g, s) == Pteh(t, g, s) && Ptel(t', g, s) == Ptel(t, g, s)
  }

  /** The number of taken slots among the first n entries of the table. */
  function Taken(t: Table, n: nat): nat
    requires 2 * n <= |t|
  {
    if n == 0 then 0 else Taken(t, n - 1) + (if t[2 * n - 2] != 0 then 1 else 0)
  }

  lemma {:induction false} TakenAfterPut(t: Table, e: nat, pteh: uint32, ptel: uint32, n: nat)
    requires 2 * n <= |t| && 2 * e + 1 < |t| && t[2 * e] == 0 && pteh != 0
    ensures Taken(t[2 * e := pteh][2 * e + 1 := ptel], n) == Taken(t, n) + (if e < n then 1 else 0)
  {
    if n > 0 {
      TakenAfterPut(t, e, pteh, ptel, n - 1);
    }
  }

  lemma {:induction false} PutPreserves(t: Table, g: nat, s: nat, pteh: uint32, ptel: uint32)
    requires HasGroup(t, g) && 1 <= s < 8 && Pteh(t, g, s) == 0
    ensures Preserves(t, Put(t, g, s, pteh, ptel))
  {
    var t' := Put(t, g, s, pteh, ptel);
    forall g', s' | 0 <= g' && HasGroup(t, g') && 0 <= s' < 8 && (s' == 0 || Pteh(t, g', s') != 0)
      ensures Pteh(t', g', s') == Pteh(t, g', s') && Ptel(t', g', s') == Ptel(t, g', s')
    {
      PutFrame(t, g, s, pteh, ptel, g', s');
    }
  }

  lemma {:induction false} TakenPlusOne(t: Table, g: nat, s: nat, pteh: uint32, ptel: uint32)
    requires HasGroup(t, g) && s < 8 && Pteh(t, g, s) == 0 && pteh != 0
    ensures Taken(Put(t, g, s, pteh, ptel), |t| / 2) == Taken(t, |t| / 2) + 1
  {
    assert 2 * (8 * g + s) == 16 * g + 2 * s;
    TakenAfterPut(t, 8 * g + s, pteh, ptel, |t| / 2);
  }

  lemma {:induction false} InsertConserves(sdr1: uint32, t: Table, p: Page)
    requires Fits(|t|, sdr1) && Insert(sdr1, t, p).Some?
    ensures Preserves(t, Insert(sdr1, t, p).value)
    ensures Taken(Insert(sdr1, t, p).value, |t| / 2) == Taken(t, |t| / 2) + 1
  {
    var h := if InsertByHash(sdr1, t, p, 0).Some? then 0 else 1;
    var g := Home(sdr1, p.key, h);
    var s := TopFree(t, g, 8 - 1);
    PutPreserves(t, g, s, Tag(p.key, h), p.ptel);
    TakenPlusOne(t, g, s, Tag(p.key, h), p.ptel);
  }

  lemma {:induction false} PreservesTransitive(t: Table, u: Table, v: Table)
    requires Preserves(t, u) && Preserves(u, v)
    ensures Preserves(t, v)
  {
  }

  /** Every run, successful or not, keeps what was in the table and adds one taken slot per
      page entered. */
  lemma {:induction false} InsertAllConserves(sdr1: uint32, t: Table, pages: seq<Page>)
    requires Fits(|t|, sdr1)
    ensures var o := InsertAll(sdr1, t, pages);
            Preserves(t, o.table) && Taken(o.table, |t| / 2) == Taken(t, |t| / 2) + o.count
    decreases |pages|
  {
    if pages != [] && Insert(sdr1, t, pages[0]).Some? {
      var t1 := Insert(sdr1, t, pages[0]).value;
      InsertConserves(sdr1, t, pages[0]);
      InsertAllConserves(sdr1, t1, pages[1..]);
      PreservesTransitive(t, t1, InsertAll(sdr1, t1, pages[1..]).table);
    }
  }

  // ---- No primary collisions inside a segment

  /** With bit 0 of the mask set, equal primary groups within a VSID mean equal pages. */
  lemma {:induction false} OddMaskSeparates(sdr1: uint32, k: Key, k': Key)
    requires Mask(sdr1) % 2 == 1
    requires k.vsid == k'.vsid && Home(sdr1, k, 0) == Home(sdr1, k', 0)
    ensures k == k'
  {
    OddMaskShowsElevenBits(sdr1, Hash(k, 0), Hash(k', 0));
    SameElevenBits(k.vsid % 0x8_0000, k.page, k'.page);
  }

  lemma {:induction false} SameElevenBits(v: nat, p: PageIndex, q: PageIndex)
    requires BitXor(v, p) % 0x800 == BitXor(v, q) % 0x800
    ensures p == q
  {
    hide BitXor;
    Pow2Values();
    XorCancels(v, p, q, 11, 0x800);
  }

  lemma {:induction false} OddMaskShowsElevenBits(sdr1: uint32, x: uint32, y: uint32)
    requires Mask(sdr1) % 2 == 1
    requires Group(sdr1, x) == Group(sdr1, y)
    ensures x % 0x800 == y % 0x800
  {
    GroupLowBits(sdr1, x);
    GroupLowBits(sdr1, y);
    HalveAnd(x / 0x400, Mask(sdr1));
    HalveAnd(y / 0x400, Mask(sdr1));
    ElevenBits(x);
    ElevenBits(y);
  }

  lemma {:induction false} ElevenBits(x: nat)
    ensures x % 0x800 == x / 0x400 % 2 * 0x400 + x % 0x400
  {
    DivModUnique(x, 0x800, x / 0x400 / 2, x / 0x400 % 2 * 0x400 + x % 0x400);
  }

  /** With bit 0 of the mask clear, pages 0 and 0x400 of any segment share their primary group. */
  lemma {:induction false} EvenMaskCollides(sdr1: uint32, vsid: Vsid)
    requires Mask(sdr1) % 2 == 0
    ensures Home(sdr1, Key(vsid, 0), 0) == Home(sdr1, Key(vsid, 0x400), 0)
  {
    var v := vsid % 0x8_0000;
    PagesDifferInBitTen(v);
    var x, y := BitXor(v, 0) / 0x400, BitXor(v, 0x400) / 0x400;
    HalveAnd(x, Mask(sdr1));
    HalveAnd(y, Mask(sdr1));
  }

  lemma {:induction false} PagesDifferInBitTen(v: nat)
    ensures BitXor(v, 0) % 0x400 == BitXor(v, 0x400) % 0x400
    ensures BitXor(v, 0) / 0x400 / 2 == BitXor(v, 0x400) / 0x400 / 2
  {
    Pow2Values();
    XorAbove(v, 0, 10, 0x400);
    XorAbove(v, 0x400, 10, 0x400);
    XorOfShifted(v, 0, 10);
    XorOfShifted(v, 0x400, 10);
    ShiftRightDivides(v, 10, 0x400);
    ShiftRightDivides(0, 10, 0x400);
    ShiftRightDivides(0x400, 10, 0x400);
    ShiftRightDivides(BitXor(v, 0), 10, 0x400);
    ShiftRightDivides(BitXor(v, 0x400), 10, 0x400);
    HalveXor(v / 0x400, 0);
    HalveXor(v / 0x400, 1);
  }

  ghost predicate SegmentSeparated(sdr1: uint32, vsid: Vsid) {
    forall p: PageIndex, q: PageIndex :: p != q ==> Home(sdr1, Key(vsid, p), 0) != Home(sdr1, Key(vsid, q), 0)
  }

  /** The 2048 pages of a segment have pairwise distinct primary groups exactly when bit 0 of
      the mask is set. */
  lemma {:induction false} SegmentSeparatedIffOddMask(sdr1: uint32, vsid: Vsid)
    ensures SegmentSeparated(sdr1, vsid) <==> Mask(sdr1) % 2 == 1
  {
    if Mask(sdr1) % 2 == 1 {
      forall p: PageIndex, q: PageIndex | p != q
        ensures Home(sdr1, Key(vsid, p), 0) != Home(sdr1, Key(vsid, q), 0)
      {
        if Home(sdr1, Key(vsid, p), 0) == Home(sdr1, Key(vsid, q), 0) {
          OddMaskSeparates(sdr1, Key(vsid, p), Key(vsid, q));
          assert false;
        }
      }
    } else {
      EvenMaskCollides(sdr1, vsid);
    }
  }

  predicate OneVsid(pages: seq<Page>, vsid: Vsid) {
    forall i :: 0 <= i < |pages| ==> pages[i].key.vsid == vsid
  }

  /** Every primary group needed has a free slot. */
  predicate HasRoom(sdr1: uint32, t: Table, pages: seq<Page>)
    requires Fits(|t|, sdr1)
  {
    forall i :: 0 <= i < |pages| ==> !Full(t, Home(sdr1, pages[i].key, 0))
  }

  lemma {:induction false} FullElsewhere(t: Table, g: nat, s: nat, pteh: uint32, ptel: uint32, g': nat)
    requires HasGroup(t, g) && s < 8 && HasGroup(t, g') && g != g'
    ensures Full(Put(t, g, s, pteh, ptel), g') <==> Full(t, g')
  {
    forall s' | 0 <= s' < 8
      ensures Pteh(Put(t, g, s, pteh, ptel), g', s') == Pteh(t, g', s')
    {
      PutFrame(t, g, s, pteh, ptel, g', s');
    }
  }

  lemma {:induction false} InsertKeepsRoom(sdr1: uint32, t: Table, pages: seq<Page>, vsid: Vsid)
    requires Fits(|t|, sdr1) && Mask(sdr1) % 2 == 1 && pages != []
    requires OneVsid(pages, vsid) && DistinctKeys(pages) && HasRoom(sdr1, t, pages)
    ensures InsertByHash(sdr1, t, pages[0], 0).Some?
    ensures HasRoom(sdr1, InsertByHash(sdr1, t, pages[0], 0).value, pages[1..])
  {
    var p := pages[0];
    var g := Home(sdr1, p.key, 0);
    assert !Full(t, g);
    forall i | 0 <= i < |pages[1..]|
      ensures !Full(InsertByHash(sdr1, t, p, 0).value, Home(sdr1, pages[1..][i].key, 0))
    {
      var g' := Home(sdr1, pages[i + 1].key, 0);
      assert !Full(t, g');
      if g == g' {
        OddMaskSeparates(sdr1, p.key, pages[i + 1].key);
        assert false;
      }
      FullElsewhere(t, g, TopFree(t, g, 8 - 1), Tag(p.key, 0), p.ptel, g');
    }
  }

  predicate MissingInPrimary(sdr1: uint32, t: Table, pages: seq<Page>)
    requires Fits(|t|, sdr1)
  {
    forall i :: 0 <= i < |pages| ==> FindByHash(sdr1, t, pages[i].key, 0).None?
  }

  /** One segment, bit 0 of the mask set, a free slot in each primary group: every page is
      entered. */
  lemma {:induction false} RoomSuffices(sdr1: uint32, t: Table, pages: seq<Page>, vsid: Vsid)
    requires Fits(|t|, sdr1) && Mask(sdr1) % 2 == 1
    requires OneVsid(pages, vsid) && DistinctKeys(pages) && HasRoom(sdr1, t, pages)
    ensures InsertAll(sdr1, t, pages).count == |pages|
    decreases |pages|
  {
    if pages != [] {
      InsertKeepsRoom(sdr1, t, pages, vsid);
      RoomSuffices(sdr1, InsertByHash(sdr1, t, pages[0], 0).value, pages[1..], vsid);
    }
  }

  /** ... and every page is entered under the primary hash: the primary-only lookup finds
      exactly the new entries besides the old ones, and nothing changes under the complement. */
  lemma {:induction false} PrimaryLookupSeesAll(sdr1: uint32, t: Table, pages: seq<Page>, vsid: Vsid, k: Key)
    requires Fits(|t|, sdr1) && Mask(sdr1) % 2 == 1
    requires OneVsid(pages, vsid) && DistinctKeys(pages) && HasRoom(sdr1, t, pages)
    requires MissingInPrimary(sdr1, t, pages)
    ensures var t' := InsertAll(sdr1, t, pages).table;
            && FindByHash(sdr1, t', k, 1) == FindByHash(sdr1, t, k, 1)
            && FindByHash(sdr1, t', k, 0)
               == match Assigned(pages, k)
                  case Some(ptel) => Some(Entry(Tag(k, 0), ptel))
                  case None => FindByHash(sdr1, t, k, 0)
    decreases |pages|
  {
    hide FindByHash, InsertByHash, Tag, HasRoom;
    if pages != [] {
      InsertKeepsRoom(sdr1, t, pages, vsid);
      var t1 := InsertByHash(sdr1, t, pages[0], 0).value;
      forall i | 0 <= i < |pages[1..]|
        ensures FindByHash(sdr1, t1, pages[1..][i].key, 0).None?
      {
        InsertByHashEffect(sdr1, t, pages[0], 0, pages[i + 1].key, 0);
      }
      PrimaryLookupSeesAll(sdr1, t1, pages[1..], vsid, k);
      InsertByHashEffect(sdr1, t, pages[0], 0, k, 0);
      InsertByHashEffect(sdr1, t, pages[0], 0, k, 1);
      assert pages[..|pages|] == pages && pages[1..][..|pages| - 1] == pages[1..];
      AssignedPrefix(pages, |pages| - 1, k);
    }
  }
}
