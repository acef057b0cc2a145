/** The reader and the writer of the page table in memory, proved against PageTable. */
module Translation {
  import opened Words
  import opened Wrappers
  import opened PageTable
  import opened Occupancy

  // ---- The reader

  /** The hash the reader masks with the page mask it is passed. */
  function MaskedHash(pageMask: uint32, hash: uint32): nat {
    BitAnd(hash, BitOr(Wrap(pageMask * 0x400), 0x3FF))
  }

  /** The group the reader searches: its byte offset wraps at 32 bits. */
  function ReaderGroup(pageMask: uint32, hash: uint32): nat {
    MaskedHash(pageMask, hash) % 0x400_0000
  }

  /** The reader's tests of an upper word: valid, found by this hash, right segment, right API. */
  predicate Accepts(pteh: uint32, vsid: uint32, H: HashBit, api: nat) {
    && pteh / 0x8000_0000 != 0
    && pteh / 0x40 % 2 == H
    && pteh / 0x80 % 0x100_0000 == vsid
    && pteh % 0x40 == api
  }

  /** getPageEntryForAddressEx: search one group, slots 0 to 7. */
  method GetPageEntryForAddressEx(pageMask: uint32, addr: uint32, vsid: uint32, hash: uint32,
                                  translationTable: array<uint32>, H: HashBit)
    returns (entry: Option<Entry>)
    requires HasGroup(translationTable[..], ReaderGroup(pageMask, hash))
    ensures entry == if vsid >= 0x100_0000 then None
                     else Find(translationTable[..], ReaderGroup(pageMask, hash),
                               Tag(Key(vsid, addr / 0x2_0000 % 0x800), H))
  {
    hide Accepts, Tag, BitAnd, BitOr;
    var maskedHash := BitAnd(hash, BitOr(Wrap(pageMask * 0x400), 0x3FF));
    var api := addr / 0x40_0000 % 0x40;
    var pteAddrOffset: nat := Wrap(maskedHash * 0x40);
    ghost var group := ReaderGroup(pageMask, hash);
    OffsetOfGroup(maskedHash);
    ghost var page := addr / 0x2_0000 % 0x800;

    var j := 0;
    while j < 8
      invariant 0 <= j <= 8
      invariant pteAddrOffset == group * 0x40 + j * 8
      invariant vsid < 0x100_0000 ==>
                  forall i :: 0 <= i < j ==> Pteh(translationTable[..], group, i) != Tag(Key(vsid, page), H)
    {
      SlotIndex(group, j);
      var ptehIndex := pteAddrOffset / 4;
      var ptelIndex := ptehIndex + 1;
      var pteh := translationTable[ptehIndex];
      var ptel := translationTable[ptelIndex];
      assert pteh == Pteh(translationTable[..], group, j) && ptel == Ptel(translationTable[..], group, j);
      AcceptsTag(pteh, addr, vsid, H);
      if Accepts(pteh, vsid, H, api) {
        entry := Some(Entry(pteh, ptel));
        return;
      }
      j, pteAddrOffset := j + 1, pteAddrOffset + 8;
    }
    entry := None;
  }

  lemma {:induction false} OffsetOfGroup(maskedHash: nat)
    ensures Wrap(maskedHash * 0x40) == maskedHash % 0x400_0000 * 0x40
  {
    DivModUnique(maskedHash * 0x40, 0x1_0000_0000, maskedHash / 0x400_0000, maskedHash % 0x400_0000 * 0x40);
  }

  lemma {:induction false} SlotIndex(g: nat, j: nat)
    ensures (g * 0x40 + j * 8) / 4 == 16 * g + 2 * j
  {
    DivModUnique(g * 0x40 + j * 8, 4, 16 * g + 2 * j, 0);
  }

  /** The reader accepts exactly the tag of the page it looks for. */
  lemma {:induction false} AcceptsTag(w: uint32, addr: uint32, vsid: uint32, h: HashBit)
    ensures Accepts(w, vsid, h, addr / 0x40_0000 % 0x40)
            <==> vsid < 0x100_0000 && w == Tag(Key(vsid, addr / 0x2_0000 % 0x800), h)
  {
    AbbreviatedIndex(addr);
    if vsid < 0x100_0000 {
      FieldsMakeTag(w, Key(vsid, addr / 0x2_0000 % 0x800), h);
    }
  }

  /** The six API bits of an address are the six high bits of its page index. */
  lemma {:induction false} AbbreviatedIndex(addr: uint32)
    ensures addr / 0x40_0000 % 0x40 == addr / 0x2_0000 % 0x800 / 0x20
  {
    var x, y := addr / 0x2_0000, addr / 0x2_0000 / 0x20;
    DivModUnique(addr, 0x40_0000, y, x % 0x20 * 0x2_0000 + addr % 0x2_0000);
    DivModUnique(x, 0x800, y / 0x40, y % 0x40 * 0x20 + x % 0x20);
    DivModUnique(y % 0x40 * 0x20 + x % 0x20, 0x20, y % 0x40, x % 0x20);
  }

  /** The mask of the reader, for any value passed as page mask. */
  lemma {:induction false} ReaderMask(pageMask: uint32, hash: uint32)
    ensures MaskedHash(pageMask, hash) == BitAnd(hash / 0x400, pageMask % 0x40_0000) * 0x400 + hash % 0x400
  {
    hide BitAnd, BitOr, Pow2, ShiftRight;
    var m := pageMask % 0x40_0000;
    DivModUnique(pageMask * 0x400, 0x1_0000_0000, pageMask / 0x40_0000, m * 0x400);
    Pow2Values();
    OrOfFields(m, 0x3FF, 10, 0x400, m * 0x400);
    AndWithLowOnes(hash, m, m * 0x400 + 0x3FF, 10, 0x400);
    ShiftRightDivides(hash, 10, 0x400);
  }

  /** The primary hash is below 2^19, so passing the whole of SDR1 as page mask selects the
      same group as its nine mask bits would. */
  lemma {:induction false} WholeSdr1SelectsGroup(sdr1: uint32, hash: uint32)
    requires hash < 0x8_0000
    ensures ReaderGroup(sdr1, hash) == Group(sdr1, hash)
  {
    hide MaskedHash;
    ReaderMask(sdr1, hash);
    NineBitOperand(hash / 0x400, sdr1 % 0x40_0000);
    NineMaskBits(sdr1);
    GroupBound(sdr1, hash);
  }

  lemma {:induction false} NineMaskBits(sdr1: uint32)
    ensures sdr1 % 0x40_0000 % 0x200 == Mask(sdr1)
  {
    DivModUnique(sdr1, 0x200, sdr1 / 0x40_0000 * 0x2000 + sdr1 % 0x40_0000 / 0x200, sdr1 % 0x40_0000 % 0x200);
  }

  lemma {:induction false} NineBitOperand(x: nat, m: nat)
    requires x < 0x200
    ensures BitAnd(x, m) == BitAnd(x, m % 0x200)
  {
    Pow2Values();
    AndIgnoresHighBits(x, m, 9, 0x200);
  }

  /** The nine mask bits select the group for any hash. */
  lemma {:induction false} MaskSelectsGroup(sdr1: uint32, hash: uint32)
    ensures ReaderGroup(Mask(sdr1), hash) == Group(sdr1, hash)
  {
    hide MaskedHash;
    assert Mask(sdr1) % 0x40_0000 == Mask(sdr1);
    ReaderMask(Mask(sdr1), hash);
    GroupBound(sdr1, hash);
  }

  lemma {:induction false} PrimaryHashBound(vsid: uint32, page: PageIndex)
    ensures BitXor(vsid % 0x8_0000, page) < 0x8_0000
  {
    Pow2Values();
    XorBound(vsid % 0x8_0000, page, 19);
  }

  lemma {:induction false} GroupInTable(sdr1: uint32, hash: uint32, words: nat)
    requires Fits(words, sdr1)
    ensures 16 * Group(sdr1, hash) + 16 <= words
  {
  }

  /** getPageEntryForAddress: the entry that translates addr in the segment vsid. */
  method GetPageEntryForAddress(sdr1: uint32, addr: uint32, vsid: uint32, translationTable: array<uint32>,
                                checkSecondHash: bool)
    returns (entry: Option<Entry>)
    requires Fits(translationTable.Length, sdr1)
    ensures entry == if vsid >= 0x100_0000 then None
                     else Lookup(sdr1, translationTable[..], Key(vsid, addr / 0x2_0000 % 0x800), checkSecondHash)
  {
    hide ReaderGroup, Group, Find, Fits;
    var pageMask := sdr1 % 0x200;
    var pageIndex := addr / 0x2_0000 % 0x800;
    var primaryHash := BitXor(vsid % 0x8_0000, pageIndex);

    PrimaryHashBound(vsid, pageIndex);
    WholeSdr1SelectsGroup(sdr1, primaryHash);
    MaskSelectsGroup(sdr1, BitNot(primaryHash));
    GroupInTable(sdr1, primaryHash, translationTable.Length);
    GroupInTable(sdr1, BitNot(primaryHash), translationTable.Length);

    entry := GetPageEntryForAddressEx(sdr1, addr, vsid, primaryHash, translationTable, 0);
    if entry.Some? {
      return;
    }
    if checkSecondHash {
      entry := GetPageEntryForAddressEx(pageMask, addr, vsid, BitNot(primaryHash), translationTable, 1);
    }
  }

  lemma {:induction false} GroupBound(sdr1: uint32, hash: uint32)
    ensures Group(sdr1, hash) < 0x8_0000
  {
  }

  // ---- The writer

  /** The bits of the table origin and of the hash mask in SDR1 do not overlap. */
  predicate AlignedOrigin(sdr1: uint32) {
    BitAnd(sdr1 / 0x1_0000, Mask(sdr1)) == 0
  }

  /** The address of the group that mapMemory computes. */
  function GroupAddress(sdr1: uint32, hash: uint32): nat {
    BitOr(BitOr(sdr1 / 0x1_0000 * 0x1_0000, BitAnd(hash / 0x400, Mask(sdr1)) * 0x1_0000), hash % 0x400 * 0x40)
  }

  /** Relative to the table origin, the writer's group address is the reader's group. */
  lemma {:induction false} WriterSelectsGroup(sdr1: uint32, hash: uint32)
    requires AlignedOrigin(sdr1)
    ensures GroupAddress(sdr1, hash) - sdr1 / 0x1_0000 * 0x1_0000 == Group(sdr1, hash) * 0x40
  {
    hide BitAnd, BitOr, Pow2, Mask;
    var origin, part := sdr1 / 0x1_0000, BitAnd(hash / 0x400, Mask(sdr1));
    AndOfPart(origin, hash / 0x400, Mask(sdr1));
    OrPlusAnd(origin, part);
    Pow2Values();
    OrOfShifted(origin, part, 16, 0x1_0000, origin * 0x1_0000, part * 0x1_0000);
    OrOfFields(origin + part, hash % 0x400 * 0x40, 16, 0x1_0000, (origin + part) * 0x1_0000);
  }

  /** The two agree for every hash exactly when origin and mask of SDR1 do not overlap. */
  lemma {:induction false} WriterAgreesIffAligned(sdr1: uint32)
    ensures (forall hash: uint32 :: GroupAddress(sdr1, hash) - sdr1 / 0x1_0000 * 0x1_0000 == Group(sdr1, hash) * 0x40)
            <==> AlignedOrigin(sdr1)
  {
    hide GroupAddress, Group, AlignedOrigin;
    if AlignedOrigin(sdr1) {
      forall hash: uint32
        ensures GroupAddress(sdr1, hash) - sdr1 / 0x1_0000 * 0x1_0000 == Group(sdr1, hash) * 0x40
      {
        WriterSelectsGroup(sdr1, hash);
      }
    } else {
      OverlapMisleadsWriter(sdr1);
    }
  }

  lemma {:induction false} MaskBound(sdr1: uint32)
    ensures Mask(sdr1) <= 0x1FF
  {
  }

  /** With an overlap, the hash whose bits fill the mask is written to another group. */
  lemma {:induction false} OverlapMisleadsWriter(sdr1: uint32)
    requires !AlignedOrigin(sdr1)
    ensures var hash := Mask(sdr1) * 0x400;
            GroupAddress(sdr1, hash) - sdr1 / 0x1_0000 * 0x1_0000 != Group(sdr1, hash) * 0x40
  {
    hide BitAnd, BitOr, Pow2, Mask;
    MaskBound(sdr1);
    var origin, mask := sdr1 / 0x1_0000, Mask(sdr1);
    var hash := mask * 0x400;
    DivModUnique(hash, 0x400, mask, 0);
    AndSelf(mask);
    OrPlusAnd(origin, mask);
    Pow2Values();
    OrOfShifted(origin, mask, 16, 0x1_0000, origin * 0x1_0000, mask * 0x1_0000);
    OrOfFields(BitOr(origin, mask), 0, 16, 0x1_0000, BitOr(origin, mask) * 0x1_0000);
  }

  /** The upper word mapMemory packs from its fields. */
  function PackPteh(V: nat, vsid: nat, H: nat, api: nat): nat {
    BitOr(BitOr(BitOr(V * 0x8000_0000, vsid * 0x80), H * 0x40), api)
  }

  /** The lower word mapMemory packs for the page at physical address pa. */
  function PackPtel(rpn: nat): nat {
    BitOr(BitOr(BitOr(rpn * 0x1000, 3 * 0x80), 2 * 8), 2)
  }

  lemma {:induction false} PackedTag(k: Key, h: HashBit)
    ensures PackPteh(1, k.vsid, h, k.page / 0x20) == Tag(k, h)
  {
    Pow2Values();
    OrOfFields(1, k.vsid * 0x80, 31, 0x8000_0000, 0x8000_0000);
    var upper := 0x100_0000 + k.vsid;
    OrOfFields(upper, h * 0x40, 7, 0x80, upper * 0x80);
    OrOfFields(2 * upper + h, k.page / 0x20, 6, 0x40, (2 * upper + h) * 0x40);
  }

  /** The lower word of the entry for the page at pa. */
  function PtelFor(pa: uint32): uint32 {
    pa / 0x1000 * 0x1000 + 0x192
  }

  /** The physical page an entry refers to, as its readers extract it. */
  function Frame(ptel: uint32): uint32 {
    ptel / 0x1000 * 0x1000
  }

  lemma {:induction false} FrameOfEntry(pa: uint32)
    requires pa % 0x2_0000 == 0
    ensures Frame(PtelFor(pa)) == pa
  {
    var q := pa / 0x2_0000;
    DivModUnique(pa, 0x1000, 0x20 * q, 0);
    DivModUnique(pa + 0x192, 0x1000, 0x20 * q, 0x192);
  }

  lemma {:induction false} PackedPtel(pa: uint32)
    ensures PackPtel(pa / 0x1000) == PtelFor(pa)
  {
    var rpn := pa / 0x1000;
    Pow2Values();
    OrOfFields(rpn, 3 * 0x80, 12, 0x1000, rpn * 0x1000);
    OrOfFields(rpn * 0x20 + 3, 2 * 8, 7, 0x80, rpn * 0x1000 + 3 * 0x80);
    OrOfFields(rpn * 0x200 + 0x32, 2, 3, 8, rpn * 0x1000 + 3 * 0x80 + 2 * 8);
  }

  /** The fields of the lower word: the real page number of pa, R and C set, WIMG 2, PP 2. */
  lemma {:induction false} PtelFields(pa: uint32)
    ensures PtelFor(pa) / 0x1000 == pa / 0x1000
    ensures PtelFor(pa) / 0x80 % 4 == 3 && PtelFor(pa) / 8 % 0x10 == 2 && PtelFor(pa) % 4 == 2
    ensures PtelFor(pa) % 0x1000 == 0x192
  {
    var rpn := pa / 0x1000;
    DivModUnique(PtelFor(pa), 0x1000, rpn, 0x192);
    DivModUnique(PtelFor(pa), 0x80, rpn * 0x20 + 3, 0x12);
    DivModUnique(rpn * 0x20 + 3, 4, rpn * 8, 3);
    DivModUnique(PtelFor(pa), 8, rpn * 0x200 + 0x32, 2);
    DivModUnique(rpn * 0x200 + 0x32, 0x10, rpn * 0x20 + 3, 2);
    DivModUnique(PtelFor(pa), 4, rpn * 0x400 + 0x64, 2);
  }

  /** Search slots 7 down to 1 of the group at offset groupOffset and enter the pair in the
      first free one. */
  method FillTopFree(translationTable: array<uint32>, ghost g: nat, groupOffset: uint32, pteh: uint32, ptel: uint32)
    returns (setSuccessfully: bool)
    requires HasGroup(translationTable[..], g) && groupOffset == g * 0x40 && g < 0x8_0000
    modifies translationTable
    ensures var s := TopFree(old(translationTable[..]), g, 7);
            && setSuccessfully == (s > 0)
            && translationTable[..] == if s == 0 then old(translationTable[..])
                                       else Put(old(translationTable[..]), g, s, pteh, ptel)
  {
    setSuccessfully := false;
    var offset := groupOffset + 7 * 8;
    var j := 7;
    while j > 0
      invariant 0 <= j <= 7 && offset == groupOffset + j * 8
      invariant translationTable[..] == old(translationTable[..])
      invariant TopFree(translationTable[..], g, 7) == TopFree(translationTable[..], g, j)
    {
      var index := offset / 4;
      assert translationTable[index] == Pteh(translationTable[..], g, j);
      if translationTable[index] == 0 {
        translationTable[index] := pteh;
        translationTable[index + 1] := ptel;
        setSuccessfully := true;
        break;
      }
      j := j - 1;
      offset := offset - 8;
    }
  }

  /** The page that mapMemory enters at byte offset i of a range. */
  function PageAt(sr: Registers, paStart: uint32, eaStart: uint32, i: nat): Page
    requires Sixteen(sr)
  {
    Page(KeyOf(sr, Wrap(eaStart + i)), PtelFor(Wrap(paStart + i)))
  }

  function PageCount(size: nat): nat {
    (size + 0x2_0000 - 1) / 0x2_0000
  }

  /** The first `count` pages that mapMemory enters for a range. */
  function FirstPages(sr: Registers, paStart: uint32, eaStart: uint32, count: nat): (pages: seq<Page>)
    requires Sixteen(sr)
    ensures |pages| == count
  {
    seq(count, n requires 0 <= n => PageAt(sr, paStart, eaStart, n * 0x2_0000))
  }

  /** The pages of a range of `size` bytes in ascending order. */
  function PagesOf(sr: Registers, paStart: uint32, eaStart: uint32, size: nat): (pages: seq<Page>)
    requires Sixteen(sr)
    ensures |pages| == PageCount(size)
  {
    FirstPages(sr, paStart, eaStart, PageCount(size))
  }

  /** The pages mapMemory sets out to enter in a table of the given number of words.  Above
      0xFFFE0000 bytes its counter never reaches the size, and it goes round the address space
      again and again: more pages than a table can hold. */
  function PagesTried(sr: Registers, paStart: uint32, eaStart: uint32, size: nat, words: nat): (pages: seq<Page>)
    requires Sixteen(sr)
  {
    FirstPages(sr, paStart, eaStart, TurnsOf(size, words))
  }

  function TurnsOf(size: nat, words: nat): nat {
    if size <= 0xFFFE_0000 then PageCount(size) else words / 2 + 1
  }

  /** The body of mapMemory's loop: enter one page, in its primary group if that has a free
      slot, else with H = 1 in its secondary group. */
  method EnterPage(paAddr: uint32, eaAddr: uint32, sr: Registers, translationTable: array<uint32>)
    returns (setSuccessfully: bool)
    requires Sixteen(sr) && AlignedOrigin(sr.sdr1) && Fits(translationTable.Length, sr.sdr1)
    modifies translationTable
    ensures match Insert(sr.sdr1, old(translationTable[..]), Page(KeyOf(sr, eaAddr), PtelFor(paAddr)))
            case Some(t) => setSuccessfully && translationTable[..] == t
            case None => !setSuccessfully && translationTable[..] == old(translationTable[..])
  {
    hide AlignedOrigin, PackPteh, PackPtel;
    var htabOrg := sr.sdr1 / 0x1_0000;
    var segment := sr.value[eaAddr / 0x1000_0000];
    var vsid := segment % 0x100_0000;
    var rpn := paAddr / 0x1000;
    var pageIndex := eaAddr / 0x2_0000 % 0x800;
    var api := eaAddr / 0x40_0000 % 0x40;
    var hashvalue1 := BitXor(vsid % 0x8_0000, pageIndex);
    var hashvalue2 := BitNot(hashvalue1);
    var ptegAddr1 := GroupAddress(sr.sdr1, hashvalue1);
    var ptegAddr2 := GroupAddress(sr.sdr1, hashvalue2);

    ghost var k := KeyOf(sr, eaAddr);
    AbbreviatedIndex(eaAddr);
    PackedTag(k, 0);
    PackedTag(k, 1);
    PackedPtel(paAddr);
    WriterTarget(sr.sdr1, k, 0, translationTable.Length);
    WriterTarget(sr.sdr1, k, 1, translationTable.Length);

    var pteh := PackPteh(1, vsid, 0, api);
    var ptel := PackPtel(rpn);
    setSuccessfully := FillTopFree(translationTable, Home(sr.sdr1, k, 0), ptegAddr1 - htabOrg * 0x1_0000, pteh, ptel);
    if !setSuccessfully {
      pteh := PackPteh(1, vsid, 1, api);
      setSuccessfully := FillTopFree(translationTable, Home(sr.sdr1, k, 1), ptegAddr2 - htabOrg * 0x1_0000, pteh, ptel);
    }
  }

  lemma {:induction false} WriterTarget(sdr1: uint32, k: Key, h: HashBit, words: nat)
    requires AlignedOrigin(sdr1) && Fits(words, sdr1)
    ensures GroupAddress(sdr1, Hash(k, h)) - sdr1 / 0x1_0000 * 0x1_0000 == Home(sdr1, k, h) * 0x40
    ensures Home(sdr1, k, h) < 0x8_0000 && 16 * Home(sdr1, k, h) + 16 <= words
  {
    WriterSelectsGroup(sdr1, Hash(k, h));
    HomeInTable(sdr1, k, h, words);
    GroupBound(sdr1, Hash(k, h));
  }

  /** The loop counter of mapMemory takes the values of n pages, wrapped: its guard holds for
      ever, so that the loop can only end in failure, exactly for sizes above 0xFFFE0000. */
  lemma {:induction false} CounterEndsIffSizeFits(size: uint32)
    ensures (forall n: nat :: Wrap(n * 0x2_0000) < size) <==> size > 0xFFFE_0000
  {
    forall n: nat
      ensures Wrap(n * 0x2_0000) <= 0xFFFE_0000
    {
      WrappedMultiple(n);
    }
    assert Wrap(0x7FFF * 0x2_0000) == 0xFFFE_0000;
  }

  lemma {:induction false} WrappedMultiple(n: nat)
    ensures Wrap(n * 0x2_0000) <= 0xFFFE_0000
  {
    DivModUnique(n * 0x2_0000, 0x1_0000_0000, n / 0x8000, n % 0x8000 * 0x2_0000);
  }

  /** A table has no more taken slots than slots. */
  lemma {:induction false} TakenBound(t: Table, n: nat)
    requires 2 * n <= |t|
    ensures Taken(t, n) <= n
  {
    if n > 0 {
      TakenBound(t, n - 1);
    }
  }

  lemma {:induction false} CounterStep(n: nat)
    ensures Wrap(Wrap(n * 0x2_0000) + 0x2_0000) == Wrap((n + 1) * 0x2_0000)
  {
    WrapSum(0x2_0000, n * 0x2_0000);
  }

  /** While the guard holds there is a page left to try. */
  lemma {:induction false} GuardLeavesPage(size: uint32, n: nat)
    requires size <= 0xFFFE_0000 && n <= PageCount(size)
    ensures Wrap(n * 0x2_0000) < size <==> n < PageCount(size)
  {
    var q, rest := size / 0x2_0000, size % 0x2_0000;
    if rest == 0 {
      DivModUnique(size + 0x2_0000 - 1, 0x2_0000, q, 0x1_FFFF);
    } else {
      DivModUnique(size + 0x2_0000 - 1, 0x2_0000, q + 1, rest - 1);
    }
    WrapSmall(n * 0x2_0000);
  }

  /** The page of turn n, from the wrapped counter. */
  lemma {:induction false} PageOfTurn(sr: Registers, paStart: uint32, eaStart: uint32, count: nat, n: nat)
    requires Sixteen(sr) && n < count
    ensures var i := Wrap(n * 0x2_0000);
            FirstPages(sr, paStart, eaStart, count)[n]
            == Page(KeyOf(sr, Wrap(eaStart + i)), PtelFor(Wrap(paStart + i)))
  {
    hide KeyOf, PtelFor, Wrap;
    WrapSum(eaStart, n * 0x2_0000);
    WrapSum(paStart, n * 0x2_0000);
  }

  /** The state of mapMemory's loop: n pages were entered, each in a slot of its own, and the
      others remain to be entered. */
  predicate Entered(sdr1: uint32, start: Table, now: Table, pages: seq<Page>, n: nat) {
    && |now| == |start| && Fits(|start|, sdr1) && n <= |pages|
    && InsertAll(sdr1, start, pages) == Resumed(InsertAll(sdr1, now, pages[n..]), n)
    && Taken(now, |start| / 2) == Taken(start, |start| / 2) + n
  }

  lemma {:induction false} NothingEntered(sdr1: uint32, start: Table, pages: seq<Page>)
    requires Fits(|start|, sdr1)
    ensures Entered(sdr1, start, start, pages, 0)
  {
    assert pages[0..] == pages;
  }

  /** Entering the next page, or failing to. */
  lemma {:induction false} NextEntered(sdr1: uint32, start: Table, now: Table, pages: seq<Page>, n: nat)
    requires Entered(sdr1, start, now, pages, n) && n < |pages|
    ensures match Insert(sdr1, now, pages[n])
            case Some(t) => Entered(sdr1, start, t, pages, n + 1)
            case None => InsertAll(sdr1, start, pages) == Outcome(now, n)
  {
    hide Insert, InsertAll, Taken, Fits, Preserves;
    assert pages[n..][0] == pages[n] && pages[n..][1..] == pages[n + 1..];
    InsertAllStep(sdr1, now, pages[n..]);
    if Insert(sdr1, now, pages[n]).Some? {
      InsertConserves(sdr1, now, pages[n]);
    }
  }

  lemma {:induction false} AllEntered(sdr1: uint32, start: Table, now: Table, pages: seq<Page>)
    requires Entered(sdr1, start, now, pages, |pages|)
    ensures InsertAll(sdr1, start, pages) == Outcome(now, |pages|)
  {
    InsertNone(sdr1, now);
  }

  /** The table has at least as many slots as pages were entered. */
  lemma {:induction false} EnteredBound(sdr1: uint32, start: Table, now: Table, pages: seq<Page>, n: nat)
    requires Entered(sdr1, start, now, pages, n)
    ensures n <= Taken(now, |now| / 2) <= |now| / 2
  {
    TakenBound(now, |now| / 2);
  }

  /** The guard of the loop holds exactly while there is a page left to try. */
  lemma {:induction false} GuardShowsPage(size: uint32, words: nat, n: nat)
    requires n <= words / 2 && n <= TurnsOf(size, words)
    ensures Wrap(n * 0x2_0000) < size <==> n < TurnsOf(size, words)
  {
    hide PageCount;
    if size <= 0xFFFE_0000 {
      GuardLeavesPage(size, n);
    } else {
      WrappedMultiple(n);
    }
  }

  lemma {:induction false} OneMoreTaken(sdr1: uint32, start: Table, before: Table, now: Table, pages: seq<Page>, n: nat)
    requires Entered(sdr1, start, before, pages, n) && Entered(sdr1, start, now, pages, n + 1)
    ensures Taken(now, |start| / 2) == Taken(before, |start| / 2) + 1
  {
  }

  lemma {:induction false} LargeRangeNotFinished(size: uint32, words: nat)
    ensures size > 0xFFFE_0000 ==> TurnsOf(size, words) > words / 2
  {
  }

  /** mapMemory: enter the pages of the physical range [paStart, paEnd) for the effective
      addresses from eaStart on.  The loop always ends, since every turn takes a free slot of
      the table or gives up; a range above 0xFFFE0000 bytes ends in failure. */
  method MapMemory(paStart: uint32, paEnd: uint32, eaStart: uint32, sr: Registers, translationTable: array<uint32>)
    returns (ok: bool)
    requires Sixteen(sr) && AlignedOrigin(sr.sdr1) && Fits(translationTable.Length, sr.sdr1)
    modifies translationTable
    ensures RunPages(sr.sdr1, old(translationTable[..]),
                     PagesTried(sr, paStart, eaStart, Wrap(paEnd - paStart), translationTable.Length))
            == Run(translationTable[..], ok)
    ensures Wrap(paEnd - paStart) > 0xFFFE_0000 ==> !ok
  {
    hide KeyOf, PtelFor, AlignedOrigin, Insert, InsertAll, Taken, Fits, PageCount, Entered, TurnsOf, Wrap;
    ghost var size := Wrap(paEnd - paStart);
    ghost var words := translationTable.Length;
    ghost var pages := PagesTried(sr, paStart, eaStart, size, words);
    ghost var start := translationTable[..];
    ghost var n := 0;
    NothingEntered(sr.sdr1, start, pages);
    WrapSmall(0);

    var i: uint32 := 0;
    while i < Wrap(paEnd - paStart)
      invariant i == Wrap(n * 0x2_0000) && n <= |pages|
      invariant Entered(sr.sdr1, start, translationTable[..], pages, n)
      decreases words / 2 - Taken(translationTable[..], words / 2)
    {
      ghost var before := translationTable[..];
      EnteredBound(sr.sdr1, start, before, pages, n);
      GuardShowsPage(size, words, n);
      PageOfTurn(sr, paStart, eaStart, |pages|, n);
      NextEntered(sr.sdr1, start, before, pages, n);
      var setSuccessfully := EnterPage(Wrap(paStart + i), Wrap(eaStart + i), sr, translationTable);
      if !setSuccessfully {
        return false;
      }
      OneMoreTaken(sr.sdr1, start, before, translationTable[..], pages, n);
      EnteredBound(sr.sdr1, start, translationTable[..], pages, n + 1);
      CounterStep(n);
      n := n + 1;
      i := Wrap(i + 0x2_0000);
    }
    EnteredBound(sr.sdr1, start, translationTable[..], pages, n);
    GuardShowsPage(size, words, n);
    AllEntered(sr.sdr1, start, translationTable[..], pages);
    LargeRangeNotFinished(size, words);
    return true;
  }
}
