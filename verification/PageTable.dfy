/** The hashed page table as a value: groups of eight (PTEH, PTEL) pairs, where a page may
    be entered and where it is looked up, and what entering pages does to the translation. */
module PageTable {
  import opened Words
  import opened Wrappers

  type Vsid = x: nat | x < 0x100_0000
  type PageIndex = x: nat | x < 0x800
  type HashBit = x: nat | x < 2

  /** A page of the virtual address space: its segment's VSID and its index in the segment. */
  datatype Key = Key(vsid: Vsid, page: PageIndex)

  /** A page to be entered, with the lower word of its entry. */
  datatype Page = Page(key: Key, ptel: uint32)

  datatype Entry = Entry(pteh: uint32, ptel: uint32)

  /** SDR1 and the sixteen segment registers. */
  datatype Registers = Registers(sdr1: uint32, value: seq<uint32>)

  predicate Sixteen(sr: Registers) {
    |sr.value| == 16
  }

  function Segment(ea: uint32): nat {
    ea / 0x1000_0000
  }

  function KeyOf(sr: Registers, ea: uint32): Key
    requires Sixteen(sr)
  {
    Key(sr.value[ea / 0x1000_0000] % 0x100_0000, ea / 0x2_0000 % 0x800)
  }

  predicate DirectStore(sr: Registers, segment: nat)
    requires Sixteen(sr) && segment < 16
    ensures DirectStore(sr, segment) <==> sr.value[segment] >= 0x8000_0000
  {
    sr.value[segment] / 0x8000_0000 != 0
  }

  /** Addresses of one page have one key. */
  lemma {:induction false} SamePageKey(sr: Registers, a: uint32, b: uint32)
    requires Sixteen(sr) && b <= a < b + 0x2_0000 && b % 0x2_0000 == 0
    ensures KeyOf(sr, a) == KeyOf(sr, b)
  {
    var q := b / 0x2_0000;
    DivModUnique(a, 0x2_0000, q, a - b);
    DivModUnique(a, 0x1000_0000, q / 0x800, q % 0x800 * 0x2_0000 + (a - b));
    DivModUnique(b, 0x1000_0000, q / 0x800, q % 0x800 * 0x2_0000);
  }

  /** The primary hash of a page (h = 0) or its complement (h = 1). */
  function Hash(k: Key, h: HashBit): uint32 {
    var primary := BitXor(k.vsid % 0x8_0000, k.page);
    if h == 0 then primary else BitNot(primary)
  }

  function Mask(sdr1: uint32): nat {
    sdr1 % 0x200
  }

  /** The group a hash value selects: its ten low bits, and the bits above where the mask is set. */
  function Group(sdr1: uint32, hash: uint32): nat {
    BitAnd(hash / 0x400, Mask(sdr1)) * 0x400 + hash % 0x400
  }

  function Home(sdr1: uint32, k: Key, h: HashBit): nat {
    Group(sdr1, Hash(k, h))
  }

  /** The only PTEH word that marks a valid entry for k under hash h. */
  function Tag(k: Key, h: HashBit): uint32 {
    0x8000_0000 + k.vsid * 0x80 + h * 0x40 + k.page / 0x20
  }

  type Table = seq<uint32>

  /** Every group that SDR1 can select lies in a table of the given number of words. */
  predicate Fits(words: nat, sdr1: uint32) {
    words >= (Mask(sdr1) + 1) * 0x4000
  }

  predicate HasGroup(t: Table, g: nat) {
    16 * g + 16 <= |t|
  }

  lemma {:induction false} HomeInTable(sdr1: uint32, k: Key, h: HashBit, words: nat)
    requires Fits(words, sdr1)
    ensures 16 * Home(sdr1, k, h) + 16 <= words
  {
  }

  function Pteh(t: Table, g: nat, s: nat): uint32
    requires HasGroup(t, g) && s < 8
  {
    t[16 * g + 2 * s]
  }

  function Ptel(t: Table, g: nat, s: nat): uint32
    requires HasGroup(t, g) && s < 8
  {
    t[16 * g + 2 * s + 1]
  }

  // ---- Lookup

  /** The first slot from s on that holds the tag, or 8. */
  function FirstMatch(t: Table, g: nat, tag: uint32, s: nat): (r: nat)
    requires HasGroup(t, g) && s <= 8
    ensures s <= r <= 8
    ensures r < 8 ==> Pteh(t, g, r) == tag
    ensures forall i :: s <= i < r ==> Pteh(t, g, i) != tag
    decreases 8 - s
  {
    if s == 8 || Pteh(t, g, s) == tag then s else FirstMatch(t, g, tag, s + 1)
  }

  function Find(t: Table, g: nat, tag: uint32): Option<Entry>
    requires HasGroup(t, g)
  {
    var s := FirstMatch(t, g, tag, 0);
    if s == 8 then None else Some(Entry(tag, Ptel(t, g, s)))
  }

  function FindByHash(sdr1: uint32, t: Table, k: Key, h: HashBit): Option<Entry>
    requires Fits(|t|, sdr1)
  {
    Find(t, Home(sdr1, k, h), Tag(k, h))
  }

  /** Lookup under the primary hash and, if wanted, under the complemented one. */
  function Lookup(sdr1: uint32, t: Table, k: Key, both: bool): Option<Entry>
    requires Fits(|t|, sdr1)
  {
    var primary := FindByHash(sdr1, t, k, 0);
    if primary.Some? || !both then primary else FindByHash(sdr1, t, k, 1)
  }

  /** The translation of a page: the lower word of the entry found for it. */
  function Translate(sdr1: uint32, t: Table, k: Key): Option<uint32>
    requires Fits(|t|, sdr1)
  {
    match Lookup(sdr1, t, k, true)
    case None => None
    case Some(e) => Some(e.ptel)
  }

  // ---- Entering a page

  /** The highest slot among 1..j whose PTEH is zero, or 0 if there is none. */
  function TopFree(t: Table, g: nat, j: nat): (s: nat)
    requires HasGroup(t, g) && j < 8
    ensures s <= j
    ensures s > 0 ==> Pteh(t, g, s) == 0
    ensures forall i :: s < i <= j ==> Pteh(t, g, i) != 0
  {
    if j == 0 || Pteh(t, g, j) == 0 then j else TopFree(t, g, j - 1)
  }

  /** No slot of the group that a page may be entered in is free. */
  predicate Full(t: Table, g: nat)
    requires HasGroup(t, g)
  {
    forall s :: 1 <= s < 8 ==> Pteh(t, g, s) != 0
  }

  function Put(t: Table, g: nat, s: nat, pteh: uint32, ptel: uint32): Table
    requires HasGroup(t, g) && s < 8
  {
    t[16 * g + 2 * s := pteh][16 * g + 2 * s + 1 := ptel]
  }

  /** Enter k under hash h if its group has a free slot. */
  function InsertByHash(sdr1: uint32, t: Table, p: Page, h: HashBit): (r: Option<Table>)
    requires Fits(|t|, sdr1)
    ensures r.None? <==> Full(t, Home(sdr1, p.key, h))
    ensures r.Some? ==> |r.value| == |t|
  {
    var g := Home(sdr1, p.key, h);
    var s := TopFree(t, g, 8 - 1);
    if s == 0 then None else Some(Put(t, g, s, Tag(p.key, h), p.ptel))
  }

  function Insert(sdr1: uint32, t: Table, p: Page): (r: Option<Table>)
    requires Fits(|t|, sdr1)
    ensures r.None? <==> Full(t, Home(sdr1, p.key, 0)) && Full(t, Home(sdr1, p.key, 1))
    ensures r.Some? ==> |r.value| == |t|
  {
    var primary := InsertByHash(sdr1, t, p, 0);
    if primary.Some? then primary else InsertByHash(sdr1, t, p, 1)
  }

  /** The table after entering pages in order until one finds no slot, and how many were entered. */
  datatype Outcome = Outcome(table: Table, count: nat)

  function InsertAll(sdr1: uint32, t: Table, pages: seq<Page>): (o: Outcome)
    requires Fits(|t|, sdr1)
    ensures |o.table| == |t| && o.count <= |pages|
    decreases |pages|
  {
    if pages == [] then Outcome(t, 0)
    else
      match Insert(sdr1, t, pages[0])
      case None => Outcome(t, 0)
      case Some(t1) =>
        var rest := InsertAll(sdr1, t1, pages[1..]);
        Outcome(rest.table, rest.count + 1)
  }

  /** The outcome of a run that had entered n pages already. */
  function Resumed(o: Outcome, n: nat): Outcome {
    Outcome(o.table, o.count + n)
  }

  lemma {:induction false} InsertNone(sdr1: uint32, t: Table)
    requires Fits(|t|, sdr1)
    ensures InsertAll(sdr1, t, []) == Outcome(t, 0)
  {
  }

  lemma {:induction false} InsertAllStep(sdr1: uint32, t: Table, pages: seq<Page>)
    requires Fits(|t|, sdr1) && pages != []
    ensures InsertAll(sdr1, t, pages) == match Insert(sdr1, t, pages[0])
                                         case None => Outcome(t, 0)
                                         case Some(t1) => Resumed(InsertAll(sdr1, t1, pages[1..]), 1)
  {
  }

  /** The table a run leaves, and whether every page found a slot. */
  datatype Run = Run(table: Table, ok: bool)

  function RunPages(sdr1: uint32, t: Table, pages: seq<Page>): (r: Run)
    requires Fits(|t|, sdr1)
    ensures |r.table| == |t|
  {
    var o := InsertAll(sdr1, t, pages);
    Run(o.table, o.count == |pages|)
  }

  // ---- Groups and tags identify pages

  lemma {:induction false} GroupLowBits(sdr1: uint32, hash: uint32)
    ensures Group(sdr1, hash) % 0x400 == hash % 0x400
    ensures Group(sdr1, hash) / 0x400 == BitAnd(hash / 0x400, Mask(sdr1))
  {
    hide BitAnd;
    DivModUnique(Group(sdr1, hash), 0x400, BitAnd(hash / 0x400, Mask(sdr1)), hash % 0x400);
  }

  lemma {:induction false} ComplementLowBits(x: uint32)
    ensures BitNot(x) % 0x400 == 0x3FF - x % 0x400
  {
    DivModUnique(BitNot(x), 0x400, 0x3F_FFFF - x / 0x400, 0x3FF - x % 0x400);
  }

  /** The two groups of a page are never the same. */
  lemma {:induction false} HomesDiffer(sdr1: uint32, k: Key)
    ensures Home(sdr1, k, 0) != Home(sdr1, k, 1)
  {
    GroupLowBits(sdr1, Hash(k, 0));
    GroupLowBits(sdr1, Hash(k, 1));
    ComplementLowBits(Hash(k, 0));
  }

  /** Equal groups mean equal ten low bits of the page index, within one VSID. */
  lemma {:induction false} HomeShowsLowBits(sdr1: uint32, k: Key, k': Key, h: HashBit)
    requires k.vsid == k'.vsid && Home(sdr1, k, h) == Home(sdr1, k', h)
    ensures k.page % 0x400 == k'.page % 0x400
  {
    GroupLowBits(sdr1, Hash(k, h));
    GroupLowBits(sdr1, Hash(k', h));
    if h == 1 {
      ComplementLowBits(Hash(k, 0));
      ComplementLowBits(Hash(k', 0));
    }
    Pow2Values();
    XorCancels(k.vsid % 0x8_0000, k.page, k'.page, 10, 0x400);
  }

  /** Group and PTEH together identify the page an entry was made for, whatever the table
      size: the five page-index bits missing from the tag are fixed by the group. */
  lemma {:induction false} TagIdentifiesPage(sdr1: uint32, k: Key, h: HashBit, k': Key, h': HashBit)
    requires Home(sdr1, k, h) == Home(sdr1, k', h')
    requires Tag(k, h) == Tag(k', h')
    ensures k == k' && h == h'
  {
    TagFields(k, h);
    TagFields(k', h');
    HomeShowsLowBits(sdr1, k, k', h);
    PageFromParts(k.page, k'.page);
  }

  lemma {:induction false} PageFromParts(p: PageIndex, q: PageIndex)
    requires p % 0x400 == q % 0x400 && p / 0x20 == q / 0x20
    ensures p == q
  {
    DivModUnique(p, 0x400, p / 0x20 / 0x20, p / 0x20 % 0x20 * 0x20 + p % 0x20);
    DivModUnique(q, 0x400, q / 0x20 / 0x20, q / 0x20 % 0x20 * 0x20 + q % 0x20);
  }

  lemma {:induction false} TagFields(k: Key, h: HashBit)
    ensures Tag(k, h) / 0x8000_0000 == 1
    ensures Tag(k, h) / 0x80 % 0x100_0000 == k.vsid
    ensures Tag(k, h) / 0x40 % 2 == h
    ensures Tag(k, h) % 0x40 == k.page / 0x20
  {
    var w, api := Tag(k, h), k.page / 0x20;
    DivModUnique(w, 0x8000_0000, 1, k.vsid * 0x80 + h * 0x40 + api);
    DivModUnique(w, 0x80, 0x100_0000 + k.vsid, h * 0x40 + api);
    DivModUnique(0x100_0000 + k.vsid, 0x100_0000, 1, k.vsid);
    DivModUnique(w, 0x40, 0x200_0000 + 2 * k.vsid + h, api);
    DivModUnique(0x200_0000 + 2 * k.vsid + h, 2, 0x100_0000 + k.vsid, h);
  }

  lemma {:induction false} WordFromFields(w: uint32)
    ensures w == w / 0x8000_0000 * 0x8000_0000 + w / 0x80 % 0x100_0000 * 0x80 + w / 0x40 % 2 * 0x40 + w % 0x40
    ensures w / 0x8000_0000 < 2
  {
    var a := w / 0x40;
    var b := a / 2;
    DivModUnique(w, 0x80, b, a % 2 * 0x40 + w % 0x40);
    DivModUnique(w, 0x8000_0000, b / 0x100_0000, b % 0x100_0000 * 0x80 + a % 2 * 0x40 + w % 0x40);
  }

  /** A word passes the reader's four field tests exactly when it is the tag. */
  lemma {:induction false} FieldsMakeTag(w: uint32, k: Key, h: HashBit)
    ensures w == Tag(k, h) <==>
            w / 0x8000_0000 != 0 && w / 0x40 % 2 == h && w / 0x80 % 0x100_0000 == k.vsid && w % 0x40 == k.page / 0x20
  {
    TagFields(k, h);
    WordFromFields(w);
  }

  // ---- Entering a page changes the translation of that page alone

  lemma {:induction false} PutFrame(t: Table, g: nat, s: nat, pteh: uint32, ptel: uint32, g': nat, s': nat)
    requires HasGroup(t, g) && s < 8 && HasGroup(t, g') && s' < 8
    ensures |Put(t, g, s, pteh, ptel)| == |t|
    ensures Pteh(Put(t, g, s, pteh, ptel), g', s') == if g == g' && s == s' then pteh else Pteh(t, g', s')
    ensures Ptel(Put(t, g, s, pteh, ptel), g', s') == if g == g' && s == s' then ptel else Ptel(t, g', s')
  {
  }

  /** FirstMatch depends only on where the tag stands. */
  lemma {:induction false} FirstMatchCongruence(t: Table, t': Table, g: nat, tag: uint32, s: nat)
    requires HasGroup(t, g) && HasGroup(t', g) && s <= 8
    requires forall i :: 0 <= i < 8 ==> (Pteh(t, g, i) == tag <==> Pteh(t', g, i) == tag)
    ensures FirstMatch(t, g, tag, s) == FirstMatch(t', g, tag, s)
    decreases 8 - s
  {
    if s < 8 {
      FirstMatchCongruence(t, t', g, tag, s + 1);
    }
  }

  /** Writing an entry with another tag, over a slot that was free, is invisible in a group. */
  lemma {:induction false} PutElsewhere(t: Table, g: nat, s: nat, pteh: uint32, ptel: uint32, g': nat, tag: uint32)
    requires HasGroup(t, g) && s < 8 && HasGroup(t, g')
    requires Pteh(t, g, s) == 0 && tag != 0
    requires g != g' || tag != pteh
    ensures Find(Put(t, g, s, pteh, ptel), g', tag) == Find(t, g', tag)
  {
    var t' := Put(t, g, s, pteh, ptel);
    forall i | 0 <= i < 8
      ensures Pteh(t, g', i) == tag <==> Pteh(t', g', i) == tag
      ensures Pteh(t, g', i) == tag ==> Ptel(t, g', i) == Ptel(t', g', i)
    {
      PutFrame(t, g, s, pteh, ptel, g', i);
    }
    FirstMatchCongruence(t, t', g', tag, 0);
  }

  /** An entry written where its tag was missing is the one found. */
  lemma {:induction false} PutIsFound(t: Table, g: nat, s: nat, pteh: uint32, ptel: uint32)
    requires HasGroup(t, g) && s < 8
    requires Find(t, g, pteh).None?
    ensures Find(Put(t, g, s, pteh, ptel), g, pteh) == Some(Entry(pteh, ptel))
  {
    var t' := Put(t, g, s, pteh, ptel);
    forall i | 0 <= i < 8
      ensures Pteh(t', g, i) == pteh <==> i == s
    {
      PutFrame(t, g, s, pteh, ptel, g, i);
    }
    PutFrame(t, g, s, pteh, ptel, g, s);
  }

  /** Entering p under hash h leaves alone what is found for every other page or hash, whatever the
      table holds. */
  lemma {:induction false} InsertByHashOther(sdr1: uint32, t: Table, p: Page, h: HashBit, k: Key, h': HashBit)
    requires Fits(|t|, sdr1) && InsertByHash(sdr1, t, p, h).Some? && (k != p.key || h' != h)
    ensures FindByHash(sdr1, InsertByHash(sdr1, t, p, h).value, k, h') == FindByHash(sdr1, t, k, h')
  {
    var g, s := Home(sdr1, p.key, h), TopFree(t, Home(sdr1, p.key, h), 8 - 1);
    if Home(sdr1, k, h') == g && Tag(k, h') == Tag(p.key, h) {
      TagIdentifiesPage(sdr1, k, h', p.key, h);
      assert false;
    }
    PutElsewhere(t, g, s, Tag(p.key, h), p.ptel, Home(sdr1, k, h'), Tag(k, h'));
  }

  /** A run leaves the lookups of all pages alone that it does not enter, whatever the table holds. */
  lemma {:induction false} InsertAllKeepsOthers(sdr1: uint32, t: Table, pages: seq<Page>, k: Key, both: bool)
    requires Fits(|t|, sdr1) && forall i :: 0 <= i < |pages| ==> pages[i].key != k
    ensures Lookup(sdr1, InsertAll(sdr1, t, pages).table, k, both) == Lookup(sdr1, t, k, both)
    decreases |pages|
  {
    hide FindByHash, InsertByHash;
    if pages != [] && Insert(sdr1, t, pages[0]).Some? {
      var h := if InsertByHash(sdr1, t, pages[0], 0).Some? then 0 else 1;
      InsertByHashOther(sdr1, t, pages[0], h, k, 0);
      InsertByHashOther(sdr1, t, pages[0], h, k, 1);
      InsertAllKeepsOthers(sdr1, Insert(sdr1, t, pages[0]).value, pages[1..], k, both);
    }
  }

  /** Entering p under hash h changes what is found for p under h, and nothing else. */
  lemma {:induction false} InsertByHashEffect(sdr1: uint32, t: Table, p: Page, h: HashBit, k: Key, h': HashBit)
    requires Fits(|t|, sdr1)
    requires InsertByHash(sdr1, t, p, h).Some?
    requires FindByHash(sdr1, t, p.key, h).None?
    ensures FindByHash(sdr1, InsertByHash(sdr1, t, p, h).value, k, h')
            == if k == p.key && h' == h then Some(Entry(Tag(k, h), p.ptel)) else FindByHash(sdr1, t, k, h')
  {
    if k == p.key && h' == h {
      var g := Home(sdr1, p.key, h);
      PutIsFound(t, g, TopFree(t, g, 8 - 1), Tag(p.key, h), p.ptel);
    } else {
      InsertByHashOther(sdr1, t, p, h, k, h');
    }
  }

  /** Entering an untranslated page is a finite-map update of the translation. */
  lemma {:induction false} InsertRefinesUpdate(sdr1: uint32, t: Table, p: Page, k: Key)
    requires Fits(|t|, sdr1)
    requires Insert(sdr1, t, p).Some?
    requires Translate(sdr1, t, p.key).None?
    ensures Translate(sdr1, Insert(sdr1, t, p).value, k)
            == if k == p.key then Some(p.ptel) else Translate(sdr1, t, k)
  {
    var h := if InsertByHash(sdr1, t, p, 0).Some? then 0 else 1;
    InsertByHashEffect(sdr1, t, p, h, k, 0);
    InsertByHashEffect(sdr1, t, p, h, k, 1);
  }

  predicate DistinctKeys(pages: seq<Page>) {
    forall i, j :: 0 <= i < j < |pages| ==> pages[i].key != pages[j].key
  }

  predicate AllMissing(sdr1: uint32, t: Table, pages: seq<Page>)
    requires Fits(|t|, sdr1)
  {
    forall i :: 0 <= i < |pages| ==> Translate(sdr1, t, pages[i].key).None?
  }

  /** The translation that k has among the given pages. */
  function Assigned(pages: seq<Page>, k: Key): (r: Option<uint32>)
    ensures r.Some? <==> exists i :: 0 <= i < |pages| && pages[i].key == k
  {
    if pages == [] then None
    else if pages[0].key == k then Some(pages[0].ptel)
    else
      assert forall i :: 1 <= i < |pages| ==> pages[i].key == pages[1..][i - 1].key;
      Assigned(pages[1..], k)
  }

  lemma {:induction false} AssignedAt(pages: seq<Page>, i: nat)
    requires DistinctKeys(pages) && i < |pages|
    ensures Assigned(pages, pages[i].key) == Some(pages[i].ptel)
  {
    if i > 0 {
      AssignedAt(pages[1..], i - 1);
    }
  }

  /** What the first insertion leaves for the others. */
  lemma {:induction false} InsertKeepsMissing(sdr1: uint32, t: Table, pages: seq<Page>)
    requires Fits(|t|, sdr1) && pages != []
    requires DistinctKeys(pages) && AllMissing(sdr1, t, pages)
    requires Insert(sdr1, t, pages[0]).Some?
    ensures AllMissing(sdr1, Insert(sdr1, t, pages[0]).value, pages[1..])
    ensures DistinctKeys(pages[1..])
  {
    var t1 := Insert(sdr1, t, pages[0]).value;
    forall i | 0 <= i < |pages[1..]|
      ensures Translate(sdr1, t1, pages[1..][i].key).None?
    {
      InsertRefinesUpdate(sdr1, t, pages[0], pages[i + 1].key);
    }
  }

  /** Entering untranslated, distinct pages one after another: whether or not all of them
      find a slot, exactly a prefix of them becomes translated and no other page changes. */
  lemma {:induction false} InsertAllRefinesUpdate(sdr1: uint32, t: Table, pages: seq<Page>, k: Key)
    requires Fits(|t|, sdr1)
    requires DistinctKeys(pages) && AllMissing(sdr1, t, pages)
    ensures var o := InsertAll(sdr1, t, pages);
            var a := Assigned(pages[..o.count], k);
            Translate(sdr1, o.table, k) == if a.Some? then a else Translate(sdr1, t, k)
    decreases |pages|
  {
    hide InsertAll, Insert, Translate, AllMissing, Assigned;
    AssignedNone(pages, k);
    if pages == [] {
      InsertNone(sdr1, t);
    } else {
      InsertAllStep(sdr1, t, pages);
      match Insert(sdr1, t, pages[0])
      case None =>
      case Some(t1) =>
        InsertKeepsMissing(sdr1, t, pages);
        InsertAllRefinesUpdate(sdr1, t1, pages[1..], k);
        FirstMissing(sdr1, t, pages);
        InsertRefinesUpdate(sdr1, t, pages[0], k);
        AssignedPrefix(pages, InsertAll(sdr1, t1, pages[1..]).count, k);
    }
  }

  lemma {:induction false} FirstMissing(sdr1: uint32, t: Table, pages: seq<Page>)
    requires Fits(|t|, sdr1) && pages != [] && AllMissing(sdr1, t, pages)
    ensures Translate(sdr1, t, pages[0].key).None?
  {
  }

  lemma {:induction false} AssignedNone(pages: seq<Page>, k: Key)
    ensures pages[..0] == [] && Assigned([], k).None?
  {
  }

  lemma {:induction false} AssignedPrefix(pages: seq<Page>, n: nat, k: Key)
    requires n < |pages| && DistinctKeys(pages)
    ensures Assigned(pages[..n + 1], k)
            == if pages[0].key == k then Some(pages[0].ptel) else Assigned(pages[1..][..n], k)
    ensures pages[0].key == k ==> Assigned(pages[1..][..n], k).None?
  {
    assert pages[..n + 1][1..] == pages[1..][..n];
  }
}
