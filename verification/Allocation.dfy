/** Routing of allocations to the heaps of the mapped regions and back.  The heaps themselves
    belong to a library that is not part of this model; what it answers is a parameter, bound
    by a contract. */
module Allocation {
  import opened Words
  import opened Layout
  import opened Shipped

  // ---- The requested size

  type int32 = x: int | -0x8000_0000 <= x < 0x8000_0000

  /** The alignment as an unsigned word: |align|. */
  function Magnitude(align: int32): uint32 {
    if align > 0 then align else Wrap(-(align as int))
  }

  /** The size asked for: (size + a - 1) & ~(a - 1) for a = |align|. */
  function AllocSize(size: uint32, align: int32): uint32 {
    var a := Magnitude(align);
    BitAnd(Wrap(size + a - 1), BitNot(Wrap(a - 1)))
  }

  /** r is the least multiple of a that is not below size. */
  predicate LeastMultiple(r: nat, a: nat, size: nat)
    requires a > 0
  {
    r % a == 0 && size <= r < size + a
  }

  /** For an alignment of 2^k the requested size is the rounded-up size exactly when the rounding
      does not overflow 32 bits; otherwise nothing is requested. */
  lemma {:induction false} AllocSizeRoundsUp(size: uint32, align: int32, k: nat)
    requires k <= 31 && (align == Pow2(k) || align == -(Pow2(k) as int))
    ensures LeastMultiple(AllocSize(size, align), Pow2(k), size) <==> size + Pow2(k) - 1 < 0x1_0000_0000
    ensures size + Pow2(k) - 1 >= 0x1_0000_0000 ==> AllocSize(size, align) == 0
  {
    hide BitAnd, Pow2, LeastMultiple, AllocSize, Wrap, Magnitude;
    MagnitudeIsAbsolute(align);
    var a: uint32 := Magnitude(align);
    AllocSizeClears(size, align, k);
    if size + a - 1 < 0x1_0000_0000 {
      WrapSmall(size + a - 1);
      RoundedUp(size, a);
    } else {
      Overflow(size, a);
    }
  }

  lemma {:induction false} AllocSizeClears(size: uint32, align: int32, k: nat)
    requires k <= 31 && Magnitude(align) == Pow2(k)
    ensures var x := Wrap(size + Magnitude(align) - 1); AllocSize(size, align) == x - x % Magnitude(align)
  {
    hide BitAnd, Magnitude, Pow2;
    var a: uint32 := Magnitude(align);
    Pow2Values();
    AndWithHighOnes(Wrap(size + a - 1), 32, k, a, BitNot(Wrap(a - 1)));
  }

  lemma {:induction false} Overflow(size: uint32, a: uint32)
    requires a > 0 && size + a - 1 >= 0x1_0000_0000
    ensures var x := Wrap(size + a - 1); x - x % a == 0
    ensures !LeastMultiple(0, a, size)
  {
    var x := Wrap(size + a - 1);
    assert x < a;
    DivModUnique(x, a, 0, x);
  }

  lemma {:induction false} RoundedUp(size: nat, a: nat)
    requires a > 0
    ensures var x := size + a - 1; LeastMultiple(x - x % a, a, size)
  {
    var x := size + a - 1;
    var q := x / a;
    assert x == a * q + x % a;
    DivModUnique(a * q, a, q, 0);
  }

  /** For any alignment the mask clears in size + |align| - 1 the bits that |align| - 1 has. */
  lemma {:induction false} AllocSizeClearsBits(size: uint32, align: int32)
    ensures var a := if align < 0 then -(align as int) else align;
            var x := (size + a - 1) % 0x1_0000_0000;
            AllocSize(size, align) + BitAnd(x, (a - 1) % 0x1_0000_0000) == x
  {
    hide BitAnd, Pow2, AllocSize, Magnitude;
    MagnitudeIsAbsolute(align);
    AllocSizeMasks(size, align);
    var a: uint32 := Magnitude(align);
    Pow2Values();
    AndSplits(Wrap(size + a - 1), Wrap(a - 1), 32, 0x1_0000_0000);
  }

  /** A negative alignment counts as its absolute value, also the most negative one. */
  lemma {:induction false} MagnitudeIsAbsolute(align: int32)
    ensures Magnitude(align) == if align < 0 then -(align as int) else align
  {
    hide Wrap;
    if align <= 0 {
      WrapSmall(-(align as int));
    }
  }

  lemma {:induction false} AllocSizeMasks(size: uint32, align: int32)
    ensures var a := Magnitude(align); AllocSize(size, align) == BitAnd(Wrap(size + a - 1), 0xFFFF_FFFF - Wrap(a - 1))
  {
    hide BitAnd, Magnitude, Wrap;
  }

  /** With alignment 0 the mask is empty: nothing is requested, whatever the size. */
  lemma {:induction false} AlignZeroRequestsNothing(size: uint32)
    ensures AllocSize(size, 0) == 0
  {
    assert BitNot(Wrap(0 - 1)) == 0;
  }

  // ---- The heaps

  /** A live block: the heap that produced it, by the start of its region, and its size. */
  datatype Live = Live(heap: uint32, size: uint32)

  const MEMORY_START_VIDEO: uint32 := 0x8800_0000
  const MEMORY_END_VIDEO: uint32 := 0x88E6_0000

  predicate Apart(p: uint32, size: uint32, q: uint32, size': uint32) {
    p != q && (p + size <= q || q + size' <= p)
  }

  /** A block of the region: strictly behind its start, ending inside it. */
  predicate BlockIn(r: Region, p: uint32, size: uint32) {
    r.eaStart < p < r.eaEnd && p + size <= r.eaEnd
  }

  /** The library's contract: it refuses, or answers a block inside the heap that is disjoint from
      the live blocks of the heap. */
  predicate Honest(live: map<uint32, Live>, r: Region, size: uint32, answer: uint32) {
    answer != 0 ==>
      && BlockIn(r, answer, size)
      && forall q :: q in live && live[q].heap == r.eaStart ==> Apart(answer, size, q, live[q].size)
  }

  /** Region i is asked by an allocation. */
  predicate Eligible(m: Mapping, i: nat, videoOnly: bool)
    requires i < |m|
  {
    videoOnly ==> MEMORY_START_VIDEO <= m[i].eaStart <= MEMORY_END_VIDEO
  }

  /** A video allocation asks the regions that start inside video memory, both ends included. */
  lemma {:induction false} EligibleForVideo(m: Mapping, i: nat)
    requires i < |m|
    ensures Eligible(m, i, false)
    ensures Eligible(m, i, true) <==> 0x8800_0000 <= m[i].eaStart <= 0x88E6_0000
  {
  }

  /** The first region from i on that is asked and does not refuse, or the terminator. */
  function FirstGranting(m: Mapping, videoOnly: bool, answers: seq<uint32>, i: nat): (r: nat)
    requires Terminated(m) && |answers| == Regions(m) && i <= Regions(m)
    ensures i <= r <= Regions(m)
    ensures r < Regions(m) ==> Eligible(m, r, videoOnly) && answers[r] != 0
    ensures forall k :: i <= k < r ==> Eligible(m, k, videoOnly) ==> answers[k] == 0
    decreases Regions(m) - i
  {
    if i == Regions(m) || (Eligible(m, i, videoOnly) && answers[i] != 0) then i
    else FirstGranting(m, videoOnly, answers, i + 1)
  }

  /** Region i belongs to the heap that produced p, and p lies in it. */
  predicate Owns(m: Mapping, live: map<uint32, Live>, i: nat, p: uint32)
    requires i < |m|
  {
    p in live && live[p].heap == m[i].eaStart && BlockIn(m[i], p, live[p].size)
  }

  /** Every live block lies in the region of the heap that produced it, and no two overlap. */
  ghost predicate ValidBlocks(m: Mapping, live: map<uint32, Live>) {
    && WellFormed(m)
    && (forall p :: p in live ==> exists i :: 0 <= i < Regions(m) && Owns(m, live, i, p))
    && forall p, q :: p in live && q in live && p != q ==> Apart(p, live[p].size, q, live[q].size)
  }

  lemma {:induction false} RegionsApart(m: Mapping, i: nat, i': nat)
    requires WellFormed(m) && i < Regions(m) && i' < Regions(m) && i != i'
    ensures Disjoint(m[i].eaStart, m[i].eaEnd, m[i'].eaStart, m[i'].eaEnd)
  {
  }

  /** The region a live block lies in is that of the heap that produced it, and the only one. */
  lemma {:induction false} OwnerIsUnique(m: Mapping, live: map<uint32, Live>, i: nat, p: uint32)
    requires ValidBlocks(m, live) && i < Regions(m) && m[i].eaStart < p < m[i].eaEnd
    ensures p in live ==> Owns(m, live, i, p)
  {
    if p in live {
      var i' :| 0 <= i' < Regions(m) && Owns(m, live, i', p);
      if i != i' {
        RegionsApart(m, i, i');
      }
    }
  }

  /** Every live block lies in exactly one region, that of its heap. */
  lemma {:induction false} LiveBlockHasOneRegion(m: Mapping, live: map<uint32, Live>, p: uint32)
    requires ValidBlocks(m, live) && p in live
    ensures exists i :: 0 <= i < Regions(m) && Owns(m, live, i, p)
    ensures forall i, i' :: 0 <= i < Regions(m) && 0 <= i' < Regions(m) && InRegion(m[i], p) && InRegion(m[i'], p)
              ==> i == i'
  {
    forall i, i' | 0 <= i < Regions(m) && 0 <= i' < Regions(m) && InRegion(m[i], p) && InRegion(m[i'], p)
      ensures i == i'
    {
      if i != i' {
        RegionsApart(m, i, i');
      }
    }
  }

  /** An address strictly inside no region is not live. */
  lemma {:induction false} NotLive(m: Mapping, live: map<uint32, Live>, p: uint32)
    requires ValidBlocks(m, live)
    requires p == 0 || forall i :: 0 <= i < Regions(m) ==> !(m[i].eaStart < p < m[i].eaEnd)
    ensures p !in live && live - {p} == live
  {
    forall i | 0 <= i < Regions(m)
      ensures !Owns(m, live, i, p)
    {
    }
  }

  lemma {:induction false} ValidIsTerminated(m: Mapping, live: map<uint32, Live>)
    requires ValidBlocks(m, live)
    ensures Terminated(m)
  {
  }

  lemma {:induction false} LastIsTerminator(m: Mapping)
    requires Terminated(m)
    ensures |m| > 0 && m[|m| - 1].physical.None?
    ensures forall i :: 0 <= i < |m| - 1 ==> m[i].physical.Some?
  {
  }

  lemma {:induction false} RemovalValid(m: Mapping, live: map<uint32, Live>, p: uint32)
    requires ValidBlocks(m, live)
    ensures ValidBlocks(m, live - {p})
  {
    hide WellFormed, Apart, BlockIn;
    IsTerminated(m);
    var live' := live - {p};
    forall q | q in live'
      ensures exists i :: 0 <= i < Regions(m) && Owns(m, live', i, q)
    {
      var i :| 0 <= i < Regions(m) && Owns(m, live, i, q);
      assert Owns(m, live', i, q);
    }
  }

  lemma {:induction false} OtherRegionApart(m: Mapping, live: map<uint32, Live>, i: nat, p: uint32, size: uint32,
                                            q: uint32)
    requires ValidBlocks(m, live) && i < Regions(m) && q in live
    requires BlockIn(m[i], p, size) && (live[q].heap == m[i].eaStart ==> Apart(p, size, q, live[q].size))
    ensures Apart(p, size, q, live[q].size) && Apart(q, live[q].size, p, size)
  {
    var i' :| 0 <= i' < Regions(m) && Owns(m, live, i', q);
    if i != i' {
      RegionsApart(m, i, i');
    }
  }

  /** A block granted by one heap is disjoint from the live blocks of all heaps. */
  lemma {:induction false} GrantedBlockApart(m: Mapping, live: map<uint32, Live>, i: nat, p: uint32, size: uint32)
    requires ValidBlocks(m, live) && i < Regions(m) && p != 0 && Honest(live, m[i], size, p)
    ensures p !in live
    ensures ValidBlocks(m, live[p := Live(m[i].eaStart, size)])
  {
    hide WellFormed, BlockIn;
    IsTerminated(m);
    forall q | q in live
      ensures Apart(p, size, q, live[q].size) && Apart(q, live[q].size, p, size)
    {
      OtherRegionApart(m, live, i, p, size, q);
    }
    var live' := live[p := Live(m[i].eaStart, size)];
    assert Owns(m, live', i, p);
    forall q | q in live && q != p
      ensures exists i' :: 0 <= i' < Regions(m) && Owns(m, live', i', q)
    {
      var i' :| 0 <= i' < Regions(m) && Owns(m, live, i', q);
      assert Owns(m, live', i', q);
    }
  }

  /** p lies strictly inside a region. */
  predicate InSomeRegion(m: Mapping, p: uint32)
    requires Terminated(m)
  {
    exists i :: 0 <= i < Regions(m) && m[i].eaStart < p < m[i].eaEnd
  }

  lemma {:induction false} AnswerInRegion(m: Mapping, live: map<uint32, Live>, size: uint32, videoOnly: bool,
      answers: seq<uint32>)
    requires Terminated(m) && |answers| == Regions(m)
    requires forall i :: 0 <= i < Regions(m) ==> Honest(live, m[i], size, answers[i])
    ensures var i := FirstGranting(m, videoOnly, answers, 0);
            && (i < Regions(m) ==> m[i].eaStart < answers[i] < m[i].eaEnd && InSomeRegion(m, answers[i]))
            && (i == Regions(m) ==> forall k :: 0 <= k < Regions(m) ==> Eligible(m, k, videoOnly) ==> answers[k] == 0)
  {
    hide Terminated;
    var i := FirstGranting(m, videoOnly, answers, 0);
    if i < Regions(m) {
      assert Honest(live, m[i], size, answers[i]);
    }
  }

  // ---- The shipped regions

  /** In the shipped layout exactly the video region is asked for video memory. */
  lemma {:induction false} VideoAllocationsAreVideo(i: nat)
    requires Terminated(MemMapping()) && i < Regions(MemMapping())
    ensures Eligible(MemMapping(), i, true)
            <==> MemMapping()[i] == OneChunk(MEMORY_START_VIDEO, MEMORY_END_VIDEO, VIDEO)
  {
  }

  /** So a video allocation is answered by the video heap, with a block inside video memory. */
  lemma {:induction false} VideoAnswer(live: map<uint32, Live>, size: uint32, answers: seq<uint32>)
    requires Terminated(MemMapping()) && |answers| == Regions(MemMapping())
    requires forall i :: 0 <= i < Regions(MemMapping()) ==> Honest(live, MemMapping()[i], size, answers[i])
    ensures Regions(MemMapping()) == 5
    ensures var i := FirstGranting(MemMapping(), true, answers, 0);
            if i == 5 then answers[4] == 0
            else i == 4 && MEMORY_START_VIDEO < answers[4] < MEMORY_END_VIDEO
  {
    hide Honest;
    var m := MemMapping();
    var i := FirstGranting(m, true, answers, 0);
    AnswerInRegion(m, live, size, true, answers);
    VideoAllocationsAreVideo(4);
    if i < 5 {
      VideoAllocationsAreVideo(i);
    }
  }

  class Heaps {
    const m: Mapping
    var live: map<uint32, Live>

    constructor (m: Mapping)
      requires WellFormed(m)
      ensures this.m == m && Valid() && live == map[]
    {
      this.m := m;
      live := map[];
    }

    ghost predicate Valid()
      reads this
    {
      ValidBlocks(m, live)
    }

    /** allocEx: ask the eligible heaps in order.  answers[i] is what heap i would answer. */
    method AllocEx(size: uint32, align: int32, videoOnly: bool, answers: seq<uint32>) returns (res: uint32)
      requires Valid() && |answers| == Regions(m)
      requires forall i :: 0 <= i < Regions(m) ==> Honest(live, m[i], AllocSize(size, align), answers[i])
      modifies this`live
      ensures Valid()
      ensures var i := FirstGranting(m, videoOnly, answers, 0);
              if i == Regions(m) then res == 0 && live == old(live)
              else res == answers[i] && res !in old(live)
                   && live == old(live)[res := Live(m[i].eaStart, AllocSize(size, align))]
    {
      hide ValidBlocks, Honest, Terminated, BitAnd;
      ValidIsTerminated(m, live);
      res := 0;
      var i := 0;
      while m[i].physical.Some?
        invariant 0 <= i <= Regions(m) && res == 0 && live == old(live)
        invariant FirstGranting(m, videoOnly, answers, 0) == FirstGranting(m, videoOnly, answers, i)
        decreases Regions(m) - i
      {
        LastIsTerminator(m);
        var effectiveAddress := m[i].eaStart;
        if videoOnly && (effectiveAddress < MEMORY_START_VIDEO || effectiveAddress > MEMORY_END_VIDEO) {
          i := i + 1;
          continue;
        }
        var allocSize: uint32;
        if align > 0 {
          allocSize := BitAnd(Wrap(size + align - 1), BitNot(Wrap(align - 1)));
        } else {
          var alignAbs: uint32 := Wrap(-(align as int));
          allocSize := BitAnd(Wrap(size + alignAbs - 1), BitNot(Wrap(alignAbs - 1)));
        }
        res := answers[i];
        if res != 0 {
          GrantedBlockApart(m, live, i, res, allocSize);
          live := live[res := Live(effectiveAddress, allocSize)];
          return;
        }
        i := i + 1;
      }
      LastIsTerminator(m);
    }

    /** alloc: any heap may answer. */
    method Alloc(size: uint32, align: int32, answers: seq<uint32>) returns (res: uint32)
      requires Valid() && |answers| == Regions(m)
      requires forall i :: 0 <= i < Regions(m) ==> Honest(live, m[i], AllocSize(size, align), answers[i])
      modifies this`live
      ensures Valid()
      ensures res == 0 ==> live == old(live) && forall i :: 0 <= i < Regions(m) ==> answers[i] == 0
      ensures res != 0 ==> res in live && old(live) == live - {res} && InSomeRegion(m, res)
    {
      hide AllocSize, Honest, ValidBlocks;
      ValidIsTerminated(m, live);
      res := AllocEx(size, align, false, answers);
      AnswerInRegion(m, old(live), AllocSize(size, align), false, answers);
    }

    /** allocVideoMemory: with the shipped layout the answer is that of the video heap, a block
        inside video memory or a refusal. */
    method AllocVideoMemory(size: uint32, align: int32, answers: seq<uint32>) returns (res: uint32)
      requires Valid() && |answers| == Regions(m)
      requires forall i :: 0 <= i < Regions(m) ==> Honest(live, m[i], AllocSize(size, align), answers[i])
      modifies this`live
      ensures Valid()
      ensures res == 0 ==> live == old(live)
      ensures res != 0 ==> res in live && old(live) == live - {res}
      ensures m == MemMapping() ==> res == answers[4]
      ensures m == MemMapping() && res != 0 ==> MEMORY_START_VIDEO < res < MEMORY_END_VIDEO
    {
      hide AllocSize, Honest, ValidBlocks;
      ValidIsTerminated(m, live);
      res := AllocEx(size, align, true, answers);
      if m == MemMapping() {
        VideoAnswer(old(live), AllocSize(size, align), answers);
      }
    }

    /** free: return the block to the heap of the region it lies in. */
    method Free(ptr: uint32)
      requires Valid()
      modifies this`live
      ensures Valid()
      ensures live == old(live) - {ptr}
    {
      hide ValidBlocks, Terminated;
      ValidIsTerminated(m, live);
      RemovalValid(m, live, ptr);
      if ptr == 0 {
        NotLive(m, live, ptr);
        return;
      }
      var i := 0;
      while m[i].physical.Some?
        invariant 0 <= i <= Regions(m) && live == old(live)
        invariant forall k :: 0 <= k < i ==> !(m[k].eaStart < ptr < m[k].eaEnd)
        decreases Regions(m) - i
      {
        LastIsTerminator(m);
        if ptr > m[i].eaStart && ptr < m[i].eaEnd {
          OwnerIsUnique(m, live, i, ptr);
          FreeToExpHeap(m[i].eaStart, ptr);
          return;
        }
        i := i + 1;
      }
      LastIsTerminator(m);
      NotLive(m, live, ptr);
    }

    /** The library's free: a heap releases a block only if it produced it. */
    method FreeToExpHeap(heap: uint32, ptr: uint32)
      modifies this`live
      ensures live == if ptr in old(live) && old(live)[ptr].heap == heap then old(live) - {ptr} else old(live)
    {
      if ptr in live && live[ptr].heap == heap {
        live := live - {ptr};
      }
    }
  }
}
