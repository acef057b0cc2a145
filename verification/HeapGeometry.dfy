/** What the consistency check accepts, in terms of the bytes that the blocks occupy. */
module HeapGeometry {
  import opened Words
  import opened HeapCheck

  /** The k-th block of a path, or null before its start and behind its end. */
  function At(path: seq<uint32>, k: int): uint32 {
    if 0 <= k < |path| then path[k] else 0
  }

  /** path is a null-terminated doubly linked list from head to tail. */
  predicate DoublyLinked(mem: Memory, head: uint32, tail: uint32, path: seq<uint32>) {
    && head == At(path, 0) && tail == At(path, |path| - 1)
    && forall k :: 0 <= k < |path| ==>
         path[k] != 0 && mem(path[k]).prev == At(path, k - 1) && mem(path[k]).next == At(path, k + 1)
  }

  lemma {:induction false} DoublyLinkedIsLinked(mem: Memory, list: BlockList, path: seq<uint32>)
    ensures DoublyLinked(mem, list.head, list.tail, path)
            <==> Linked(mem, list, path) && Cursor(mem, list, path) == 0 && Last(path) == list.tail
  {
    hide Linked, DoublyLinked;
    if Linked(mem, list, path) && Cursor(mem, list, path) == 0 && Last(path) == list.tail {
      LinkedIsDoubly(mem, list, path);
    }
    if DoublyLinked(mem, list.head, list.tail, path) {
      DoublyIsLinked(mem, list, path);
    }
  }

  lemma {:induction false} PrefixEnds(mem: Memory, list: BlockList, path: seq<uint32>, k: nat)
    requires k <= |path|
    ensures Last(path[..k]) == At(path, k - 1)
    ensures Cursor(mem, list, path[..k]) == if k == 0 then list.head else mem(path[k - 1]).next
  {
  }

  lemma {:induction false} DoublyIsLinked(mem: Memory, list: BlockList, path: seq<uint32>)
    requires DoublyLinked(mem, list.head, list.tail, path)
    ensures Linked(mem, list, path) && Cursor(mem, list, path) == 0 && Last(path) == list.tail
  {
    hide Last, Cursor;
    forall k | 0 <= k < |path|
      ensures path[k] != 0 && path[k] == Cursor(mem, list, path[..k]) && mem(path[k]).prev == Last(path[..k])
    {
      PrefixEnds(mem, list, path, k);
      assert k > 0 ==> mem(path[k - 1]).next == At(path, k);
    }
    PrefixEnds(mem, list, path, |path|);
    assert path[..|path|] == path;
  }

  lemma {:induction false} LinkedIsDoubly(mem: Memory, list: BlockList, path: seq<uint32>)
    requires Linked(mem, list, path) && Cursor(mem, list, path) == 0 && Last(path) == list.tail
    ensures DoublyLinked(mem, list.head, list.tail, path)
  {
    hide Last, Cursor;
    forall k | 0 <= k < |path|
      ensures path[k] != 0 && mem(path[k]).prev == At(path, k - 1) && mem(path[k]).next == At(path, k + 1)
    {
      PrefixEnds(mem, list, path, k);
      PrefixEnds(mem, list, path, k + 1);
      assert path[..|path|] == path;
    }
    PrefixEnds(mem, list, path, 0);
    PrefixEnds(mem, list, path, |path|);
    assert path[..|path|] == path;
  }

  /** The bytes of a block: alignment padding, header and data. */
  function BlockStart(mem: Memory, cur: uint32): int {
    cur - mem(cur).attribs / 0x100 % 0x80_0000
  }

  function BlockEnd(heap: Heap, mem: Memory, cur: uint32): int {
    cur + heap.headerSize + mem(cur).blockSize
  }

  /** The blocks carry the tag and lie in the data area. */
  predicate BlocksInside(heap: Heap, mem: Memory, path: seq<uint32>, tag: nat) {
    forall k :: 0 <= k < |path| ==>
      && mem(path[k]).tag == tag
      && heap.dataStart <= BlockStart(mem, path[k]) && BlockEnd(heap, mem, path[k]) <= heap.dataEnd
  }

  /** No two of the blocks share a byte. */
  predicate BlocksApart(heap: Heap, mem: Memory, path: seq<uint32>) {
    forall i, j :: 0 <= i < j < |path| ==>
      || BlockEnd(heap, mem, path[i]) <= BlockStart(mem, path[j])
      || BlockEnd(heap, mem, path[j]) <= BlockStart(mem, path[i])
  }

  /** The byte at x belongs to one of the blocks. */
  predicate Occupied(heap: Heap, mem: Memory, path: seq<uint32>, x: int) {
    exists k :: 0 <= k < |path| && BlockStart(mem, path[k]) <= x < BlockEnd(heap, mem, path[k])
  }

  /** Every byte of the data area belongs to one of the blocks. */
  predicate NoByteLeft(heap: Heap, mem: Memory, path: seq<uint32>) {
    heap.dataStart <= heap.dataEnd
    && forall x: int :: heap.dataStart <= x < heap.dataEnd ==> Occupied(heap, mem, path, x)
  }

  // ---- Counting bytes

  /** The bytes from a up to b. */
  function Span(a: int, b: int): (s: set<int>)
    ensures forall x :: x in s <==> a <= x < b
    decreases b - a
  {
    if a < b then Span(a, b - 1) + {b - 1} else {}
  }

  lemma {:induction false} DisjointUnion(a: set<int>, b: set<int>)
    requires a !! b
    ensures |a + b| == |a| + |b|
  {
  }

  lemma {:induction false} SpanSize(a: int, b: int)
    requires a <= b
    ensures |Span(a, b)| == b - a
    decreases b - a
  {
    if a < b {
      SpanSize(a, b - 1);
      DisjointUnion(Span(a, b - 1), {b - 1});
    }
  }

  function BytesOf(heap: Heap, mem: Memory, path: seq<uint32>): set<int> {
    if path == [] then {}
    else
      var last := path[|path| - 1];
      BytesOf(heap, mem, path[..|path| - 1]) + Span(BlockStart(mem, last), BlockEnd(heap, mem, last))
  }

  lemma {:induction false} BytesAreOccupied(heap: Heap, mem: Memory, path: seq<uint32>, x: int)
    ensures x in BytesOf(heap, mem, path) <==> Occupied(heap, mem, path, x)
    decreases |path|
  {
    hide BlockStart, BlockEnd;
    if path != [] {
      var n := |path| - 1;
      BytesAreOccupied(heap, mem, path[..n], x);
      assert forall k :: 0 <= k < n ==> path[..n][k] == path[k];
      if Occupied(heap, mem, path, x) && !Occupied(heap, mem, path[..n], x) {
        var k :| 0 <= k < |path| && BlockStart(mem, path[k]) <= x < BlockEnd(heap, mem, path[k]);
        assert k == n;
      }
    }
  }

  lemma {:induction false} LastBlockApart(heap: Heap, mem: Memory, path: seq<uint32>)
    requires path != [] && BlocksApart(heap, mem, path)
    ensures var n := |path| - 1;
            && BlocksApart(heap, mem, path[..n])
            && BytesOf(heap, mem, path[..n]) !! Span(BlockStart(mem, path[n]), BlockEnd(heap, mem, path[n]))
  {
    hide BytesOf, Span, BlockStart, BlockEnd;
    var n := |path| - 1;
    assert forall k :: 0 <= k < n ==> path[..n][k] == path[k];
    forall x | x in BytesOf(heap, mem, path[..n])
      ensures x !in Span(BlockStart(mem, path[n]), BlockEnd(heap, mem, path[n]))
    {
      BytesAreOccupied(heap, mem, path[..n], x);
      var k :| 0 <= k < n && BlockStart(mem, path[k]) <= x < BlockEnd(heap, mem, path[k]);
      assert BlockEnd(heap, mem, path[k]) <= BlockStart(mem, path[n])
             || BlockEnd(heap, mem, path[n]) <= BlockStart(mem, path[k]);
    }
  }

  /** Blocks that share no byte occupy as many bytes as the checker adds up for them. */
  lemma {:induction false} BytesCounted(heap: Heap, mem: Memory, path: seq<uint32>)
    requires BlocksApart(heap, mem, path)
    ensures |BytesOf(heap, mem, path)| == TotalFootprint(heap, mem, path)
    decreases |path|
  {
    hide Span, BlocksApart;
    if path != [] {
      var n := |path| - 1;
      LastBlockApart(heap, mem, path);
      BytesCounted(heap, mem, path[..n]);
      SpanSize(BlockStart(mem, path[n]), BlockEnd(heap, mem, path[n]));
      DisjointUnion(BytesOf(heap, mem, path[..n]), Span(BlockStart(mem, path[n]), BlockEnd(heap, mem, path[n])));
    }
  }

  lemma {:induction false} FootprintAppend(heap: Heap, mem: Memory, a: seq<uint32>, b: seq<uint32>)
    ensures TotalFootprint(heap, mem, a + b) == TotalFootprint(heap, mem, a) + TotalFootprint(heap, mem, b)
    decreases |b|
  {
    if b == [] {
      assert a + b == a;
    } else {
      assert (a + b)[..|a + b| - 1] == a + b[..|b| - 1];
      FootprintAppend(heap, mem, a, b[..|b| - 1]);
    }
  }

  lemma {:induction false} SubsetOfSameSize(a: set<int>, b: set<int>)
    requires a <= b
    ensures |a| <= |b| && (|a| == |b| <==> a == b)
  {
    assert b == a + (b - a);
    DisjointUnion(a, b - a);
    if |b - a| == 0 {
      assert b - a == {};
    }
  }

  predicate AllInside(heap: Heap, mem: Memory, path: seq<uint32>) {
    forall k :: 0 <= k < |path| ==>
      heap.dataStart <= BlockStart(mem, path[k]) && BlockEnd(heap, mem, path[k]) <= heap.dataEnd
  }

  lemma {:induction false} OccupiedInside(heap: Heap, mem: Memory, path: seq<uint32>)
    requires AllInside(heap, mem, path)
    ensures BytesOf(heap, mem, path) <= Span(heap.dataStart, heap.dataEnd)
  {
    hide BytesOf;
    forall x | x in BytesOf(heap, mem, path)
      ensures heap.dataStart <= x < heap.dataEnd
    {
      BytesAreOccupied(heap, mem, path, x);
    }
  }

  lemma {:induction false} NoBytes(heap: Heap, mem: Memory, path: seq<uint32>)
    requires AllInside(heap, mem, path) && heap.dataEnd < heap.dataStart
    ensures path == []
  {
    assert path != [] ==> BlockStart(mem, path[0]) <= BlockEnd(heap, mem, path[0]);
  }

  lemma {:induction false} NoByteLeftIsCover(heap: Heap, mem: Memory, path: seq<uint32>)
    requires heap.dataStart <= heap.dataEnd
    ensures NoByteLeft(heap, mem, path) <==> Span(heap.dataStart, heap.dataEnd) <= BytesOf(heap, mem, path)
  {
    hide BytesOf, Occupied;
    forall x: int
      ensures x in BytesOf(heap, mem, path) <==> Occupied(heap, mem, path, x)
    {
      BytesAreOccupied(heap, mem, path, x);
    }
  }

  /** Disjoint blocks inside the data area fill it exactly if their bytes add up to its size. */
  lemma {:induction false} FilledIffSumFits(heap: Heap, mem: Memory, path: seq<uint32>)
    requires AllInside(heap, mem, path) && BlocksApart(heap, mem, path)
    ensures NoByteLeft(heap, mem, path)
            <==> Wrap(TotalFootprint(heap, mem, path)) == Wrap(heap.dataEnd - heap.dataStart)
  {
    if heap.dataEnd < heap.dataStart {
      NoBytes(heap, mem, path);
      NoFootprint(heap, mem);
    } else {
      hide BytesOf, BlocksApart, AllInside, TotalFootprint, NoByteLeft, Span, Wrap;
      BytesCounted(heap, mem, path);
      SpanSize(heap.dataStart, heap.dataEnd);
      OccupiedInside(heap, mem, path);
      SubsetOfSameSize(BytesOf(heap, mem, path), Span(heap.dataStart, heap.dataEnd));
      WrapSmall(heap.dataEnd - heap.dataStart);
      WrapSmall(TotalFootprint(heap, mem, path));
      NoByteLeftIsCover(heap, mem, path);
    }
  }

  lemma {:induction false} NoFootprint(heap: Heap, mem: Memory)
    ensures TotalFootprint(heap, mem, []) == 0
  {
  }

  lemma {:induction false} InsideBoth(heap: Heap, mem: Memory, used: seq<uint32>, free: seq<uint32>)
    requires BlocksInside(heap, mem, used, 0x5544) && BlocksInside(heap, mem, free, 0x4652)
    ensures AllInside(heap, mem, used + free)
    ensures SoundBlocks(heap, mem, used, USED_TAG) && SoundBlocks(heap, mem, free, FREE_TAG)
  {
    var all := used + free;
    forall k | 0 <= k < |all|
      ensures heap.dataStart <= BlockStart(mem, all[k]) && BlockEnd(heap, mem, all[k]) <= heap.dataEnd
    {
      assert all[k] == if k < |used| then used[k] else free[k - |used|];
    }
    forall k | 0 <= k < |used|
      ensures PassesBounds(heap, mem, used[k])
    {
      BoundsPass(heap, mem, used[k]);
    }
    forall k | 0 <= k < |free|
      ensures PassesBounds(heap, mem, free[k])
    {
      BoundsPass(heap, mem, free[k]);
    }
  }

  lemma {:induction false} BoundsPass(heap: Heap, mem: Memory, cur: uint32)
    requires heap.dataStart <= BlockStart(mem, cur) && BlockEnd(heap, mem, cur) <= heap.dataEnd
    ensures PassesBounds(heap, mem, cur)
  {
    WrapSmall(cur + heap.headerSize + mem(cur).blockSize);
  }

  /** What acceptance means for a heap with two proper lists whose blocks carry the right tags, lie in
      the data area and share no byte: no byte of the data area is left over. */
  lemma {:induction false} AcceptedIffNoByteLeft(heap: Heap, mem: Memory, used: seq<uint32>, free: seq<uint32>)
    requires DoublyLinked(mem, heap.usedList.head, heap.usedList.tail, used)
    requires DoublyLinked(mem, heap.freeList.head, heap.freeList.tail, free)
    requires BlocksInside(heap, mem, used, 0x5544) && BlocksInside(heap, mem, free, 0x4652)
    requires BlocksApart(heap, mem, used + free)
    ensures SomeConsistent(heap, mem) <==> NoByteLeft(heap, mem, used + free)
  {
    hide DoublyLinked, BlocksInside, BlocksApart, NoByteLeft, Linked, SoundBlocks, TotalFootprint, Cursor, Last,
      AllInside;
    DoublyLinkedIsLinked(mem, heap.usedList, used);
    DoublyLinkedIsLinked(mem, heap.freeList, free);
    InsideBoth(heap, mem, used, free);
    FilledIffSumFits(heap, mem, used + free);
    FootprintAppend(heap, mem, used, free);
    if SomeConsistent(heap, mem) {
      var u, f :| Consistent(heap, mem, u, f);
      CompleteUnique(mem, heap.usedList, u, used);
      CompleteUnique(mem, heap.freeList, f, free);
    } else {
      assert !Consistent(heap, mem, used, free);
    }
  }

  /** An accepted heap whose blocks lie in the data area and share no byte leaves none over. */
  lemma {:induction false} AcceptedLeavesNoByte(heap: Heap, mem: Memory, used: seq<uint32>, free: seq<uint32>)
    requires Consistent(heap, mem, used, free)
    requires AllInside(heap, mem, used + free) && BlocksApart(heap, mem, used + free)
    ensures NoByteLeft(heap, mem, used + free)
  {
    hide AllInside, BlocksApart, NoByteLeft, Intact, TotalFootprint;
    FilledIffSumFits(heap, mem, used + free);
    FootprintAppend(heap, mem, used, free);
  }

  lemma {:induction false} OneBlockFills(heap: Heap, mem: Memory, cur: uint32)
    requires heap.dataStart <= heap.dataEnd
    requires BlockStart(mem, cur) == heap.dataStart && BlockEnd(heap, mem, cur) == heap.dataEnd
    ensures NoByteLeft(heap, mem, [cur])
  {
    forall x: int | heap.dataStart <= x < heap.dataEnd
      ensures Occupied(heap, mem, [cur], x)
    {
      assert [cur][0] == cur;
    }
  }

  /** What the checker adds up for the blocks of a list. */
  function BytesSum(heap: Heap, mem: Memory, path: seq<uint32>): int {
    if path == [] then 0
    else
      var last := path[|path| - 1];
      BytesSum(heap, mem, path[..|path| - 1]) + (BlockEnd(heap, mem, last) - BlockStart(mem, last))
  }

  lemma {:induction false} BytesSumIsFootprint(heap: Heap, mem: Memory, path: seq<uint32>)
    ensures BytesSum(heap, mem, path) == TotalFootprint(heap, mem, path)
  {
    if path != [] {
      BytesSumIsFootprint(heap, mem, path[..|path| - 1]);
    }
  }

  /** A proper list of blocks: linked both ways from head to tail, and every block carries the tag,
      starts in the data area and ends, modulo 2^32, at most at its end. */
  predicate ProperList(heap: Heap, mem: Memory, list: BlockList, tag: nat, path: seq<uint32>) {
    && DoublyLinked(mem, list.head, list.tail, path)
    && forall k :: 0 <= k < |path| ==>
         && mem(path[k]).tag == tag && heap.dataStart <= path[k] <= heap.dataEnd
         && BlockEnd(heap, mem, path[k]) % 0x1_0000_0000 <= heap.dataEnd
  }

  predicate ProperHeap(heap: Heap, mem: Memory, used: seq<uint32>, free: seq<uint32>) {
    && ProperList(heap, mem, heap.usedList, 0x5544, used) && ProperList(heap, mem, heap.freeList, 0x4652, free)
    && (BytesSum(heap, mem, used) + BytesSum(heap, mem, free) - (heap.dataEnd - heap.dataStart)) % 0x1_0000_0000 == 0
  }

  lemma {:induction false} ProperIsIntact(heap: Heap, mem: Memory, list: BlockList, tag: nat, path: seq<uint32>)
    ensures ProperList(heap, mem, list, tag, path) <==> Intact(heap, mem, list, tag, path)
  {
    hide DoublyLinked, Linked, Cursor, Last;
    DoublyLinkedIsLinked(mem, list, path);
  }

  lemma {:induction false} SameRemainder(a: int, b: int)
    ensures (a - b) % 0x1_0000_0000 == 0 <==> Wrap(a) == Wrap(b)
  {
    if Wrap(a) == Wrap(b) {
      DivModUnique(a - b, 0x1_0000_0000, a / 0x1_0000_0000 - b / 0x1_0000_0000, 0);
    } else if (a - b) % 0x1_0000_0000 == 0 {
      DivModUnique(a, 0x1_0000_0000, (a - b) / 0x1_0000_0000 + b / 0x1_0000_0000, b % 0x1_0000_0000);
    }
  }

  /** The check accepts exactly the heaps with two proper lists whose bytes add up, modulo 2^32, to
      the size of the data area. */
  lemma {:induction false} AcceptedExactly(heap: Heap, mem: Memory)
    ensures SomeConsistent(heap, mem) <==> exists used, free :: ProperHeap(heap, mem, used, free)
  {
    hide ProperList, Intact, TotalFootprint, BytesSum;
    forall used, free
      ensures Consistent(heap, mem, used, free) <==> ProperHeap(heap, mem, used, free)
    {
      ProperIsIntact(heap, mem, heap.usedList, 0x5544, used);
      ProperIsIntact(heap, mem, heap.freeList, 0x4652, free);
      BytesSumIsFootprint(heap, mem, used);
      BytesSumIsFootprint(heap, mem, free);
      SameRemainder(TotalFootprint(heap, mem, used) + TotalFootprint(heap, mem, free), heap.dataEnd - heap.dataStart);
    }
  }

  /** A fresh heap is accepted: no used block, and one free block that fills the data area. */
  lemma {:induction false} FreshHeapAccepted(heap: Heap, mem: Memory)
    requires heap.dataStart != 0 && heap.dataStart + heap.headerSize <= heap.dataEnd
    requires heap.usedList == BlockList(0, 0) && heap.freeList == BlockList(heap.dataStart, heap.dataStart)
    requires mem(heap.dataStart) == Block(0, heap.dataEnd - heap.dataStart - heap.headerSize, 0, 0, 0x4652)
    ensures SomeConsistent(heap, mem)
  {
    hide SomeConsistent, NoByteLeft;
    var used: seq<uint32>, free: seq<uint32> := [], [heap.dataStart];
    assert used + free == [heap.dataStart];
    OneBlockFills(heap, mem, heap.dataStart);
    AcceptedIffNoByteLeft(heap, mem, used, free);
  }
}
