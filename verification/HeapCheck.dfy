/** The consistency check of an expanded heap: a walk over two doubly linked block lists that
    may be corrupted in any way. */
module HeapCheck {
  import opened Words

  /** The fields of a block header in memory; 0 stands for null. */
  datatype Block = Block(attribs: uint32, blockSize: uint32, prev: uint32, next: uint32, tag: nat)

  /** What the walk reads at each address. */
  type Memory = uint32 -> Block

  datatype BlockList = BlockList(head: uint32, tail: uint32)

  /** headerSize is the size of a block header. */
  datatype Heap =
    Heap(dataStart: uint32, dataEnd: uint32, headerSize: uint32, usedList: BlockList, freeList: BlockList)

  /** The checker's bounds test, with the wrap-around of its addition. */
  predicate PassesBounds(heap: Heap, mem: Memory, cur: uint32) {
    heap.dataStart <= cur <= heap.dataEnd && Wrap(cur + heap.headerSize + mem(cur).blockSize) <= heap.dataEnd
  }

  /** The bytes the checker accounts to a block: header, data and alignment padding. */
  function Footprint(heap: Heap, b: Block): nat {
    b.blockSize + b.attribs / 0x100 % 0x80_0000 + heap.headerSize
  }

  function TotalFootprint(heap: Heap, mem: Memory, path: seq<uint32>): nat {
    if path == [] then 0
    else TotalFootprint(heap, mem, path[..|path| - 1]) + Footprint(heap, mem(path[|path| - 1]))
  }

  function Last(path: seq<uint32>): uint32 {
    if path == [] then 0 else path[|path| - 1]
  }

  /** Where the walk stands after the blocks of path. */
  function Cursor(mem: Memory, list: BlockList, path: seq<uint32>): uint32 {
    if path == [] then list.head else mem(path[|path| - 1]).next
  }

  /** The blocks of path follow each other from the head of the list, and every one of them
      points back to the one before. */
  predicate Linked(mem: Memory, list: BlockList, path: seq<uint32>) {
    forall k :: 0 <= k < |path| ==>
      && path[k] != 0
      && path[k] == Cursor(mem, list, path[..k])
      && mem(path[k]).prev == Last(path[..k])
  }

  predicate SoundBlocks(heap: Heap, mem: Memory, path: seq<uint32>, tag: nat) {
    forall k :: 0 <= k < |path| ==> PassesBounds(heap, mem, path[k]) && mem(path[k]).tag == tag
  }

  /** path is the whole of a null-terminated doubly linked list that ends at its recorded tail and
      whose blocks all pass the tests. */
  predicate Intact(heap: Heap, mem: Memory, list: BlockList, tag: nat, path: seq<uint32>) {
    && Linked(mem, list, path) && SoundBlocks(heap, mem, path, tag)
    && Cursor(mem, list, path) == 0 && Last(path) == list.tail
  }

  predicate NoRepeats(path: seq<uint32>) {
    forall i, j :: 0 <= i < j < |path| ==> path[i] != path[j]
  }

  /** A block met a second time would have to point back to two different blocks. */
  lemma {:induction false} LinkedExtends(mem: Memory, list: BlockList, path: seq<uint32>, cur: uint32)
    requires Linked(mem, list, path) && NoRepeats(path)
    requires cur == Cursor(mem, list, path) && cur != 0 && mem(cur).prev == Last(path)
    ensures Linked(mem, list, path + [cur]) && NoRepeats(path + [cur])
  {
    var longer := path + [cur];
    assert longer[..|path|] == path;
    forall k | 0 <= k < |longer|
      ensures longer[k] != 0 && longer[k] == Cursor(mem, list, longer[..k])
      ensures mem(longer[k]).prev == Last(longer[..k])
    {
      if k < |path| {
        assert longer[..k] == path[..k];
      }
    }
    forall i | 0 <= i < |path|
      ensures path[i] != cur
    {
      assert mem(path[i]).prev == Last(path[..i]);
    }
  }

  lemma {:induction false} LinkedPrefix(mem: Memory, list: BlockList, path: seq<uint32>, n: nat)
    requires Linked(mem, list, path) && n <= |path|
    ensures Linked(mem, list, path[..n])
    ensures n < |path| ==> path[n] != 0 && path[n] == Cursor(mem, list, path[..n])
    ensures n < |path| ==> mem(path[n]).prev == Last(path[..n])
  {
    forall k | 0 <= k < n
      ensures path[..n][..k] == path[..k]
    {
    }
  }

  /** A list that is linked forwards and backwards never repeats a block. */
  lemma {:induction false} LinkedHasNoRepeats(mem: Memory, list: BlockList, path: seq<uint32>)
    requires Linked(mem, list, path)
    ensures NoRepeats(path)
  {
    if path != [] {
      var n := |path| - 1;
      LinkedPrefix(mem, list, path, n);
      LinkedHasNoRepeats(mem, list, path[..n]);
      LinkedExtends(mem, list, path[..n], path[n]);
      assert path[..n] + [path[n]] == path;
    }
  }

  /** Distinct words: there are at most n of them below n. */
  lemma {:induction false} Pigeonhole(path: seq<uint32>, n: nat)
    requires NoRepeats(path) && forall k :: 0 <= k < |path| ==> path[k] < n
    ensures |path| <= n
    decreases n
  {
    if path != [] {
      assert 0 <= path[0] < n;
      if k :| 0 <= k < |path| && path[k] == n - 1 {
        Pigeonhole(path[..k] + path[k + 1..], n - 1);
      } else {
        Pigeonhole(path, n - 1);
      }
    }
  }

  /** Every complete list from the same head starts with the blocks walked so far. */
  lemma {:induction false} WalkIsPrefix(mem: Memory, list: BlockList, path: seq<uint32>, whole: seq<uint32>)
    requires Linked(mem, list, path) && Linked(mem, list, whole) && Cursor(mem, list, whole) == 0
    ensures |path| <= |whole| && whole[..|path|] == path
    decreases |path|
  {
    hide Linked, Cursor, Last;
    if path == [] {
      assert whole[..0] == [];
    } else {
      var n := |path| - 1;
      LinkedPrefix(mem, list, path, n);
      WalkIsPrefix(mem, list, path[..n], whole);
      LinkedPrefix(mem, list, whole, n);
      assert whole[..|whole|] == whole;
      assert n < |whole|;
      assert whole[..n + 1] == whole[..n] + [whole[n]];
      assert path == path[..n] + [path[n]];
    }
  }

  /** ... and goes on with the block under the cursor. */
  lemma {:induction false} CursorBlock(mem: Memory, list: BlockList, path: seq<uint32>, whole: seq<uint32>)
    requires Linked(mem, list, path) && Linked(mem, list, whole) && Cursor(mem, list, whole) == 0
    requires Cursor(mem, list, path) != 0
    ensures |path| < |whole| && whole[|path|] == Cursor(mem, list, path)
    ensures mem(whole[|path|]).prev == Last(path)
  {
    WalkIsPrefix(mem, list, path, whole);
    LinkedPrefix(mem, list, whole, |path|);
    assert whole[..|whole|] == whole;
  }

  /** There is at most one complete list. */
  lemma {:induction false} CompleteUnique(mem: Memory, list: BlockList, p: seq<uint32>, q: seq<uint32>)
    requires Linked(mem, list, p) && Cursor(mem, list, p) == 0
    requires Linked(mem, list, q) && Cursor(mem, list, q) == 0
    ensures p == q
  {
    WalkIsPrefix(mem, list, p, q);
    WalkIsPrefix(mem, list, q, p);
    assert p[..|p|] == p && q[..|q|] == q;
  }

  ghost predicate SomeIntact(heap: Heap, mem: Memory, list: BlockList, tag: nat) {
    exists whole :: Intact(heap, mem, list, tag, whole)
  }

  /** If the block under the cursor fails a test, no list from this head is intact. */
  lemma {:induction false} BadBlock(heap: Heap, mem: Memory, list: BlockList, tag: nat, path: seq<uint32>,
                                    cur: uint32)
    requires Linked(mem, list, path) && cur == Cursor(mem, list, path) && cur != 0
    requires mem(cur).prev != Last(path) || !PassesBounds(heap, mem, cur) || mem(cur).tag != tag
    ensures !SomeIntact(heap, mem, list, tag)
  {
    forall whole
      ensures !Intact(heap, mem, list, tag, whole)
    {
      if Intact(heap, mem, list, tag, whole) {
        CursorBlock(mem, list, path, whole);
      }
    }
  }

  /** If the walk ends at a block other than the recorded tail, no list is intact. */
  lemma {:induction false} WrongTail(heap: Heap, mem: Memory, list: BlockList, tag: nat, path: seq<uint32>)
    requires Linked(mem, list, path) && Cursor(mem, list, path) == 0 && Last(path) != list.tail
    ensures !SomeIntact(heap, mem, list, tag)
  {
    forall whole
      ensures !Intact(heap, mem, list, tag, whole)
    {
      if Intact(heap, mem, list, tag, whole) {
        CompleteUnique(mem, list, path, whole);
      }
    }
  }

  lemma {:induction false} EmptyList(heap: Heap, mem: Memory, list: BlockList)
    ensures Linked(mem, list, []) && NoRepeats([]) && TotalFootprint(heap, mem, []) == 0
  {
  }

  /** CheckMemExpHeapBlock: walk one list.  It ends for any contents of memory, because the blocks
      visited are pairwise distinct. */
  method CheckMemExpHeapBlock(heap: Heap, mem: Memory, list: BlockList, tag: nat, totalSize: uint32)
    returns (ok: bool, totalSizeOut: uint32, ghost path: seq<uint32>)
    ensures ok <==> SomeIntact(heap, mem, list, tag)
    ensures ok ==> Intact(heap, mem, list, tag, path)
    ensures ok ==> totalSizeOut == Wrap(totalSize + TotalFootprint(heap, mem, path))
  {
    hide Linked, NoRepeats, TotalFootprint;
    EmptyList(heap, mem, list);
    totalSizeOut := totalSize;
    var prevBlock: uint32 := 0;
    var cur := list.head;
    path := [];
    while cur != 0
      invariant Linked(mem, list, path) && NoRepeats(path) && SoundBlocks(heap, mem, path, tag)
      invariant cur == Cursor(mem, list, path) && prevBlock == Last(path)
      invariant totalSizeOut == Wrap(totalSize + TotalFootprint(heap, mem, path))
      invariant |path| <= 0x1_0000_0000
      decreases 0x1_0000_0000 - |path|
    {
      if mem(cur).prev != prevBlock {
        BadBlock(heap, mem, list, tag, path, cur);
        return false, totalSizeOut, path;
      }
      if cur < heap.dataStart || cur > heap.dataEnd || Wrap(cur + heap.headerSize + mem(cur).blockSize) > heap.dataEnd {
        BadBlock(heap, mem, list, tag, path, cur);
        return false, totalSizeOut, path;
      }
      if mem(cur).tag != tag {
        BadBlock(heap, mem, list, tag, path, cur);
        return false, totalSizeOut, path;
      }
      LinkedExtends(mem, list, path, cur);
      Pigeonhole(path + [cur], 0x1_0000_0000);
      FootprintExtends(heap, mem, path, cur, totalSize);
      totalSizeOut := Wrap(totalSizeOut + mem(cur).blockSize + mem(cur).attribs / 0x100 % 0x80_0000 + heap.headerSize);
      prevBlock := cur;
      path := path + [cur];
      cur := mem(cur).next;
    }
    ok := prevBlock == list.tail;
    if ok {
      assert Intact(heap, mem, list, tag, path);
    } else {
      WrongTail(heap, mem, list, tag, path);
    }
  }

  lemma {:induction false} FootprintExtends(heap: Heap, mem: Memory, path: seq<uint32>, cur: uint32, total: uint32)
    ensures Wrap(total + TotalFootprint(heap, mem, path + [cur]))
            == Wrap(Wrap(total + TotalFootprint(heap, mem, path)) + Footprint(heap, mem(cur)))
  {
    assert (path + [cur])[..|path|] == path;
    WrapSum(Footprint(heap, mem(cur)), total + TotalFootprint(heap, mem, path));
  }

  const USED_TAG: nat := 0x5544
  const FREE_TAG: nat := 0x4652

  /** Both lists are intact and together account for the whole data area. */
  predicate Consistent(heap: Heap, mem: Memory, used: seq<uint32>, free: seq<uint32>) {
    && Intact(heap, mem, heap.usedList, USED_TAG, used)
    && Intact(heap, mem, heap.freeList, FREE_TAG, free)
    && Wrap(TotalFootprint(heap, mem, used) + TotalFootprint(heap, mem, free)) == Wrap(heap.dataEnd - heap.dataStart)
  }

  ghost predicate SomeConsistent(heap: Heap, mem: Memory) {
    exists used, free :: Consistent(heap, mem, used, free)
  }

  /** CheckMemExpHeapCore accepts exactly the consistent heaps. */
  method CheckMemExpHeapCore(heap: Heap, mem: Memory) returns (ok: bool)
    ensures ok <==> SomeConsistent(heap, mem)
  {
    hide Linked, SoundBlocks, TotalFootprint;
    var totalSize: uint32 := 0;
    ghost var used, free;
    ok, totalSize, used := CheckMemExpHeapBlock(heap, mem, heap.usedList, USED_TAG, totalSize);
    if !ok {
      return;
    }
    ghost var usedSize := totalSize;
    ok, totalSize, free := CheckMemExpHeapBlock(heap, mem, heap.freeList, FREE_TAG, totalSize);
    if !ok {
      return;
    }
    WrapSum(TotalFootprint(heap, mem, free), TotalFootprint(heap, mem, used));
    ok := totalSize == Wrap(heap.dataEnd - heap.dataStart);
    if ok {
      assert Consistent(heap, mem, used, free);
    } else {
      forall u, f
        ensures !Consistent(heap, mem, u, f)
      {
        if Consistent(heap, mem, u, f) {
          CompleteUnique(mem, heap.usedList, u, used);
          CompleteUnique(mem, heap.freeList, f, free);
        }
      }
    }
  }

  /** In an accepted heap no block is in both lists, nor twice in one. */
  lemma {:induction false} ConsistentListsDisjoint(heap: Heap, mem: Memory, used: seq<uint32>, free: seq<uint32>)
    requires Consistent(heap, mem, used, free)
    ensures NoRepeats(used + free)
  {
    LinkedHasNoRepeats(mem, heap.usedList, used);
    LinkedHasNoRepeats(mem, heap.freeList, free);
    var all := used + free;
    forall i, j | 0 <= i < j < |all|
      ensures all[i] != all[j]
    {
      if i < |used| <= j {
        assert mem(all[i]).tag == USED_TAG && mem(all[j]).tag == FREE_TAG;
      }
    }
  }

  /** The block lies inside the data area. */
  predicate Inside(heap: Heap, mem: Memory, cur: uint32) {
    heap.dataStart <= cur && cur + heap.headerSize + mem(cur).blockSize <= heap.dataEnd
  }

  lemma {:induction false} BoundsInside(heap: Heap, mem: Memory, cur: uint32)
    requires PassesBounds(heap, mem, cur)
    ensures Inside(heap, mem, cur) <==> cur + heap.headerSize + mem(cur).blockSize < 0x1_0000_0000
  {
  }

  /** Acceptance does not mean that blocks lie inside the heap: the addition in the bounds test
      wraps.  Exactly the blocks whose end does not exceed 32 bits do. */
  lemma {:induction false} AcceptedBlockInside(heap: Heap, mem: Memory, used: seq<uint32>, free: seq<uint32>,
                                               cur: uint32)
    requires Consistent(heap, mem, used, free) && (cur in used || cur in free)
    ensures Inside(heap, mem, cur) <==> cur + heap.headerSize + mem(cur).blockSize < 0x1_0000_0000
  {
    hide PassesBounds, Inside, Linked;
    BoundsInside(heap, mem, cur);
  }

  lemma {:induction false} OneBlockFootprint(heap: Heap, mem: Memory, cur: uint32)
    ensures TotalFootprint(heap, mem, [cur]) == Footprint(heap, mem(cur))
  {
    assert [cur][..0] == [];
  }

  /** An accepted heap with a block that claims nearly the whole address space. */
  lemma {:induction false} AcceptsBlockOutside() returns (heap: Heap, mem: Memory)
    ensures Consistent(heap, mem, [0x1800], [0x1000])
    ensures !Inside(heap, mem, 0x1800)
  {
    heap := Heap(0x1000, 0x2000, 0x14, BlockList(0x1800, 0x1800), BlockList(0x1000, 0x1000));
    mem := cur => if cur == 0x1800 then Block(0, 0xFFFF_FFEC, 0, 0, 0x5544) else Block(0, 0xFEC, 0, 0, 0x4652);
    var used: seq<uint32>, free: seq<uint32> := [0x1800], [0x1000];
    OneBlockFootprint(heap, mem, 0x1800);
    OneBlockFootprint(heap, mem, 0x1000);
    assert used[..0] == [] && free[..0] == [];
    assert Intact(heap, mem, heap.usedList, USED_TAG, used);
    assert Intact(heap, mem, heap.freeList, FREE_TAG, free);
  }
}
