/** The writing half of the memory test: the words of every region are numbered through their
    physical addresses. */
module MemoryTest {
  import opened Words
  import opened Wrappers
  import opened Layout
  import opened Translators

  /** Physical memory, word by word. */
  type Ram = seq<uint32>

  // ---- Writing

  /** Memory after the test wrote n words from counter on at word base: whole buffers of 0x1000
      words arrive, a last partial one does not. */
  function Filled(r: Ram, base: nat, n: nat, counter: uint32): (r': Ram)
    requires base + n <= |r|
    ensures |r'| == |r|
  {
    var written := n - n % 0x1000;
    r[..base] + seq<uint32>(written, w requires 0 <= w => Wrap(counter + w)) + r[base + written..]
  }

  lemma {:induction false} FilledAt(r: Ram, base: nat, n: nat, counter: uint32, a: nat)
    requires base + n <= |r| && a < |r|
    ensures Filled(r, base, n, counter)[a]
            == if base <= a < base + (n - n % 0x1000) then Wrap(counter + (a - base)) else r[a]
  {
  }

  /** The kernel's copy of one buffer into physical memory. */
  method KernelCopyData(ram: array<uint32>, destination: nat, buffer: array<uint32>)
    requires buffer.Length == 0x1000 && ram != buffer
    requires destination % 4 == 0 && destination / 4 + 0x1000 <= ram.Length
    modifies ram
    ensures ram[..] == old(ram[..destination / 4]) + buffer[..] + old(ram[destination / 4 + 0x1000..])
  {
    var word := destination / 4;
    forall i | 0 <= i < 0x1000 {
      ram[word + i] := buffer[i];
    }
  }

  /** A chunk lies in memory and starts at a word. */
  predicate InRam(c: Chunk, words: nat) {
    c.start % 4 == 0 && c.start + Wrap(c.end - c.start) <= 4 * words
  }

  function ChunkWords(c: Chunk): nat {
    Wrap(c.end - c.start) / 4
  }

  /** What the buffer holds when `done` words have been flushed and k have been counted. */
  predicate Buffered(buffer: seq<uint32>, done: nat, k: nat, counter: uint32) {
    && |buffer| == 0x1000 && done % 0x1000 == 0 && done <= k <= done + 0x1000
    && forall i :: 0 <= i < k - done ==> buffer[i] == Wrap(counter + done + i)
  }

  lemma {:induction false} FlushFilled(r: Ram, base: nat, done: nat, n: nat, counter: uint32, buffer: seq<uint32>)
    requires done % 0x1000 == 0 && done + 0x1000 <= n && base + n <= |r|
    requires Buffered(buffer, done, done + 0x1000, counter)
    ensures var r1 := Filled(r, base, done, counter);
            r1[..base + done] + buffer + r1[base + done + 0x1000..] == Filled(r, base, done + 0x1000, counter)
  {
    var r1, r2 := Filled(r, base, done, counter), Filled(r, base, done + 0x1000, counter);
    var flushed := r1[..base + done] + buffer + r1[base + done + 0x1000..];
    forall a | 0 <= a < |r|
      ensures flushed[a] == r2[a]
    {
      FilledAt(r, base, done, counter, a);
      FilledAt(r, base, done + 0x1000, counter, a);
    }
  }

  lemma {:induction false} BufferedNext(buffer: seq<uint32>, done: nat, k: nat, counter: uint32)
    requires Buffered(buffer, done, k, counter) && k < done + 0x1000
    ensures k % 0x1000 == k - done
    ensures Buffered(buffer[k - done := Wrap(counter + k)], done, k + 1, counter)
  {
    DivModUnique(k, 0x1000, done / 0x1000, k - done);
  }

  lemma {:induction false} WholeBuffer(buffer: seq<uint32>, done: nat, k: nat, counter: uint32)
    requires Buffered(buffer, done, k, counter) && k % 0x1000 == 0 && done < k
    ensures k == done + 0x1000
    ensures Buffered(buffer, k, k, counter)
  {
    if k < done + 0x1000 {
      DivModUnique(k, 0x1000, done / 0x1000, k - done);
    }
  }

  lemma {:induction false} WrapNext(counter: uint32, k: nat)
    ensures Wrap(Wrap(counter + k) + 1) == Wrap(counter + (k + 1))
  {
    WrapSum(1, counter + k);
  }

  lemma {:induction false} NothingFilled(r: Ram, base: nat, n: nat, counter: uint32)
    requires base + n <= |r|
    ensures Filled(r, base, 0, counter) == r
    ensures Filled(r, base, n - n % 0x1000, counter) == Filled(r, base, n, counter)
  {
  }

  lemma {:induction false} DestinationWord(start: uint32, done: nat)
    requires start % 4 == 0
    ensures (start + ((done + 0x1000) * 4 - 0x4000)) / 4 == start / 4 + done
    ensures (start + ((done + 0x1000) * 4 - 0x4000)) % 4 == 0
  {
    DivModUnique(start + 4 * done, 4, start / 4 + done, 0);
  }

  lemma {:induction false} EmptyBuffer(buffer: seq<uint32>, counter: uint32)
    requires |buffer| == 0x1000
    ensures Buffered(buffer, 0, 0, counter)
  {
  }

  lemma {:induction false} AllFlushed(buffer: seq<uint32>, done: nat, n: nat, counter: uint32)
    requires Buffered(buffer, done, n, counter) && n < done + 0x1000
    ensures done == n - n % 0x1000
  {
    DivModUnique(n, 0x1000, done / 0x1000, n - done);
  }

  /** Before word k is stored: a full buffer goes to the place of the words it holds. */
  method FlushFullBuffer(c: Chunk, k: nat, ghost done: nat, ghost counter: uint32, ghost start: Ram,
                         testBuffer: array<uint32>, ram: array<uint32>)
    returns (ghost done': nat)
    requires InRam(c, ram.Length) && testBuffer.Length == 0x1000 && testBuffer != ram && |start| == ram.Length
    requires k <= ChunkWords(c) && done <= k && (k > 0 ==> done < k)
    requires Buffered(testBuffer[..], done, k, counter)
    requires ram[..] == Filled(start, c.start / 4, done, counter)
    modifies ram
    ensures done' <= k < done' + 0x1000 && Buffered(testBuffer[..], done', k, counter)
    ensures ram[..] == Filled(start, c.start / 4, done', counter)
  {
    hide Filled;
    done' := done;
    if k > 0 && k % 0x1000 == 0 {
      WholeBuffer(testBuffer[..], done, k, counter);
      FlushFilled(start, c.start / 4, done, k, counter, testBuffer[..]);
      DestinationWord(c.start, done);
      var destination := c.start + (k * 4 - 0x4000);
      KernelCopyData(ram, destination, testBuffer);
      done' := k;
    }
  }

  /** The innermost loop of writeTestValuesToMemory: one chunk. */
  method WriteChunk(c: Chunk, counterIn: uint32, testBuffer: array<uint32>, ram: array<uint32>)
    returns (counter: uint32)
    requires InRam(c, ram.Length) && testBuffer.Length == 0x1000 && testBuffer != ram
    modifies ram, testBuffer
    ensures ram[..] == Filled(old(ram[..]), c.start / 4, ChunkWords(c), counterIn)
    ensures counter == Wrap(counterIn + ChunkWords(c))
  {
    hide Filled, Buffered;
    var paSize := Wrap(c.end - c.start);
    counter := counterIn;
    ghost var start := ram[..];
    ghost var base := c.start / 4;
    ghost var n := paSize / 4;
    ghost var done: nat := 0;
    NothingFilled(start, base, n, counterIn);
    EmptyBuffer(testBuffer[..], counterIn);
    var k: nat := 0;
    while k <= paSize / 4
      invariant k <= n + 1 && done <= n
      invariant k <= n ==> Buffered(testBuffer[..], done, k, counterIn) && done <= k && (k > 0 ==> done < k)
      invariant k == n + 1 ==> done == n - n % 0x1000
      invariant ram[..] == Filled(start, base, done, counterIn)
      invariant counter == Wrap(counterIn + (if k <= n then k else n))
    {
      done := FlushFullBuffer(c, k, done, counterIn, start, testBuffer, ram);
      if k != paSize / 4 {
        BufferedNext(testBuffer[..], done, k, counterIn);
        testBuffer[k % 0x1000] := counter;
        WrapNext(counterIn, k);
        counter := Wrap(counter + 1);
      } else {
        AllFlushed(testBuffer[..], done, n, counterIn);
      }
      k := k + 1;
    }
  }

  predicate ListInRam(v: seq<Chunk>, words: nat) {
    forall j :: 0 <= j < |v| ==> InRam(v[j], words)
  }

  predicate AllInRam(m: Mapping, words: nat)
    requires Terminated(m)
  {
    forall i :: 0 <= i < Regions(m) ==> ListInRam(m[i].physical.value, words)
  }

  /** Memory after a chunk list was written; the counter runs on from chunk to chunk. */
  function FilledList(r: Ram, v: seq<Chunk>, counter: uint32): (r': Ram)
    requires ListInRam(v, |r|)
    ensures |r'| == |r|
    decreases |v|
  {
    if v == [] || v[0] == NO_CHUNK then r
    else FilledList(Filled(r, v[0].start / 4, ChunkWords(v[0]), counter), v[1..], Wrap(counter + ChunkWords(v[0])))
  }

  /** Memory after the regions from i on were written, each counted from 0. */
  function FilledRegions(r: Ram, m: Mapping, i: nat): (r': Ram)
    requires Terminated(m) && AllInRam(m, |r|) && i <= Regions(m)
    ensures |r'| == |r|
    decreases Regions(m) - i
  {
    if i == Regions(m) then r else FilledRegions(FilledList(r, m[i].physical.value, 0), m, i + 1)
  }

  method WriteList(v: seq<Chunk>, testBuffer: array<uint32>, ram: array<uint32>)
    requires ChunksTerminated(v) && ListInRam(v, ram.Length) && testBuffer.Length == 0x1000 && testBuffer != ram
    modifies ram, testBuffer
    ensures ram[..] == FilledList(old(ram[..]), v, 0)
  {
    hide Filled, InRam;
    var counter: uint32 := 0;
    assert v[0..] == v;
    var j := 0;
    while v[j] != NO_CHUNK
      invariant 0 <= j < |v|
      invariant FilledList(old(ram[..]), v, 0) == FilledList(ram[..], v[j..], counter)
      decreases |v| - j
    {
      assert v[j..][0] == v[j] && v[j..][1..] == v[j + 1..];
      counter := WriteChunk(v[j], counter, testBuffer, ram);
      j := j + 1;
    }
  }

  /** writeTestValuesToMemory: number the words of every region. */
  method WriteTestValuesToMemory(m: Mapping, ram: array<uint32>)
    requires Terminated(m) && AllInRam(m, ram.Length)
    modifies ram
    ensures ram[..] == FilledRegions(old(ram[..]), m, 0)
  {
    var testBuffer := new uint32[0x1000];
    hide FilledList, ListInRam;
    var i := 0;
    while m[i].physical.Some?
      invariant 0 <= i <= Regions(m)
      invariant FilledRegions(old(ram[..]), m, 0) == FilledRegions(ram[..], m, i)
      decreases Regions(m) - i
    {
      WriteList(m[i].physical.value, testBuffer, ram);
      i := i + 1;
    }
  }

  // ---- What the written memory holds

  /** The words of a chunk that lie in whole buffers. */
  function Written(c: Chunk): nat {
    ChunkWords(c) - ChunkWords(c) % 0x1000
  }

  /** The words counted before chunk j of a list. */
  function WordsBefore(chunks: seq<Chunk>, j: nat): nat
    requires j <= |chunks|
  {
    if j == 0 then 0 else WordsBefore(chunks, j - 1) + ChunkWords(chunks[j - 1])
  }

  /** No buffer of the chunks covers the word at a. */
  predicate Untouched(chunks: seq<Chunk>, a: nat) {
    forall j :: 0 <= j < |chunks| ==> a < chunks[j].start / 4 || chunks[j].start / 4 + Written(chunks[j]) <= a
  }

  lemma {:induction false} ChunkWordCount(c: Chunk)
    requires WellFormedChunk(c)
    ensures ChunkWords(c) == Size(c) / 4 && Written(c) <= ChunkWords(c)
    ensures 4 * Written(c) == Size(c) - Size(c) % 0x4000
  {
    var q, rest := Size(c) / 0x4000, Size(c) % 0x4000;
    DivModUnique(Size(c), 4, q * 0x1000 + rest / 4, rest % 4);
    DivModUnique(ChunkWords(c), 0x1000, q, rest / 4);
  }

  lemma {:induction false} FilledChunkAt(r: Ram, c: Chunk, counter: uint32, a: nat)
    requires InRam(c, |r|) && a < |r|
    ensures Filled(r, c.start / 4, ChunkWords(c), counter)[a]
            == if c.start / 4 <= a < c.start / 4 + Written(c) then Wrap(counter + (a - c.start / 4)) else r[a]
  {
    FilledAt(r, c.start / 4, ChunkWords(c), counter, a);
  }

  lemma {:induction false} FilledListStep(r: Ram, chunks: seq<Chunk>, counter: uint32)
    requires chunks != [] && AllWellFormed(chunks) && ListInRam(chunks + [NO_CHUNK], |r|)
    ensures InRam(chunks[0], |r|) && ListInRam(chunks[1..] + [NO_CHUNK], |r|) && AllWellFormed(chunks[1..])
    ensures chunks[0].start / 4 + ChunkWords(chunks[0]) <= |r|
    ensures FilledList(r, chunks + [NO_CHUNK], counter)
            == FilledList(Filled(r, chunks[0].start / 4, ChunkWords(chunks[0]), counter), chunks[1..] + [NO_CHUNK],
                          Wrap(counter + ChunkWords(chunks[0])))
  {
    hide Filled;
    var v := chunks + [NO_CHUNK];
    assert InRam(v[0], |r|) && v[0] == chunks[0] && v[1..] == chunks[1..] + [NO_CHUNK];
    forall j | 0 <= j < |v[1..]|
      ensures InRam(v[1..][j], |r|)
    {
      assert v[1..][j] == v[j + 1];
    }
    assert WellFormedChunk(chunks[0]);
  }

  /** Writing a list leaves the words alone that no buffer covers. */
  lemma {:induction false} FilledListUntouched(r: Ram, chunks: seq<Chunk>, counter: uint32, a: nat)
    requires AllWellFormed(chunks) && ListInRam(chunks + [NO_CHUNK], |r|) && a < |r| && Untouched(chunks, a)
    ensures FilledList(r, chunks + [NO_CHUNK], counter)[a] == r[a]
    decreases |chunks|
  {
    hide Filled, ChunkWords, Written, InRam, ListInRam, AllWellFormed;
    if chunks != [] {
      var c := chunks[0];
      FilledListStep(r, chunks, counter);
      FilledChunkAt(r, c, counter, a);
      var next := Filled(r, c.start / 4, ChunkWords(c), counter);
      FilledListUntouched(next, chunks[1..], Wrap(counter + ChunkWords(c)), a);
    }
  }

  /** A word of one chunk is no word of another one. */
  lemma {:induction false} WordsApart(c: Chunk, c': Chunk, x: nat)
    requires WellFormedChunk(c) && WellFormedChunk(c') && Disjoint(c.start, c.end, c'.start, c'.end)
    requires c.start % 4 == 0 && c'.start % 4 == 0 && 4 * x < Size(c)
    ensures c.start / 4 + x < c'.start / 4 || c'.start / 4 + Written(c') <= c.start / 4 + x
  {
    ChunkWordCount(c');
    hide Written;
    assert c.start == 4 * (c.start / 4) && c'.start == 4 * (c'.start / 4);
  }

  predicate WordStarts(chunks: seq<Chunk>) {
    forall j :: 0 <= j < |chunks| ==> chunks[j].start % 4 == 0
  }

  lemma {:induction false} InRamWordStarts(chunks: seq<Chunk>, words: nat)
    requires ListInRam(chunks + [NO_CHUNK], words)
    ensures WordStarts(chunks)
  {
    forall j | 0 <= j < |chunks|
      ensures chunks[j].start % 4 == 0
    {
      assert InRam((chunks + [NO_CHUNK])[j], words);
    }
  }

  lemma {:induction false} WordInRam(chunks: seq<Chunk>, j: nat, x: nat, words: nat)
    requires AllWellFormed(chunks) && ListInRam(chunks + [NO_CHUNK], words) && j < |chunks|
    requires 4 * x < Size(chunks[j])
    ensures chunks[j].start / 4 + x < words && chunks[j].start % 4 == 0
  {
    assert InRam((chunks + [NO_CHUNK])[j], words) && WellFormedChunk(chunks[j]);
  }

  lemma {:induction false} LaterChunksUntouched(chunks: seq<Chunk>, x: nat)
    requires chunks != [] && AllWellFormed(chunks) && SelfDisjoint(chunks) && WordStarts(chunks)
    requires 4 * x < Size(chunks[0])
    ensures Untouched(chunks[1..], chunks[0].start / 4 + x)
  {
    hide Written, WellFormedChunk;
    forall j | 0 <= j < |chunks[1..]|
      ensures chunks[0].start / 4 + x < chunks[1..][j].start / 4
              || chunks[1..][j].start / 4 + Written(chunks[1..][j]) <= chunks[0].start / 4 + x
    {
      assert chunks[1..][j] == chunks[j + 1];
      assert Disjoint(chunks[0].start, chunks[0].end, chunks[j + 1].start, chunks[j + 1].end);
      WordsApart(chunks[0], chunks[j + 1], x);
    }
  }

  /** The words of the first chunk are not overwritten by the later ones. */
  lemma {:induction false} FirstChunkWritten(r: Ram, chunks: seq<Chunk>, counter: uint32, x: nat)
    requires chunks != [] && AllWellFormed(chunks) && SelfDisjoint(chunks) && ListInRam(chunks + [NO_CHUNK], |r|)
    requires x < Written(chunks[0]) && 4 * x < Size(chunks[0])
    ensures chunks[0].start / 4 + x < |r|
    ensures FilledList(r, chunks + [NO_CHUNK], counter)[chunks[0].start / 4 + x] == Wrap(counter + x)
  {
    hide Filled, FilledList, ChunkWords, Written, InRam, WellFormedChunk, ListInRam, SelfDisjoint, Untouched,
      AllWellFormed, WordStarts;
    var c := chunks[0];
    var a := c.start / 4 + x;
    InRamWordStarts(chunks, |r|);
    WordInRam(chunks, 0, x, |r|);
    FilledListStep(r, chunks, counter);
    FilledChunkAt(r, c, counter, a);
    LaterChunksUntouched(chunks, x);
    FilledListUntouched(Filled(r, c.start / 4, ChunkWords(c), counter), chunks[1..], Wrap(counter + ChunkWords(c)), a);
  }

  lemma {:induction false} TailSelfDisjoint(chunks: seq<Chunk>)
    requires chunks != [] && SelfDisjoint(chunks)
    ensures SelfDisjoint(chunks[1..])
  {
  }

  lemma {:induction false} WordsBeforeTail(chunks: seq<Chunk>, j: nat)
    requires j < |chunks|
    ensures WordsBefore(chunks, j + 1) == ChunkWords(chunks[0]) + WordsBefore(chunks[1..], j)
  {
    hide ChunkWords;
    if j > 0 {
      WordsBeforeTail(chunks, j - 1);
    }
  }

  lemma {:induction false} NoWordsBefore(chunks: seq<Chunk>)
    ensures WordsBefore(chunks, 0) == 0
  {
  }

  lemma {:induction false} WrapShift(counter: uint32, a: nat, b: nat)
    ensures Wrap(Wrap(counter + a) + b) == Wrap(counter + (a + b))
  {
    WrapSum(b, counter + a);
  }

  lemma {:induction false} FilledListWritten(r: Ram, chunks: seq<Chunk>, counter: uint32, j: nat, x: nat)
    requires AllWellFormed(chunks) && SelfDisjoint(chunks) && ListInRam(chunks + [NO_CHUNK], |r|)
    requires j < |chunks| && x < Written(chunks[j]) && 4 * x < Size(chunks[j])
    ensures chunks[j].start / 4 + x < |r|
    ensures FilledList(r, chunks + [NO_CHUNK], counter)[chunks[j].start / 4 + x]
            == Wrap(counter + (WordsBefore(chunks, j) + x))
    decreases |chunks|
  {
    hide Filled, FilledList, ChunkWords, Written, InRam, ListInRam, WellFormedChunk, SelfDisjoint, WordsBefore, Wrap,
      AllWellFormed;
    if j == 0 {
      FirstChunkWritten(r, chunks, counter, x);
      NoWordsBefore(chunks);
    } else {
      var c := chunks[0];
      FilledListStep(r, chunks, counter);
      WordsBeforeTail(chunks, j - 1);
      TailSelfDisjoint(chunks);
      WrapShift(counter, ChunkWords(c), WordsBefore(chunks[1..], j - 1) + x);
      FilledListWritten(Filled(r, c.start / 4, ChunkWords(c), counter), chunks[1..], Wrap(counter + ChunkWords(c)),
                        j - 1, x);
    }
  }

  lemma {:induction false} TailUntouched(chunks: seq<Chunk>, j: nat, x: nat)
    requires AllWellFormed(chunks) && SelfDisjoint(chunks) && WordStarts(chunks)
    requires j < |chunks| && Written(chunks[j]) <= x && 4 * x < Size(chunks[j])
    ensures Untouched(chunks, chunks[j].start / 4 + x)
  {
    hide Written, WellFormedChunk;
    forall k | 0 <= k < |chunks|
      ensures chunks[j].start / 4 + x < chunks[k].start / 4
              || chunks[k].start / 4 + Written(chunks[k]) <= chunks[j].start / 4 + x
    {
      if k != j {
        var lo, hi := if k < j then k else j, if k < j then j else k;
        assert Disjoint(chunks[lo].start, chunks[lo].end, chunks[hi].start, chunks[hi].end);
        WordsApart(chunks[j], chunks[k], x);
      }
    }
  }

  /** Word x of chunk j of a list of disjoint chunks, at any alignment: inside the whole buffers
      of its chunk it holds the number the running counter gave it, behind them what it held. */
  lemma {:induction false} FilledListAt(r: Ram, chunks: seq<Chunk>, counter: uint32, j: nat, x: nat)
    requires AllWellFormed(chunks) && SelfDisjoint(chunks) && ListInRam(chunks + [NO_CHUNK], |r|)
    requires j < |chunks| && 4 * x < Size(chunks[j])
    ensures var a := chunks[j].start / 4 + x;
            && a < |r|
            && FilledList(r, chunks + [NO_CHUNK], counter)[a]
               == if x < Written(chunks[j]) then Wrap(counter + (WordsBefore(chunks, j) + x)) else r[a]
  {
    hide FilledList, Written, ListInRam, SelfDisjoint, WordsBefore, Wrap, AllWellFormed, Untouched, WordStarts;
    WordInRam(chunks, j, x, |r|);
    if x < Written(chunks[j]) {
      FilledListWritten(r, chunks, counter, j, x);
    } else {
      InRamWordStarts(chunks, |r|);
      TailUntouched(chunks, j, x);
      FilledListUntouched(r, chunks, counter, chunks[j].start / 4 + x);
    }
  }

  // ---- All regions

  lemma {:induction false} ListOfRegion(m: Mapping, i: nat, words: nat)
    requires WellFormed(m) && AllInRam(m, words) && i < Regions(m)
    ensures AllWellFormed(Chunks(m, i)) && SelfDisjoint(Chunks(m, i))
    ensures m[i].physical.value == Chunks(m, i) + [NO_CHUNK] && ListInRam(Chunks(m, i) + [NO_CHUNK], words)
    ensures WordStarts(Chunks(m, i))
  {
    RegionShape(m, i);
    RawChunks(m, i);
    InRamWordStarts(Chunks(m, i), words);
  }

  lemma {:induction false} ChunksApart(m: Mapping, i: nat, j: nat, i': nat, j': nat)
    requires WellFormed(m) && i < Regions(m) && i' < Regions(m) && i != i'
    requires j < |Chunks(m, i)| && j' < |Chunks(m, i')|
    ensures var c, c' := Chunks(m, i)[j], Chunks(m, i')[j']; Disjoint(c.start, c.end, c'.start, c'.end)
  {
    assert ChunksDisjoint(Chunks(m, if i < i' then i else i'), Chunks(m, if i < i' then i' else i));
  }

  lemma {:induction false} WordOutsideRegion(m: Mapping, i: nat, i': nat, j: nat, x: nat, words: nat)
    requires WellFormed(m) && AllInRam(m, words) && i < Regions(m) && i' < Regions(m) && i != i'
    requires j < |Chunks(m, i)| && 4 * x < Size(Chunks(m, i)[j])
    ensures Untouched(Chunks(m, i'), Chunks(m, i)[j].start / 4 + x)
  {
    hide WellFormed, AllInRam, Written, WellFormedChunk, Chunks, ListInRam, SelfDisjoint, Disjoint;
    IsTerminated(m);
    ListOfRegion(m, i, words);
    ListOfRegion(m, i', words);
    var c := Chunks(m, i)[j];
    forall j' | 0 <= j' < |Chunks(m, i')|
      ensures c.start / 4 + x < Chunks(m, i')[j'].start / 4
              || Chunks(m, i')[j'].start / 4 + Written(Chunks(m, i')[j']) <= c.start / 4 + x
    {
      ChunksApart(m, i, j, i', j');
      WordsApart(c, Chunks(m, i')[j'], x);
    }
  }

  lemma {:induction false} FilledRegionsStep(r: Ram, m: Mapping, n: nat)
    requires WellFormed(m) && AllInRam(m, |r|) && n < Regions(m)
    ensures AllWellFormed(Chunks(m, n)) && SelfDisjoint(Chunks(m, n)) && ListInRam(Chunks(m, n) + [NO_CHUNK], |r|)
    ensures FilledRegions(r, m, n) == FilledRegions(FilledList(r, Chunks(m, n) + [NO_CHUNK], 0), m, n + 1)
    ensures n + 1 <= Regions(m)
  {
    hide FilledList;
    ListOfRegion(m, n, |r|);
  }

  /** No buffer of the regions from n on covers the word at a. */
  predicate UntouchedFrom(m: Mapping, n: nat, a: nat)
    requires Terminated(m)
  {
    forall k :: n <= k < Regions(m) ==> Untouched(Chunks(m, k), a)
  }

  lemma {:induction false} NoRegions(r: Ram, m: Mapping)
    requires Terminated(m) && AllInRam(m, |r|)
    ensures FilledRegions(r, m, Regions(m)) == r
  {
  }

  lemma {:induction false} OneMoreRegion(m: Mapping, n: nat, a: nat)
    requires Terminated(m) && n < Regions(m) && UntouchedFrom(m, n, a)
    ensures Untouched(Chunks(m, n), a) && UntouchedFrom(m, n + 1, a)
  {
  }

  /** Writing regions leaves the words alone that no buffer covers. */
  lemma {:induction false} FilledRegionsUntouched(r: Ram, m: Mapping, n: nat, a: nat)
    requires WellFormed(m) && AllInRam(m, |r|) && n <= Regions(m) && a < |r| && UntouchedFrom(m, n, a)
    ensures FilledRegions(r, m, n)[a] == r[a]
    decreases Regions(m) - n
  {
    hide WellFormed, Terminated, Chunks, AllInRam, FilledList, FilledRegions, UntouchedFrom, Untouched, ListInRam,
      AllWellFormed, SelfDisjoint;
    IsTerminated(m);
    if n == Regions(m) {
      NoRegions(r, m);
    } else {
      OneMoreRegion(m, n, a);
      FilledRegionsStep(r, m, n);
      FilledListUntouched(r, Chunks(m, n), 0, a);
      FilledRegionsUntouched(FilledList(r, Chunks(m, n) + [NO_CHUNK], 0), m, n + 1, a);
    }
  }

  /** Address a is word x of chunk j of region i. */
  predicate IsWord(m: Mapping, i: nat, j: nat, x: nat, a: nat)
    requires Terminated(m)
  {
    i < Regions(m) && j < |Chunks(m, i)| && 4 * x < Size(Chunks(m, i)[j]) && a == Chunks(m, i)[j].start / 4 + x
  }

  lemma {:induction false} OtherRegionsUntouched(m: Mapping, i: nat, j: nat, x: nat, a: nat, words: nat)
    requires WellFormed(m) && AllInRam(m, words) && IsWord(m, i, j, x, a)
    ensures UntouchedFrom(m, i + 1, a)
    ensures forall n :: 0 <= n < i ==> Untouched(Chunks(m, n), a)
  {
    hide WellFormed, AllInRam, Untouched, Chunks;
    IsTerminated(m);
    forall k | 0 <= k < Regions(m) && k != i
      ensures Untouched(Chunks(m, k), a)
    {
      WordOutsideRegion(m, i, k, j, x, words);
    }
  }

  /** After writing the regions from n on: a word of region i >= n. */
  lemma {:induction false} FilledRegionsFrom(r: Ram, m: Mapping, n: nat, i: nat, j: nat, x: nat, a: nat)
    requires WellFormed(m) && AllInRam(m, |r|) && n <= i && IsWord(m, i, j, x, a)
    ensures a < |r|
    ensures FilledRegions(r, m, n)[a]
            == if x < Written(Chunks(m, i)[j]) then Wrap(WordsBefore(Chunks(m, i), j) + x) else r[a]
    decreases i - n
  {
    hide WellFormed, Terminated, Chunks, AllInRam, FilledList, FilledRegions, ListInRam, UntouchedFrom, Untouched,
      AllWellFormed, SelfDisjoint, Written, WordsBefore, Wrap;
    IsTerminated(m);
    FilledRegionsStep(r, m, n);
    OtherRegionsUntouched(m, i, j, x, a, |r|);
    var next := FilledList(r, Chunks(m, n) + [NO_CHUNK], 0);
    if n == i {
      FilledListAt(r, Chunks(m, i), 0, j, x);
      FilledRegionsUntouched(next, m, n + 1, a);
    } else {
      FilledRegionsFrom(next, m, n + 1, i, j, x, a);
      FilledListUntouched(r, Chunks(m, n), 0, a);
    }
  }

  /** Memory after the test, for layouts of any alignment: word x of chunk j of region i holds its
      number within the region if it lies in a whole buffer of its chunk, else what it held; and
      words that no buffer covers are unchanged. */
  lemma {:induction false} MemoryAfterWriting(r: Ram, m: Mapping, i: nat, j: nat, x: nat, b: nat)
    requires WellFormed(m) && AllInRam(m, |r|) && i < Regions(m) && j < |Chunks(m, i)| && 4 * x < Size(Chunks(m, i)[j])
    ensures var a := Chunks(m, i)[j].start / 4 + x;
            && a < |r|
            && FilledRegions(r, m, 0)[a]
               == if x < Written(Chunks(m, i)[j]) then Wrap(WordsBefore(Chunks(m, i), j) + x) else r[a]
    ensures b < |r| && UntouchedFrom(m, 0, b) ==> FilledRegions(r, m, 0)[b] == r[b]
  {
    hide WellFormed, Terminated, Chunks, AllInRam, FilledRegions, UntouchedFrom, Written, WordsBefore, Wrap;
    IsTerminated(m);
    FilledRegionsFrom(r, m, 0, i, j, x, Chunks(m, i)[j].start / 4 + x);
    if b < |r| && UntouchedFrom(m, 0, b) {
      FilledRegionsUntouched(r, m, 0, b);
    }
  }

  // ---- When every word of every region gets its number

  predicate WholeBuffers(chunks: seq<Chunk>) {
    forall j :: 0 <= j < |chunks| ==> Size(chunks[j]) % 0x4000 == 0
  }

  /** The size of every chunk is a multiple of the buffer's 0x4000 bytes. */
  predicate AllWholeBuffers(m: Mapping)
    requires Terminated(m)
  {
    forall i :: 0 <= i < Regions(m) ==> WholeBuffers(Chunks(m, i))
  }

  /** Word w of region i, found through the software walk, is w. */
  predicate HoldsNumber(m: Mapping, r: Ram, i: nat, w: nat)
    requires Terminated(m) && i < Regions(m) && m[i].eaStart + 4 * w < 0x1_0000_0000
  {
    var pa := Physical(m, m[i].eaStart + 4 * w);
    pa % 4 == 0 && pa / 4 < |r| && r[pa / 4] == w
  }

  /** Every word of every region is its index in the region. */
  ghost predicate Numbered(m: Mapping, r: Ram)
    requires Terminated(m)
  {
    forall i, w :: 0 <= i < Regions(m) && 0 <= w && m[i].eaStart + 4 * w < m[i].eaEnd ==> HoldsNumber(m, r, i, w)
  }

  /** Behind whole buffers, words and bytes are counted alike. */
  lemma {:induction false} WholeBuffersBefore(chunks: seq<Chunk>, j: nat)
    requires AllWellFormed(chunks) && j <= |chunks| && WholeBuffers(chunks[..j])
    ensures 4 * WordsBefore(chunks, j) == Offset(chunks, j) && Offset(chunks, j) % 0x4000 == 0
  {
    if j > 0 {
      assert WholeBuffers(chunks[..j - 1]) by {
        assert forall k :: 0 <= k < j - 1 ==> chunks[..j - 1][k] == chunks[..j][k];
      }
      WholeBuffersBefore(chunks, j - 1);
      assert WellFormedChunk(chunks[j - 1]) && chunks[..j][j - 1] == chunks[j - 1];
      ChunkWordCount(chunks[j - 1]);
      hide ChunkWords, Written;
      WholeSum(Offset(chunks, j - 1), Size(chunks[j - 1]));
    }
  }

  lemma {:induction false} WholeSum(a: nat, b: nat)
    requires a % 0x4000 == 0 && b % 0x4000 == 0
    ensures (a + b) % 0x4000 == 0 && 4 * (b / 4) == b
  {
    DivModUnique(a + b, 0x4000, a / 0x4000 + b / 0x4000, 0);
    DivModUnique(b, 4, 0x1000 * (b / 0x4000), 0);
  }

  lemma {:induction false} WholeSize(c: Chunk)
    requires WellFormedChunk(c) && Size(c) % 0x4000 == 0
    ensures 4 * Written(c) == Size(c)
  {
    ChunkWordCount(c);
  }

  lemma {:induction false} WordOfByte(start: nat, d: nat)
    requires start % 4 == 0 && d % 4 == 0
    ensures (start + d) % 4 == 0 && (start + d) / 4 == start / 4 + d / 4 && d == 4 * (d / 4)
  {
    DivModUnique(start + d, 4, start / 4 + d / 4, 0);
  }

  /** The word behind byte d of a chunk, by the software walk. */
  lemma {:induction false} WalkFindsWord(r: Ram, m: Mapping, l: Location, w: nat)
    requires WellFormed(m) && AllInRam(m, |r|) && Within(m, l) && l.d % 4 == 0
    requires EaOf(m, l) == m[l.i].eaStart + 4 * w
    ensures m[l.i].eaStart + 4 * w < 0x1_0000_0000
    ensures var pa := Physical(m, m[l.i].eaStart + 4 * w);
            && pa % 4 == 0 && pa / 4 < |r|
            && IsWord(m, l.i, l.j, l.d / 4, pa / 4)
  {
    hide Physical, AllInRam, Offset, ListInRam, WellFormed, WellFormedChunk;
    IsTerminated(m);
    PhysicalAt(m, l);
    ListOfRegion(m, l.i, |r|);
    WordOfByte(Chunks(m, l.i)[l.j].start, l.d);
    WordInRam(Chunks(m, l.i), l.j, l.d / 4, |r|);
  }

  /** The location of word w of a region whose chunks fill whole buffers. */
  lemma {:induction false} WordLocation(m: Mapping, i: nat, w: nat) returns (l: Location)
    requires WellFormed(m) && i < Regions(m) && WholeBuffers(Chunks(m, i)) && m[i].eaStart + 4 * w < m[i].eaEnd
    ensures Within(m, l) && l.i == i && EaOf(m, l) == m[i].eaStart + 4 * w && l.d % 4 == 0
    ensures WordsBefore(Chunks(m, i), l.j) + l.d / 4 == w && l.d / 4 < Written(Chunks(m, i)[l.j])
  {
    hide WellFormed, Written, ChunkWords, WordsBefore;
    IsTerminated(m);
    var chunks := Chunks(m, i);
    RegionShape(m, i);
    var j := ChunkAt(chunks, |chunks|, 4 * w);
    WholeBuffersBefore(chunks, j);
    WholeSize(chunks[j]);
    l := Location(i, j, 4 * w - Offset(chunks, j));
    SplitNumber(w, Offset(chunks, j));
  }

  lemma {:induction false} SplitNumber(w: nat, offset: nat)
    requires offset % 0x4000 == 0 && offset <= 4 * w
    ensures (4 * w - offset) % 4 == 0 && offset / 4 + (4 * w - offset) / 4 == w
  {
    DivModUnique(offset, 4, 0x1000 * (offset / 0x4000), 0);
  }

  /** The memory test is meaningful: when the chunk sizes are multiples of 0x4000 bytes, the word
      behind effective address region start + 4w, found through the software walk, is w. */
  lemma {:induction false} WrittenWordsReadBack(r: Ram, m: Mapping, i: nat, w: nat)
    requires WellFormed(m) && AllInRam(m, |r|) && AllWholeBuffers(m) && i < Regions(m)
    requires m[i].eaStart + 4 * w < m[i].eaEnd
    ensures HoldsNumber(m, FilledRegions(r, m, 0), i, w)
  {
    hide Physical, FilledRegions, AllInRam, WellFormed, Written, WordsBefore, WholeBuffers;
    IsTerminated(m);
    var l := WordLocation(m, i, w);
    WalkFindsWord(r, m, l, w);
    FilledRegionsFrom(r, m, 0, i, l.j, l.d / 4, Physical(m, m[i].eaStart + 4 * w) / 4);
  }

  /** The first chunk with a partial last buffer. */
  lemma {:induction false} FirstPartial(chunks: seq<Chunk>, n: nat) returns (j: nat)
    requires n <= |chunks| && !WholeBuffers(chunks[..n])
    ensures j < n && Size(chunks[j]) % 0x4000 != 0 && WholeBuffers(chunks[..j])
  {
    if WholeBuffers(chunks[..n - 1]) {
      j := n - 1;
      assert forall k :: 0 <= k < n - 1 ==> chunks[..n - 1][k] == chunks[..n][k];
    } else {
      j := FirstPartial(chunks, n - 1);
    }
  }

  lemma {:induction false} FirstLostByte(chunks: seq<Chunk>, j: nat)
    requires AllWellFormed(chunks) && j < |chunks| && Size(chunks[j]) % 0x4000 != 0 && WholeBuffers(chunks[..j])
    ensures 4 * Written(chunks[j]) < Size(chunks[j])
    ensures Offset(chunks, j) == 4 * WordsBefore(chunks, j)
  {
    ChunkWordCount(chunks[j]);
    WholeBuffersBefore(chunks, j);
  }

  /** Behind the last whole buffer of a region's first partial chunk stands a word that the test
      does not write. */
  lemma {:induction false} LostWord(r: Ram, m: Mapping, i: nat) returns (w: nat)
    requires WellFormed(m) && AllInRam(m, |r|) && i < Regions(m) && !WholeBuffers(Chunks(m, i))
    ensures m[i].eaStart + 4 * w < m[i].eaEnd
    ensures var pa := Physical(m, m[i].eaStart + 4 * w);
            pa % 4 == 0 && pa / 4 < |r| && FilledRegions(r, m, 0)[pa / 4] == r[pa / 4]
  {
    hide Physical, FilledRegions, AllInRam, WellFormed, Written, WordsBefore, WholeBuffers;
    IsTerminated(m);
    var chunks := Chunks(m, i);
    RegionShape(m, i);
    assert chunks[..|chunks|] == chunks;
    var j := FirstPartial(chunks, |chunks|);
    FirstLostByte(chunks, j);
    w := WordsBefore(chunks, j) + Written(chunks[j]);
    var l := Location(i, j, 4 * Written(chunks[j]));
    LocationBounds(m, l);
    WalkFindsWord(r, m, l, w);
    FilledRegionsFrom(r, m, 0, i, j, Written(chunks[j]), Physical(m, m[i].eaStart + 4 * w) / 4);
  }

  /** A memory from which the test loses a word of region i. */
  lemma {:induction false} PartialBufferLosesWord(m: Mapping, words: nat, i: nat) returns (r: Ram)
    requires WellFormed(m) && AllInRam(m, words) && i < Regions(m) && !WholeBuffers(Chunks(m, i))
    ensures |r| == words && !Numbered(m, FilledRegions(r, m, 0))
  {
    hide Physical, FilledRegions, AllInRam, WellFormed, WholeBuffers;
    IsTerminated(m);
    r := seq(words, k => 0xFFFF_FFFF);
    var w := LostWord(r, m, i);
    assert !HoldsNumber(m, FilledRegions(r, m, 0), i, w);
  }

  /** Whatever memory held before, every word of every region holds its number afterwards if and
      only if the size of every chunk is a multiple of 0x4000 bytes. */
  lemma {:induction false} NumberedIffWholeBuffers(m: Mapping, words: nat)
    requires WellFormed(m) && AllInRam(m, words)
    ensures (forall r: Ram :: |r| == words ==> Numbered(m, FilledRegions(r, m, 0))) <==> AllWholeBuffers(m)
  {
    hide FilledRegions, AllInRam, WellFormed, WholeBuffers, HoldsNumber;
    IsTerminated(m);
    if AllWholeBuffers(m) {
      forall r: Ram | |r| == words
        ensures Numbered(m, FilledRegions(r, m, 0))
      {
        forall i, w | 0 <= i < Regions(m) && 0 <= w && m[i].eaStart + 4 * w < m[i].eaEnd
          ensures HoldsNumber(m, FilledRegions(r, m, 0), i, w)
        {
          WrittenWordsReadBack(r, m, i, w);
        }
      }
    } else {
      var i :| 0 <= i < Regions(m) && !WholeBuffers(Chunks(m, i));
      var r := PartialBufferLosesWord(m, words, i);
    }
  }

  /** A layout whose only chunk has 0x2000 bytes, half a buffer. */
  function HalfBuffer(): Mapping {
    [ Region(0x8000_0000, 0x8000_2000, Some([Chunk(0x4000, 0x6000), NO_CHUNK])), Region(0, 0, None) ]
  }

  lemma {:induction false} HalfBufferShape()
    ensures var m := HalfBuffer(); Terminated(m) && Regions(m) == 1 && Chunks(m, 0) == [Chunk(0x4000, 0x6000)]
    ensures WellFormed(HalfBuffer())
  {
    var m, c := HalfBuffer(), Chunk(0x4000, 0x6000);
    assert Terminated(m) && Regions(m) == 1;
    assert Chunks(m, 0) == [c] && Offset([c], 1) == 0x2000;
  }

  /** Of this layout the test writes no word at all. */
  lemma {:induction false} HalfBufferUnwritten(r: Ram)
    requires 0x1800 <= |r|
    ensures WellFormed(HalfBuffer()) && AllInRam(HalfBuffer(), |r|) && FilledRegions(r, HalfBuffer(), 0) == r
  {
    HalfBufferShape();
    hide WellFormed, Filled;
    var m, c := HalfBuffer(), Chunk(0x4000, 0x6000);
    assert ListInRam([c, NO_CHUNK], |r|) && [c, NO_CHUNK][1..] == [NO_CHUNK];
    NothingFilled(r, 0x1000, 0x800, 0);
    assert FilledList(r, [c, NO_CHUNK], 0) == r;
    NoRegions(r, m);
  }
}
