/** The layout tables: effective regions backed by lists of physical chunks. */
module Layout {
  import opened Words
  import opened Wrappers

  datatype Chunk = Chunk(start: uint32, end: uint32)

  /** A region of the mapping; the table ends with an entry without physical addresses. */
  datatype Region = Region(eaStart: uint32, eaEnd: uint32, physical: Option<seq<Chunk>>)

  /** A mapping table up to and including its terminator. */
  type Mapping = seq<Region>

  const NO_CHUNK := Chunk(0, 0)

  /** A chunk list up to and including its first all-zero entry. */
  predicate ChunksTerminated(v: seq<Chunk>) {
    |v| > 0 && v[|v| - 1] == NO_CHUNK && forall j :: 0 <= j < |v| - 1 ==> v[j] != NO_CHUNK
  }

  predicate Terminated(m: Mapping) {
    && |m| > 0 && m[|m| - 1].physical.None?
    && forall i :: 0 <= i < |m| - 1 ==> m[i].physical.Some? && ChunksTerminated(m[i].physical.value)
  }

  function Regions(m: Mapping): nat
    requires Terminated(m)
  {
    |m| - 1
  }

  /** The chunks of region i, without the terminator. */
  function Chunks(m: Mapping, i: nat): seq<Chunk>
    requires Terminated(m) && i < Regions(m)
  {
    var v := m[i].physical.value;
    v[..|v| - 1]
  }

  function Size(c: Chunk): int {
    c.end - c.start
  }

  /** The number of bytes in the first j chunks. */
  function Offset(chunks: seq<Chunk>, j: nat): int
    requires j <= |chunks|
  {
    if j == 0 then 0 else Offset(chunks, j - 1) + Size(chunks[j - 1])
  }

  // ---- Well-formed layouts: disjoint ranges whose chunks fill their regions, at any alignment

  predicate WellFormedChunk(c: Chunk) {
    0 < c.start < c.end
  }

  predicate WellFormedRegion(r: Region, chunks: seq<Chunk>) {
    && 0 < r.eaStart
    && (forall j :: 0 <= j < |chunks| ==> WellFormedChunk(chunks[j]))
    && r.eaEnd - r.eaStart == Offset(chunks, |chunks|)
  }

  predicate Disjoint(a: int, b: int, c: int, d: int) {
    b <= c || d <= a
  }

  const WINDOW_EA: uint32 := 0x0080_0000
  const WINDOW_EA_END: uint32 := 0x0100_0000
  const WINDOW_PA: uint32 := 0x3080_0000
  const WINDOW_PA_END: uint32 := 0x3100_0000

  predicate ClearOfWindow(r: Region, chunks: seq<Chunk>) {
    && Disjoint(r.eaStart, r.eaEnd, WINDOW_EA, WINDOW_EA_END)
    && forall j :: 0 <= j < |chunks| ==> Disjoint(chunks[j].start, chunks[j].end, WINDOW_PA, WINDOW_PA_END)
  }

  /** No two chunks of the lists share a physical address. */
  predicate ChunksDisjoint(a: seq<Chunk>, b: seq<Chunk>) {
    forall j, j' :: 0 <= j < |a| && 0 <= j' < |b| ==> Disjoint(a[j].start, a[j].end, b[j'].start, b[j'].end)
  }

  predicate SelfDisjoint(a: seq<Chunk>) {
    forall j, j' :: 0 <= j < j' < |a| ==> Disjoint(a[j].start, a[j].end, a[j'].start, a[j'].end)
  }

  predicate WellFormed(m: Mapping) {
    && Terminated(m)
    && (forall i :: 0 <= i < Regions(m) ==>
          WellFormedRegion(m[i], Chunks(m, i)) && ClearOfWindow(m[i], Chunks(m, i)) && SelfDisjoint(Chunks(m, i)))
    && (forall i, i' :: 0 <= i < i' < Regions(m) ==>
          && Disjoint(m[i].eaStart, m[i].eaEnd, m[i'].eaStart, m[i'].eaEnd)
          && ChunksDisjoint(Chunks(m, i), Chunks(m, i')))
  }

  predicate AlignedChunks(chunks: seq<Chunk>) {
    forall j :: 0 <= j < |chunks| ==> chunks[j].start % 0x2_0000 == 0 && chunks[j].end % 0x2_0000 == 0
  }

  /** The layout obeys the alignment rule for pages of 0x20000 bytes. */
  predicate PageAligned(m: Mapping)
    requires Terminated(m)
  {
    forall i :: 0 <= i < Regions(m) ==> m[i].eaStart % 0x2_0000 == 0 && AlignedChunks(Chunks(m, i))
  }

  /** A well-formed layout that can be mapped page by page. */
  predicate Mappable(m: Mapping) {
    WellFormed(m) && PageAligned(m)
  }

  lemma {:induction false} MappableIsTerminated(m: Mapping)
    requires Mappable(m)
    ensures Terminated(m)
  {
  }

  lemma {:induction false} IsTerminated(m: Mapping)
    requires WellFormed(m)
    ensures Terminated(m)
  {
  }

  // ---- Locations: byte d of chunk j of region i

  datatype Location = Location(i: nat, j: nat, d: nat)

  predicate Within(m: Mapping, l: Location)
    requires Terminated(m)
  {
    l.i < Regions(m) && l.j < |Chunks(m, l.i)| && l.d < Size(Chunks(m, l.i)[l.j])
  }

  function EaOf(m: Mapping, l: Location): int
    requires Terminated(m) && Within(m, l)
  {
    m[l.i].eaStart + Offset(Chunks(m, l.i), l.j) + l.d
  }

  function PaOf(m: Mapping, l: Location): int
    requires Terminated(m) && Within(m, l)
  {
    Chunks(m, l.i)[l.j].start + l.d
  }

  predicate InRegion(r: Region, ea: uint32) {
    r.eaStart <= ea < r.eaEnd
  }

  predicate InChunk(c: Chunk, pa: uint32) {
    c.start <= pa < c.end
  }

  /** ea lies in a region of the table. */
  predicate EaMapped(m: Mapping, ea: uint32)
    requires Terminated(m)
  {
    exists i :: 0 <= i < Regions(m) && InRegion(m[i], ea)
  }

  /** pa lies in a chunk of the table. */
  predicate PaMapped(m: Mapping, pa: uint32)
    requires Terminated(m)
  {
    exists i, j :: 0 <= i < Regions(m) && 0 <= j < |Chunks(m, i)| && InChunk(Chunks(m, i)[j], pa)
  }

  lemma {:induction false} OffsetMonotone(chunks: seq<Chunk>, j: nat, n: nat)
    requires j <= n <= |chunks|
    requires forall k :: 0 <= k < |chunks| ==> WellFormedChunk(chunks[k])
    ensures 0 <= Offset(chunks, j) <= Offset(chunks, n)
    decreases n
  {
    if j < n {
      OffsetMonotone(chunks, j, n - 1);
    } else if n > 0 {
      OffsetMonotone(chunks, n - 1, n - 1);
    }
  }

  /** The chunk that holds the byte at distance x from the start of the region. */
  lemma {:induction false} ChunkAt(chunks: seq<Chunk>, n: nat, x: nat) returns (j: nat)
    requires n <= |chunks| && x < Offset(chunks, n)
    ensures j < n && Offset(chunks, j) <= x < Offset(chunks, j + 1)
  {
    if Offset(chunks, n - 1) <= x {
      j := n - 1;
    } else {
      j := ChunkAt(chunks, n - 1, x);
    }
  }

  lemma {:induction false} RegionShape(m: Mapping, i: nat)
    requires WellFormed(m) && i < Regions(m)
    ensures forall j :: 0 <= j < |Chunks(m, i)| ==> WellFormedChunk(Chunks(m, i)[j])
    ensures 0 <= Offset(Chunks(m, i), |Chunks(m, i)|) == m[i].eaEnd - m[i].eaStart
    ensures Disjoint(m[i].eaStart, m[i].eaEnd, WINDOW_EA, WINDOW_EA_END)
  {
    assert WellFormedRegion(m[i], Chunks(m, i)) && ClearOfWindow(m[i], Chunks(m, i));
    OffsetMonotone(Chunks(m, i), 0, |Chunks(m, i)|);
  }

  lemma {:induction false} LocateEa(m: Mapping, ea: uint32) returns (l: Location)
    requires WellFormed(m) && EaMapped(m, ea)
    ensures Within(m, l) && EaOf(m, l) == ea
  {
    var i :| 0 <= i < Regions(m) && InRegion(m[i], ea);
    var chunks := Chunks(m, i);
    var j := ChunkAt(chunks, |chunks|, ea - m[i].eaStart);
    l := Location(i, j, ea - m[i].eaStart - Offset(chunks, j));
  }

  lemma {:induction false} LocatePa(m: Mapping, pa: uint32) returns (l: Location)
    requires WellFormed(m) && PaMapped(m, pa)
    ensures Within(m, l) && PaOf(m, l) == pa
  {
    var i, j :| 0 <= i < Regions(m) && 0 <= j < |Chunks(m, i)| && InChunk(Chunks(m, i)[j], pa);
    l := Location(i, j, pa - Chunks(m, i)[j].start);
  }

  /** A location lies in its region and chunk. */
  lemma {:induction false} LocationBounds(m: Mapping, l: Location)
    requires WellFormed(m) && Within(m, l)
    ensures m[l.i].eaStart <= m[l.i].eaStart + Offset(Chunks(m, l.i), l.j) <= EaOf(m, l) < m[l.i].eaEnd
    ensures EaOf(m, l) < m[l.i].eaStart + Offset(Chunks(m, l.i), l.j + 1)
    ensures Chunks(m, l.i)[l.j].start <= PaOf(m, l) < Chunks(m, l.i)[l.j].end
  {
    var chunks := Chunks(m, l.i);
    OffsetMonotone(chunks, l.j, l.j + 1);
    OffsetMonotone(chunks, l.j + 1, |chunks|);
  }
}
