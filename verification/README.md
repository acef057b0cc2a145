# Address translation of the MemoryMappingModule

A Dafny model of the address-translation engine of the Wii U MemoryMappingModule and proofs
about it. The module backs a user-visible address range with fragmented physical memory: it
enters pages of 128 KiB into a copy of the 32-bit PowerPC hashed page table (section 7.6,
"Hashed Page Tables", of the PowerPC Programming Environments Manual for 32-bit
implementations), walks its own layout table to translate addresses in software, reads the
page table back, tests the mapped memory and checks the heaps built on it.

| file | content |
|---|---|
| `Words.dfy` | 32-bit words: wrap-around, `&`, `\|`, `^`, and the facts about them |
| `PageTable.dfy` | keys, hashes, groups and tags; lookup and insertion on tables as values; insertion as a finite-map update |
| `Occupancy.dfy` | exact failure, conservation, collisions |
| `Translation.dfy` | the reader and the writer of the table in memory |
| `Entries.dfy` | entries word by word: where a page stands and where it is searched |
| `Ranges.dfy` | one call of mapMemory as an update of the translation |
| `Layout.dfy`, `Translators.dfy` | layout tables, the two software translators and their round trips |
| `RegionMapper.dfy`, `Agreement.dfy` | mapping a layout; the page table agrees with the software walk |
| `Shipped.dfy`, `ShippedTest.dfy` | the shipped layout and setup as an instance, up to the passed memory test |
| `AreaSize.dfy`, `PageRuns.dfy`, `RunsComplete.dfy` | the two readers that summarise a page table |
| `MemoryTest.dfy`, `ReadingTest.dfy` | the two halves of the memory test, also through the page table |
| `HeapCheck.dfy`, `HeapGeometry.dfy` | the consistency check of possibly corrupted heaps, and the bytes of the heaps it accepts |
| `Allocation.dfy` | routing of allocations to the heaps |

Conventions. Words are numbers below 2^32 and wrap-around is written `Wrap`. A shift by a
constant is a division, or a multiplication that is wrapped where it can overflow; a mask of
low bits is a remainder. Wherever the operands of `&`, `|` and `^` are arbitrary, the operators
are the bitwise functions of `Words`. A table that ends with a terminator is the sequence up to
and including its first terminator. Each method is proved equal to a function of its inputs and
the old memory; the lemmas say what that function means. `hide` statements only keep
definitions out of a proof that does not need them, and automatic induction is switched off
for every lemma.

Where comments and code disagree, the model follows the code. The comment at
source/memory_mapping.cpp:1056-1058 speaks of all eight slots of a group, but slot 0 is never
tried (line 1068). The comment at lines 1072-1073 speaks of the first bit of a slot, but the
whole upper word is compared with 0, so an invalid entry with a non-zero word counts as taken.

Results that differ from what one may expect:

- `SegmentSeparatedIffOddMask`: the 2048 pages of a segment have distinct primary groups if and
  only if bit 0 of HTABMASK is set; otherwise pages 0 and 0x400 collide in every segment.
- `WriterAgreesIffAligned`: writer and reader agree on the group for every hash if and only if
  the origin and mask bits of SDR1 do not overlap.
- `ListingCompleteIff`: the listing of runs shows every hit page of segments 0 to 14 with a later
  miss if and only if no run with a later miss starts at address 0 or, behind a miss, at a page
  with frame 0 and all attribute bits 0.
- `AcceptsBlockOutside`, `AcceptedBlockInside`: the heap check accepts a heap with a block that
  reaches outside it, because the addition of its bounds test wraps; an accepted block is inside
  if and only if its end does not exceed 32 bits.
- `CounterEndsIffSizeFits`, `MapMemory`: for a range above 0xFFFE0000 bytes the counter never
  reaches the end; the loop still ends, in failure, when the table is full.
- `RangeKeysDistinctIff`, `RangeTranslatedIff`: a successful call leaves every page of its range
  translated to its own physical page if and only if no two pages a multiple of 256 MiB apart
  have the same VSID, which is so for every range of at most 256 MiB.
- `NumberedIffWholeBuffers`, `TestPassesIffWholeBuffers`: the memory test writes, and accepts,
  every word of every region if and only if all chunk sizes are multiples of 0x4000 bytes;
  `HalfBufferUnwritten` is a layout of which it writes nothing.
- `SegmentEndlessIff`, `LongestPrefixUnlessOverrun`: with an end address above 0xFFFE0000 the scan
  of the last segment for the area size never ends if and only if its address wraps and all
  pages of that segment are hit, and the size is too large if and only if a fully hit range
  starts inside the last segment and the first page of that segment is hit.
- `AllocSizeRoundsUp`, `AlignZeroRequestsNothing`: the requested size is the rounded-up size if
  and only if the rounding does not overflow; on overflow, and for alignment 0, size 0 is
  requested.

## Model

| member | source | states |
|---|---|---|
| PageTable.HomesDiffer | source/memory_mapping.cpp:1046-1060 | the primary and the complement group of a page are never the same |
| PageTable.TagIdentifiesPage | source/memory_mapping.cpp:1038-1060 | for every table size, group and upper word together determine VSID, page index and hash bit, so an entry is hit only by the page it was made for |
| PageTable.FieldsMakeTag | source/memory_mapping.cpp:891-915 | a word passes the four field tests exactly when it is the one upper word that belongs to the page and hash |
| PageTable.TopFree | source/memory_mapping.cpp:1066-1085 | the slot chosen is the highest free one among slots 1 to 7, or none is free |
| PageTable.FirstMatch | source/memory_mapping.cpp:881-920 | the slot found is the lowest one that holds the tag |
| PageTable.Insert | source/memory_mapping.cpp:1063-1117 | entering a page fails exactly when slots 1 to 7 of both its groups are taken |
| PageTable.InsertByHashEffect | source/memory_mapping.cpp:1063-1110 | an entry made under one hash changes what is found for that page under that hash and nothing else |
| PageTable.InsertRefinesUpdate | source/memory_mapping.cpp:1016-1119 | entering an untranslated page is a finite-map update of the translation, although slots are tried downwards and searched upwards |
| PageTable.InsertAllRefinesUpdate | source/memory_mapping.cpp:1016-1119 | entering distinct untranslated pages, successful or not: exactly a prefix becomes translated to its lower words, every other page keeps its translation (`Ranges.MapMemoryRefinesUpdate` and `Agreement.MappingKeysDistinct` say when the pages are distinct) |
| PageTable.InsertAllKeepsOthers | source/memory_mapping.cpp:1016-1119 | entering pages leaves both lookups of every other page alone, whatever the table holds |
| Entries.HashJoinsVsidAndPage | source/memory_mapping.cpp:1046-1051 | the primary hash is the exclusive or of the nineteen low bits of the VSID with the page index, below 2^19, and the secondary hash its complement |
| Entries.HomeShowsVsid | source/memory_mapping.cpp:1046-1060 | the ten low bits of the group, joined with those of the page index by an exclusive or, are those of the VSID, complemented for the secondary hash |
| Entries.EnteredWords | source/memory_mapping.cpp:1038-1110 | entering a page writes two words: the upper one with valid bit, VSID, hash bit and abbreviated page index, the lower one behind it, in the highest free slot but slot 0 of the group that the hash of VSID and page index selects, of the complemented one only if the primary one is full |
| Entries.MappedPageWords | source/memory_mapping.cpp:1016-1110 | the same for a page of mapMemory, in terms of the registers and the two addresses |
| Entries.OnePageMapped | source/memory_mapping.cpp:1002-1120 | a known answer: with SDR1 1 and VSID 0x00AABBCC, mapping the page 0x28000000 at 0x80000000 into an empty table writes 0xD55DE600 and 0x28000192 at words 0x3CCE and 0x3CCF |
| Entries.FindFindsFirst | source/memory_mapping.cpp:881-920 | the search of a group finds the first of its eight slots whose upper word marks the page |
| Entries.PrimaryLookupFinds | source/memory_mapping.cpp:857-864 | without the second hash an entry is found if and only if a slot of the primary group holds a valid entry with hash bit 0, this VSID and this abbreviated page index |
| Entries.FullLookupFinds | source/memory_mapping.cpp:857-873 | with it the complemented group is searched for an entry with hash bit 1, if the primary group has none |
| Occupancy.StopsWhereStuck | source/memory_mapping.cpp:1059-1119 | n pages are entered if and only if the first n find slots and the next one finds both its groups full in the table they leave |
| Occupancy.SecondaryOnlyWhenFull | source/memory_mapping.cpp:1086-1110 | a page ends up under the complemented hash if and only if its primary group was full |
| Occupancy.InsertAllAppend | source/memory_mapping.cpp:459-480 | entering one list and then another, with the early stop, is entering their concatenation |
| Occupancy.InsertConserves | source/memory_mapping.cpp:1066-1085 | one insertion keeps both words of every taken slot, does not touch slot 0, and takes one more slot |
| Occupancy.InsertAllConserves | source/memory_mapping.cpp:1066-1117 | the same over every run: as many more taken slots as pages entered |
| Occupancy.OddMaskSeparates | source/memory_mapping.cpp:1046-1059 | with mask bit 0 set, equal primary groups within a VSID mean equal pages |
| Occupancy.EvenMaskCollides | source/memory_mapping.cpp:1046-1059 | with mask bit 0 clear, pages 0 and 0x400 of every segment share their primary group |
| Occupancy.SegmentSeparatedIffOddMask | source/memory_mapping.cpp:1046-1059 | a segment has no primary collisions if and only if mask bit 0 is set |
| Occupancy.RoomSuffices | source/memory_mapping.cpp:1038-1085 | one VSID, mask bit 0 set, a free slot in each primary group: every page is entered |
| Occupancy.PrimaryLookupSeesAll | source/memory_mapping.cpp:842-842 | then all pages stand under the primary hash, and the primary-only lookup finds exactly them besides the old entries |
| Translation.AcceptsTag | source/memory_mapping.cpp:877-915 | the reader's tests on an address accept exactly the tag of its page |
| Translation.GetPageEntryForAddressEx | source/memory_mapping.cpp:875-922 | the first entry of the reader's group with the tag of the page, or none |
| Translation.WholeSdr1SelectsGroup | source/memory_mapping.cpp:860-862 | passing the whole of SDR1 as page mask selects the group of its nine mask bits, for hashes below 2^19 |
| Translation.MaskSelectsGroup | source/memory_mapping.cpp:866-867 | the nine mask bits select the group for any hash, also the complemented one |
| Translation.PrimaryHashBound | source/memory_mapping.cpp:860-860 | the primary hash is below 2^19 |
| Translation.GetPageEntryForAddress | source/memory_mapping.cpp:857-873 | the lookup of the page under the primary and, if wanted, the complemented hash; no entry for a VSID above 24 bits |
| Translation.WriterSelectsGroup | source/memory_mapping.cpp:1059-1063 | relative to the table origin the writer's group address is the reader's group |
| Translation.WriterAgreesIffAligned | source/memory_mapping.cpp:1010-1063 | that holds for every hash if and only if origin and mask bits of SDR1 do not overlap |
| Translation.OverlapMisleadsWriter | source/memory_mapping.cpp:1059-1060 | with an overlap a concrete hash is written to a group the reader does not search |
| Translation.PackedTag | source/memory_mapping.cpp:1041-1041 | the packed upper word is the tag the reader looks for |
| Translation.PackedPtel | source/memory_mapping.cpp:1033-1042 | the packed lower word in closed form |
| Translation.PtelFields | source/memory_mapping.cpp:1033-1042 | its fields: real page number, R and C, WIMG and PP, and no other bit |
| Translation.FillTopFree | source/memory_mapping.cpp:1062-1085 | one probe loop: the pair goes to the highest free slot among 7 to 1, nothing else changes |
| Translation.EnterPage | source/memory_mapping.cpp:1018-1117 | the loop body of mapMemory: one insertion, or an unchanged table and failure |
| Translation.CounterEndsIffSizeFits | source/memory_mapping.cpp:1015-1016 | the guard of the loop holds for ever, for every wrapped value of the 32-bit counter, if and only if the size is above 0xFFFE0000 |
| Translation.MapMemory | source/memory_mapping.cpp:1002-1120 | for every range: the loop ends, and the table left and the result are those of entering the pages of the range in order; above 0xFFFE0000 bytes it goes on round the address space until it fails |
| Ranges.RangeKeysDistinctIff | source/memory_mapping.cpp:1016-1038 | the pages of a range have distinct keys if and only if no two pages a multiple of 2048 pages apart lie under the same VSID |
| Ranges.SmallRangeKeysDistinct | source/memory_mapping.cpp:1016-1038 | that is so for every range of at most 256 MiB, for any registers and any alignment |
| Ranges.LargeRangeKeysDistinct | source/memory_mapping.cpp:1016-1038 | and for every range of at most 4 GiB whose segments have distinct VSIDs |
| Ranges.MapMemoryRefinesUpdate | source/memory_mapping.cpp:1002-1120 | one call refines a finite-map update: if lookup missed for every page of the range, page i is afterwards translated to physical page pa + i for every page before the first failure, all of them on success, and every other page of the virtual address space keeps its translation |
| Ranges.AliasedRangeNotTranslated | source/memory_mapping.cpp:1016-1038 | if two pages of the range share a key, no table translates both to their own physical pages |
| Ranges.RangeTranslatedIff | source/memory_mapping.cpp:1002-1120 | so a successful call translates every page of its range to its own physical page if and only if no two pages share a key |
| Ranges.MappedRangeBytes | source/memory_mapping.cpp:1002-1120 | for page-aligned ranges frame plus offset takes byte x of the range to byte x of the physical range |
| Layout.LocateEa | source/memory_mapping.cpp:1164-1189 | every address of a region is one byte of one chunk |
| Layout.LocationBounds | source/memory_mapping.h:29-33 | that byte lies within its region, its chunk and the chunk's stretch of the region |
| Translators.EffectiveToPhysical | source/memory_mapping.cpp:1154-1191 | the window, the first region that holds the address and the walk over its chunks |
| Translators.PhysicalToEffective | source/memory_mapping.cpp:1122-1152 | the window and the search of all chunk lists in order |
| Translators.WindowTranslation | source/memory_mapping.cpp:1123-1157 | in the window the physical address is the effective one plus 0x30000000, both ways |
| Translators.FirstRegionAnswers | source/memory_mapping.cpp:1130-1149 | for any layout the first region with a chunk that holds the physical address answers |
| Translators.PhysicalAt | source/memory_mapping.cpp:1164-1190 | byte d of chunk j of region i is translated to that chunk's byte d |
| Translators.WalkBehindChunks | source/memory_mapping.cpp:1178-1190 | an address of a region that lies behind all its chunks is translated to 0 |
| Translators.EffectiveAt | source/memory_mapping.cpp:1130-1149 | the converse, although the offset is accumulated differently |
| Translators.EffectiveRoundTrip | source/memory_mapping.cpp:1122-1191 | there and back is the identity exactly on regions, window and 0; the translation is 0 exactly outside regions and window |
| Translators.PhysicalRoundTrip | source/memory_mapping.cpp:1122-1191 | the same from physical addresses |
| RegionMapper.MapChunks | source/memory_mapping.cpp:454-480 | the chunks of one region are mapped contiguously until one fails, for chunks of any size |
| RegionMapper.MemoryMappingForRegions | source/memory_mapping.cpp:447-482 | the table left is that of mapping the regions one after another, for chunks of any size; for chunks of at most 0xFFFE0000 bytes, that of entering the flattened page list of all regions |
| RegionMapper.RunRegionsIsRunPages | source/memory_mapping.cpp:448-481 | mapping region by region and chunk by chunk with early return enters the flattened list |
| RegionMapper.PageOfChunk | source/memory_mapping.cpp:454-478 | for chunks of any size and alignment: the effective and physical address of page x of chunk j |
| RegionMapper.OversizeChunkFails | source/memory_mapping.cpp:454-480 | a chunk above 0xFFFE0000 bytes makes the mapping of its region fail |
| RegionMapper.WellFormedIsCountable | source/memory_mapping.cpp:454-478 | every well-formed layout has only chunks of at most 0xFFFE0000 bytes, because the window takes part of the address space |
| RegionMapper.MappingPagesBacked | source/memory_mapping.cpp:454-478 | each listed page is backed by what the software walk finds at its address |
| RegionMapper.EasMembers | source/memory_mapping.cpp:454-478 | the listed pages are exactly the pages of the regions |
| RegionMapper.EasDistinct | source/memory_mapping.cpp:454-478 | no page is listed twice |
| Agreement.FreshVsidMisses | source/memory_mapping.cpp:903-909 | without a valid entry that carries the VSID, no page of the segment is found |
| Agreement.KeyIdentifiesPage | source/memory_mapping.cpp:1020-1038 | if no used segment shares the VSID of the segment of an address, only its own page has its key |
| Agreement.MappingKeysDistinct | source/memory_mapping.cpp:448-481 | if the used segments have pairwise distinct VSIDs, the pages of a page-aligned well-formed layout have distinct keys |
| Agreement.MapperEffect | source/memory_mapping.cpp:447-482 | also when mapping stops early: pages reached are translated to where the software walk puts them, every other address keeps its translation, in every segment whose VSID no used segment shares |
| Agreement.PageTableAgreesWithWalk | source/memory_mapping.cpp:447-482 | after mapping, with distinct VSIDs for the segments used, an address of these segments is translated if and only if it is in a region, and then frame plus offset is what EffectiveToPhysical gives; elsewhere both give nothing |
| Agreement.OneSegmentSucceeds | source/memory_mapping.cpp:521-535 | one segment, mask bit 0 set, room in each primary group: mapping cannot fail and the primary-only lookup agrees with the software walk, whatever the other registers hold |
| Shipped.ShippedLayoutWellFormed | source/memory_mapping.h:44-133 | the shipped tables are aligned, disjoint, fill their regions and stay clear of the window |
| Shipped.SetupMemoryMapping | source/memory_mapping.cpp:521-535 | segment 8 gets the unique VSID, SDR1 and the other registers are kept, and the shipped layout is mapped |
| Shipped.SetupKeepsRegisters | source/memory_mapping.cpp:521-533 | segment 8 is a paged segment with VSID 0x00AABBCC afterwards, every other register is what it was |
| Shipped.SetupKeepsOthers | source/memory_mapping.cpp:521-535 | every address outside segment 8 whose segment does not have the unique VSID is translated by the new registers and table as by the old ones, whatever the table held |
| Shipped.ShippedTranslations | source/memory_mapping.h:44-133 | where the shipped layout puts each byte of its five regions, in numbers |
| Shipped.SetupAgrees | source/memory_mapping.cpp:521-535 | after it, segment 8 translates exactly the shipped regions, as the software walk does, whatever the other registers hold |
| Shipped.EmptyTableIsReady | source/memory_mapping.cpp:521-535 | the conditions of SetupAgrees can be met: a page table without entries meets them |
| AreaSize.GetAreaSizeFromPageTable | source/memory_mapping.cpp:802-855 | for every call that returns: page size times the pages counted over the segments, also when the address wraps |
| AreaSize.HitIsPrimaryEntry | source/memory_mapping.cpp:842-842 | a page counts if and only if its primary group holds a valid entry for it with hash bit 0 |
| AreaSize.AddHits | source/memory_mapping.cpp:838-851 | one segment: pages added up to the first miss, going round behind the last address, and whether there was none |
| AreaSize.SegmentEndlessIff | source/memory_mapping.cpp:838-848 | the inner loop goes on for ever if and only if its address wraps before it reaches the end and all pages of the segment are hit |
| AreaSize.EndlessExactly | source/memory_mapping.cpp:819-853 | the scan never returns if and only if it gets as far as segment 15 and its inner loop never ends there |
| AreaSize.CyclicHitsEndAtMiss | source/memory_mapping.cpp:838-848 | going round, the pages counted are those from the first index up to the first miss |
| AreaSize.AreaIsRunAndOverrun | source/memory_mapping.cpp:802-855 | over all segments the pages counted are one run of hit pages from the start, plus those of the last segment that the wrapped address meets |
| AreaSize.AreaSizeIsLongestPrefix | source/memory_mapping.cpp:802-855 | the size is the page size times the length of the longest prefix of hit pages, across segment boundaries |
| AreaSize.LongestPrefixUnlessOverrun | source/memory_mapping.cpp:802-855 | for every end address: the count is the longest prefix of hit pages if and only if the wrapped address meets no further hit page |
| AreaSize.WrappedRangeIsEmpty | source/memory_mapping.cpp:809-814 | a range that wraps around the address space has size 0 |
| AreaSize.MeasuredAreaIsMappedArea | source/memory_mapping.cpp:802-855 | after the region mapper, the measured size is the size of the mapped area the layout describes, whatever the other registers hold |
| PageRuns.PrintPageTableTranslation | source/memory_mapping.cpp:924-987 | the collected runs are those of scanning the pages of the paged segments 0 to 14 |
| PageRuns.ScannedExactly | source/memory_mapping.cpp:932-944 | the pages looked at are exactly those of segments 0 to 14 that are not direct-store segments |
| PageRuns.ScannedAscending | source/memory_mapping.cpp:932-944 | in ascending order |
| PageRuns.StepFaithful | source/memory_mapping.cpp:944-985 | one address keeps the pushed runs and the open run true of the page table |
| PageRuns.ListedRunsFaithfulWhereScanned | source/memory_mapping.cpp:932-987 | for any registers, the runs describe disjoint ascending stretches of the scanned pages with their frames and attributes |
| PageRuns.ListedRunsAreFaithful | source/memory_mapping.cpp:932-987 | without direct-store segments these are stretches of addresses, ascending and disjoint |
| PageRuns.ShownBits | source/memory_mapping.cpp:936-949 | what a page of a run shows, bit by bit: Ks, Kp and N of its segment, PP and real page of its entry |
| RunsComplete.ListingCompleteIff | source/memory_mapping.cpp:944-985 | every hit page with a later miss lies in a listed run if and only if no run with a later miss starts at address 0 or at a zero page behind a miss |
| RunsComplete.ListingComplete | source/memory_mapping.cpp:944-985 | so, if the page at address 0 is not hit and no hit page has frame 0 and all attributes 0, every hit page with a later miss is listed |
| RunsComplete.ListedWhereScanned | source/memory_mapping.cpp:944-985 | the same by position for any registers, with direct-store segments passed over |
| RunsComplete.ListedRunsAreLongest | source/memory_mapping.cpp:952-978 | two listed runs of which one ends where the next starts could not have been one run |
| MemoryTest.WriteChunk | source/memory_mapping.cpp:352-366 | the words of a chunk get consecutive numbers, in whole buffers of 0x1000 words; a partial last buffer is not written |
| MemoryTest.WriteTestValuesToMemory | source/memory_mapping.cpp:331-378 | memory after all regions, each counted from 0 across its chunks |
| MemoryTest.FilledListAt | source/memory_mapping.cpp:345-366 | in a list of disjoint chunks of any size and alignment: every word in a whole buffer keeps the number the running counter gave it, every word behind the last whole buffer keeps what it held |
| MemoryTest.MemoryAfterWriting | source/memory_mapping.cpp:331-378 | the whole of memory afterwards, for layouts of any alignment: numbered words, lost words and words outside |
| MemoryTest.WrittenWordsReadBack | source/memory_mapping.cpp:331-378 | if chunk sizes are multiples of 0x4000 bytes, the word behind region start + 4w, by the software walk, is w, for every region and w |
| MemoryTest.NumberedIffWholeBuffers | source/memory_mapping.cpp:331-378 | whatever memory held before, all words hold their numbers if and only if every chunk size is a multiple of 0x4000 bytes |
| MemoryTest.HalfBufferUnwritten | source/memory_mapping.cpp:352-366 | of a region backed by a chunk of 0x2000 bytes no word is written |
| ReadingTest.ReadRegion | source/memory_mapping.cpp:392-441 | success if and only if every word of the region that the processor reads holds its index, in spite of the skip-ahead, for any address translation the processor applies |
| ReadingTest.ReadTestValuesFromMemory | source/memory_mapping.cpp:380-445 | that outcome for each region |
| ReadingTest.TestSucceeds | source/memory_mapping.cpp:331-445 | what the one half writes, the other accepts, for chunk sizes that are multiples of 0x4000 bytes and a processor that follows the software walk on the region |
| ReadingTest.TestPassesIffWholeBuffers | source/memory_mapping.cpp:331-445 | whatever memory held before, the test passes in every region if and only if every chunk size is a multiple of 0x4000 bytes |
| ReadingTest.PassedTestSeparates | source/memory_mapping.cpp:402-441 | a passed test shows that the words of a region lie at different places in memory |
| ReadingTest.PageTableFollowsWalk | source/memory_mapping.cpp:447-482 | after the region mapper, translation by segment registers and page table follows the software walk on every region |
| ReadingTest.MappedWordsReadBack | source/memory_mapping.cpp:331-482 | after mapping and writing, the word at the frame that the page table gives for region start + 4w is w |
| ReadingTest.MappedRegionsPassTest | source/memory_mapping.cpp:331-482 | after mapping and writing, the test of every region passes through the page table |
| ShippedTest.ShippedTestPasses | source/memory_mapping.cpp:331-535 | setup, writing and reading of the shipped layout: the test of every region passes through the page table, if mask bit 0 is set, the unique VSID is unused and each primary group has room |
| ShippedTest.ShippedTestPassesOnEmptyTable | source/memory_mapping.cpp:331-535 | in particular on a page table without entries |
| HeapCheck.LinkedExtends | source/memory_mapping.cpp:596-600 | the test of the previous link makes a new block differ from all visited ones |
| HeapCheck.WalkIsPrefix | source/memory_mapping.cpp:596-612 | any complete list from the head starts with the blocks walked |
| HeapCheck.CheckMemExpHeapBlock | source/memory_mapping.cpp:594-618 | ends for any contents of memory; true if and only if some finite null-terminated doubly linked list from head to recorded tail passes all tests; then its footprint was added |
| HeapCheck.CheckMemExpHeapCore | source/memory_mapping.cpp:620-637 | true if and only if both lists are intact and their footprints sum to the data area modulo 2^32 |
| HeapGeometry.AcceptedExactly | source/memory_mapping.cpp:594-637 | acceptance in the fields alone: two lists linked both ways from head to recorded tail, tags 0x5544 and 0x4652, the bounds of each block, and the sum of padding, headers and data |
| HeapGeometry.AcceptedIffNoByteLeft | source/memory_mapping.cpp:594-637 | a heap whose proper lists hold tagged blocks that lie in the data area and share no byte is accepted if and only if padding, headers and data of the blocks leave no byte of the data area over |
| HeapGeometry.AcceptedLeavesNoByte | source/memory_mapping.cpp:594-637 | an accepted heap whose blocks lie in the data area and share no byte leaves none over |
| HeapGeometry.FreshHeapAccepted | source/memory_mapping.cpp:620-637 | a fresh heap, with one free block that fills the data area, is accepted |
| HeapCheck.ConsistentListsDisjoint | source/memory_mapping.cpp:620-637 | in an accepted heap no block occurs twice or in both lists |
| HeapCheck.AcceptedBlockInside | source/memory_mapping.cpp:601-604 | an accepted block is inside the heap if and only if its end does not exceed 32 bits |
| HeapCheck.AcceptsBlockOutside | source/memory_mapping.cpp:601-636 | an accepted heap with a block outside it |
| Allocation.AllocSizeRoundsUp | source/memory_mapping.cpp:576-582 | for align = 2^k and align = -2^k the size asked for is the least multiple of 2^k not below size if and only if the rounding does not overflow, and 0 otherwise |
| Allocation.AllocSizeClearsBits | source/memory_mapping.cpp:576-582 | for any alignment the size asked for is size + \|align\| - 1 without the bits it shares with \|align\| - 1 |
| Allocation.EligibleForVideo | source/memory_mapping.cpp:571-574 | the regions asked for video memory are those that start from 0x88000000 to 0x88E60000 |
| Allocation.AlignZeroRequestsNothing | source/memory_mapping.cpp:577-582 | for alignment 0 the size asked for is 0 |
| Allocation.FirstGranting | source/memory_mapping.cpp:564-588 | the first eligible heap that grants; every eligible heap before it refused |
| Allocation.Heaps.AllocEx | source/memory_mapping.cpp:561-592 | the answer of the first granting heap becomes a new live block, null only if every eligible heap refused; live blocks stay disjoint and in their heaps' regions |
| Allocation.Heaps.Free | source/memory_mapping.cpp:709-727 | exactly the block is released, by the heap that produced it |
| Allocation.OwnerIsUnique | source/memory_mapping.cpp:719-722 | the region a live block lies in belongs to the heap that produced it |
| Allocation.LiveBlockHasOneRegion | source/memory_mapping.cpp:715-724 | every live block lies in exactly one region |
| Allocation.GrantedBlockApart | source/memory_mapping.cpp:584-587 | a block granted by one heap is disjoint from the live blocks of all heaps |
| Allocation.VideoAllocationsAreVideo | source/memory_mapping.cpp:571-574 | in the shipped layout a video allocation asks the video region and no other |
| Allocation.VideoAnswer | source/memory_mapping.cpp:561-592 | so it is refused if and only if the video heap refuses, and otherwise answered with a block inside video memory |
| Allocation.Heaps.AllocVideoMemory | source/memory_mapping.cpp:682-684 | in the shipped layout the result is the video heap's answer: null, or strictly between the bounds of video memory |
| Allocation.Heaps.Alloc | source/memory_mapping.cpp:678-680 | null only if every heap refused, otherwise a new live block strictly inside a region |

## Left out

- Kernel access: BAT setup, kernel patches, segment register writes, copying the page table in and out, cache flushes. `SetupMemoryMapping` starts from the copied registers and table.
- Threads, locks, hook registration, heap creation and destruction, free-size queries, `MEMFindContainHeap`: thin wrappers around code that is not part of this model.
- The expanded heap library: its answers are parameters of `AllocEx` bound by the contract `Honest`; its release of a block is `FreeToExpHeap`.
- The size of a block header comes from a header file that is not part of this model; it is the field `headerSize`.
- Memory read by the heap check is a total function of the address, so a fault on an unmapped address is not modelled. `CheckMemExpHeap` adds only the tag test and the lock.
- `searchEmptyMemoryRegions`: debug reporting with the scan of the reading test.
- Logging; in the reading test also the bounds of good and bad ranges that are only logged.
- The run listing: the code never lists the run that is still open at the end, nor segment 15; `ListingCompleteIff` therefore speaks of pages with a later miss in segments 0 to 14.
- AreaSize.GetAreaSizeFromPageTable: excluded are only the inputs for which it never returns (`Endless`, `SegmentEndlessIff`).
- Area sizes for a start that is not page-aligned or with direct-store segments in between: the method is proved for them, but what the count means is stated only for aligned starts and paged segments.
- MemoryTest.WriteChunk: memory is modelled word by word, so chunks start at a multiple of 4 bytes; they must lie in memory.
- ReadingTest.ReadRegion: the processor's translation is a parameter that must not fault on the words of the region; block address translation, caches and access rights are not part of it.
- ReadingTest.TestPassesIffWholeBuffers: region lengths are multiples of 4 bytes, since the test reads whole words only.
- Translation.MapMemory: SDR1 values whose origin and mask bits overlap are excluded; `WriterAgreesIffAligned` says why.
- The probe loops, the loop body of mapMemory and the inner loops of the other routines are methods of their own; the source has them inline.
