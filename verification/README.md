# QSINIT: verified models of its core algorithms

QSINIT is a boot loader with its own small runtime. This project models the seven parts of it whose correctness
everything else leans on, and proves what they promise.

**The system allocator** hands out memory in units of 64 KB. It keeps three views of one heap: a table with a word per
unit, an array of doubly linked free lists indexed by length, and the headers of free blocks, which are stored inside
the free memory itself; a bit per unit, packed into bytes behind the tables, marks read-only blocks. `MemTable`,
`FreeList`, `FreeSpace` and `ReadOnlyFlags` hold the values and their laws, `LiveBlocks` what a change leaves of the
other blocks, `HeapCalls` what each call of the interface does to table and marks, `Allocator` the class whose methods
update arrays in place. Allocation by address strategy, release with joining on both sides, resizing in place or by
moving, reservation at an address and the start-up of the heap keep the three views equal over every run of calls, so
that none of the checks that halt the machine can fail; contents of live blocks survive although free headers and marks
are written into the same memory. This needs the last mark to lie in the block of the tables, which it does but for four
heap sizes (`FlagOutsideSizes`); and the marks of the last units start as whatever the memory held unless the number of
units is a multiple of eight (`CleanStartIff`, `StaleMark`). Addresses appear as unit numbers relative to the table.

**The inflate decoder** is specified by reading functions over the bit stream (`Deflate`), by codewords and the Kraft
sum (`Canonical`), by an encoder (`Encoder`), and by streams whose bytes and data come from elsewhere
(`DeflateVectors`). The loops of the decoder, with its bit buffer, tables and output array, are proved against them in
`Inflate`, `Construction` and `Puff`. `setjmp` and `longjmp` become a result that says that the input ended; it leads to
return code 2.

**The FAT file system** is modelled from the one-sector write-back window up: packed table entries (`FatTable`), the
window with the mirrored table (`Window`), cluster chains as values (`Chains`), chain allocation and removal
(`FatAlloc`), the exFAT bitmap (`ExFatAlloc`), the contiguous, just fragmented and chained states of exFAT objects
(`ObjChains`) and their truncation (`ObjCut`), the bytes of a file in its clusters (`FileData`), reading, writing and
seeking on all four kinds of volume (`FatFile`), and long name slots (`LongNames`). The configuration is the one that is
compiled: exFAT and long names on, a sector buffer per file, no fast seek. Disk input and output never fails.

**The sector cache** keeps a free list, a recency ring, rings of blocks that belong to the same 256 KB group, an index
array and a bitmap per disk. `CacheLists` and `CacheState` hold the laws of these structures, `CacheData` the cached
sectors, `CacheQueue` the order in which cached locations are given up, `SectorCache` the class. Any run of reads,
writes and invalidations, together with the disk writes that the disk layer makes itself, is answered as the disks alone
would answer it, but for two cases. First, `cache_io` picks a block of the group before it makes room for a new one, and
uses it afterwards. If making room gives up just that block, the new entry is linked to itself. The methods return a
flag for this case; `AddBlock` shows that the tables stay consistent exactly without it, `Turn` gives the exact
condition on the state before the call, and `HeldBlockExample` states in which it happens. Second, a write the cache
does not take, because it is longer than half of the cache or runs past the end of the disk, goes to the disk without
it. The blocks such a write covers are dropped only if it stays on the disk and its handle carries no service flag;
otherwise a covered block is left outdated. `DiskLayerWrite` gives the exact condition, `DirectWriteExample` a case. The
bitmap says only that a group with a cached block has its bit set.

**Forwarded exports** (`Exports`): a lookup follows forwarders through a possibly cyclic graph of modules, marks them on
the way and rewrites each one on the path to what it finally stands for. The field `direct` of a forwarder is not
rewritten; the answer that later lookups keep consists of address, selector and the 16-bit flag.

**The memory map** is made of the ranges that the firmware data give (`MemoryReport`) by sort, elimination of equal
addresses, sweep, merge, rounding and split (`MemoryMap`). An entry that reaches 4 GB passes the size filter before it
is cut, so that its range can be short, a single address or out of order; `OverflowRange` and `ProperIff` say exactly
when, `PhantomIff` for which borders the sweep then makes up memory that nobody reported, `ReportSound` for which
reports it does not, and `StrayReport` and `StrayTable` give reports for which it does. The rounding to pages can turn a
small block into one of almost 4 GB: `RoundedLength` says for which blocks, `ReportIff` for which reports,
`CrossedExample` gives four ranges, and `ReportLong` says which reports never meet this. Before the merge a report can
need more entries than the 16 that the header declares for the table (`Sweep`, `CommonPieces`, `NestedReport`), but
never more than the 32 that the assembler code reserves, and afterwards it has at most twelve (`Basemem`).

**The CRC** (`Crc32`): the table-driven computation is the division by the reflected polynomial, bit by bit.

Promises that turned out not to hold on all inputs are stated with their exact condition: the read-only marks of the
heap, the ranges of entries that reach 4 GB, the page rounding and the size of the memory table (above), the held block
and the missed writes of the cache (above), resizing a memory block to more than 0xFFFF0000 bytes
(`ShrinkKeepsBlockIff`, `LostRuns`), a reservation without units (`EmptyReservation`, `ReservationFits`), removing an
exFAT object that ends in the highest cluster number (`RemoveObjectIff`), the free-cluster record on an empty volume
(`RecordStaysExactIff`), and long names of 254 and 255 units, which are written but not read back (`ReadName`).

`machine.dfy` holds the fixed-width types and the byte order shared by all modules, `bitstream.dfy` sequences of bits.

## Model

| member | source | states |
|---|---|---|
| MemTable.TiledIffRendered | system/src/init/misc/membase.c:31-70 | the word-by-word consistency of memtable is the same as being the concatenation of used blocks (size word, then FFFF words) and maximal runs of zeros, starting with a used block |
| MemTable.UnitsOfRounded | system/src/init/misc/membase.c:166 | Round64k(size)>>16 is the rounded-up number of units exactly as long as the sum fits into 32 bits |
| MemTable.MarkKeepsTiled | system/src/init/misc/membase.c:210-223 | putting a used block into free units keeps the tiling |
| MemTable.ClearKeepsTiled | system/src/init/misc/membase.c:281-283 | zeroing the words of a used block keeps the tiling |
| MemTable.ResizeKeepsTiled | system/src/init/misc/membase.c:331-359 | a resize in place, shrinking or growing over the free run behind, keeps the tiling |
| MemTable.RunsAfterMark | system/src/init/misc/membase.c:196-223 | the maximal free runs after an allocation: the used run is replaced by what remains of it, every other run stays |
| MemTable.FreedRuns | system/src/init/misc/membase.c:273-291 | the maximal free runs after a free: one run joined with the free neighbours on both sides, every other run stays |
| MemTable.ShrunkRuns | system/src/init/misc/membase.c:335-345 | the maximal free runs after a shrink |
| MemTable.GrowTest | system/src/init/misc/membase.c:348-351 | the test for growing in place holds exactly when the units behind the block are free up to the new size |
| MemTable.ReservedRuns | system/src/init/misc/membase.c:431-451 | the maximal free runs after a reservation: the parts before and behind it become runs of their own |
| MemTable.FreeUndoesAlloc | system/src/init/misc/membase.c:155-294 | freeing a block that was just allocated gives back the very same table |
| MemTable.ChoiceIsUnique | system/src/init/misc/membase.c:160-195 | lowest and highest address leave no choice of the block, best fit none of its length |
| MemTable.ShrinkKeepsBlockIff | system/src/init/misc/membase.c:330-345 | with a new size above 0xFFFF0000 the macro gives 0; the shrinking branch keeps a block exactly when the rounded size is not 0 |
| MemTable.LostRuns | system/src/init/misc/membase.c:330-345 | such a resize frees a block without joining the free run below it, so the lists still describe the table if and only if no free unit lies directly below |
| MemTable.OversizedRealloc | system/src/init/misc/membase.c:330-345 | in a heap of 8 MB with the block of the tables and one block at unit 2, resizing the latter to 0xFFFFFFFF bytes frees it, and the free runs are then not those of the lists |
| FreeList.ChainPush | system/src/init/misc/membase.c:119-128 | a block pushed in front of a list leaves a correctly linked list |
| FreeList.ListsUnlink | system/src/init/misc/membase.c:131-142 | unlinking one block keeps all lists correctly linked |
| FreeList.WalkNode | system/src/init/misc/membase.c:171-193 | what a walk over a free list meets passes the signature, header and table checks |
| FreeSpace.CountAll | system/src/init/misc/membase.c:530-542 | the lengths of all listed blocks add up to the number of zero words |
| ReadOnlyFlags.FlagsFitIff | system/src/init/misc/membase.c:41-49 | the last byte of the packed read-only marks lies in the block of the tables if and only if the number of units is a multiple of 8 or the size stored for the tables is no multiple of 64 KB |
| ReadOnlyFlags.FlagOutsideSizes | system/src/init/misc/membase.c:41-52 | below 4 GB it lies outside for exactly four heap sizes: 16257, 32514, 48771 and 65028 units |
| ReadOnlyFlags.FlagOutside | system/src/init/misc/membase.c:41-52 | for those sizes the marks of the last units are bits of the first byte behind the block of the tables |
| ReadOnlyFlags.MarkBreaksHeader | system/src/init/misc/membase.c:210-217 | storing such a mark, if it changes, destroys the signature of a free block that stands there |
| ReadOnlyFlags.CleanStartIff | system/src/init/misc/membase.c:43-58 | all marks but that of the tables are clear at the start, whatever the memory held before, if and only if the number of units is a multiple of 8 |
| ReadOnlyFlags.StaleExample | system/src/init/misc/membase.c:43-47 | with 1001 units the mark of the last unit is a bit of byte 16141, which is not cleared |
| Allocator.MemManager.constructor | system/src/init/misc/membase.c:31-60 | for any earlier contents of the memory: the tables become the first used, read-only block, all other units one listed free block, the marks what the partial clearing leaves; if the marks fit, the three views agree |
| Allocator.StaleMark | system/src/init/misc/membase.c:43-47 | for every number of units that is no multiple of 8 and every mark left set among its last units: a reservation there without the read-only flag makes a block that is read-only, and freeing it leaves it in place |
| Allocator.MemManager.FbAdd | system/src/init/misc/membase.c:119-128 | the list of that size gains the block in front, all other lists and headers stay |
| Allocator.MemManager.FbDel | system/src/init/misc/membase.c:131-142 | the list of that size loses exactly this block; the size and signature checks pass |
| Allocator.MemManager.PickBlock | system/src/init/misc/membase.c:171-195 | the search over all lists finds a listed block that the address strategy prefers, or none if no run is long enough; no panic is reached |
| Allocator.MemManager.AllocWorker | system/src/init/misc/membase.c:155-227 | 0 if and only if no free run is long enough; otherwise with maxaddr the tail of the highest fitting run, without it the start of the lowest one if minaddr is set or the machine has a BIOS, and the start of a smallest one on EFI; the table gains exactly this block, its mark in the packed bytes is set or cleared, no other mark and no other byte of a used unit changes |
| Allocator.MemManager.Alloc | system/src/init/misc/membase.c:229-247 | 0 for size 0 or a size of the whole heap and above; otherwise the block that the flags choose as in alloc_worker, with the requested bytes zero unless that is switched off |
| Allocator.MemManager.MemFree | system/src/init/misc/membase.c:258-294 | a writable block becomes zeros in the table and its run joins both neighbours; a read-only block stays; no byte of another used unit changes |
| Allocator.MemManager.MemRealloc | system/src/init/misc/membase.c:315-379 | for every 32-bit size: up to 0xFFFF0000 the block keeps the first min(old, new) bytes and is zero behind them, in place or moved, on a BIOS machine to the lowest fitting run and on EFI to a smallest one, and a result of 0 leaves everything; above it the block is lost, and the heap stays consistent if and only if no free unit lies directly below; no byte of another block changes |
| Allocator.MemManager.MemReserve | system/src/init/misc/membase.c:399-461 | the address range, rounded down to a unit and cut at the end of the heap in 32-bit arithmetic, becomes a used block exactly when all its units are free; the mark is set if asked and otherwise stays as it was; each reason code has its exact condition |
| Allocator.MemManager.ReservationFits | system/src/init/misc/membase.c:415-430 | below 4 GB the units of a reservation are those the range touches inside the heap, and there are some unless the range is empty and starts on a unit |
| Allocator.MemManager.WrappedReservation | system/src/init/misc/membase.c:415-430 | a range that wraps around at 4 GB is refused, takes one unit or has no units, with the exact condition of the last case |
| MemTable.EmptyReservation | system/src/init/misc/membase.c:431-451 | a reservation without units on a free unit runs on over the table into the used word behind it, which is the panic |
| Allocator.MemManager.ReserveHoles | system/src/init/misc/membase.c:63-69 | no hole of the memory map is left as free memory, no used unit changes, and every block this adds is read-only |
| Allocator.MemManager.MemAvail | system/src/init/misc/membase.c:525-547 | all free bytes of the table, and the length of its largest free run |
| Allocator.MemManager.Perform | system/src/init/misc/membase.c:31-461 | one call of the interface does to table and marks exactly what that call promises for the present state; it keeps the three views equal, every read-only block, and which blocks were asked for as read-only |
| Allocator.MemManager.Run | system/src/init/misc/membase.c:31-461 | any sequence of calls does so, with the marks as bytes of the heap memory: each call has exactly its effect on the state the calls before it left, no consistency check of the allocator ever fails, a live block is refused as read-only exactly if a call asked for it, among the units whose mark was cleared at the start, and a live block that no call frees or resizes keeps its size and all of its bytes |
| HeapCalls.EffectIsUnique | system/src/init/misc/membase.c:155-461 | on a BIOS machine the effect of a call, its result included, is determined by the table and the marks; the free lists, their order and the contents of the memory have no influence on it |
| HeapCalls.HistoryIsUnique | system/src/init/misc/membase.c:155-461 | so a sequence of calls determines all results and all states of the table and the marks |
| Inflate.State.Bits | system/src/init/zip/puff.c:136-155 | the next bits of the stream as a number, low bit first, independent of what was buffered; none if the input ends before |
| Huffman.DecodeStep | system/src/init/zip/puff.c:245-265 | one bit of canonical decoding |
| Inflate.State.SlowDecode | system/src/init/zip/puff.c:245-265 | the result and stream position of bit-by-bit canonical decoding |
| Inflate.State.FastDecode | system/src/init/zip/puff.c:273-315 | the same result and the same stream position as the SLOW version, for symbols, for -10 and for the end of input |
| Canonical.LeftComparesKraft | system/src/init/zip/puff.c:365-372 | the codes left over are positive, zero or negative as the Kraft sum is below, equal to or above one |
| Canonical.LeftStaysNegative | system/src/init/zip/puff.c:365-372 | once over-subscribed, a code stays so, so returning early gives the right sign |
| Canonical.DecodeCodeword | system/src/init/zip/puff.c:245-265 | decoding the codeword of section 3.2.2 of RFC 1951 of a symbol returns that symbol and consumes exactly its length |
| Canonical.IncompleteIff | system/src/init/zip/puff.c:245-265 | some input decodes to -10 exactly when the code lengths leave codes over |
| Canonical.CompleteAlwaysDecodes | system/src/init/zip/puff.c:245-265 | a complete code never yields -10 given enough input |
| Canonical.DecodeMeans | system/src/init/zip/puff.c:245-265 | decoding by tables reads exactly the symbol whose codeword comes next in the stream |
| Canonical.ReadCodeword | system/src/init/zip/puff.c:245-265 | at most one symbol can come next: no codeword is a prefix of another |
| Construction.CountLengths | system/src/init/zip/puff.c:357-363 | the number of symbols of each length |
| Construction.SpaceLeft | system/src/init/zip/puff.c:365-372 | the result compares the Kraft sum with one, 0 also for no codes |
| Construction.Construct | system/src/init/zip/puff.c:350-389 | count and symbol tables of the canonical code with these lengths, and the sign of the code space left |
| Puff.StoredBlock | system/src/init/zip/puff.c:174-207 | a stored block: length check against its complement, input and output limits, bytes copied |
| Puff.CopyMatch | system/src/init/zip/puff.c:499-512 | a match copies byte by byte, so overlapping copies repeat |
| Deflate.CopyRepeats | system/src/init/zip/puff.c:499-512 | a copied byte is the byte dist positions before it, overlapping or not |
| Deflate.LengthTable | system/src/init/zip/puff.c:453-458 | each entry of the two tables of length symbols in closed form: the first eight lengths without extra bits, then groups of four symbols with one extra bit more each, and 258 without extra bits |
| Deflate.LengthSpans | system/src/init/zip/puff.c:453-458 | from 3 on each length symbol begins where the one before it ends, so a symbol and its extra bits give lengths from 3 to 258 and no others |
| Deflate.DistanceTable | system/src/init/zip/puff.c:459-466 | each entry of the two tables of distance symbols in closed form: pairs of symbols with one extra bit more each |
| Deflate.DistanceSpans | system/src/init/zip/puff.c:459-466 | each distance symbol begins where the one before it ends, from 1 to 32768 |
| Puff.LengthAndDistance | system/src/init/zip/puff.c:482-497 | length and distance from their symbols and extra bits, with the codes for invalid symbols and distances |
| Puff.CodesBlock | system/src/init/zip/puff.c:446-520 | literals and matches up to the end-of-block symbol, as the block format says, in scan and output mode |
| Puff.FixedCodes.Build | system/src/init/zip/puff.c:554-589 | the tables of the two fixed codes of section 3.2.6 of RFC 1951 |
| Puff.FixedBlock | system/src/init/zip/puff.c:546-593 | a block with the fixed codes |
| Deflate.FixedKraft | system/src/init/zip/puff.c:571-585 | the fixed literal/length code is complete, the fixed distance code is not |
| Puff.ReadCodeLengths | system/src/init/zip/puff.c:707-711 | the code length code lengths in their transmission order |
| Deflate.AllTransmitted | system/src/init/zip/puff.c:691-692 | the order of transmission reaches each of the 19 symbols |
| Deflate.OrderRule | system/src/init/zip/puff.c:691-692 | the place of every symbol in the order of transmission: the repeats first, then 0, then outwards from 8 |
| Puff.ReadLengthList | system/src/init/zip/puff.c:718-746 | the run-length coded list of code lengths, with its error codes |
| Deflate.RepeatSpans | system/src/init/zip/puff.c:729-740 | symbol 16 stands for exactly 3 to 6 repeats, 17 for 3 to 10 and 18 for 11 to 138 zeros |
| Puff.ConstructUsable | system/src/init/zip/puff.c:752-760 | the verdicts on the two codes in terms of the code lengths |
| Puff.DynamicBlock | system/src/init/zip/puff.c:682-764 | a block with described codes, including every error code of the description |
| Puff.DecodeBlock | system/src/init/zip/puff.c:837-845 | stored, fixed and dynamic blocks and the invalid type |
| Puff.Decompress | system/src/init/zip/puff.c:810-857 | return code, lengths and destination as the specification of the format gives them, for output and scan mode; bytes behind the output stay |
| Deflate.ScanPredictsWrite | system/src/init/zip/puff.c:194-203 | what a scan returned is returned by every call with a buffer of at least the scanned size, and 1 by every call with a smaller one |
| DeflateVectors.FixedCodewords | system/src/init/zip/puff.c:571-577 | the codewords of the fixed literal and length code are those that section 3.2.6 of RFC 1951 lists |
| DeflateVectors.FixedDistances | system/src/init/zip/puff.c:580-585 | the codewords of the fixed distance code are the numbers of five bits |
| DeflateVectors.FixedVector | system/src/init/zip/puff.c:810-857 | the stream 4B 04 02 00, a fixed block with a literal and a match of length 3 and distance 1, decodes to four bytes of 97 |
| DeflateVectors.DynamicVector | system/src/init/zip/puff.c:682-857 | a stream of 14 bytes, a dynamic block whose code lengths are sent with runs of zeros, decodes to the same four bytes |
| Encoder.LengthFits | system/src/init/zip/puff.c:453-458 | every length from 3 to 258 has a symbol whose extra bits reach it |
| Encoder.DistanceFits | system/src/init/zip/puff.c:459-466 | every distance from 1 to 32768 has a symbol whose extra bits reach it |
| Encoder.TokensBack | system/src/init/zip/puff.c:446-520 | a serialised list of literals and matches decodes to its LZ77 expansion |
| Encoder.FixedCarriesAll | system/src/init/zip/puff.c:546-593 | the fixed codes can carry every literal and every match of the format |
| Encoder.DynamicBack | system/src/init/zip/puff.c:682-764 | a serialised dynamic block decodes to its expansion |
| Encoder.DescribedIff | system/src/init/zip/puff.c:682-764 | the pairs of code lengths that some header describes are exactly those the decoder accepts |
| Encoder.AnyCodes | system/src/init/zip/puff.c:682-764 | so tokens that any such pair of codes can carry make up a dynamic block with their expansion |
| Encoder.StoredBack | system/src/init/zip/puff.c:174-207 | a serialised stored block decodes to its bytes, whatever the skipped bits are |
| Encoder.StreamBack | system/src/init/zip/puff.c:810-857 | a stream of serialised blocks decodes to its meaning and ends at its last bit |
| Encoder.RoundTrip | system/src/init/zip/puff.c:810-857 | decoding inverts encoding: the data come back, exactly the bytes of the stream are consumed whatever follows, and too small a buffer is reported |
| FatTable.PutGet | system/src/init/fat/ff.c:1011-1137 | a stored entry comes back cut to what an entry can hold, and every other entry keeps its value, FAT12 neighbours in the same byte included |
| FatTable.PutKeepsTop | system/src/init/fat/ff.c:1122-1132 | storing a FAT32 entry keeps the top four bits of its word |
| Window.FatFs.ViewIs | system/src/init/fat/ff.c:893-944 | the view used below is the medium with the dirty window laid over its sector and over the copy of that sector |
| Window.FatFs.CopiesEqual | system/src/init/fat/ff.c:893-919 | with two FATs the copies are equal on the medium whenever the window is clean |
| Window.FatFs.SyncWindow | system/src/init/fat/ff.c:893-919 | writing the window back changes no sector of the view and leaves the window clean |
| Window.FatFs.MoveWindow | system/src/init/fat/ff.c:923-944 | the window shows the asked sector of an unchanged view |
| Window.StoreInSector | system/src/init/fat/ff.c:1087-1137 | bytes stored in one sector are bytes stored in the whole table |
| Window.FatFs.GetFat | system/src/init/fat/ff.c:1011-1077 | the status of a cluster on FAT12, FAT16, FAT32 and for contiguous, just fragmented and chained exFAT objects; the view stays |
| Window.FatFs.PutFat | system/src/init/fat/ff.c:1088-1137 | exactly one entry of the table changes; clusters out of range are refused; no other area changes |
| Chains.ChainDistinct | system/src/init/fat/ff.c:1256-1328 | following a chain never comes back to a cluster |
| Chains.ChainUnique | system/src/init/fat/ff.c:1256-1328 | a table has at most one chain from a cluster |
| Chains.StretchKeeps | system/src/init/fat/ff.c:1392-1399 | linking a free cluster behind the end of one chain keeps all other chains |
| Chains.NewChainKeeps | system/src/init/fat/ff.c:1392-1399 | starting a chain at a free cluster keeps all other chains |
| Chains.RemoveKeeps | system/src/init/fat/ff.c:1256-1328 | removing a suffix of one chain frees exactly its clusters and leaves every other chain |
| FatAlloc.SearchFree | system/src/init/fat/ff.c:1378-1389 | the search goes once round the clusters from the hint and finds a free one if there is one, or the first invalid entry |
| FatAlloc.CreateChain | system/src/init/fat/ff.c:1336-1410 | the next cluster, or a newly taken one, or 0 or 1; a new cluster is on every kind of volume the first free one going round from the end of the chain, or from the hint for a new chain; the table, the bitmap and the object state are given exactly, and so are the hint, the count of free clusters and the mark of a changed record, which stay if no cluster is taken |
| FatAlloc.NextIsTaken | system/src/init/fat/ff.c:1360-1393 | on exFAT a free cluster that follows the end of a chain is the one taken; a contiguous object then stays contiguous and the FAT is not written |
| FatAlloc.CreateKeeps | system/src/init/fat/ff.c:1336-1410 | on a sound FAT12, FAT16 or FAT32 volume it never returns 1, returns 0 exactly when no cluster is free, and otherwise appends one previously free cluster and keeps all chains disjoint |
| FatAlloc.FollowsInside | system/src/init/fat/ff.c:1351-1357 | inside a chain it just follows the chain |
| FatAlloc.RecordStaysExactIff | system/src/init/fat/ff.c:1401-1404 | an exact count of free clusters stays exact when one is taken if and only if some cluster was in use before |
| FatAlloc.EmptyVolumeExample | system/src/init/fat/ff.c:1401-1404 | on every empty FAT12 or FAT16 volume the first cluster taken leaves an exact record one too high |
| FatAlloc.RemoveChain | system/src/init/fat/ff.c:1256-1328 | frees the entries from a cluster on and ends the chain before it, on any table contents, cyclic ones included; the recorded count rises by the entries freed but not above the number of clusters, and the mark of a changed record is set if it rose |
| FatAlloc.RemoveCuts | system/src/init/fat/ff.c:1256-1328 | on a sound volume exactly the given cluster and those after it are freed |
| ExFatAlloc.ChangeBitmap | system/src/init/fat/ff.c:1194-1223 | the bits of a run of clusters change up to the first one that already has the value |
| ExFatAlloc.FindBitmap | system/src/init/fat/ff.c:1154-1186 | for one cluster: the first free one searching round from the hint, or 0 if there is none |
| ObjChains.ContiguousClusters | system/src/init/fat/ff.c:1048-1058 | get_fat on a contiguous object gives consecutive clusters, as many as its size takes |
| ObjChains.FragmentKeeps | system/src/init/fat/ff.c:1360-1399 | breaking a contiguous object up leaves its cluster sequence, followed by the new cluster |
| ObjChains.ContiguousGrows | system/src/init/fat/ff.c:1360-1393 | a contiguous object stays contiguous when the new cluster follows its end |
| ObjChains.FatPartGrows | system/src/init/fat/ff.c:1392-1399 | later clusters of a fragmented object are linked on the FAT |
| ObjChains.FollowObject | system/src/init/fat/ff.c:1040-1068 | get_fat on an exFAT object of any state gives its next cluster where its size goes on, and an end mark at its last cluster |
| ObjChains.GrownObject | system/src/init/fat/ff.c:1336-1410 | create_chain at the end of an exFAT object of any state: the object holds its clusters and the new one, whatever state it changes to |
| ObjChains.ObjectsKept | system/src/init/fat/ff.c:1336-1410 | on a sound exFAT volume create_chain fails only when every bit of the bitmap is set, and otherwise appends one cluster whose bit was clear; all other objects keep their clusters, the bitmap keeps their bits, and no two objects meet |
| ObjChains.FillFatChain | system/src/init/fat/ff.c:1231-1246 | the links of the contiguous part are written to the FAT and the object becomes an ordinary chain |
| ObjChains.FillSame | system/src/init/fat/ff.c:1231-1246 | this leaves the cluster sequence of the object unchanged |
| ObjChains.FillKeeps | system/src/init/fat/ff.c:1231-1246 | the object then holds the same clusters with every link on the FAT |
| ObjChains.RemoveObject | system/src/init/fat/ff.c:1256-1328 | remove_chain on exFAT: runs of clusters are freed in the bitmap, the new end is marked, the state follows, and the recorded count rises by the clusters passed |
| ObjChains.RemoveObjectIff | system/src/init/fat/ff.c:1282-1314 | it succeeds in every case, passes every cluster from the cut on, and clears exactly the bits of the removed clusters if and only if the last of them is not the highest cluster of the volume with an end mark equal to its number plus one |
| ObjCut.LastMark | system/src/init/fat/ff.c:1048-1058 | the end mark of a contiguous object whose size takes all of its clusters is the number of its last cluster plus one only for cluster 0x7FFFFFFE |
| ObjCut.RemoveKeeps | system/src/init/fat/ff.c:1256-1328 | but for that case, truncating an object of any state on a sound exFAT volume frees and counts exactly its clusters from the cut on, the object holds those before the cut in its new state, all other objects keep theirs, and the bits in use are again those of the objects |
| ObjChains.HighestClusterStays | system/src/init/fat/ff.c:1282-1314 | a one-cluster object on cluster 0x7FFFFFFE is such a case |
| FileData.StoreRun | system/src/init/fat/ff.c:3648-3674 | replacing a run of sectors inside one cluster replaces those bytes of the file and no others |
| FileData.SpaceGrows | system/src/init/fat/ff.c:3618-3639 | a new cluster at the end keeps the bytes before it |
| FatFile.Fil.Read | system/src/init/fat/ff.c:3486-3580 | on FAT12, FAT16, FAT32 and exFAT: the bytes at the file pointer, as many as asked for and as the file has, across the dirty buffer, direct transfers and cluster borders; the file is unchanged |
| FatFile.Fil.Write | system/src/init/fat/ff.c:3590-3705 | on all four kinds, exFAT objects of every state included: exactly the bytes from the file pointer on are replaced or appended; a short count means that no cluster is free or, but on exFAT, that 4 GiB would be reached; objects without a cluster in common, the bitmap bits of others and sectors of others stay; the file is marked as modified exactly if it already was or it is writable and no error was recorded |
| FatFile.Fil.Seek | system/src/init/fat/ff.c:4049-4124 | the file pointer moves, in a writable file also past the end; the size is raised before each cluster is taken, so even after a failure the file is as long as the pointer got, and its old bytes stay; a position inside the file is always reached; the file is marked as modified exactly if it already was or its size changed |
| FatFile.Fil.constructor | system/src/init/fat/ff.c:3728 | as long as a file without errors is not marked as modified its size and its first cluster are those of the opening, so that nothing is lost if no directory entry is written |
| FatFile.GrownChain | system/src/init/fat/ff.c:1336-1410 | on every kind: a taken cluster is appended to the clusters of the object, and each object without a cluster in common keeps its own |
| FatFile.Fil.WriteReadBack | system/src/init/fat/ff.c:3486-4124 | a write, a seek back and a read give exactly the bytes written, across the dirty buffer, cluster borders and newly taken clusters |
| FatFile.OverwriteTwice | system/src/init/fat/ff.c:3590-3705 | two pieces written one after the other are one piece |
| FatFile.Fil.OtherFileKept | system/src/init/fat/ff.c:3590-3705 | a file with no cluster in common keeps its bytes |
| LongNames.PutLfn | system/src/init/fat/ff.c:1734-1759 | all 32 bytes of the slot: units, terminator and padding of this part, fixed fields, and the last-entry flag exactly on the top part |
| LongNames.PickLfn | system/src/init/fat/ff.c:1696-1725 | succeeds exactly on readable slots, wrapping of order 0 included, and then puts the units and the terminator of the slot into the buffer and nothing else |
| LongNames.SlotMeans | system/src/init/fat/ff.c:1696-1759 | what pick_lfn makes of a slot that put_lfn wrote; the top slot is readable exactly for names of at most 253 units |
| LongNames.StoreName | system/src/init/fat/ff.c:2334-2347 | the slots of a name from the top part down, nothing else in the directory |
| LongNames.Capture | system/src/init/fat/ff.c:2162-2168 | one slot of a run is taken exactly if its order and checksum fit and it is readable |
| LongNames.ReadName | system/src/init/fat/ff.c:2155-2170 | reading the slots of a stored name back gives the name and order 0 exactly when it has at most 253 units; longer ones are lost |
| Exports.FirstIs | system/src/init/misc/mdt.c:105-108 | of several exports with one ordinal the first is taken, and none only if there is none |
| Exports.PathUnique | system/src/init/misc/mdt.c:94-130 | an export has at most one path of forwarders to an actual export |
| Exports.PathDistinct | system/src/init/misc/mdt.c:113-116 | such a path never comes back to an export |
| Exports.NoWayOut | system/src/init/misc/mdt.c:113-117 | a forwarder that leads back to an earlier one, or to an export that does not exist, has no path |
| Exports.FindExport | system/src/init/misc/mdt.c:94-130 | ends on every graph; fails exactly if no path avoids the forwarders being resolved, with all entries as before; otherwise rewrites exactly the forwarders on the path to the values at its end |
| Exports.Lookup | system/src/init/misc/mdt.c:94-130 | with no lookup under way it succeeds exactly when the forwarders lead to an actual export |
| Exports.AnswerKept | system/src/init/misc/mdt.c:119-122 | after the rewriting every lookup that had an answer has the same one |
| Exports.AnswerWas | system/src/init/misc/mdt.c:119-122 | and every answer afterwards is one that was given before |
| MemoryReport.FindRanges | system/src/init/meminit.c:50-94 | the list of ranges is the low range, then in order those of the ACPI entries that are taken, or the two older ranges if there are no entries; the entries themselves change only where a length is cut |
| MemoryReport.ReportedSizes | system/src/init/meminit.c:64-93 | the older sizes count kilobytes from 0 and from 1 MB on, and units of 64 KB from 16 MB on |
| MemoryReport.OverflowRange | system/src/init/meminit.c:66-80 | an entry that reaches 4 GB passes the size filter before it is cut and ends at 0xFFFFEFFF: its range is in order if and only if it starts below 0xFFFFEFFF, and keeps two pages if and only if it starts at 0xFFFFD000 at the latest |
| MemoryReport.ProperIff | system/src/init/meminit.c:50-94 | all ranges of a report are in order if and only if every entry that reaches 4 GB starts below 0xFFFFEFFF and, without entries, the size above 16 MB does not wrap |
| MemoryReport.LongRanges | system/src/init/meminit.c:50-94 | all ranges above 1 MB have two pages if such entries start at 0xFFFFD000 at the latest and the older call gives nothing or 8 KB |
| MemoryMap.SortEvents | system/src/init/meminit.c:107-133 | the exchange sort with its interleaved elimination gives exactly the events that the swaps of the sort leave in order, less all but the first of each address |
| MemoryMap.SelectedSorted | system/src/init/meminit.c:107-120 | the swaps put any events into order of address and neither lose nor invent one |
| MemoryMap.DistinctIncreasing | system/src/init/meminit.c:121-133 | the kept events are strictly increasing by address |
| MemoryMap.EventsLeft | system/src/init/meminit.c:107-133 | no boundary address of a range is lost and no other appears |
| MemoryMap.Sweep | system/src/init/meminit.c:134-158 | stays inside the table if and only if the events need no more entries than it has; then the blocks cover exactly the addresses from the first event on that are not strictly between an end and a start, and a start in the last place leaves an entry open with the length the table held before |
| MemoryMap.SpannedInUnion | system/src/init/meminit.c:134-158 | for ranges in order, overlapping or not, all these addresses belong to reported ranges |
| MemoryMap.UnionSpanned | system/src/init/meminit.c:134-158 | for ranges that are in order and pairwise disjoint they are all reported addresses |
| MemoryMap.PhantomIff | system/src/init/meminit.c:107-158 | for any ranges, in order or not, none of which starts at the last byte of another: no memory that was not reported appears if and only if every reported border, but for a start above all others, lies in a reported range |
| MemoryMap.StrayReport | system/src/init/meminit.c:66-158 | for every base above 0xFFFFEFFF, an entry of 256 KB there makes everything from the end of the reported memory to 0xFFFFEFFF part of a block and is itself left open |
| MemoryMap.StrayTable | system/src/init/meminit.c:50-203 | and for a base above 0xFFFFF000 the finished table records that memory, whatever it held before |
| MemoryMap.Merge | system/src/init/meminit.c:159-173 | the merged blocks cover the same addresses and no two of them touch |
| MemoryMap.RoundedLength | system/src/init/meminit.c:176-183 | a block above 1 MB gets the length of its whole pages if and only if its rounded borders do not cross; otherwise the recorded length wraps to 0xFFFFF000 |
| MemoryMap.SplitKeeps | system/src/init/meminit.c:186-196 | the split at 16 MB keeps order and coverage |
| MemoryMap.TableMeans | system/src/init/meminit.c:174-203 | if the rounded borders of no block cross, the table records exactly the whole pages of every block above 1 MB and the lower blocks as they are, in order; unless it is full no entry goes across 16 MB; blocks start at 0xFFFFF000 at the latest |
| MemoryMap.TableMeansIff | system/src/init/meminit.c:174-203 | the table records exactly the whole pages of the blocks above 1 MB and the lower blocks as they are if and only if no rounded borders cross; blocks start at 0xFFFFF000 at the latest |
| MemoryMap.FitsIff | system/src/init/meminit.c:134-183 | for all ranges in order, ties included: no rounded borders cross if and only if no start that opens a block and no end behind it that closes one leave a page incomplete between them; both are conditions on the sorted borders |
| MemoryMap.HeldIff | system/src/init/meminit.c:107-183 | unless a range starts at the last byte of another the same condition can be read off the ranges without sorting them |
| MemoryMap.ReportIff | system/src/init/meminit.c:50-203 | for every report whose entries that reach 4 GB start below 0xFFFFEFFF, the finished table is right if and only if this condition holds |
| MemoryMap.ReportSound | system/src/init/meminit.c:50-173 | for every such report the blocks contain reported memory only, and no entry stays open |
| MemoryMap.ReportLong | system/src/init/meminit.c:50-203 | and if its ranges are disjoint and such entries start at 0xFFFFD000 at the latest, the blocks are exactly the reported memory and no borders cross |
| MemoryMap.AlignedFit | system/src/init/meminit.c:176-183 | for any ranges it is enough that the high ones start, or that they end, on page borders |
| MemoryMap.CrossedExample | system/src/init/meminit.c:96-203 | four overlapping ranges of more than 256 KB leave a block of 64 bytes that is recorded with length 0xFFFFF000 |
| MemoryMap.LongRangesFit | system/src/init/meminit.c:134-183 | with ranges of at least two pages above 1 MB that are covered completely no borders cross; the size filter alone does not guarantee the two pages |
| MemoryMap.CollectBlocks | system/src/init/meminit.c:96-173 | for any ranges behind the low one: the blocks fit into the table if and only if their number before the merge does; then they are strictly increasing blocks that do not touch, maximal runs of what the events span |
| MemoryMap.PiecesNeeded | system/src/init/meminit.c:134-158 | any ranges in order need at most one entry for each border but the last, disjoint ones no more than an entry for each range |
| MemoryMap.CommonPieces | system/src/init/meminit.c:134-158 | the low range beside n ranges that have an address in common and different borders needs exactly 2 * n entries before the merge |
| MemoryMap.NestedReport | system/src/init/meminit.c:50-158 | reports of n nested entries of more than 256 KB show it: eight need all of the 16 entries of the header, nine need 18, ten need 20 |
| MemoryMap.EntriesCount | system/src/init/meminit.c:159-173 | after the merge there are no more entries than reported ranges |
| MemoryMap.Basemem | system/src/init/meminit.c:50-203 | from the firmware data to the finished table: with the 32 entries that start.asm reserves every report of up to ten entries fits, and the table ends with at most one entry more than there are ranges |
| Crc32.MakePattern | system/src/init/zip/crc32.c:51-54 | the fourteen terms give the reflected polynomial |
| Crc32.MakeCrcTable | system/src/init/zip/crc32.c:42-62 | every entry is the register after dividing its byte bit by bit |
| Crc32.ByteEnters | system/src/init/zip/crc32.c:58-60 | eight message bits entering one by one are eight zero bits entering after the byte was added to the register |
| Crc32.TableStep | system/src/init/zip/crc32.c:65 | one table step is the division by the eight bits of the byte |
| Crc32.Crc32 | system/src/init/zip/crc32.c:71-84 | 0 without a buffer or a table; otherwise the CRC of section 8 of RFC 1952 by bit-at-a-time division, the unrolled loop included |
| Crc32.CrcConcat | system/src/init/zip/crc32.c:71-84 | the CRC of a concatenation is the CRC of the second part started with that of the first |
| Crc32.Residue | system/src/init/zip/crc32.c:71-84 | data followed by their own CRC, lowest byte first, always have the CRC 0x2144DF1C, whatever the data and the start value are |
| SectorCache.Cache.constructor | system/src/ldrapps/cache/cproc.c:312-330 | all blocks but block 0 are free and nothing is cached; old bitmap bits do no harm |
| CacheState.KeyInjective | system/src/ldrapps/cache/cproc.c:406-412 | the packed disk and group number is the same only for the same disk and group |
| CacheState.KeyFits | system/src/ldrapps/cache/cproc.c:180-204 | no packed number equals the mark of a free index entry |
| CacheLists.RingRemove | system/src/ldrapps/cache/cproc.c:349-356 | unlinking a block leaves a correctly linked recency ring, with a new head if it was the head |
| CacheLists.RingAppend | system/src/ldrapps/cache/cproc.c:473-482 | a block linked before the head is the last of the ring |
| CacheLists.ClassAdd | system/src/ldrapps/cache/cproc.c:494-502 | a block joins the snext ring of its group |
| CacheLists.ClassLeave | system/src/ldrapps/cache/cproc.c:358-363 | a block leaves its snext ring, which loses its links if one block remains |
| SectorCache.Cache.FreeEntry | system/src/ldrapps/cache/cproc.c:344-376 | the block moves from the ring to the head of the free list, its class loses it, the bit of a group goes with its last block; all tables stay consistent |
| SectorCache.Cache.EvictOne | system/src/ldrapps/cache/cproc.c:385-394 | exactly the first block without priority is freed, or the oldest if all have it; the ones before it lose their priority and go to the end in their order |
| SectorCache.Cache.ExpandFree | system/src/ldrapps/cache/cproc.c:380-397 | refuses exactly requests for more than half of the cache, otherwise provides the free blocks |
| SectorCache.Cache.FindGroup | system/src/ldrapps/cache/cproc.c:433-435 | finds the last block of the group before the head of the ring, else the last one of all, else none; the head only if the group has no other |
| SectorCache.Cache.Search | system/src/ldrapps/cache/cproc.c:428-446 | finds the block of a location exactly if it is cached |
| CacheQueue.SparedIs | system/src/ldrapps/cache/cproc.c:385-394 | the queue after a location was given up: the first without priority, or the first of all, is gone, and those before it follow at the end without their priority |
| CacheQueue.TouchedLast | system/src/ldrapps/cache/cproc.c:468-531 | an accessed location that was cached or is to be cached is the last to be given up |
| CacheQueue.TouchedOthers | system/src/ldrapps/cache/cproc.c:385-516 | every other location stays cached unless a new one needs the room, and then exactly one is given up |
| CacheQueue.TouchedNoneTwice | system/src/ldrapps/cache/cproc.c:428-446 | no location is cached twice |
| CacheQueue.ReadCaches | system/src/ldrapps/cache/cproc.c:420-571 | while enough blocks are free, what is cached after a read is what was cached before and every location the read meets |
| CacheQueue.PurgedHas | system/src/ldrapps/cache/cproc.c:638-673 | what an invalidation leaves cached |
| SectorCache.Cache.AddBlock | system/src/ldrapps/cache/cproc.c:468-516 | the new entry keeps all tables consistent if and only if the block kept from the search is not the block just freed |
| SectorCache.Cache.MoveToEnd | system/src/ldrapps/cache/cproc.c:517-531 | a block that was found moves to the end of the ring; only the order changes |
| SectorCache.Cache.Acquire | system/src/ldrapps/cache/cproc.c:455-516 | taking a block goes wrong if and only if the cache is full and the block kept from the search is the one to be given up |
| SectorCache.Cache.Turn | system/src/ldrapps/cache/cproc.c:420-568 | reads give the disk sectors, writes leave every cached block equal to the new disk; a location that was cached or is to be cached is afterwards the last of the queue, with priority if its group has it, one free block is used or exactly the block to be given up is replaced, and otherwise the queue stays; in every state a held block is given up if and only if a new block is needed, the cache is full, the location is not cached and the block to be given up is the one the search of the group finds |
| SectorCache.HeadHeld | system/src/ldrapps/cache/cproc.c:428-516 | with a head without priority this means that the head is the only block of its group |
| SectorCache.Cache.CacheIo | system/src/ldrapps/cache/cproc.c:406-571 | the same for a stretch of sectors: the queue and the free blocks afterwards are those of one access after the other; no held block is given up if there are enough free blocks |
| SectorCache.Cache.CacheRead | system/src/ldrapps/cache/cproc.c:574-582 | returns exactly the sectors of the disk, or refuses; the cache stays coherent; with enough free blocks all locations of the request are cached afterwards, beside all that were |
| SectorCache.BordersMeans | system/src/ldrapps/cache/cproc.c:406-427 | the locations a request touches are that of its first sector and as many more as there are 32 KB borders inside it; `CacheRead` asks for a free block for each of them |
| SectorCache.Cache.CacheWrite | system/src/ldrapps/cache/cproc.c:585-603 | a request it takes: the disk takes exactly the buffer, the cache stays coherent, and whole locations become cached unless the write is direct; a request that is only too long drops the blocks it covers, but with a service flag in the handle it drops none, and for the whole disk then breaks the bitmap if and only if something of the disk is cached |
| SectorCache.Cache.DiskLayerWrite | system/src/init/fat/diskio.c:97-160 | a write as the disk layer makes it, with its own disk access for what the cache left: the cache stays in step with the disks if and only if the request is not missed, that is unless it is not served, drops nothing and covers a cached block with other contents |
| SectorCache.FlaggedMisses | system/src/ldrapps/cache/cproc.c:585-603 | every write with a service flag that is not served and changes a sector of a cached block is missed |
| SectorCache.DirectWriteExample | system/src/ldrapps/cache/cproc.c:585-603 | with a cache of 1 MB every direct write of 1088 sectors or more from sector 0 on that changes the first one is missed while that sector is cached |
| SectorCache.Cache.Invalidate | system/src/ldrapps/cache/cproc.c:638-673 | exactly the blocks of the disk in the covered range of locations are dropped, the others keep their order, and all consistency is kept; one for the whole disk also clears the priorities of its groups; with service flags in the handle no block is dropped, and a request for the whole disk clears its bits although they stay |
| SectorCache.Cache.Run | system/src/ldrapps/cache/cproc.c:344-673 | any run of requests, each write followed by what the disk layer writes itself, is answered as the disks alone would answer it and leaves a consistent, coherent cache with exactly the queue, the free blocks and the priorities that the requests lead to; it ends early only with a request for which a held block is given up or with one that is missed, and the flag for the latter is set if and only if the request is missed |
| SectorCache.Cache.Missed | system/src/init/fat/diskio.c:97-160 | the test for a missed request on cache and disks as they are |
| SectorCache.UntouchedServed | system/src/ldrapps/cache/cproc.c:585-673 | reads and plain invalidations are never missed, and a write is not missed if it is served, or carries no flag and lies inside the disk, or meets no cached block |
| SectorCache.CountBlocks | system/src/ldrapps/cache/cproc.c:322-330 | free list and recency ring together hold every block but block 0 once |
| SectorCache.NoSelfLink | system/src/ldrapps/cache/cproc.c:494-502 | no block of a consistent cache is linked to itself, which is what a held block that was given up becomes |
| SectorCache.HeldBlockExample | system/src/ldrapps/cache/cproc.c:428-516 | a consistent state of a cache of 1 MB, for every disk from 2 MB to 2 TB, in which the next read gives up the held block |
| CacheData.CoherentWrite | system/src/ldrapps/cache/cproc.c:559-563 | updating the block of a location keeps all blocks equal to the written disks |
| CacheData.CoherentMiss | system/src/ldrapps/cache/cproc.c:447-455 | a write to a location that is not cached needs no update |

## Left out

- Allocator.MemManager.constructor: for the four heap sizes of `FlagOutsideSizes` only the tables and the lists are described, and no later call is.
- Allocator.MemManager.MemRealloc: a read-only block, which halts the machine, is not resized; after a lost block with free memory below it nothing more is said about the heap.
- Allocator.MemManager.MemReserve: ranges in the heap that have no units are left to `EmptyReservation`, which shows that they end in the panic.
- Allocator.MemManager.ReserveHoles: says that no hole stays entirely free, not which read-only block covers it.
- Allocator.MemManager.Run: calls with addresses that are no live blocks are skipped, as are resizes of read-only blocks, sizes above 0xFFFF0000 and reservations without units.
- Allocation: owners and signatures of blocks, release at process exit, the low-memory notification with its second attempt, the exit when an allocation may not fail, and the lock.
- Puff.Decompress: counters are unbounded, which only matters for more than 4 GB of input or output; source and destination do not overlap.
- Puff.StoredBlock: a bitwise or of disjoint byte fields is written as an addition.
- Window.FatFs.GetFat: clusters of a FAT32 volume are numbered below 2^28, which mounting does not check.
- ExFatAlloc.FindBitmap: one cluster only, as every compiled caller asks for.
- ExFatAlloc.ChangeBitmap: the nested loops over bits, bytes and sectors are one loop over bits.
- FatFile.Fil.Write: on exFAT sector numbers fit into 32 bits and the bitmap's own clusters are marked in use.
- FatFile.Fil.Seek: the bytes between the old end of a file and the place a seek stretched it to are whatever the new clusters held.
- Files: opening, truncating, closing, directories and paths; the sector window is taken not to show a sector of the file.
- LongNames.StoreName: the slots lie next to each other; moving on to the next directory sector is not part of this model.
- LongNames.ReadName: deleted, short and label entries between the slots, and the comparison of names without regard to case.
- Exports.FindExport: exports with names, whose names take part in the comparison, and thunks.
- MemoryMap.Basemem: the firmware calls are inputs: the size of the low memory, at most ten ACPI entries and the two older sizes.
- MemoryMap.UnionSpanned: overlapping ranges can lose reported addresses; only that none is invented is proved for them.
- MemoryMap.CollectBlocks: what the sweep overwrites when the blocks do not fit into the table is not part of this model.
- MemoryMap.PhantomIff: ranges that start at the last byte of another are left out, since the sort decides which of the two borders is kept; `SpannedInUnion` and `ReportSound` have no such limit.
- MemoryMap.TableMeans: blocks that start in the last page, which only entries out of order lead to, are left to `StrayTable`.
- SectorCache.Cache.CacheIo: for a request of several locations enough free blocks are a sufficient condition, the exact one is that of `Turn` for each location; after a held block was given up nothing more is said about the cache; disk errors and the statistics counters are left out.
- SectorCache.Cache.Run: it ends with the first request that is missed or gives up a held block; what happens to a cache that is out of step with its disk is not part of this model.
- SectorCache.Cache.constructor: sizes and arrays are given; memory limits, disk enumeration and priority areas of volumes are left out.
- Cached sectors are opaque values and a block is a sequence of them; the byte layout of the cache memory is left out.
- BIOS and EFI calls, menus, the shell, module loading and launch, and the code of ff.c that is not compiled.
