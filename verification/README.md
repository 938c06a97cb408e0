# A verified model of the FAT volume layer

This project models the FAT16/FAT32 volume layer of `fat/fatlib.c` (the kernel's copy in
`kernel/fat.c` has the same algorithms), the new-file transaction of `fat/fput.c`, the 64-bit division
of `kernel/arith64.c` and the iterative quicksort of `kernel/fat.c`, and proves their properties with
Dafny.

A volume is an image of 512-byte sectors. `Volume` reads and writes its allocation tables byte by byte
and runs the chain allocator over them. `FatFile` is an open file: a position and a size over a chain.
`FatDir` is an open directory. What the allocator does is stated once, on the table as a sequence of
numbers (`Allocator.dfy`), and what a file operation may touch is stated once, on the image
(`FileBytes.Kept`); the theorems about runs, about other files and about whole transactions are proved
from those statements. The formats on disk are also stated byte by byte, with literal offsets and values
(`TableImage.IsTableValue`, `DirEntry.EntryFields`, `LongNames.RunBytes`, `Listing.ShownBytes`,
`FreeSlots.RowBytes`), so that what is written here means the same to any other system.

Assumptions, all from the code: `bytes_per_sector` is 512 (`fat/fatlib.c:406`); a volume is well formed
when its regions follow one another inside the partition, the image and 32-bit sector numbers, every
copy of the table has room for every cluster, and cluster numbers stay below the end marks
(`Geometry.Bpb.WellFormed`); the copies of the table agree when the volume is mounted
(`TableImage.Mirrored`); `Volumes.BlankVolume` gives a volume that meets all of this. Reading and writing a sector inside the image succeeds. The file system kind is
a parameter. Clock readings are arbitrary values. C's masks and shifts on bytes and words are written
with `%` and `/`, wrap-around with `% 2^32` or `% 2^64`.

| file | contents |
|---|---|
| `Words.dfy` | machine words; products and quotients |
| `Bits.dfy`, `Arith64.dfy` | bit operations by recursion; count-leading-zeros, shift-subtract division, signed wrappers |
| `QuickSort.dfy` | median-of-three quicksort with the 64-slot stack, in place on an array |
| `Geometry.dfy` | the layout arithmetic, with its 32-bit wrap-around |
| `Chains.dfy`, `Allocator.dfy`, `Ledger.dfy` | the table as linked lists; effects of the allocator; runs of it on many files |
| `TableImage.dfy`, `Volume.dfy` | tables as bytes of the image; entry access and the allocator as methods |
| `FileBytes.dfy`, `DirEntry.dfy`, `FatFile.dfy` | bytes of chains; short entries; open files |
| `FileRuns.dfy`, `VolumeRuns.dfy`, `Runs.dfy` | runs of calls on one file; runs of operations on many files; calls of the methods make such runs |
| `Unicode.dfy`, `LongNames.dfy` | UTF-8 and UTF-16; long-name slots, checksum, assembly of a name |
| `Listing.dfy`, `Directory.dfy`, `FatDir.dfy`, `RoundTrip.dfy` | the scan over slots; writing entries; open directories; what is written is listed |
| `FreeSlots.dfy`, `Put.dfy` | room for entries; the transaction that copies a file onto the volume |
| `HiddenPut.dfy`, `PutKeeps.dfy` | when a new file is listed under its name, and directories where it is not; what else a put does to the listing |
| `ListedRuns.dfy` | what a directory lists stays listed while files are written |
| `Paths.dfy` | path components, printing, the current directory |

## What the code does that a reader may not expect

- `fat_file_ensure_size` rounds in 64 bits, so for sizes within a cluster of 2^64 it asks for no clusters
  (`FatFiles.RequiredWraps`; `FatFiles.RequiredExact` says exactly when). A write that ends there frees
  the chain of the file and leaves it with a size and no cluster, unless a hole that cannot be filled
  stops it before (`FatFiles.IsLost` in the contract of `Write`). `neededcluster` has the same sum, but
  there a wrapped size is refused anyway (`Puts.NeededCluster`).
- `findfreeslots_root_fat16` counts free slots across sectors, while `write_file_directory_entries`
  needs them in one sector. A put into the root of FAT16 can therefore fail and be undone although
  some later sector has room (`Puts.HasRoom` states the exact condition, `Puts.CrossingRow` gives such
  a root).
- A file that was put need not be listed under its name. Whether it will be is decided by the directory
  before (`Puts.WillBeListed`): by the place that the search finds (`Puts.IsFound`, unique), by the end
  markers before it, and by the name that is shown there. `Puts.PutThenList` proves the equivalence.
  - `findfreeslots` takes rows of one sector only. When too few slots remain in the sector of the end
    marker, the entries go to a later sector, behind the end marker, where no listing gets to them
    (`HiddenPuts.HiddenBehindEnd` gives such a directory). If nothing is used after the end marker, this
    is the only way, and it never happens in the fixed root (`HiddenPuts.EndBeforePlace`).
  - Long-name slots left over directly before a new run spoil its long name, unless they pass for its
    beginning: the first of them is marked as last and counts all slots, and each carries the checksum
    of the new entry (`LongNames.Joins`). A deletion leaves such slots behind (`fat/fatlib.c:5374-5377`).
    `HiddenPuts.LeftoverInFront` gives a directory with one, and says which names are listed after it.
- A put that takes the slot of the end marker writes no new one. Entries left over behind it are listed
  again (`PutKeeps.ShownAfter` says exactly which, `PutKeeps.BroughtBack` gives a directory). If nothing is
  used after the end marker, a put adds its own file or nothing (`PutKeeps.ShownPlusOne`).
- `fput` on an entry of size zero that has a chain all the same (a size that is a multiple of 2^32)
  starts a new chain and forgets the old one, whose clusters stay allocated (`Puts.UsedChain`,
  `Puts.ForgottenChain`).
- A path component of 256 bytes or more gives no components at all, which `fat_chdir` then takes for the
  root, but only if it is met before the 32nd component; after that nothing more is read
  (`Paths.LimitedExact`).

## Model

| member | source | states |
|---|---|---|
| `Arith64.Clz` | kernel/arith64.c:112-121 | for a non-zero word the binary search finds the number of leading zeros: the word lies between the two powers of two |
| `Arith64.DivideStart` | kernel/arith64.c:184-188 | the loop count is between 1 and 63 and the initial remainder is below the divisor, so the loop invariant holds at entry |
| `Arith64.BitCount` | kernel/arith64.c:184-184 | the difference of the leading-zero counts gives a loop count from 1 to 63 |
| `Arith64.SignTest` | kernel/arith64.c:192-193 | the sign bit of `b - rem - 1` is the test "remainder >= divisor", although both are full 64-bit words |
| `Arith64.DivideStep` | kernel/arith64.c:189-195 | every iteration keeps the division identity between numerator prefix, quotient bits and remainder |
| `Arith64.LongDivide` | kernel/arith64.c:183-197 | the shift-subtract loop yields the quotient and the remainder |
| `Arith64.DivMod` | kernel/arith64.c:157-197 | for all words a and b with b non-zero: a = q * b + r and r < b, through every shortcut of the code |
| `Arith64.DivSigned` | kernel/arith64.c:200-204 | the quotient truncates toward zero, except the minimum divided by -1, which gives the minimum |
| `Arith64.ModSigned` | kernel/arith64.c:233-238 | the remainder belongs to the truncating quotient and takes the numerator's sign, for every numerator |
| `Arith64.TruncatingDivisionUnique` | kernel/arith64.c:200-238 | truncating quotient and remainder are unique, so the two wrappers answer for the same division |
| `QuickSort.Swap` | kernel/fat.c:5678-5686 | exactly two elements trade places |
| `QuickSort.Insertion` | kernel/fat.c:5688-5714 | the range ends sorted, holding the same elements; nothing outside it moves |
| `QuickSort.MedianOfThree` | kernel/fat.c:5744-5758 | three ordered probes park the pivot so that both inner scans have a sentinel |
| `QuickSort.ScanUp` | kernel/fat.c:5770-5774 | the upward scan stops inside the range |
| `QuickSort.ScanDown` | kernel/fat.c:5776-5780 | the downward scan stops inside the range |
| `QuickSort.Partition` | kernel/fat.c:5760-5788 | the pivot ends between smaller and larger elements of the same range |
| `QuickSort.StackBound` | kernel/fat.c:5790-5818 | halving pending ranges of fewer than 2^33 elements fit the 64 slots |
| `QuickSort.HalvingReplace` | kernel/fat.c:5790-5818 | pushing the smaller side last keeps the halving of pending ranges |
| `QuickSort.SortingStep` | kernel/fat.c:5730-5819 | replacing a range by its sorted parts keeps: unsorted pairs lie in one pending range |
| `QuickSort.Sort` | kernel/fat.c:5716-5820 | for every total preorder and fewer than 2^33 elements the array ends as a sorted permutation of itself, within the stack |
| `Geometry.NoWrap` | fat/fatlib.c:440-515 | on a well-formed volume the 32-bit sums are exact and the regions follow one another inside the partition |
| `Geometry.RegionsAt` | fat/fatlib.c:440-515 | where the root and every cluster are, from the fields of the boot sector; the root is rounded up to whole sectors |
| `Geometry.MaxClusterIs` | fat/fatlib.c:595-610 | the cluster count is the number of whole clusters of the data area |
| `Geometry.LastClusterInside` | fat/fatlib.c:918-929 | the last sector of the last cluster lies inside the partition, without wrap-around |
| `Geometry.ClusterInside` | fat/fatlib.c:612-627 | every sector of every data cluster lies in the data area |
| `Geometry.ClusterSectorRoundTrip` | fat/fatlib.c:612-650 | `getclusterfromsector` undoes `clustertosector` for every sector of a cluster |
| `Geometry.SectorInCluster` | fat/fatlib.c:629-650 | conversely, a sector that is assigned a data cluster lies in it |
| `Geometry.ClustersDisjoint` | fat/fatlib.c:612-627 | distinct clusters own distinct sectors |
| `Geometry.EntryInside` | fat/fatlib.c:690-730 | every copy of every entry lies in the table area, inside its copy |
| `Geometry.TableSectorsDisjoint` | fat/fatlib.c:877-902 | different copies or indices are different sectors |
| `Geometry.IndexFormulasAgree` | fat/fatlib.c:517-555 | the two index formulas give the same sector and offset for every cluster |
| `TableImage.PatchedEntry` | fat/fatlib.c:885-898 | a written entry reads back as the value, masked |
| `TableImage.PatchedNeighbour` | fat/fatlib.c:885-898 | neighbours in the same sector keep their entries |
| `TableImage.PatchKeepsHidden` | fat/fatlib.c:891-898 | the bytes no data entry reads, and the top four bits of FAT32 entries, survive an entry write |
| `TableImage.WithEntryTable` | fat/fatlib.c:844-905 | writing an entry to all copies updates exactly that entry of the table, and keeps the copies equal |
| `TableImage.WithEntryFrame` | fat/fatlib.c:844-905 | it changes no sector outside the table area and no hidden bit inside it |
| `TableImage.ImageDetermined` | fat/fatlib.c:844-905 | hidden bits and entries together determine the image: equal tables mean equal bytes |
| `TableImage.EntryBytes` | fat/fatlib.c:818-841 | an entry of any copy, from the bytes of the image at twice or four times its number |
| `TableImage.WithEntryBytes` | fat/fatlib.c:885-898 | the bytes of every copy after a write |
| `TableImage.EndMarkBytes` | fat/fatlib.c:904-945 | the values that end a chain, by their bytes |
| `Chains.ChainUnique` | fat/fatlib.c:1083-1119 | a head has at most one chain |
| `Chains.ChainDistinct` | fat/fatlib.c:1083-1119 | a chain that ends in an end mark never revisits a cluster |
| `Chains.ChainBound` | fat/fatlib.c:1083-1119 | a chain has fewer clusters than `max_cluster` (pigeonhole), so the guards never reject one |
| `Chains.TraceUnique` | fat/fatlib.c:978-1020 | from every cluster of every table, cyclic or corrupt, there is exactly one walk until nothing new is met |
| `Chains.ChainTrace` | fat/fatlib.c:978-1020 | on a chain that walk is the chain |
| `Chains.FreeIsExact` | fat/fatlib.c:5541-5550 | the free list is exactly the zero entries of data clusters, strictly increasing |
| `Chains.FreeCount` | fat/fatlib.c:5541-5550 | taking clusters from the free list shortens it by as many |
| `Allocator.ZeroedUndoesGrown` | fat/fatlib.c:1073-1078 | freeing what was just allocated gives the very table back |
| `Allocator.GrownChain` | fat/fatlib.c:1209-1227 | the grown chain is the old one followed by the new clusters |
| `Allocator.CutChain` | fat/fatlib.c:1188-1207 | the cut chain is the wanted prefix of the old one |
| `Allocator.ResizedFile` | fat/fatlib.c:1151-1227 | a resize succeeds exactly when enough clusters are free, keeps the first clusters in order, and otherwise changes nothing |
| `Allocator.ResizedTouches` | fat/fatlib.c:1151-1227 | it touches only entries of the chain and free ones, and adds only formerly free clusters |
| `Allocator.ResizedConserves` | fat/fatlib.c:1151-1227 | free clusters plus clusters of the chain stay the same |
| `Ledger.StepKeepsInvariant` | fat/fatlib.c:978-1227 | every allocation, release and resize keeps all owned chains in range, acyclic, terminated and pairwise disjoint |
| `Ledger.StepConserves` | fat/fatlib.c:978-1227 | every one of them conserves free plus owned clusters |
| `Ledger.StepKeepsForeign` | fat/fatlib.c:978-1227 | none changes an entry that is neither free nor owned |
| `Ledger.RunKeepsInvariant` | fat/fatlib.c:978-1227 | the invariant holds at every state of every run |
| `Ledger.RunConserves` | fat/fatlib.c:978-1227 | free plus owned clusters are constant over every run |
| `Ledger.RunKeepsForeign` | fat/fatlib.c:978-1227 | bad, foreign and reserved entries never change in any run |
| `Ledger.RunThatEmptiesAll` | fat/fatlib.c:978-1227 | a run that starts and ends with all files empty ends with the table it started with |
| `Volumes.Volume.constructor` | fat/fatlib.c:390-424 | a well-formed image with equal table copies is a valid volume |
| `Volumes.Volume.ReadSector` | fat/fatlib.c:154-173 | reads inside the image |
| `Volumes.Volume.WriteSector` | fat/fatlib.c:175-200 | changes one sector |
| `Volumes.Volume.ReadCluster` | fat/fatlib.c:798-842 | the entry of the table, which is the value of its own bytes in the first copy: two on FAT16, on FAT32 four without the top four bits, the lowest first |
| `Volumes.Volume.GetNextCluster` | fat/fatlib.c:557-581 | agrees with `readcluster` on every data cluster, through the other index formula, and with the same bytes |
| `Volumes.Volume.WriteCluster` | fat/fatlib.c:844-905 | the table changes at that entry only, to the masked value; copies stay equal and hidden bits stay; every copy holds the bytes of the value |
| `Volumes.Volume.CountFree` | fat/fatlib.c:5541-5550 | the scan counts the free list |
| `Volumes.Volume.FreeChain` | fat/fatlib.c:978-1020 | terminates on every table; zeroes exactly the walk from the head; true exactly when the walk ends in an end mark, a free entry or a cluster already zeroed |
| `Volumes.FreeGuard` | fat/fatlib.c:1000-1003 | the iteration guard is never the reason to stop |
| `Volumes.Volume.AllocChain` | fat/fatlib.c:1022-1081 | with enough free clusters the lowest ones become a chain in order; otherwise the image is bit for bit what it was |
| `Volumes.AllocUndone` | fat/fatlib.c:1073-1078 | the undo through `freechain` restores the table |
| `Volumes.Volume.ChainLength` | fat/fatlib.c:1083-1119 | positive exactly when a chain starts at the head, and then its length |
| `Volumes.TooLong` | fat/fatlib.c:1099-1102 | the count guard rejects only paths that are no chains |
| `Volumes.Volume.GetNthCluster` | fat/fatlib.c:1121-1149 | the k-th cluster of the chain, zero past its end; on any table a data cluster exactly when a path of that length starts at the head, and then its last |
| `Volumes.Volume.ResizeChain` | fat/fatlib.c:1151-1227 | the effect `Resized` on every file; a broken head and a head outside the data clusters are refused; failure leaves the image as it was |
| `DirEntry.UpdatedReadBack` | fat/fatlib.c:3691-3732 | an updated entry gives back its first cluster and size, and keeps name and attribute |
| `DirEntry.NewReadBack` | fat/fatlib.c:2651-2667 | so does a new one, which is marked as an archive file |
| `DirEntry.EntryFields` | fat/fatlib.h:169-183 | size, first cluster, name and attribute of an entry, from its bytes |
| `DirEntry.NewBytes` | fat/fatlib.c:2651-2667 | every byte of a new entry |
| `DirEntry.UpdatedBytes` | fat/fatlib.c:3691-3732 | every byte of an updated one |
| `FileBytes.SectorsApart` | fat/fatlib.c:612-627 | chains without a common cluster have no common sector |
| `FileBytes.Locate` | fat/fatlib.c:4450-4482 | cluster index, sector and offset computed from a position name the byte at that position |
| `FileBytes.WriteInSector` | fat/fatlib.c:4466-4521 | patching a sector overlays the file's bytes at the position and nowhere else |
| `FileBytes.ResizeKeeps` | fat/fatlib.c:3801-3840 | resizing a chain keeps the bytes of the common prefix and everything that belongs to others |
| `FileBytes.KeptTrans` | fat/fatlib.c:4353-4542 | what two operations in a row leave alone, both leave alone |
| `FileBytes.WrittenBytes` | fat/fatlib.c:4353-4542 | byte by byte: the data where it was written, old bytes elsewhere, zeros in the hole |
| `FatFiles.FatFile.constructor` | fat/fatlib.c:4016-4102 | a handle on a found entry is good and starts at the start, or at the end when appending |
| `FatFiles.FatFile.ClusterAt` | fat/fatlib.c:3780-3799 | the cluster that holds a position |
| `FatFiles.FatFile.EnsureSize` | fat/fatlib.c:3801-3840 | the chain gets the clusters computed for the size, or nothing changes |
| `FatFiles.RequiredExact` | fat/fatlib.c:3828-3832 | the computed number is the rounded-up quotient exactly when the sum does not wrap |
| `FatFiles.RequiredWraps` | fat/fatlib.c:3828-3832 | a size for which it wraps |
| `FatFiles.FatFile.UpdateDirectoryEntry` | fat/fatlib.c:3691-3732 | the entry on disk tells the handle's first cluster and size, and keeps its name and attribute; nothing else changes |
| `FatFiles.FatFile.WriteInCluster` | fat/fatlib.c:4466-4521 | the inner loop overlays the data on one cluster |
| `FatFiles.FatFile.WriteSpan` | fat/fatlib.c:4432-4522 | the outer loop overlays the data on the chain |
| `FatFiles.FatFile.ZeroRange` | fat/fatlib.c:3842-3883 | fills from the end of the file with zeros; every nested write starts at the size, so the mutual recursion ends and cannot fail |
| `FatFiles.FatFile.FillHole` | fat/fatlib.c:4395-4417 | a position past the end extends the contents with zeros, or changes nothing |
| `FatFiles.FatFile.Write` | fat/fatlib.c:4353-4542 | with enough clusters the contents are overlaid at the position, holes reading as zeros; else nothing is transferred; the chain stays as long as the size needs; the entry tells the handle's size and first cluster after a transfer, and after a failure if it did before; name and attribute, other files, the table outside free space and foreign sectors stay; where the rounded size wraps, what is lost |
| `FatFiles.FatFile.Truncate` | fat/fatlib.c:4083-4099 | mode "w" empties the file and frees its clusters; the entry keeps its name and attribute |
| `FatFiles.FatFile.ReadInCluster` | fat/fatlib.c:4297-4336 | the inner loop copies the slice that one cluster holds |
| `FatFiles.FatFile.Read` | fat/fatlib.c:4218-4351 | exactly the slice of the contents at the position, with count, position, end and error flags |
| `FatFiles.FatFile.Seek` | fat/fatlib.c:4130-4187 | the code's overflow tests accept exactly the targets from zero to the largest signed word |
| `FatFiles.FatFile.Rewind` | fat/fatlib.c:4200-4208 | position and flags are reset |
| `FatFiles.WriteThenRead` | fat/fatlib.c:4218-4542 | a complete write, read back from where it went, gives the same bytes |
| `FatFiles.OtherFileKept` | fat/fatlib.c:4353-4542 | whatever an operation does to one file, every disjoint file keeps its contents and its handle stays good |
| `FatFiles.ReopenSame` | fat/fatlib.c:3691-3732 | the entry tells the handle's size exactly when the size fits 32 bits; then reopening gives the same file |
| `FileRuns.StepBytes` | fat/fatlib.c:4130-4542 | one call: a covered byte is written, any other stays, new bytes are zero |
| `FileBytes.KeptHead` | fat/fatlib.c:3691-3732 | whatever an operation on a file changes, its entry keeps name and attribute |
| `Runs.Perform` | fat/fatlib.c:4130-4542 | each call of `fat_seek`, `fat_rewind`, `fat_read` and `fat_write` is a step of a run, keeps the handle good, the chain tight and the entry matching |
| `Runs.PerformAll` | fat/fatlib.c:4130-4542 | any sequence of calls on a handle is a run, and keeps the entry matching |
| `Runs.Reopen` | fat/fatlib.c:4016-4102 | opening again an entry that matches gives the same contents, if the size fits 32 bits |
| `Runs.PerformOn` | fat/fatlib.c:4130-4542 | a call on one of many handles is a step of its file as if it were alone, and leaves contents, position and flags of all others as they were |
| `Runs.PerformAllOn` | fat/fatlib.c:4130-4542 | any sequence of calls on many handles of a volume is a run of the volume; and the calls on each handle, however interleaved, are a run of that file from its first state to its last, so `RunBytes` and `RunReads` hold of each |
| `Runs.SetAllClusters` | fat/fatlib.c:978-1227 | any sequence of allocations, releases and resizes of many heads is a run of the ledger |
| `FileRuns.RunBytes` | fat/fatlib.c:4130-4542 | over every run of seeks, reads and writes each byte is the one last written there, else the first contents, else zero |
| `FileRuns.RunReads` | fat/fatlib.c:4218-4351 | every read in a run returns the bytes last written |
| `VolumeRuns.StepKeepsInvariant` | fat/fatlib.c:3801-4542 | an operation on one of many open files keeps all handles good, all chains disjoint and all entries apart |
| `VolumeRuns.StepKeepsOthers` | fat/fatlib.c:3801-4542 | it changes no byte of another open file and not its directory entry |
| `VolumeRuns.StepConserves` | fat/fatlib.c:3801-4542 | free clusters plus clusters of open files stay the same |
| `VolumeRuns.RunKeepsInvariant` | fat/fatlib.c:3801-4542 | both hold at every state of every run on any number of files |
| `VolumeRuns.RunKeepsOthers` | fat/fatlib.c:3801-4542 | over every run a file that no operation concerns keeps every byte |
| `ListedRuns.StepKeepsListing` | fat/fatlib.c:3691-3732 | an operation on a file changes no slot of a directory but times, first cluster and size in the file's own entry |
| `ListedRuns.RunKeepsListing` | fat/fatlib.c:3691-5098 | over every run, whatever a directory lists stays listed under its name, with the size and first cluster of its entry |
| `ListedRuns.PutStaysListed` | fat/fput.c:264-350 | so does a file after its put, whatever is done to it |
| `Unicode.DecodeSound` | fat/fatlib.c:1370-1421 | what the decoder accepts is the UTF-8 form of a scalar value (RFC 3629, section 3) |
| `Unicode.DecodeComplete` | fat/fatlib.c:1370-1421 | and every such form is accepted as that value |
| `Unicode.ToUtf16` | fat/fatlib.c:1353-1447 | succeeds exactly on well-formed, non-empty UTF-8 whose UTF-16 form (RFC 2781, section 2.1) fits, and stores it |
| `Unicode.Utf8Values` | fat/fatlib.c:1370-1421 | the bits of a character in its UTF-8 bytes, and the ranges of these (RFC 3629, section 3) |
| `Unicode.Utf16Values` | fat/fatlib.c:1423-1440 | its UTF-16 units, high surrogate first (RFC 2781, section 2.1) |
| `Unicode.ReadingUnique` | fat/fatlib.c:1353-1447 | bytes are read as at most one text |
| `Unicode.ToUtf8` | fat/fatlib.c:1457-1522 | succeeds exactly when the units before the terminator encode a non-empty text that fits with its zero, and stores its UTF-8 form |
| `Unicode.LoneSurrogates` | fat/fatlib.c:1470-1490 | a high surrogate without a low one after it is not accepted |
| `Unicode.LowAlone` | fat/fatlib.c:1470-1490 | a low surrogate on its own is |
| `Unicode.NamingOfReading` | fat/fatlib.c:1353-1522 | the second conversion undoes the first exactly when the text has no U+FFFF |
| `Unicode.NamingUnique` | fat/fatlib.c:1457-1522 | units name at most one text |
| `LongNames.Checksum` | fat/fatlib.c:1342-1351 | for each of the eleven bytes the sum is rotated right by one bit, in terms of `>>`, `<<`, `&` and the or of bits, and the byte is added modulo 256 |
| `LongNames.StepRotates` | fat/fatlib.c:1348-1348 | with a zero byte bit 0 becomes bit 7 and bit i becomes bit i - 1; a byte is added modulo 256 |
| `LongNames.EightSteps` | fat/fatlib.c:1348-1348 | eight such steps give the sum back |
| `LongNames.ChecksumKnown` | fat/fatlib.c:1342-1351 | the checksum of `README  TXT` is 115 |
| `LongNames.SlotFields` | fat/fatlib.c:2553-2596 | a written slot gives back its order, units, checksum and marks |
| `LongNames.RunBytes` | fat/fatlib.c:2553-2649 | every byte of the slots of a name: numbers, mark, checksum, units with their places and byte order, the zero and the 0xFFFF after the name |
| `LongNames.GetLfnName` | fat/fatlib.c:1524-1571 | collects slots in any order and passes on the units they spell |
| `LongNames.CollectRun` | fat/fatlib.c:1534-1560 | after m slots of a run the last m parts of the name stand where they belong, whatever slots come before |
| `LongNames.CollectedUnit` | fat/fatlib.c:1534-1560 | whatever slots there are, in whatever order: each unit comes from the last slot with its number |
| `LongNames.NumberedUnits` | fat/fatlib.c:1524-1571 | from slots numbered n to 1 with the first one marked, whoever wrote them, all units are passed on in order |
| `LongNames.LongNameRoundTrip` | fat/fatlib.c:1524-1571 | the slots written for a name spell that name, multiples of thirteen units included |
| `LongNames.StoredNaming` | fat/fatlib.c:1457-1522 | stored units name the text up to its first U+FFFF, and nothing else |
| `LongNames.JoinedValid` | fat/fatlib.c:4805-4857 | exactly when slots before a run leave it valid |
| `LongNames.LeftoverSlot` | fat/fatlib.c:5374-5377 | exactly when one leftover slot does |
| `LongNames.RunIsValid` | fat/fatlib.c:4805-4857 | a written run passes the test against its entry |
| `LongNames.ValidBytes` | fat/fatlib.c:4805-4857 | the test on collected slots, by their bytes |
| `Directories.GetShortName` | fat/fatlib.c:1283-1326 | the two parts without spaces, joined by a dot; fails exactly when they do not fit |
| `Directories.NonSpacesIs` | fat/fatlib.c:1291-1322 | what is copied is every byte but spaces |
| `Directories.DosNameOf` | fat/fatlib.c:1244-1281 | the fold over the characters; whatever the name, every byte of the result is legal in a short entry |
| `Directories.DosNameBytes` | fat/fatlib.c:1244-1281 | each of the eleven bytes for any name: what stands before the first dot, overwritten from the ninth byte by what stands after it, without further dots |
| `Directories.DosByteIs` | fat/fatlib.c:1268-1276 | letters are stored in upper case, digits and the allowed marks as they are, everything else as an underscore |
| `Directories.DosFoldCase` | fat/fatlib.c:1268-1276 | names that differ only in the case of letters are stored alike |
| `Directories.UpperNameShown` | fat/fatlib.c:1244-1326 | a name of up to eight and three letters and digits is shown in upper case |
| `Directories.ShortNameRoundTrip` | fat/fatlib.c:1244-1326 | a plain name of up to eight and three characters survives storing and showing |
| `Directories.WriteLfnEntry` | fat/fatlib.c:2553-2596 | the buffer changes by one padded, terminated slot |
| `Directories.WriteRun` | fat/fatlib.c:2625-2649 | the loop writes all parts of the name, the last part first |
| `Directories.WriteEntries` | fat/fatlib.c:2598-2670 | succeeds exactly when the name is acceptable and fits the sector, and then changes only those slots |
| `Directories.ValidateLfn` | fat/fatlib.c:4805-4857 | decides whether collected slots belong to an entry |
| `Directories.MakeDirent` | fat/fatlib.c:4859-4945 | the long name when the slots belong to the entry and spell a text, else the short one; size, cluster and kind from the entry |
| `Listing.ListingIsExact` | fat/fatlib.c:5002-5098 | call number n returns the n-th shown slot with its run, and every later call nothing |
| `Listing.ShownFromIsExact` | fat/fatlib.c:5002-5098 | shown are, in disk order and once each, the live entries before the end marker that are no long-name and no volume entries |
| `Listing.ShownBytes` | fat/fatlib.c:5034-5078 | the same by the first byte and the attribute byte of the slots |
| `Listing.PendingOverflow` | fat/fatlib.c:5050-5066 | one slot too many drops all before it and itself, and the rest of the run is collected anew |
| `Listing.NothingPending` | fat/fatlib.c:5040-5070 | nothing is collected at a slot that no live long-name slot directly precedes |
| `FatDirs.FatDir.constructor` | fat/fatlib.c:4947-5000 | an opened directory stands before its first slot, with nothing collected |
| `FatDirs.FatDir.NextSector` | fat/fatlib.c:4719-4803 | the next sector of the fixed root or of the chain, or the end |
| `FatDirs.FatDir.TakeSlot` | fat/fatlib.c:5034-5097 | one slot is shown, collected or passed over as the scan says |
| `FatDirs.FatDir.ReadDir` | fat/fatlib.c:5002-5098 | one call of the scan over all slots, across sectors and clusters, with the entry's place |
| `FatDirs.ReadAll` | fat/fatlib.c:2720-2752 | calls until one returns nothing give the shown slots, each once, in disk order, each with its run and its place; none is deleted, a long-name slot or a label, and size, first cluster and kind are those of its bytes |
| `RoundTrips.SlotsAfter` | fat/fatlib.c:2598-2670 | writing a sector of a directory changes the sixteen slots of that sector and no others |
| `RoundTrips.WrittenEntryIsListed` | fat/fatlib.c:2598-2670 | the entry is shown exactly when no end marker comes before, with the written size and first cluster and under the name `ShownName`; listed under the original name exactly then |
| `RoundTrips.NameShown` | fat/fatlib.c:4859-4945 | the long name is shown exactly when the slots before the run join it, else the short name |
| `RoundTrips.ShownNameIs` | fat/fatlib.c:4859-4945 | exactly when the shown name is the original one |
| `RoundTrips.ListedOnce` | fat/fatlib.c:5002-5098 | exactly one call shows them |
| `FreeSlots.FindInSector` | fat/fatlib.c:2928-2956 | the first row of free slots of one sector, or none exists; free are those whose first byte is 0x00 or 0xE5 |
| `FreeSlots.RowBytes` | fat/fatlib.c:2869-2936 | slots may be taken exactly when their first bytes are 0x00 or 0xE5 |
| `FreeSlots.FindFreeSlots` | fat/fatlib.c:2898-2966 | the first sector of the directory that has the row, or none has |
| `FreeSlots.FindFreeSlotsRoot` | fat/fatlib.c:2849-2896 | the first row of the whole root, possibly across sectors, or none exists |
| `Puts.NeededCluster` | fat/fatlib.c:947-976 | the rounded-up number when the volume has so many clusters, else zero, for every 64-bit size |
| `Puts.WriteBuffer` | fat/fatlib.c:3042-3049 | one cluster is overwritten |
| `Puts.WriteFileData` | fat/fatlib.c:2968-3069 | succeeds exactly when the chain is long enough; then the clusters hold the source and zeros |
| `Puts.StoreData` | fat/fput.c:185-290 | counting, allocating and writing fail only for lack of free clusters |
| `Puts.Undo` | fat/fput.c:300-342 | freeing the new chain gives the table back as it was |
| `Puts.FindSlots` | fat/fput.c:296-337 | the search chosen by the directory's first sector finds the first row of all in the fixed root, the first row inside one sector in a chain; with `HasRoom` the exact condition for the entries to fit |
| `Puts.FoundOnce` | fat/fatlib.c:2849-2966 | there is at most one place that the search may find |
| `Puts.CrossingRow` | fat/fatlib.c:2849-2896 | a root whose first row of free slots crosses a sector, so that a name cannot be put although a later sector is free |
| `Puts.PutNew` | fat/fput.c:264-350 | the transaction succeeds exactly under `CanPut`, and then the entries are at the place `IsFound` names and the data in a fresh chain; on failure the table is as it was and nothing outside free clusters changed |
| `PutKeeps.PutReplaces` | fat/fput.c:296-350 | the entries take the place of slots whose first bytes were 0x00 or 0xE5; every other slot of the directory stays byte for byte |
| `PutKeeps.PutKeepsListed` | fat/fput.c:264-350 | every file that was listed is listed as before, with the same bytes after the same long-name slots |
| `PutKeeps.ShownKept` | fat/fatlib.c:2598-2670 | so is every shown slot, of any directory in which such a row was replaced |
| `PutKeeps.ShownAfter` | fat/fatlib.c:2598-2670 | exactly what is listed afterwards |
| `PutKeeps.ShownPlusOne` | fat/fatlib.c:2598-2670 | if nothing is used after the end marker: what was listed, and the new file or nothing |
| `PutKeeps.BroughtBack` | fat/fatlib.c:2598-2670 | a root in which every put of a one-slot name brings an entry back that the end marker hid |
| `PutKeeps.RoomBytes` | fat/fatlib.c:2849-2966 | there is room exactly when a row of slots with first bytes 0x00 or 0xE5 is where the search looks |
| `Puts.PutExisting` | fat/fput.c:197-263 | replacing a file succeeds exactly when its clusters and the free ones are enough; then they hold the source and zeros and the entry follows, keeping name and attribute; otherwise nothing changes |
| `Puts.ForgottenChain` | fat/fput.c:197-211 | the chain of an entry of size zero is forgotten: it stays a chain, its clusters stay allocated, and the entry leads to another |
| `Puts.PutThenRead` | fat/fput.c:264-350 | reading the new file through its entry gives the source; the slack is zero |
| `Puts.PutThenList` | fat/fput.c:264-350 | when and under which name the new file is listed, and that it is listed under its own exactly when `WillBeListed` held of the directory before the call |
| `HiddenPuts.ListedPlainly` | fat/fput.c:264-350 | with no long-name slot left over before the place: exactly when no end marker comes before it and the name has no U+FFFF (or shows as its short name) |
| `HiddenPuts.EndBeforePlace` | fat/fatlib.c:2849-2966 | if nothing is used after the end marker, it comes before the place only in a chain, in an earlier sector with too few slots from there on |
| `HiddenPuts.HiddenBehindEnd` | fat/fatlib.c:2924-2956 | a directory into which every name that fits a sector can be put, and under which none is then listed |
| `HiddenPuts.LeftoverInFront` | fat/fatlib.c:5374-5377 | a root with one long-name slot left over, and exactly which names of one slot are listed after it |
| `Paths.GetPath` | fat/fatlib.c:1733-1856 | what a path names, from the current directory; never an empty component, `.` or `..`, never more than 32 |
| `Paths.FoldWithout` | fat/fatlib.c:1800-1812 | a component followed by `..`, a `.` and an empty part may be left out wherever they stand |
| `Paths.FoldDots` | fat/fatlib.c:1800-1812 | `..` takes back one component, and none at the root; `.` and an empty part do nothing; a component is added |
| `Paths.Parent` | fat/fatlib.c:1733-1856 | `..` after the printed path of a directory names its parent, up to the limit of 32 components |
| `Paths.DownAndUp` | fat/fatlib.c:1733-1856 | a component and `..` lead back to the current directory, likewise |
| `Paths.ParentOfRoot` | fat/fatlib.c:1805-1808 | the root is its own parent |
| `Paths.DotsNothing` | fat/fatlib.c:1733-1856 | `a/./b` and `a//b` name what `a/b` names, as far as they fit |
| `Paths.SeparatorsAlike` | fat/fatlib.c:1790-1796 | slash and backslash separate alike, and nothing else does |
| `Paths.PartLimit` | fat/fatlib.c:1754-1853 | a part of up to 255 bytes is a component, a longer one gives nothing; a path of 8192 bytes or more with its base gives nothing |
| `Paths.Parse` | fat/fatlib.c:1782-1853 | the loop is the limited push/pop fold over the parts |
| `Paths.LimitedExact` | fat/fatlib.c:1782-1853 | exactly one of three: within the limits the plain fold; at the 32nd component what is there so far; at a part too long before it, nothing |
| `Paths.LimitedIsCanonical` | fat/fatlib.c:1782-1853 | only proper components come out |
| `Paths.BuildPath` | fat/fatlib.c:1858-1915 | prints the components; fails exactly when they do not fit |
| `Paths.PrintedIs` | fat/fatlib.c:1858-1915 | a slash before every component, or a slash alone |
| `Paths.ResolvePrinted` | fat/fatlib.c:1733-1915 | re-parsing what was printed gives the same components |
| `Paths.ResolveRelative` | fat/fatlib.c:1754-1780 | a relative path is the fold from the current directory, and the same path appended to it |
| `Paths.ResolveJoined` | fat/fatlib.c:1733-1856 | what `a/b` names, from what `a` names |
| `Paths.TwoSteps` | fat/fatlib.c:5761-5809 | exactly when two calls, to `a` and then to `b`, lead where one call to `a/b` leads, lengths and limits included |
| `Paths.WorkingDirectory.Change` | fat/fatlib.c:5761-5809 | the current directory is always the printed form of a proper path, and changes to what the path names |

## Left out

- Host file access, printing, `stat`, timestamps: the times stored in an entry are arbitrary, so they may also be the old ones, as after a failure of the clock.
- Drivers, the kernel heap, boot-sector tools, the older copies of the FAT code.
- Failures of single sector accesses in the middle of an operation, and null, closed or unmounted handles.
- Looking a path up on the volume (`fat_find_file`, `find_path_directory`): handles and directories start from a resolved place, and `fat_chdir` gets the outcome as a parameter.
- `delete_directory_entry_with_lfn`, `getfiledata`, the FSInfo shortcut of the free count: they do not do what their names promise.
- The columns of `listdir`, `fat_rename`, `fat_mkdir`, attributes: they would add members without new arguments.
- Volumes.Volume.constructor: for images whose table copies agree and whose regions fit; `loadfat` does not test either.
- Volumes.Volume.ReadCluster: only for numbers up to `max_cluster`; the code reads past the table for larger ones.
- Volumes.Volume.WriteCluster: only for numbers up to `max_cluster`, likewise.
- Volumes.Volume.GetNextCluster: only for data clusters, likewise.
- FatFiles.FatFile.Write: for positions below 2^63, which is what opening, seeking, reading and writing keep.
- FatFiles.FatFile.ZeroRange: only from the end of the file, as `fat_write` calls it.
- FatFiles.FatFile.constructor: the entry's chain must cover its size, and the entry must lie outside the file and outside free clusters.
- FatDirs.FatDir.NextSector: the error flag that a broken chain raises.
- FatDirs.FatDir.constructor: for the fixed root or a well-formed chain, in a directory where no slot numbered 20 passes the validity test before a shown entry; the error flag that a broken chain raises is left out.
- FreeSlots.FindFreeSlots: on a directory whose chain is well formed.
- Puts.WriteFileData: on the chain of a file; what it does on a broken chain is left out.
- Directories.WriteEntries: into a sector outside the table area.
- LongNames.GetLfnName: slots with number 20 are left out, because the code would store past its 255 units.
- Directories.MakeDirent: without a slot numbered 20, likewise, unless the slots fail the validity test.
- Directories.GetShortName: the final loop that strips trailing spaces is left out, as no space is ever copied.
- RoundTrips.WrittenEntryIsListed: for slots before the run that are not numbered 20, unless they fail the validity test.
- RoundTrips.NameShown: likewise.
- Puts.PutThenList: likewise (`Puts.CanTell`).
- Puts.PutExisting: for a good entry, as for the constructor of a handle.
- Puts.PutNew: on FAT16 the fixed root must exist, because otherwise the code cannot tell the root from cluster 2.
- Puts.FindSlots: on FAT16 the fixed root must exist, likewise.
- Paths.WorkingDirectory.Change: whether the volume has the directory is a parameter.
- QuickSort.Swap: elements are values, so the byte loop and the element size are left out.
- QuickSort.Sort: for fewer than 2^33 elements, up to which halving fits the 64 stack slots; element size and null arguments are left out.
