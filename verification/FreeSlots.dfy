/** Finding room for the entries of a new file: `findfreeslots` and its variant for the root of FAT16. */
module FreeSlots {
  import opened Words
  import opened Geometry
  import TableImage
  import opened Allocator
  import opened FileBytes
  import opened Volumes
  import DirEntry
  import FatFiles
  import opened Listing
  import opened Directories
  import FatDirs

  /** A slot that may be taken. */
  predicate IsUnused(s: DirEntry.Entry) {
    IsEnd(s) || IsDeleted(s)
  }

  /** `n` unused slots in a row, from slot `o`. */
  ghost predicate FreeRun(slots: seq<DirEntry.Entry>, o: nat, n: nat) {
    o + n <= |slots| && forall j :: o <= j < o + n ==> IsUnused(slots[j])
  }

  /** The first such row. */
  ghost predicate FirstFreeRun(slots: seq<DirEntry.Entry>, o: nat, n: nat) {
    FreeRun(slots, o, n) && forall i: nat :: i < o ==> !FreeRun(slots, i, n)
  }

  ghost predicate NoFreeRun(slots: seq<DirEntry.Entry>, n: nat) {
    forall i: nat :: !FreeRun(slots, i, n)
  }

  /** A row of slots whose first bytes are 0x00 (never used) or 0xE5 (deleted). */
  ghost predicate IsByteRow(slots: seq<DirEntry.Entry>, o: nat, n: nat) {
    o + n <= |slots| && forall j :: o <= j < o + n ==> slots[j][0] == 0x00 || slots[j][0] == 0xE5
  }

  /** Just these may be taken. */
  lemma RowBytes(slots: seq<DirEntry.Entry>, o: nat, n: nat)
    ensures FreeRun(slots, o, n) <==> IsByteRow(slots, o, n)
  {
  }

  /** The count of the scan before slot `k`: the unused slots directly before `k`, with no row of `n` so far. */
  ghost predicate Counting(slots: seq<DirEntry.Entry>, k: nat, count: nat, n: nat) {
    && count <= k <= |slots| && count < n
    && (forall j :: k - count <= j < k ==> IsUnused(slots[j]))
    && (count < k ==> !IsUnused(slots[k - count - 1]))
    && forall o: nat :: o + n <= k ==> !FreeRun(slots, o, n)
  }

  lemma CountStart(slots: seq<DirEntry.Entry>, n: nat)
    requires n > 0
    ensures Counting(slots, 0, 0, n)
  {
  }

  lemma CountNext(slots: seq<DirEntry.Entry>, k: nat, count: nat, n: nat)
    requires Counting(slots, k, count, n) && k < |slots|
    ensures !IsUnused(slots[k]) ==> Counting(slots, k + 1, 0, n)
    ensures IsUnused(slots[k]) && count + 1 < n ==> Counting(slots, k + 1, count + 1, n)
    ensures IsUnused(slots[k]) && count + 1 >= n ==> FirstFreeRun(slots, k - count, n)
  {
    hide IsUnused;
    forall o: nat | o + n == k + 1 && FreeRun(slots, o, n) ensures k - count <= o && IsUnused(slots[k]) {
      assert IsUnused(slots[k]);
    }
  }

  lemma CountEnd(slots: seq<DirEntry.Entry>, count: nat, n: nat)
    requires Counting(slots, |slots|, count, n)
    ensures NoFreeRun(slots, n)
  {
    hide IsUnused;
  }

  lemma RowsExclude(slots: seq<DirEntry.Entry>, o: nat, n: nat)
    requires FirstFreeRun(slots, o, n)
    ensures FreeRun(slots, o, n) && o + n <= |slots| && !NoFreeRun(slots, n)
  {
  }

  lemma RowsInBytes(slots: seq<DirEntry.Entry>, n: nat)
    ensures NoFreeRun(slots, n) <==> forall o: nat :: !IsByteRow(slots, o, n)
    ensures forall o: nat :: FirstFreeRun(slots, o, n) <==>
      IsByteRow(slots, o, n) && forall i: nat :: i < o ==> !IsByteRow(slots, i, n)
  {
    hide FreeRun, IsByteRow;
    forall o: nat ensures FreeRun(slots, o, n) <==> IsByteRow(slots, o, n) {
      RowBytes(slots, o, n);
    }
  }

  /** The sixteen slots of one sector. */
  function SectorSlots(s: Sector): (r: seq<DirEntry.Entry>)
    ensures |r| == 16
  {
    seq(16, k requires 0 <= k < 16 => FatFiles.EntryAt(s, 32 * k))
  }

  /** The inner loop of `findfreeslots`: the first row of unused slots in one sector. */
  method FindInSector(buffer: Sector, required: nat) returns (found: bool, offset: nat)
    requires required > 0
    ensures found ==> offset % 32 == 0 && FirstFreeRun(SectorSlots(buffer), offset / 32, required)
    ensures !found ==> NoFreeRun(SectorSlots(buffer), required)
    ensures found <==> exists o: nat :: IsByteRow(SectorSlots(buffer), o, required)
    ensures found ==> IsByteRow(SectorSlots(buffer), offset / 32, required)
  {
    hide FreeRun, FirstFreeRun, NoFreeRun, Counting, IsUnused, IsByteRow;
    RowsInBytes(SectorSlots(buffer), required);
    ghost var slots := SectorSlots(buffer);
    CountStart(slots, required);
    var freeCount, startOffset := 0, 0;
    var o := 0;
    ghost var k := 0;
    while o + ENTRY_BYTES <= SECTOR_SIZE
      invariant o == 32 * k && k <= 16 && 0 <= freeCount <= k
      invariant Counting(slots, k, freeCount, required)
      invariant freeCount > 0 ==> startOffset == 32 * (k - freeCount)
      decreases SECTOR_SIZE - o
    {
      CountNext(slots, k, freeCount, required);
      if IsUnused(FatFiles.EntryAt(buffer, o)) {
        if freeCount == 0 {
          startOffset := o;
        }
        freeCount := freeCount + 1;
        if freeCount >= required {
          assert startOffset == 32 * (k - (freeCount - 1));
          return true, startOffset;
        }
      } else {
        freeCount := 0;
      }
      o := o + ENTRY_BYTES;
      k := k + 1;
    }
    CountEnd(slots, freeCount, required);
    return false, 0;
  }

  /** No sector of the directory before sector `at` has the row. */
  ghost predicate NoneBefore(g: Bpb, img: Image, root: bool, p: seq<nat>, at: nat, n: nat)
    requires IsDirectory(g, img, root, p)
  {
    forall j: nat :: j < at && j < SectorCount(g, root, p) ==> NoFreeRun(SectorSlots(img[DirSector(g, img, root, p, j)]), n)
  }

  lemma NoneNext(g: Bpb, img: Image, root: bool, p: seq<nat>, at: nat, n: nat)
    requires IsDirectory(g, img, root, p) && at < SectorCount(g, root, p)
    requires NoneBefore(g, img, root, p, at, n) && NoFreeRun(SectorSlots(img[DirSector(g, img, root, p, at)]), n)
    ensures NoneBefore(g, img, root, p, at + 1, n)
  {
    hide IsDirectory, SectorCount, DirSector, NoFreeRun;
  }

  lemma NoneStart(g: Bpb, img: Image, root: bool, p: seq<nat>, n: nat)
    requires IsDirectory(g, img, root, p)
    ensures NoneBefore(g, img, root, p, 0, n)
  {
  }

  /** Where `findfreeslots` finds the row: the first sector that has it, and the first place there. */
  ghost predicate FoundInSector(g: Bpb, img: Image, root: bool, p: seq<nat>, sd: nat, sector: nat, offset: nat, n: nat)
    requires IsDirectory(g, img, root, p)
  {
    && sd < SectorCount(g, root, p) && sector == DirSector(g, img, root, p, sd) && offset % 32 == 0
    && FirstFreeRun(SectorSlots(img[sector]), offset / 32, n)
    && NoneBefore(g, img, root, p, sd, n)
  }

  /**
   `findfreeslots`: the first row of `required` unused slots inside one sector of the directory whose
   first cluster is `cluster`; it fails only if no sector has one.
   */
  method FindFreeSlots(vol: Volume, dirCluster: u32, required: nat, ghost p: seq<nat>)
    returns (ok: bool, sector: u32, offset: nat, ghost sd: nat)
    requires vol.Valid() && IsDirectory(vol.g, vol.image, false, p) && Head(p) == dirCluster
    ensures ok ==> FoundInSector(vol.g, vol.image, false, p, sd, sector, offset, required)
    ensures !ok ==> required == 0 || NoneBefore(vol.g, vol.image, false, p, SectorCount(vol.g, false, p), required)
  {
    hide *;
    ok, sector, offset, sd := false, 0, 0, 0;
    if required == 0 {
      return;
    }
    ghost var g, img := vol.g, vol.image;
    vol.TableFacts();
    var cluster := dirCluster;
    ghost var i := 0;
    NoneStart(g, img, false, p, required);
    FirstCluster(g, img, p);
    ClusterSectors(g, img, p, 0);
    while cluster >= 2 && cluster <= vol.g.MaxCluster()
      invariant i < |p| && cluster == p[i] && 2 <= cluster <= g.MaxCluster() && 0 <= i * g.spc
      invariant NoneBefore(g, img, false, p, i * g.spc, required)
      decreases |p| - i
    {
      var firstSector := vol.g.ClusterToSector(cluster);
      ClusterSectors(g, img, p, i);
      if firstSector == 0 {
        return;
      }
      for j := 0 to vol.g.spc
        invariant NoneBefore(g, img, false, p, i * g.spc + j, required)
      {
        SectorOfCluster(g, img, p, i, j);
        var read, buffer := vol.ReadSector(firstSector + j);
        var found, o := FindInSector(buffer, required);
        if found {
          FoundHere(g, img, p, i * g.spc + j, firstSector + j, o, required);
          return true, firstSector + j, o, i * g.spc + j;
        }
        NoneNext(g, img, false, p, i * g.spc + j, required);
      }
      FatDirs.ChainNext(g, img, p, i);
      cluster := vol.ReadCluster(cluster);
      NextCluster(g, p, i);
      if cluster == 0 || vol.g.IsEoc(cluster) {
        break;
      }
      i := i + 1;
    }
    return;
  }

  lemma FirstCluster(g: Bpb, img: Image, p: seq<nat>)
    requires IsDirectory(g, img, false, p)
    ensures p != [] && p[0] == Head(p) && g.spc > 0 && 0 * g.spc == 0
  {
  }

  lemma ClusterSectors(g: Bpb, img: Image, p: seq<nat>, i: nat)
    requires IsDirectory(g, img, false, p) && i < |p|
    ensures p[i] < TWO32 && g.IsData(p[i]) && g.ClusterToSector(p[i]) > 0
    ensures 2 <= p[i] <= g.MaxCluster()
  {
    hide Bpb.ClusterToSector, TableImage.TableOf, Bpb.MaxCluster, IsFile;
    FileOnData(g, img, p);
    ClusterInside(g, |img|, p[i], 0);
    NoWrap(g, |img|);
  }

  lemma SectorOfCluster(g: Bpb, img: Image, p: seq<nat>, i: nat, j: nat)
    requires IsDirectory(g, img, false, p) && i < |p| && j < g.spc && p[i] < TWO32
    ensures 0 <= i * g.spc && i * g.spc + j < SectorCount(g, false, p)
    ensures g.ClusterToSector(p[i]) + j == DirSector(g, img, false, p, i * g.spc + j) < TWO32
    ensures g.ClusterToSector(p[i]) + j < |img|
  {
    hide Bpb.ClusterToSector, TableImage.TableOf, Bpb.MaxCluster, IsFile, Bpb.WellFormed, DirSector;
    Times(0, i, g.spc);
    Times(i + 1, |p|, g.spc);
    Division(i * g.spc + j, g.spc, i, j);
    FatDirs.ChainSector(g, img, p, i * g.spc + j);
  }

  lemma NextCluster(g: Bpb, p: seq<nat>, i: nat)
    requires i < |p|
    ensures (i + 1) * g.spc == i * g.spc + g.spc
    ensures i + 1 == |p| ==> i * g.spc + g.spc == SectorCount(g, false, p)
  {
  }

  lemma FoundHere(g: Bpb, img: Image, p: seq<nat>, sd: nat, sector: nat, offset: nat, n: nat)
    requires IsDirectory(g, img, false, p) && sd < SectorCount(g, false, p) && sector == DirSector(g, img, false, p, sd)
    requires offset % 32 == 0 && FirstFreeRun(SectorSlots(img[sector]), offset / 32, n) && NoneBefore(g, img, false, p, sd, n)
    ensures FoundInSector(g, img, false, p, sd, sector, offset, n)
  {
  }

  // ----- the fixed root -----

  /**
   `findfreeslots_root_fat16`: its count runs on from sector to sector, so it finds the first row in
   the whole root, which may end in a later sector than it starts in.
   */
  method FindFreeSlotsRoot(vol: Volume, required: nat, ghost p: seq<nat>) returns (ok: bool, sector: u32, offset: nat, ghost first: nat)
    requires vol.Valid() && IsDirectory(vol.g, vol.image, true, p)
    ensures ok ==>
      && FirstFreeRun(Slots(vol.g, vol.image, true, p), first, required) && required > 0
      && 0 <= first / 16 < SectorCount(vol.g, true, p)
      && sector == DirSector(vol.g, vol.image, true, p, first / 16) && offset == 32 * (first % 16)
    ensures !ok ==> required == 0 || NoFreeRun(Slots(vol.g, vol.image, true, p), required)
  {
    hide *;
    sector, offset, first := 0, 0, 0;
    if required == 0 {
      return false, 0, 0, 0;
    }
    ghost var g, img, slots := vol.g, vol.image, Slots(vol.g, vol.image, true, p);
    CountStart(slots, required);
    RootSlots(g, img, p);
    var freeCount: nat, startSector: u32, startOffset: nat := 0, 0, 0;
    for s := 0 to vol.g.RootDirSectorCount()
      invariant Counting(slots, 16 * s, freeCount, required)
      invariant freeCount > 0 ==> StartsAt(g, img, p, 16 * s - freeCount, startSector, startOffset)
    {
      RootSectorAt(g, img, p, s);
      var read, buffer := vol.ReadSector(vol.g.RootDirSector() + s);
      for k := 0 to 16
        invariant Counting(slots, 16 * s + k, freeCount, required)
        invariant freeCount > 0 ==> StartsAt(g, img, p, 16 * s + k - freeCount, startSector, startOffset)
      {
        RootSlotAt(g, img, p, s, k);
        CountNext(slots, 16 * s + k, freeCount, required);
        if IsUnused(FatFiles.EntryAt(buffer, 32 * k)) {
          if freeCount == 0 {
            startSector := vol.g.RootDirSector() + s;
            startOffset := 32 * k;
          }
          freeCount := freeCount + 1;
          if freeCount >= required {
            StartMeans(g, img, p, 16 * s + k + 1 - freeCount, startSector, startOffset);
            return true, startSector, startOffset, 16 * s + k + 1 - freeCount;
          }
        } else {
          freeCount := 0;
        }
      }
    }
    CountEnd(slots, freeCount, required);
    return false, 0, 0, 0;
  }

  ghost predicate StartsAt(g: Bpb, img: Image, p: seq<nat>, i: int, sector: nat, offset: nat)
    requires IsDirectory(g, img, true, p)
  {
    0 <= i && i / 16 < SectorCount(g, true, p) && sector == DirSector(g, img, true, p, i / 16) && offset == 32 * (i % 16)
  }

  lemma StartMeans(g: Bpb, img: Image, p: seq<nat>, i: int, sector: nat, offset: nat)
    requires IsDirectory(g, img, true, p) && StartsAt(g, img, p, i, sector, offset)
    ensures 0 <= i && 0 <= i / 16 < SectorCount(g, true, p)
    ensures sector == DirSector(g, img, true, p, i / 16) && offset == 32 * (i % 16)
  {
  }

  lemma RootSlots(g: Bpb, img: Image, p: seq<nat>)
    requires IsDirectory(g, img, true, p)
    ensures |Slots(g, img, true, p)| == 16 * g.RootDirSectorCount()
  {
    hide Bpb.RootDirSectorCount;
  }

  lemma RootSectorAt(g: Bpb, img: Image, p: seq<nat>, s: nat)
    requires IsDirectory(g, img, true, p) && s < g.RootDirSectorCount()
    ensures g.RootDirSector() + s < |img| && g.RootDirSector() + s < TWO32
  {
    hide Bpb.RootDirSectorCount, Bpb.RootDirSector;
    RootInside(g, |img|, s);
  }

  lemma RootSlotAt(g: Bpb, img: Image, p: seq<nat>, s: nat, k: nat)
    requires IsDirectory(g, img, true, p) && s < g.RootDirSectorCount() && k < 16
    ensures 16 * s + k < |Slots(g, img, true, p)| && g.RootDirSector() + s < |img| && 32 * k + ENTRY_BYTES <= SECTOR_SIZE
    ensures Slots(g, img, true, p)[16 * s + k] == FatFiles.EntryAt(img[g.RootDirSector() + s], 32 * k)
    ensures StartsAt(g, img, p, 16 * s + k, g.RootDirSector() + s, 32 * k)
  {
    hide Bpb.RootDirSectorCount, Bpb.RootDirSector, DirSector, IsDirectory;
    RootSectorAt(g, img, p, s);
    FatDirs.RootSector(g, img, p, s);
    assert (16 * s + k) / 16 == s && (16 * s + k) % 16 == k;
  }
}
