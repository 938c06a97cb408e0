/** Open directories: `fat_opendir`, `fat_readdir` and the walk over the sectors of a directory. */
module FatDirs {
  import opened Words
  import opened Geometry
  import TableImage
  import opened Allocator
  import opened FileBytes
  import opened Volumes
  import DirEntry
  import FatFiles
  import opened LongNames
  import opened Listing
  import opened Directories

  class FatDir {
    const vol: Volume
    const rootFat16: bool

    var currentSector: u32
    var currentOffset: nat
    var currentCluster: u32
    var sectorInCluster: nat
    var eof: bool
    var lfn: seq<DirEntry.Entry>

    ghost const chain: seq<nat>
    ghost var at: nat              // the sector of the directory that the cursor is in

    /** `fat_opendir`, once the path has been resolved to the root of FAT16 or to a first cluster. */
    constructor (vol: Volume, rootFat16: bool, cluster: u32, ghost p: seq<nat>)
      requires vol.Valid() && IsDirectory(vol.g, vol.image, rootFat16, p)
      requires AllReadable(Directories.Slots(vol.g, vol.image, rootFat16, p))
      requires !rootFat16 ==> Head(p) == cluster
      ensures this.vol == vol && this.rootFat16 == rootFat16 && chain == p
      ensures Valid() && Cursor() == Before(0, [])
    {
      hide *;
      DirectoryStart(vol.g, vol.image, rootFat16, p, cluster);
      this.vol := vol;
      this.rootFat16 := rootFat16;
      currentSector := if rootFat16 then vol.g.RootDirSector() else vol.g.ClusterToSector(cluster);
      currentOffset := 0;
      currentCluster := if rootFat16 then 0 else cluster;
      sectorInCluster := 0;
      eof := false;
      lfn := [];
      chain := p;
      at := 0;
      new;
      OpenIs();
      FollowsStart(Slots());
    }

    /** The directory is there, and the cursor stands in one of its sectors. */
    ghost predicate Open()
      reads this, vol
    {
      && vol.Valid() && IsDirectory(vol.g, vol.image, rootFat16, chain)
      && AllReadable(Directories.Slots(vol.g, vol.image, rootFat16, chain))
      && (!eof ==> IsPlaced(vol.g, vol.image, rootFat16, chain, at, currentSector, currentCluster, sectorInCluster, currentOffset))
    }

    /** Moreover the cursor came there slot by slot. */
    ghost predicate Valid()
      reads this, vol
    {
      Open() && Follows(Slots(), Cursor())
    }

    ghost function Slots(): (s: seq<DirEntry.Entry>)
      requires Open()
      reads this, vol
    {
      Directories.Slots(vol.g, vol.image, rootFat16, chain)
    }

    ghost function Cursor(): Cursor
      reads this
    {
      if eof then Finished else Before(SLOTS_PER_SECTOR * at + currentOffset / ENTRY_BYTES, lfn)
    }

    lemma OpenIs()
      requires vol.Valid() && IsDirectory(vol.g, vol.image, rootFat16, chain)
      requires AllReadable(Directories.Slots(vol.g, vol.image, rootFat16, chain))
      requires !eof ==> IsPlaced(vol.g, vol.image, rootFat16, chain, at, currentSector, currentCluster, sectorInCluster, currentOffset)
      ensures Open() && Slots() == Directories.Slots(vol.g, vol.image, rootFat16, chain)
      ensures Cursor() == if eof then Finished else Before(16 * at + currentOffset / 32, lfn)
      ensures Valid() <==> Follows(Slots(), Cursor())
    {
    }

    lemma OpenMeans()
      requires Open()
      ensures vol.Valid() && IsDirectory(vol.g, vol.image, rootFat16, chain)
      ensures vol.g.WellFormed(|vol.image|) && vol.Table() == TableImage.TableOf(vol.g, vol.image)
      ensures Slots() == Directories.Slots(vol.g, vol.image, rootFat16, chain) && AllReadable(Slots())
      ensures Cursor() == if eof then Finished else Before(16 * at + currentOffset / 32, lfn)
      ensures !eof ==> IsPlaced(vol.g, vol.image, rootFat16, chain, at, currentSector, currentCluster, sectorInCluster, currentOffset)
      ensures Follows(Slots(), Cursor()) ==> Valid()
      ensures SECTOR_SIZE == 512 && ENTRY_BYTES == 32 && MAX_SLOTS == 20
    {
    }

    lemma ValidMeans()
      requires Valid()
      ensures Open() && Follows(Slots(), Cursor())
      ensures vol.Valid() && IsDirectory(vol.g, vol.image, rootFat16, chain)
      ensures vol.g.WellFormed(|vol.image|) && vol.Table() == TableImage.TableOf(vol.g, vol.image)
      ensures Slots() == Directories.Slots(vol.g, vol.image, rootFat16, chain) && AllReadable(Slots())
      ensures Cursor() == if eof then Finished else Before(16 * at + currentOffset / 32, lfn)
      ensures !eof ==> IsPlaced(vol.g, vol.image, rootFat16, chain, at, currentSector, currentCluster, sectorInCluster, currentOffset)
      ensures SECTOR_SIZE == 512 && ENTRY_BYTES == 32 && MAX_SLOTS == 20
    {
      OpenMeans();
    }

    /** `fat_dir_next_sector`: the next sector of the directory, or the end. */
    method NextSector() returns (ok: bool)
      requires Open() && !eof
      modifies this`currentSector, this`currentOffset, this`currentCluster, this`sectorInCluster, this`eof, this`at
      ensures Open() && ok == !eof == (old(at) + 1 < SectorCount(vol.g, rootFat16, chain))
      ensures ok ==> at == old(at) + 1 && currentOffset == 0
    {
      hide *;
      OpenMeans();
      vol.TableFacts();
      ghost var g, img, p := vol.g, vol.image, chain;
      SectorsExist(g, img, rootFat16, p);
      if vol.g.spc == 0 {
        return false;
      }
      if rootFat16 {
        if vol.g.RootDirSectorCount() == 0 {
          return false;
        }
        NextInRoot(g, img, p, at, currentSector, currentCluster, sectorInCluster, currentOffset);
        if currentSector + 1 < vol.g.RootDirSector() + vol.g.RootDirSectorCount() {
          currentSector := currentSector + 1;
          currentOffset := 0;
          at := at + 1;
          OpenIs();
          return true;
        }
        eof := true;
        OpenIs();
        return false;
      }
      NextInChain(g, img, p, at, currentSector, currentCluster, sectorInCluster, currentOffset);
      sectorInCluster := sectorInCluster + 1;
      if sectorInCluster < vol.g.spc {
        currentSector := vol.g.ClusterToSector(currentCluster) + sectorInCluster;
        currentOffset := 0;
        at := at + 1;
        OpenIs();
        return true;
      }
      var next := vol.ReadCluster(currentCluster);
      if next == 0 || vol.g.IsEoc(next) {
        eof := true;
        OpenIs();
        return false;
      }
      if next < 2 || next > vol.g.MaxCluster() {
        return false;
      }
      currentCluster := next;
      sectorInCluster := 0;
      currentSector := vol.g.ClusterToSector(next);
      if currentSector == 0 {
        return false;
      }
      currentOffset := 0;
      at := at + 1;
      OpenIs();
      return true;
    }

    /** The start of the loop of `fat_readdir`: a cursor at the end of its sector moves on. */
    method Advance() returns (ok: bool)
      requires Valid() && !eof
      modifies this`currentSector, this`currentOffset, this`currentCluster, this`sectorInCluster, this`eof, this`at
      ensures Valid() && ok == !eof
      ensures ok ==> Cursor() == old(Cursor()) && currentOffset < 512
      ensures !ok ==> Call(Slots(), old(Cursor())) == (End, Finished)
    {
      hide *;
      ValidMeans();
      PlacedFacts(vol.g, vol.image, rootFat16, chain, at, currentSector, currentCluster, sectorInCluster, currentOffset);
      ok := true;
      if currentOffset >= SECTOR_SIZE {
        ghost var i := 16 * at + currentOffset / 32;
        FollowsStart(Slots());
        ok := NextSector();
        OpenMeans();
        if !ok {
          CallPastEnd(Slots(), i, lfn);
        }
      }
    }

    /** The rest of a round: the slot `raw`, under the cursor, is shown, collected or passed over. */
    method TakeSlot(raw: DirEntry.Entry, ghost i: nat) returns (done: bool, r: Option<Dirent>)
      requires Valid() && Cursor() == Before(i, lfn) && !eof && currentOffset < 512
      requires i < |Slots()| && raw == Slots()[i]
      modifies this`currentOffset, this`lfn, this`eof
      ensures Valid()
      ensures done ==> Cursor() == Call(Slots(), Before(i, old(lfn))).1
      ensures done ==> IsAnswer(vol.g, vol.image, rootFat16, chain, Call(Slots(), Before(i, old(lfn))).0, r)
      ensures !done ==> Cursor() == Before(i + 1, lfn) && Call(Slots(), Cursor()) == Call(Slots(), Before(i, old(lfn)))
    {
      hide *;
      ValidMeans();
      AnswerEnd(vol.g, vol.image, rootFat16, chain);
      CursorSlot(i);
      CallStep(Slots(), i, lfn);
      FollowsStep(Slots(), i, lfn);
      var offset := currentOffset;
      currentOffset := currentOffset + ENTRY_BYTES;
      done, r := false, None;
      if IsEnd(raw) {
        lfn := [];
        eof := true;
        done := true;
      } else if IsDeleted(raw) {
        lfn := [];
      } else if IsLongSlot(raw) {
        lfn := if |lfn| < MAX_SLOTS then lfn + [raw] else [];
      } else if IsVolume(raw) {
        lfn := [];
      } else {
        var d := MakeDirent(vol.g.kind, raw, lfn, currentSector, offset);
        AnswerShown(vol.g, vol.image, rootFat16, chain, i, lfn, d);
        lfn := [];
        done, r := true, Some(d);
      }
      OpenIs();
    }

    /** The slot under the cursor, and the place after it. */
    lemma CursorSlot(i: nat)
      requires Valid() && Cursor() == Before(i, lfn) && !eof && currentOffset < 512
      ensures currentSector < |vol.image| && currentOffset + ENTRY_BYTES <= SECTOR_SIZE && i < |Slots()|
      ensures Slots()[i] == FatFiles.EntryAt(vol.image[currentSector], currentOffset)
      ensures 0 <= i / SLOTS_PER_SECTOR < SectorCount(vol.g, rootFat16, chain)
      ensures DirSector(vol.g, vol.image, rootFat16, chain, i / SLOTS_PER_SECTOR) == currentSector
      ensures ENTRY_BYTES * (i % SLOTS_PER_SECTOR) == currentOffset
      ensures IsPlaced(vol.g, vol.image, rootFat16, chain, at, currentSector, currentCluster, sectorInCluster,
                       currentOffset + ENTRY_BYTES)
      ensures 16 * at + (currentOffset + ENTRY_BYTES) / 32 == i + 1
    {
      hide *;
      ValidMeans();
      PlacedSlot(vol.g, vol.image, rootFat16, chain, at, currentSector, currentCluster, sectorInCluster, currentOffset, i);
    }

    /** One round of the loop of `fat_readdir`. */
    method Round(ghost i: nat) returns (done: bool, r: Option<Dirent>)
      requires Valid() && Cursor() == Before(i, lfn) && !eof
      modifies this
      ensures Valid()
      ensures done ==> Cursor() == Call(Slots(), Before(i, old(lfn))).1
      ensures done ==> IsAnswer(vol.g, vol.image, rootFat16, chain, Call(Slots(), Before(i, old(lfn))).0, r)
      ensures !done ==> i < |Slots()| && !eof && Cursor() == Before(i + 1, lfn)
      ensures !done ==> Call(Slots(), Cursor()) == Call(Slots(), Before(i, old(lfn)))
    {
      hide *;
      ValidMeans();
      AnswerEnd(vol.g, vol.image, rootFat16, chain);
      var ok := Advance();
      ValidMeans();
      if !ok {
        return true, None;
      }
      CursorSlot(i);
      var read, buffer := vol.ReadSector(currentSector);
      done, r := TakeSlot(FatFiles.EntryAt(buffer, currentOffset), i);
      ValidMeans();
    }

    /**
     `fat_readdir`: one call of `Listing.Call` on the slots of the directory; what is shown comes
     with its place on disk.
     */
    method ReadDir() returns (r: Option<Dirent>)
      requires Valid()
      modifies this
      ensures Valid()
      ensures Cursor() == Call(Slots(), old(Cursor())).1
      ensures IsAnswer(vol.g, vol.image, rootFat16, chain, Call(Slots(), old(Cursor())).0, r)
    {
      hide *;
      ValidMeans();
      ghost var slots, answer := Slots(), Call(Slots(), Cursor());
      CallFinished(slots);
      AnswerEnd(vol.g, vol.image, rootFat16, chain);
      if eof {
        return None;
      }
      ghost var i := Cursor().next;
      var done := false;
      r := None;
      while !done
        invariant Open() && Valid() && Slots() == slots
        invariant !done ==> !eof && Cursor() == Before(i, lfn) && Call(slots, Cursor()) == answer
        invariant done ==> Cursor() == answer.1 && IsAnswer(vol.g, vol.image, rootFat16, chain, answer.0, r)
        decreases !done, |slots| - i
      {
        done, r := Round(i);
        ValidMeans();
        i := i + 1;
      }
    }
  }

  /** What a call returns for what the scan found: nothing at the end, else the entry with its place on disk. */
  ghost predicate IsAnswer(g: Bpb, img: Image, root: bool, p: seq<nat>, f: Found, r: Option<Dirent>)
    requires IsDirectory(g, img, root, p)
  {
    match f
    case End => r == None
    case Shown(k, raw) =>
      && k < |Directories.Slots(g, img, root, p)| && IsReadable(Directories.Slots(g, img, root, p)[k], raw)
      && r == Some(DirentOf(g.kind, Directories.Slots(g, img, root, p)[k], raw,
                            DirSector(g, img, root, p, k / SLOTS_PER_SECTOR), ENTRY_BYTES * (k % SLOTS_PER_SECTOR)))
  }

  lemma AnswerEnd(g: Bpb, img: Image, root: bool, p: seq<nat>)
    requires IsDirectory(g, img, root, p)
    ensures IsAnswer(g, img, root, p, End, None)
  {
  }

  lemma AnswerShown(g: Bpb, img: Image, root: bool, p: seq<nat>, i: nat, raw: seq<DirEntry.Entry>, d: Dirent)
    requires IsDirectory(g, img, root, p)
    requires i < |Directories.Slots(g, img, root, p)| && IsReadable(Directories.Slots(g, img, root, p)[i], raw)
    requires 0 <= i / SLOTS_PER_SECTOR < SectorCount(g, root, p)
    requires d == DirentOf(g.kind, Directories.Slots(g, img, root, p)[i], raw,
                           DirSector(g, img, root, p, i / SLOTS_PER_SECTOR), ENTRY_BYTES * (i % SLOTS_PER_SECTOR))
    ensures IsAnswer(g, img, root, p, Shown(i, raw), Some(d))
  {
  }

  // ----- reading a whole directory -----

  /** The answers are those to the shown slots, each exactly once and in disk order. */
  ghost predicate AreAnswers(g: Bpb, img: Image, root: bool, p: seq<nat>, all: seq<Dirent>)
    requires IsDirectory(g, img, root, p)
  {
    var slots := Directories.Slots(g, img, root, p);
    && |all| <= |ShownFrom(slots, 0)|
    && forall n :: 0 <= n < |all| ==> IsNthAnswer(g, img, root, p, n, all[n])
  }

  ghost predicate IsNthAnswer(g: Bpb, img: Image, root: bool, p: seq<nat>, n: nat, d: Dirent)
    requires IsDirectory(g, img, root, p)
  {
    var slots := Directories.Slots(g, img, root, p);
    && n < |ShownFrom(slots, 0)| && ShownFrom(slots, 0)[n] < |slots|
    && IsAnswer(g, img, root, p, Shown(ShownFrom(slots, 0)[n], Pending(slots, ShownFrom(slots, 0)[n])), Some(d))
  }

  /**
   The loop of `listdir`: calls on a freshly opened directory until one returns nothing. They return
   all shown slots, each once and in disk order, with its run and its place on disk.
   */
  method ReadAll(dir: FatDir) returns (all: seq<Dirent>)
    requires dir.Valid() && dir.Cursor() == Before(0, [])
    modifies dir
    ensures dir.Valid() && dir.Cursor() == Finished
    ensures AreAnswers(dir.vol.g, dir.vol.image, dir.rootFat16, dir.chain, all) && |all| == |ShownFrom(dir.Slots(), 0)|
    ensures forall n :: 0 <= n < |all| ==> IsInUse(dir.vol.g.kind, all[n])
  {
    hide *;
    dir.ValidMeans();
    ghost var g, img, root, p, slots := dir.vol.g, dir.vol.image, dir.rootFat16, dir.chain, dir.Slots();
    all := [];
    NoAnswersYet(g, img, root, p);
    while true
      invariant dir.Valid() && dir.Open() && dir.Slots() == slots && dir.Cursor() == AfterCalls(slots, |all|)
      invariant AreAnswers(g, img, root, p, all) && |all| <= |ShownFrom(slots, 0)|
      decreases |ShownFrom(slots, 0)| - |all|
    {
      var r := dir.ReadDir();
      dir.ValidMeans();
      NextAnswer(g, img, root, p, all, r);
      if r == None {
        AllInUse(g, img, root, p, all);
        return;
      }
      all := all + [r.value];
    }
  }

  /** What an answer says of the bytes of its entry: they are those of a file or directory in use. */
  ghost predicate IsInUse(kind: FatKind, d: Dirent) {
    var e := d.entry;
    && e[0] != 0x00 && e[0] != 0xE5 && e[11] != 0x0F && e[11] / 8 % 2 == 0
    && d.isDirectory == (e[11] / 16 % 2 == 1)
    && d.size == (e[28] as int) + 0x100 * (e[29] as int) + 0x1_0000 * (e[30] as int) + 0x100_0000 * (e[31] as int)
    && d.firstCluster == (e[26] as int) + 0x100 * (e[27] as int)
         + if kind == Fat32 then 0x1_0000 * (e[20] as int) + 0x100_0000 * (e[21] as int) else 0
  }

  lemma AllInUse(g: Bpb, img: Image, root: bool, p: seq<nat>, all: seq<Dirent>)
    requires IsDirectory(g, img, root, p) && AreAnswers(g, img, root, p, all)
    ensures forall n :: 0 <= n < |all| ==> IsInUse(g.kind, all[n])
  {
    hide IsDirectory, Directories.Slots, ShownFrom, Pending, IsInUse, IsNthAnswer;
    forall n | 0 <= n < |all| ensures IsInUse(g.kind, all[n]) {
      NthInUse(g, img, root, p, n, all[n]);
    }
  }

  lemma NthInUse(g: Bpb, img: Image, root: bool, p: seq<nat>, n: nat, d: Dirent)
    requires IsDirectory(g, img, root, p) && IsNthAnswer(g, img, root, p, n, d)
    ensures IsInUse(g.kind, d)
  {
    hide IsDirectory, Directories.Slots, ShownFrom, Pending, DirSector, IsInUse, IsReadable;
    var slots := Directories.Slots(g, img, root, p);
    var k := ShownFrom(slots, 0)[n];
    ShownBytes(slots, k);
    ShownInUse(g.kind, slots[k], Pending(slots, k), DirSector(g, img, root, p, k / SLOTS_PER_SECTOR),
               ENTRY_BYTES * (k % SLOTS_PER_SECTOR));
  }

  lemma ShownInUse(kind: FatKind, e: DirEntry.Entry, raw: seq<DirEntry.Entry>, sector: nat, offset: nat)
    requires IsReadable(e, raw) && e[0] != 0x00 && e[0] != 0xE5 && e[11] != 0x0F && e[11] / 8 % 2 == 0
    ensures IsInUse(kind, DirentOf(kind, e, raw, sector, offset))
  {
    hide Readable, HasLongName, DirEntry.FileSize, DirEntry.FirstCluster;
    DirEntry.EntryFields(kind, e);
  }

  lemma NoAnswersYet(g: Bpb, img: Image, root: bool, p: seq<nat>)
    requires IsDirectory(g, img, root, p)
    ensures AreAnswers(g, img, root, p, []) && AfterCalls(Directories.Slots(g, img, root, p), 0) == Before(0, [])
  {
    hide IsDirectory, Directories.Slots;
  }

  lemma NextAnswer(g: Bpb, img: Image, root: bool, p: seq<nat>, all: seq<Dirent>, r: Option<Dirent>)
    requires IsDirectory(g, img, root, p) && AreAnswers(g, img, root, p, all)
    requires var slots := Directories.Slots(g, img, root, p);
      IsAnswer(g, img, root, p, Call(slots, AfterCalls(slots, |all|)).0, r)
    ensures var slots := Directories.Slots(g, img, root, p);
      && Call(slots, AfterCalls(slots, |all|)).1 == (if r == None then Finished else AfterCalls(slots, |all| + 1))
      && (r == None ==> |all| == |ShownFrom(slots, 0)|)
      && (r != None ==> AreAnswers(g, img, root, p, all + [r.value]) && |all| < |ShownFrom(slots, 0)|)
  {
    hide *;
    var slots := Directories.Slots(g, img, root, p);
    CallNumber(slots, |all|);
    AnswerKind(g, img, root, p, Call(slots, AfterCalls(slots, |all|)).0, r);
    if r == None {
      AnswersCount(g, img, root, p, all);
    } else {
      AnswersGrow(g, img, root, p, all, r.value);
    }
  }

  /** Call number `n` and the cursor after it. */
  lemma CallNumber(slots: seq<DirEntry.Entry>, n: nat)
    ensures var c, all := Call(slots, AfterCalls(slots, n)), ShownFrom(slots, 0);
      && c.1 == (if c.0 == End then Finished else AfterCalls(slots, n + 1))
      && (c.0 == End <==> n >= |all|)
      && (n < |all| ==> all[n] < |slots| && c.0 == Shown(all[n], Pending(slots, all[n])))
  {
    hide Scan, ShownFrom, Pending;
    ListingIsExact(slots, n);
  }

  lemma AnswersCount(g: Bpb, img: Image, root: bool, p: seq<nat>, all: seq<Dirent>)
    requires IsDirectory(g, img, root, p) && AreAnswers(g, img, root, p, all)
    ensures |all| <= |ShownFrom(Directories.Slots(g, img, root, p), 0)|
  {
    hide IsDirectory, Directories.Slots, ShownFrom, IsNthAnswer;
  }

  lemma AnswersGrow(g: Bpb, img: Image, root: bool, p: seq<nat>, all: seq<Dirent>, d: Dirent)
    requires IsDirectory(g, img, root, p) && AreAnswers(g, img, root, p, all)
    requires var slots := Directories.Slots(g, img, root, p);
      && |all| < |ShownFrom(slots, 0)| && ShownFrom(slots, 0)[|all|] < |slots|
      && IsAnswer(g, img, root, p, Shown(ShownFrom(slots, 0)[|all|], Pending(slots, ShownFrom(slots, 0)[|all|])), Some(d))
    ensures AreAnswers(g, img, root, p, all + [d])
  {
    hide IsDirectory, Directories.Slots, ShownFrom, Pending, IsAnswer;
    assert IsNthAnswer(g, img, root, p, |all|, d);
  }

  lemma AnswerKind(g: Bpb, img: Image, root: bool, p: seq<nat>, f: Found, r: Option<Dirent>)
    requires IsDirectory(g, img, root, p) && IsAnswer(g, img, root, p, f, r)
    ensures r == None <==> f == End
  {
    hide IsDirectory, Directories.Slots, IsReadable, DirSector, DirentOf;
  }

  // ----- the place of a cursor -----

  /** The fields of an open directory when it stands in sector `at` of the directory. */
  ghost predicate IsPlaced(g: Bpb, img: Image, root: bool, p: seq<nat>, at: nat, sector: nat, cluster: nat,
                           sectorInCluster: nat, offset: nat)
    requires IsDirectory(g, img, root, p)
  {
    && at < SectorCount(g, root, p) && sector == DirSector(g, img, root, p, at)
    && (!root ==> g.spc > 0 && 0 <= at / g.spc < |p| && cluster == p[at / g.spc] && sectorInCluster == at % g.spc)
    && offset <= SECTOR_SIZE && offset % ENTRY_BYTES == 0
  }

  /** No slot numbered 20 is ever looked at. */
  ghost predicate AllReadable(slots: seq<DirEntry.Entry>) {
    forall k: nat :: Reached(slots, 0, k) ==> IsReadable(slots[k], Pending(slots, k))
  }

  /** A cursor that came to its slot from the first one: no end marker on the way, and the slots before it collected. */
  ghost predicate Follows(slots: seq<DirEntry.Entry>, c: Cursor) {
    c.Before? ==> c.next <= |slots| && c.raw == Pending(slots, c.next) && NoEndBefore(slots, c.next)
  }

  lemma SectorsExist(g: Bpb, img: Image, root: bool, p: seq<nat>)
    requires IsDirectory(g, img, root, p)
    ensures g.spc > 0 && SectorCount(g, root, p) > 0
    ensures root ==> g.RootDirSectorCount() > 0
  {
    hide IsFile, TableImage.TableOf;
    if !root {
      Times(1, |p|, g.spc);
    }
  }

  /** A sector of the fixed root. */
  lemma RootSector(g: Bpb, img: Image, p: seq<nat>, j: nat)
    requires IsDirectory(g, img, true, p)
    ensures SectorCount(g, true, p) == g.RootDirSectorCount()
    ensures g.RootDirSector() + g.RootDirSectorCount() < TWO32
    ensures j < SectorCount(g, true, p) ==> DirSector(g, img, true, p, j) == g.RootDirSector() + j
  {
    hide Bpb.RootDirSectorCount, Bpb.RootDirSector;
    RootInside(g, |img|, g.RootDirSectorCount() - 1);
    RootEnd(g, |img|);
  }

  lemma RootEnd(g: Bpb, sectors: nat)
    requires g.WellFormed(sectors)
    ensures g.RootDirSector() + g.RootDirSectorCount() < TWO32
  {
    NoWrap(g, sectors);
  }

  /** A sector of a directory in the data area, by its cluster. */
  lemma ChainSector(g: Bpb, img: Image, p: seq<nat>, j: nat)
    requires IsDirectory(g, img, false, p) && j < SectorCount(g, false, p)
    ensures SectorCount(g, false, p) == |p| * g.spc
    ensures g.spc > 0 && 0 <= j / g.spc < |p| && 0 <= j % g.spc < g.spc
    ensures p[j / g.spc] < TWO32 && g.IsData(p[j / g.spc])
    ensures DirSector(g, img, false, p, j) == g.ClusterToSector(p[j / g.spc]) + j % g.spc
    ensures 0 < DirSector(g, img, false, p, j) < TWO32
  {
    hide Bpb.WellFormed, Bpb.IsData, Bpb.ClusterToSector, TableImage.TableOf, IsFile;
    FileOnData(g, img, p);
    ClusterOfSector(g, |img|, |p|, j);
    InsideData(g, |img|, p[j / g.spc], j % g.spc);
  }

  lemma InsideData(g: Bpb, sectors: nat, c: u32, k: nat)
    requires g.WellFormed(sectors) && g.IsData(c) && k < g.spc
    ensures 0 < g.ClusterToSector(c) + k < TWO32
  {
    ClusterInside(g, sectors, c, k);
    NoWrap(g, sectors);
  }

  lemma DirectoryStart(g: Bpb, img: Image, root: bool, p: seq<nat>, cluster: nat)
    requires IsDirectory(g, img, root, p) && (root || Head(p) == cluster)
    ensures 0 <= cluster && (!root ==> cluster < TWO32)
    ensures IsPlaced(g, img, root, p, 0, if root then g.RootDirSector() else g.ClusterToSector(cluster),
                     if root then 0 else cluster, 0, 0)
  {
    hide Bpb.WellFormed, Bpb.IsData, Bpb.ClusterToSector, TableImage.TableOf, Bpb.RootDirSector, DirSector;
    SectorsExist(g, img, root, p);
    if root {
      RootSector(g, img, p, 0);
    } else {
      ChainSector(g, img, p, 0);
      Division(0, g.spc, 0, 0);
    }
  }

  lemma NextInRoot(g: Bpb, img: Image, p: seq<nat>, at: nat, sector: nat, cluster: nat, sectorInCluster: nat, offset: nat)
    requires IsDirectory(g, img, true, p) && IsPlaced(g, img, true, p, at, sector, cluster, sectorInCluster, offset)
    ensures sector + 1 < g.RootDirSector() + g.RootDirSectorCount() <==> at + 1 < SectorCount(g, true, p)
    ensures at + 1 < SectorCount(g, true, p) ==>
      sector + 1 < TWO32 && IsPlaced(g, img, true, p, at + 1, sector + 1, cluster, sectorInCluster, 0)
  {
    hide Bpb.WellFormed, Bpb.RootDirSector, Bpb.RootDirSectorCount, DirSector, IsDirectory, SectorCount;
    RootSector(g, img, p, at);
    RootSector(g, img, p, at + 1);
  }

  lemma NextInChain(g: Bpb, img: Image, p: seq<nat>, at: nat, sector: nat, cluster: nat, sectorInCluster: nat, offset: nat)
    requires IsDirectory(g, img, false, p) && IsPlaced(g, img, false, p, at, sector, cluster, sectorInCluster, offset)
    ensures 2 <= cluster < TWO32 && g.IsData(cluster) && cluster < |TableImage.TableOf(g, img)|
    ensures sectorInCluster + 1 < g.spc ==>
      && g.ClusterToSector(cluster) + (sectorInCluster + 1) < TWO32
      && at + 1 < SectorCount(g, false, p)
      && IsPlaced(g, img, false, p, at + 1, g.ClusterToSector(cluster) + (sectorInCluster + 1), cluster, sectorInCluster + 1, 0)
    ensures sectorInCluster + 1 >= g.spc ==>
      var next := TableImage.TableOf(g, img)[cluster];
      && (next == 0 || next >= g.Eoc() ==> at + 1 >= SectorCount(g, false, p))
      && (next != 0 && next < g.Eoc() ==>
            && 2 <= next <= g.MaxCluster() && g.ClusterToSector(next) != 0
            && at + 1 < SectorCount(g, false, p)
            && IsPlaced(g, img, false, p, at + 1, g.ClusterToSector(next), next, 0, 0))
  {
    hide Bpb.WellFormed, Bpb.ClusterToSector, TableImage.TableOf, DirSector, Bpb.MaxCluster, IsDirectory, SectorCount;
    ChainSector(g, img, p, at);
    NextIndex(g.spc, |p|, at);
    ChainNext(g, img, p, at / g.spc);
    if at + 1 < SectorCount(g, false, p) {
      ChainSector(g, img, p, at + 1);
    }
  }

  lemma NextIndex(spc: nat, n: nat, at: nat)
    requires spc > 0 && at < n * spc
    ensures at % spc + 1 < spc ==>
      at + 1 < n * spc && (at + 1) / spc == at / spc && (at + 1) % spc == at % spc + 1
    ensures at % spc + 1 >= spc ==>
      (at + 1) / spc == at / spc + 1 && (at + 1) % spc == 0 && (at + 1 < n * spc <==> at / spc + 1 < n)
  {
    var q, r := at / spc, at % spc;
    assert at == q * spc + r && r < spc;
    NextIndexParts(spc, n, at, q, r);
  }

  lemma NextIndexParts(spc: nat, n: nat, at: nat, q: int, r: int)
    requires spc > 0 && at < n * spc && at == q * spc + r && 0 <= r < spc && q >= 0
    ensures r + 1 < spc ==> at + 1 < n * spc && (at + 1) / spc == q && (at + 1) % spc == r + 1
    ensures r + 1 >= spc ==> (at + 1) / spc == q + 1 && (at + 1) % spc == 0 && (at + 1 < n * spc <==> q + 1 < n)
  {
    TimesBack(q, n, spc);
    assert (q + 1) * spc == q * spc + spc;
    Times(q + 1, n, spc);
    if r + 1 < spc {
      Division(at + 1, spc, q, r + 1);
    } else {
      Division(at + 1, spc, q + 1, 0);
      if q + 1 < n {
        Times(q + 2, n, spc);
        assert (q + 2) * spc == (q + 1) * spc + spc;
      }
    }
  }

  /** The table entry of a cluster of the directory names the next, or ends the chain. */
  lemma ChainNext(g: Bpb, img: Image, p: seq<nat>, i: nat)
    requires IsDirectory(g, img, false, p) && i < |p|
    ensures p[i] < |TableImage.TableOf(g, img)| && g.IsData(p[i])
    ensures var next := TableImage.TableOf(g, img)[p[i]];
      if i + 1 < |p| then next == p[i + 1] && 2 <= next <= g.MaxCluster() && next < g.Eoc()
      else next >= g.Eoc()
  {
    hide Bpb.MaxCluster, TableImage.Entry, Bpb.RootDirSectorCount, Bpb.DataStart;
    FileOnData(g, img, p);
  }

  lemma PlacedFacts(g: Bpb, img: Image, root: bool, p: seq<nat>, at: nat, sector: nat, cluster: nat, sectorInCluster: nat,
                    offset: nat)
    requires IsDirectory(g, img, root, p) && IsPlaced(g, img, root, p, at, sector, cluster, sectorInCluster, offset)
    ensures offset <= 512 && offset % 32 == 0
    ensures |Directories.Slots(g, img, root, p)| == 16 * SectorCount(g, root, p)
    ensures 16 * at + offset / 32 <= 16 * SectorCount(g, root, p) && at < SectorCount(g, root, p)
    ensures offset >= 512 ==> offset / 32 == 16
    ensures offset == 0 ==> offset / 32 == 0
  {
    hide IsDirectory, SectorCount, DirSector;
  }

  /** The slot under the cursor. */
  lemma PlacedSlot(g: Bpb, img: Image, root: bool, p: seq<nat>, at: nat, sector: nat, cluster: nat, sectorInCluster: nat,
                   offset: nat, i: nat)
    requires IsDirectory(g, img, root, p) && IsPlaced(g, img, root, p, at, sector, cluster, sectorInCluster, offset)
    requires offset < 512 && i == 16 * at + offset / 32
    ensures sector < |img| && offset + ENTRY_BYTES <= SECTOR_SIZE && i < |Directories.Slots(g, img, root, p)|
    ensures Directories.Slots(g, img, root, p)[i] == FatFiles.EntryAt(img[sector], offset)
    ensures 0 <= i / SLOTS_PER_SECTOR < SectorCount(g, root, p)
    ensures DirSector(g, img, root, p, i / SLOTS_PER_SECTOR) == sector && ENTRY_BYTES * (i % SLOTS_PER_SECTOR) == offset
    ensures IsPlaced(g, img, root, p, at, sector, cluster, sectorInCluster, offset + ENTRY_BYTES)
    ensures (offset + ENTRY_BYTES) / 32 == offset / 32 + 1
  {
    hide IsDirectory, SectorCount, DirSector;
    SlotPlace(at, offset, i);
  }

  lemma SlotPlace(at: nat, offset: nat, i: nat)
    requires offset < 512 && offset % 32 == 0 && i == 16 * at + offset / 32
    ensures i / 16 == at && 32 * (i % 16) == offset && offset + 32 <= 512
    ensures (offset + 32) % 32 == 0 && (offset + 32) / 32 == offset / 32 + 1
  {
  }

  // ----- one slot of a call -----

  lemma CallFinished(slots: seq<DirEntry.Entry>)
    ensures Call(slots, Finished) == (End, Finished)
  {
  }

  lemma CallPastEnd(slots: seq<DirEntry.Entry>, i: nat, raw: seq<DirEntry.Entry>)
    requires i >= |slots|
    ensures Call(slots, Before(i, raw)) == (End, Finished)
  {
  }

  lemma CallStep(slots: seq<DirEntry.Entry>, i: nat, raw: seq<DirEntry.Entry>)
    requires i < |slots|
    ensures var s, c := slots[i], Call(slots, Before(i, raw));
      if IsEnd(s) then c == (End, Finished)
      else if IsDeleted(s) then c == Call(slots, Before(i + 1, []))
      else if IsLongSlot(s) then c == Call(slots, Before(i + 1, if |raw| < MAX_SLOTS then raw + [s] else []))
      else if IsVolume(s) then c == Call(slots, Before(i + 1, []))
      else c == (Shown(i, raw), Before(i + 1, []))
  {
  }

  lemma FollowsStart(slots: seq<DirEntry.Entry>)
    ensures Follows(slots, Before(0, [])) && Follows(slots, Finished)
  {
  }

  /** One slot on, the cursor has followed; and a slot to be shown is one whose run can be read. */
  lemma FollowsStep(slots: seq<DirEntry.Entry>, i: nat, raw: seq<DirEntry.Entry>)
    requires i < |slots| && Follows(slots, Before(i, raw)) && AllReadable(slots)
    ensures Follows(slots, Finished)
    ensures var s := slots[i];
      && (!IsEnd(s) && !IsDeleted(s) && !IsLongSlot(s) && !IsVolume(s) ==> IsReadable(s, raw))
      && (!IsEnd(s) ==> Follows(slots, Before(i + 1, if !IsDeleted(s) && IsLongSlot(s) && |raw| < MAX_SLOTS then raw + [s] else [])))
  {
    hide IsEnd, IsDeleted, IsLongSlot, IsVolume, IsReadable;
    if IsShown(slots[i]) {
      assert Reached(slots, 0, i);
    }
  }
}
