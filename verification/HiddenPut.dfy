/** Two directories into which a file can be put without being listed under its name. */
module HiddenPuts {
  import opened Words
  import opened Geometry
  import TableImage
  import Chains
  import opened Allocator
  import opened FileBytes
  import Volumes
  import DirEntry
  import opened LongNames
  import opened Listing
  import opened Directories
  import opened FreeSlots
  import opened Puts
  import FatDirs
  import RoundTrips
  import Unicode

  // ----- when a put is listed -----

  /** With nothing left over before the place, only an end marker or a U+FFFF can keep a file from being listed. */
  lemma ListedPlainly(g: Bpb, a: Image, root: bool, q: seq<nat>, name: seq<byte>, t: Unicode.Text, sd: nat, o: nat)
    requires IsDirectory(g, a, root, q) && GoesTo(g, a, root, q, name, t, sd, o)
    requires sd < SectorCount(g, root, q) && o < 16 && LeftBefore(g, a, root, q, sd, o) == []
    ensures CanTell(g, a, root, q, name)
    ensures WillBeListed(g, a, root, q, name) <==>
      && NoEndBefore(Slots(g, a, root, q), 16 * sd + o)
      && if t[0] == 0xFFFF then UpToZero(ShortName(DosFold(name).0)) == name else 0xFFFF !in t
  {
    hide *;
    GoesToText(g, a, root, q, name, t, sd, o);
    GoesToMeans(g, a, root, q, name, t, sd, o);
    ListedIffAt(g, a, root, q, name, t, sd, o);
    DosLength(name);
    RoundTrips.ShownNameIs(t, name, DosFold(name).0, []);
    NoneLeft(t, DosFold(name).0);
    TellOfOne(g, a, root, q, name, t, sd, o);
  }

  lemma GoesToText(g: Bpb, a: Image, root: bool, q: seq<nat>, name: seq<byte>, t: Unicode.Text, sd: nat, o: nat)
    requires IsDirectory(g, a, root, q) && GoesTo(g, a, root, q, name, t, sd, o)
    ensures t != [] && Unicode.IsReading(t, name, MAX_UNITS)
  {
  }

  lemma NoneLeft(t: Unicode.Text, dosName: seq<byte>)
    ensures RoundTrips.MayPrecede([], t, dosName) && Joins([], SlotCount(|Unicode.Utf16(t)|), ChecksumOf(dosName))
  {
  }

  lemma DosLength(name: seq<byte>)
    ensures |DosFold(name).0| == 11
  {
  }

  /** What a directory usually looks like: after its end marker nothing is used. */
  ghost predicate UnusedAfterEnd(slots: seq<DirEntry.Entry>) {
    forall i, j :: 0 <= i < j < |slots| && IsEnd(slots[i]) ==> IsUnused(slots[j])
  }

  /**
   In such a directory an end marker comes before the place of a new file only if the directory is a
   chain, and the end marker is in an earlier sector with too few slots from there on; never in the
   fixed root.
   */
  lemma EndBeforePlace(g: Bpb, a: Image, root: bool, q: seq<nat>, sd: nat, o: nat, n: nat, e: nat)
    requires IsDirectory(g, a, root, q) && IsFound(g, a, root, q, sd, o, n) && n > 0
    requires UnusedAfterEnd(Slots(g, a, root, q))
    requires e < 16 * sd + o && e < |Slots(g, a, root, q)| && IsEnd(Slots(g, a, root, q)[e])
    ensures !root && e / 16 < sd && e % 16 + n > 16
  {
    hide *;
    FoundFree(g, a, root, q, sd, o, n);
    RowFromEnd(Slots(g, a, root, q), e, 16 * sd + o, n);
    FoundParts(g, a, root, q, sd, o, n, e);
    if !root && e % 16 + n <= 16 {
      RowOfSector(g, a, q, e / 16, e % 16, n);
      NoEarlierRow(g, a, q, sd, o, n, e / 16, e % 16);
    }
  }

  /** Everything from an end marker to the end of a later row is unused. */
  lemma RowFromEnd(slots: seq<DirEntry.Entry>, e: nat, first: nat, n: nat)
    requires UnusedAfterEnd(slots) && e < first && e < |slots| && IsEnd(slots[e]) && FreeRun(slots, first, n)
    ensures FreeRun(slots, e, n) && forall i :: e <= i < |slots| ==> IsUnused(slots[i])
  {
    hide IsEnd, IsDeleted;
    assert IsUnused(slots[e]);
  }

  /** The first row of the fixed root has none before it; a row of a chain lies in one sector. */
  lemma FoundParts(g: Bpb, a: Image, root: bool, q: seq<nat>, sd: nat, o: nat, n: nat, e: nat)
    requires IsDirectory(g, a, root, q) && IsFound(g, a, root, q, sd, o, n) && e < 16 * sd + o && n > 0
    ensures root ==> !FreeRun(Slots(g, a, root, q), e, n)
    ensures !root ==> o + n <= 16
    ensures 0 <= e / 16 <= sd < SectorCount(g, root, q) && 0 <= e % 16 < 16 && e == 16 * (e / 16) + e % 16
    ensures e / 16 == sd ==> e % 16 < o
  {
    hide IsDirectory, SectorCount, Slots, DirSector, SectorSlots, NoneBefore, IsUnused;
    if !root {
      RowsExclude(SectorSlots(a[DirSector(g, a, root, q, sd)]), o, n);
    }
  }

  lemma RowOfSector(g: Bpb, a: Image, q: seq<nat>, j: nat, m: nat, n: nat)
    requires IsDirectory(g, a, false, q) && j < SectorCount(g, false, q) && m + n <= 16
    requires forall i :: 16 * j + m <= i < |Slots(g, a, false, q)| ==> IsUnused(Slots(g, a, false, q)[i])
    ensures FreeRun(SectorSlots(a[DirSector(g, a, false, q, j)]), m, n)
  {
    hide IsDirectory, SectorCount, DirSector, IsUnused, SlotAt;
    var v := Slots(g, a, false, q);
    forall k | m <= k < m + n ensures IsUnused(SectorSlots(a[DirSector(g, a, false, q, j)])[k]) {
      assert (16 * j + k) / 16 == j && (16 * j + k) % 16 == k;
      RoundTrips.SlotBefore(g, a, false, q, j, 16 * j + k);
      assert IsUnused(v[16 * j + k]);
    }
  }

  lemma NoEarlierRow(g: Bpb, a: Image, q: seq<nat>, sd: nat, o: nat, n: nat, j: nat, m: nat)
    requires IsDirectory(g, a, false, q) && IsFound(g, a, false, q, sd, o, n) && j <= sd && (j == sd ==> m < o)
    ensures !FreeRun(SectorSlots(a[DirSector(g, a, false, q, j)]), m, n)
  {
    hide IsDirectory, SectorCount, DirSector, SectorSlots, FreeRun;
  }

  // ----- an end marker that the search does not see -----

  /**
   A directory of two clusters of one sector: fifteen used slots and the end marker in its last slot,
   then a sector of unused slots. Whatever fits a sector is put behind the end marker, because the
   search takes rows of one sector only, and there no listing gets to it.
   */
  lemma HiddenBehindEnd() returns (g: Bpb, img: Image, q: seq<nat>)
    ensures g.WellFormed(|img|) && TableImage.Mirrored(g, img) && IsDirectory(g, img, false, q)
    ensures forall name, u: Unicode.Text :: FitsSector(u, name) ==>
      CanPut(g, img, false, q, name, []) && CanTell(g, img, false, q, name) && !WillBeListed(g, img, false, q, name)
  {
    hide *;
    var used, free;
    g, img, used, free := TwoSectors();
    q := [2, 3];
    forall name, u: Unicode.Text | FitsSector(u, name)
      ensures CanPut(g, img, false, q, name, []) && CanTell(g, img, false, q, name) && !WillBeListed(g, img, false, q, name)
    {
      BehindEnd(g, img, q, used, free, name, u);
    }
  }

  /** An acceptable name whose entries fit an empty sector. */
  ghost predicate FitsSector(u: Unicode.Text, name: seq<byte>) {
    u != [] && Unicode.IsReading(u, name, MAX_UNITS) && SlotCount(|Unicode.Utf16(u)|) <= 15
  }

  lemma FittingName(u: Unicode.Text, name: seq<byte>)
    requires FitsSector(u, name)
    ensures u != [] && Unicode.IsReading(u, name, MAX_UNITS) && 0 < SlotCount(|Unicode.Utf16(u)|) <= 15
  {
    hide Unicode.Utf16, Unicode.IsReading;
    TextUnits(u, name);
  }

  /** Fifteen used slots and the end marker. */
  ghost predicate IsNearlyFull(s: Sector) {
    forall j :: 0 <= j < 512 ==> s[j] == if j == 480 then 0 else 0x41
  }

  ghost predicate IsBlank(s: Sector) {
    forall j :: 0 <= j < 512 ==> s[j] == 0
  }

  lemma BehindEnd(g: Bpb, img: Image, q: seq<nat>, used: Sector, free: Sector, name: seq<byte>, u: Unicode.Text)
    requires IsDirectory(g, img, false, q) && SectorCount(g, false, q) == 2
    requires img[DirSector(g, img, false, q, 0)] == used && img[DirSector(g, img, false, q, 1)] == free
    requires IsNearlyFull(used) && IsBlank(free)
    requires FitsSector(u, name)
    ensures CanPut(g, img, false, q, name, []) && CanTell(g, img, false, q, name) && !WillBeListed(g, img, false, q, name)
  {
    hide *;
    FittingName(u, name);
    var n := SlotCount(|Unicode.Utf16(u)|) + 1;
    UsedRows(used, n);
    FreeRows(free, n);
    FoundBehind(g, img, q, n);
    GoesThere(g, img, false, q, name, u, 1, 0);
    EndInSlots(g, img, q, used);
    NothingLeft(Slots(g, img, false, q), 16);
    GoesToMeans(g, img, false, q, name, u, 1, 0);
    ListedIffAt(g, img, false, q, name, u, 1, 0);
    TellOfOne(g, img, false, q, name, u, 1, 0);
    EmptyFits(g, img, false, q);
    PutHasRoom(g, img, false, q, name, u);
  }

  lemma UsedRows(used: Sector, n: nat)
    requires IsNearlyFull(used) && n >= 2
    ensures NoFreeRun(SectorSlots(used), n)
  {
    forall i: nat ensures !FreeRun(SectorSlots(used), i, n) {
      assert i < 15 ==> !IsUnused(SectorSlots(used)[i]);
    }
  }

  lemma FreeRows(free: Sector, n: nat)
    requires IsBlank(free) && n <= 16
    ensures FirstFreeRun(SectorSlots(free), 0, n)
  {
  }

  lemma FoundBehind(g: Bpb, img: Image, q: seq<nat>, n: nat)
    requires IsDirectory(g, img, false, q) && SectorCount(g, false, q) == 2 && n <= 16
    requires NoFreeRun(SectorSlots(img[DirSector(g, img, false, q, 0)]), n)
    requires FirstFreeRun(SectorSlots(img[DirSector(g, img, false, q, 1)]), 0, n)
    ensures IsFound(g, img, false, q, 1, 0, n) && HasRoom(g, img, false, q, n)
  {
    hide IsDirectory, SectorCount, DirSector, SectorSlots, FreeRun;
    RowsExclude(SectorSlots(img[DirSector(g, img, false, q, 1)]), 0, n);
  }

  lemma GoesThere(g: Bpb, img: Image, root: bool, q: seq<nat>, name: seq<byte>, u: Unicode.Text, sd: nat, o: nat)
    requires IsDirectory(g, img, root, q) && u != [] && Unicode.IsReading(u, name, MAX_UNITS)
    requires IsFound(g, img, root, q, sd, o, SlotCount(|Unicode.Utf16(u)|) + 1)
    ensures GoesTo(g, img, root, q, name, u, sd, o)
  {
    hide IsDirectory, IsFound, Unicode.IsReading, Unicode.Utf16;
  }

  lemma EndInSlots(g: Bpb, img: Image, q: seq<nat>, used: Sector)
    requires IsDirectory(g, img, false, q) && SectorCount(g, false, q) == 2
    requires img[DirSector(g, img, false, q, 0)] == used && IsNearlyFull(used)
    ensures |Slots(g, img, false, q)| == 32
    ensures IsEnd(Slots(g, img, false, q)[15]) && !IsLongSlot(Slots(g, img, false, q)[15])
  {
    hide IsDirectory, SectorCount, DirSector;
    RoundTrips.SlotBefore(g, img, false, q, 0, 15);
  }

  /** An end marker directly before the place: nothing is collected there, and no listing reaches it. */
  lemma NothingLeft(slots: seq<DirEntry.Entry>, i: nat)
    requires 0 < i < |slots| && IsEnd(slots[i - 1]) && !IsLongSlot(slots[i - 1])
    ensures Pending(slots, i) == [] && !NoEndBefore(slots, i)
    ensures forall t, dosName :: RoundTrips.MayPrecede([], t, dosName)
  {
    NothingPending(slots, i);
  }

  /** Only one place has to be looked at. */
  lemma TellOfOne(g: Bpb, img: Image, root: bool, q: seq<nat>, name: seq<byte>, u: Unicode.Text, sd: nat, o: nat)
    requires IsDirectory(g, img, root, q) && GoesTo(g, img, root, q, name, u, sd, o)
    requires sd < SectorCount(g, root, q) && o < 16
    requires RoundTrips.MayPrecede(LeftBefore(g, img, root, q, sd, o), u, DosFold(name).0)
    ensures CanTell(g, img, root, q, name)
  {
    hide IsDirectory, GoesTo, SectorCount, LeftBefore, RoundTrips.MayPrecede, DosFold;
    forall t, sd', o' | GoesTo(g, img, root, q, name, t, sd', o') ensures t == u && sd' == sd && o' == o {
      GoesToOne(g, img, root, q, name, u, sd, o, t, sd', o');
    }
  }

  lemma EmptyFits(g: Bpb, img: Image, root: bool, q: seq<nat>)
    requires IsDirectory(g, img, root, q)
    ensures g.ClusterBytes() > 0 && Ceil(0, g.ClusterBytes()) == 0
  {
    CeilNone(g.ClusterBytes());
  }

  lemma PutHasRoom(g: Bpb, img: Image, root: bool, q: seq<nat>, name: seq<byte>, u: Unicode.Text)
    requires IsDirectory(g, img, root, q) && u != [] && Unicode.IsReading(u, name, MAX_UNITS)
    requires HasRoom(g, img, root, q, SlotCount(|Unicode.Utf16(u)|) + 1) && g.ClusterBytes() > 0 && Ceil(0, g.ClusterBytes()) == 0
    ensures CanPut(g, img, root, q, name, [])
  {
    hide HasRoom, SectorCount, Unicode.IsReading, Unicode.Utf16, Ceil, Chains.Free, TableImage.TableOf, IsFile;
    assert NameHasRoom(g, img, root, q, name, u);
  }

  /** The directory is the chain of clusters 2 and 3. */
  lemma TwoSectors() returns (g: Bpb, img: Image, used: Sector, free: Sector)
    ensures g.WellFormed(|img|) && TableImage.Mirrored(g, img) && IsDirectory(g, img, false, [2, 3])
    ensures SectorCount(g, false, [2, 3]) == 2
    ensures img[DirSector(g, img, false, [2, 3], 0)] == used && img[DirSector(g, img, false, [2, 3], 1)] == free
    ensures IsNearlyFull(used) && IsBlank(free)
  {
    hide *;
    var blank;
    g, blank := Volumes.BlankVolume();
    used, free := seq(512, j => if j == 480 then 0 else 0x41), seq(512, _ => 0);
    var linked := Linked(g, blank);
    img := linked[4 := used];
    LinkedDirectory(g, linked, used);
    FullIs(used, free);
    TwoPlaces(g, img);
  }

  lemma FullIs(used: Sector, free: Sector)
    requires used == seq(512, j => if j == 480 then 0 else 0x41) && free == seq(512, _ => 0)
    ensures IsNearlyFull(used) && IsBlank(free)
  {
  }

  lemma Linked(g: Bpb, blank: Image) returns (img: Image)
    requires g.WellFormed(|blank|) && TableImage.Mirrored(g, blank) && Volumes.IsBlankLayout(g)
    requires |blank| == 10 && forall i :: 0 <= i < 10 ==> blank[i] == seq(512, _ => 0)
    ensures |img| == 10 && TableImage.Mirrored(g, img) && img[5] == seq(512, _ => 0)
    ensures |TableImage.TableOf(g, img)| == 8 && TableImage.TableOf(g, img)[2] == 3 && TableImage.TableOf(g, img)[3] == 0xFFFF
  {
    hide Bpb.WellFormed, Bpb.FatStart, Bpb.FatEnd, TableImage.Mirrored, TableImage.WithEntry, TableImage.FatFrame, Bpb.MaxCluster,
      TableImage.Entry;
    TableImage.WithEntryTable(g, blank, 2, 3);
    TableImage.WithEntryFrame(g, blank, 2, 3, g.fats);
    var half := TableImage.WithEntry(g, blank, 2, 3, g.fats);
    TableImage.WithEntryTable(g, half, 3, 0xFFFF);
    TableImage.WithEntryFrame(g, half, 3, 0xFFFF, g.fats);
    img := TableImage.WithEntry(g, half, 3, 0xFFFF, g.fats);
    DataSectorKept(g, blank, half);
    DataSectorKept(g, half, img);
  }

  lemma DataSectorKept(g: Bpb, a: Image, b: Image)
    requires TableImage.FatFrame(g, a, b) && g.FatEnd() == 3 && |a| == 10
    ensures b[5] == a[5]
  {
  }

  lemma LinkedDirectory(g: Bpb, linked: Image, used: Sector)
    requires g.WellFormed(|linked|) && |linked| == 10 && TableImage.Mirrored(g, linked) && Volumes.IsBlankLayout(g)
    requires |TableImage.TableOf(g, linked)| == 8
    requires TableImage.TableOf(g, linked)[2] == 3 && TableImage.TableOf(g, linked)[3] == 0xFFFF
    ensures var img := linked[4 := used];
      g.WellFormed(|img|) && TableImage.Mirrored(g, img) && IsDirectory(g, img, false, [2, 3]) && SectorCount(g, false, [2, 3]) == 2
  {
    hide Bpb.WellFormed, TableImage.Mirrored, TableImage.Entry, Bpb.MaxCluster, Bpb.FatStart, Bpb.FatEnd;
    TableElsewhere(g, linked, 4, used);
  }

  lemma TwoPlaces(g: Bpb, img: Image)
    requires IsDirectory(g, img, false, [2, 3]) && Volumes.IsBlankLayout(g) && SectorCount(g, false, [2, 3]) == 2
    ensures DirSector(g, img, false, [2, 3], 0) == 4 && DirSector(g, img, false, [2, 3], 1) == 5
  {
    hide IsDirectory, Bpb.FirstDataSector, Bpb.MaxCluster, SectorCount, DirSector, Bpb.FatStart, Bpb.FatEnd, Bpb.RootDirSector;
    FatDirs.ChainSector(g, img, [2, 3], 0);
    FatDirs.ChainSector(g, img, [2, 3], 1);
    assert 0 / 1 == 0 && 1 / 1 == 1;
  }

  // ----- one slot left over -----

  /**
   The root of FAT16 with one live long-name slot in front and nothing else: a name of one slot is put
   behind it, and is listed under its own name if and only if the slot left over numbers two and
   carries the checksum of the new short name, or the short name happens to show as the name.
   */
  lemma LeftoverInFront(order: nat, units: seq<u16>, own: byte) returns (g: Bpb, img: Image)
    requires |units| == 13 && 1 <= order <= 19
    ensures g.WellFormed(|img|) && TableImage.Mirrored(g, img) && IsDirectory(g, img, true, [])
    ensures |Slots(g, img, true, [])| == 16 && Slots(g, img, true, [])[0] == Slot(LAST_SLOT + order, units, own)
    ensures forall name, u: Unicode.Text :: IsOneSlot(u, name) ==>
      CanPut(g, img, true, [], name, []) && CanTell(g, img, true, [], name)
      && (WillBeListed(g, img, true, [], name) <==>
            (order == 2 && own == ChecksumOf(DosFold(name).0)) || UpToZero(ShortName(DosFold(name).0)) == name)
  {
    hide *;
    OrderFits(order);
    var left := Slot(LAST_SLOT + order, units, own);
    SectorOf(left);
    g, img := RootWith(left + seq(480, _ => 0));
    LeftoverMeans(order, units, own);
    LeftoverSlots(g, img, left);
    OnlyBehind(Slots(g, img, true, []), left);
    forall name, u: Unicode.Text | IsOneSlot(u, name)
      ensures CanPut(g, img, true, [], name, []) && CanTell(g, img, true, [], name)
      ensures WillBeListed(g, img, true, [], name) <==>
        (order == 2 && own == ChecksumOf(DosFold(name).0)) || UpToZero(ShortName(DosFold(name).0)) == name
    {
      OneSlotMeans(u, name);
      FoundInRoot(g, img, left);
      GoesThere(g, img, true, [], name, u, 0, 1);
      GoesToMeans(g, img, true, [], name, u, 0, 1);
      ListedIffAt(g, img, true, [], name, u, 0, 1);
      DosLength(name);
      RoundTrips.ShownNameIs(u, name, DosFold(name).0, [left]);
      LeftoverSlot(units, order, own, 1, ChecksumOf(DosFold(name).0));
      LeftoverTells(left, u, DosFold(name).0);
      TellOfOne(g, img, true, [], name, u, 0, 1);
      EmptyFits(g, img, true, []);
      PutHasRoom(g, img, true, [], name, u);
    }
  }

  /** An acceptable name of at most thirteen units, without U+FFFF. */
  ghost predicate IsOneSlot(u: Unicode.Text, name: seq<byte>) {
    u != [] && Unicode.IsReading(u, name, MAX_UNITS) && |Unicode.Utf16(u)| <= 13 && 0xFFFF !in u
  }

  lemma OneSlotMeans(u: Unicode.Text, name: seq<byte>)
    requires IsOneSlot(u, name)
    ensures u != [] && Unicode.IsReading(u, name, MAX_UNITS) && SlotCount(|Unicode.Utf16(u)|) == 1
    ensures 0xFFFF !in u && u[0] != 0xFFFF
  {
    hide Unicode.Utf16, Unicode.IsReading;
    TextUnits(u, name);
  }

  lemma OrderFits(order: nat)
    requires 1 <= order <= 19
    ensures LAST_SLOT == 0x40 && MAX_SLOTS == 20
  {
  }

  /** The slot is live, a long-name slot, and not numbered 20. */
  lemma LeftoverMeans(order: nat, units: seq<u16>, own: byte)
    requires |units| == 13 && 1 <= order <= 19
    ensures var s := Slot(LAST_SLOT + order, units, own);
      !IsUnused(s) && IsLongSlot(s) && !IsDeleted(s) && !IsEnd(s) && AllModelled([s])
  {
    hide Slot, SlotUnits;
    SlotFields(LAST_SLOT + order, units, own);
  }

  lemma LeftoverTells(left: DirEntry.Entry, u: Unicode.Text, dosName: seq<byte>)
    requires AllModelled([left])
    ensures RoundTrips.MayPrecede([left], u, dosName)
  {
  }

  /** A volume whose root is one sector `x`. */
  lemma RootWith(x: Sector) returns (g: Bpb, img: Image)
    ensures g.WellFormed(|img|) && TableImage.Mirrored(g, img) && IsDirectory(g, img, true, [])
    ensures g.RootDirSector() == 3 && g.RootDirSectorCount() == 1 && |img| == 10 && img[3] == x
  {
    hide *;
    var blank;
    g, blank := Volumes.BlankVolume();
    RootIsOutside(g);
    TableElsewhere(g, blank, 3, x);
    img := blank[3 := x];
    IsRoot(g, img);
  }

  lemma RootIsOutside(g: Bpb)
    requires Volumes.IsBlankLayout(g)
    ensures g.kind == Fat16 && g.FatEnd() == 3 && g.RootDirSector() == 3 && g.RootDirSectorCount() == 1
  {
  }

  lemma SectorOf(left: DirEntry.Entry)
    ensures |left + seq(480, _ => 0)| == SECTOR_SIZE == 512
  {
  }

  lemma LeftoverSlots(g: Bpb, img: Image, left: DirEntry.Entry)
    requires IsDirectory(g, img, true, []) && |img| == 10 && g.RootDirSector() == 3 && g.RootDirSectorCount() == 1
    requires img[3] == left + seq(480, _ => 0)
    ensures |Slots(g, img, true, [])| == 16 && Slots(g, img, true, [])[0] == left && SectorCount(g, true, []) == 1
    ensures forall i :: 1 <= i < 16 ==> IsUnused(Slots(g, img, true, [])[i])
  {
    hide IsDirectory, Bpb.RootDirSector, Bpb.RootDirSectorCount;
    RootSlots(g, img, []);
    forall i | 0 <= i < 16
      ensures if i == 0 then Slots(g, img, true, [])[i] == left else IsUnused(Slots(g, img, true, [])[i])
    {
      RootSlotAt(g, img, [], 0, i);
    }
  }

  lemma OnlyBehind(slots: seq<DirEntry.Entry>, left: DirEntry.Entry)
    requires |slots| == 16 && slots[0] == left && !IsUnused(left) && IsLongSlot(left) && !IsDeleted(left) && !IsEnd(left)
    requires forall i :: 1 <= i < 16 ==> IsUnused(slots[i])
    ensures FirstFreeRun(slots, 1, 2) && Pending(slots, 1) == [left] && NoEndBefore(slots, 1)
  {
    hide IsUnused, IsLongSlot, IsDeleted, IsEnd;
    assert Pending(slots, 0) == [];
    assert !FreeRun(slots, 0, 2) by {
      assert !IsUnused(slots[0]);
    }
  }

  lemma FoundInRoot(g: Bpb, img: Image, left: DirEntry.Entry)
    requires IsDirectory(g, img, true, []) && SectorCount(g, true, []) == 1 && FirstFreeRun(Slots(g, img, true, []), 1, 2)
    ensures IsFound(g, img, true, [], 0, 1, 2) && HasRoom(g, img, true, [], 2)
  {
    hide IsDirectory, SectorCount, Slots, FirstFreeRun;
    assert 1 % 16 + 2 <= 16;
  }
}
