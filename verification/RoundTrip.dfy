/** What is written into a directory is listed again: the entries of a new file under their full name. */
module RoundTrips {
  import opened Words
  import opened Geometry
  import TableImage
  import Chains
  import opened FileBytes
  import DirEntry
  import FatFiles
  import opened LongNames
  import opened Listing
  import opened Directories
  import Unicode

  // ----- the slots of a directory after one of its sectors changed -----

  /** Different sectors of a directory are different sectors of the image. */
  lemma DirSectorOnce(g: Bpb, img: Image, root: bool, p: seq<nat>, i: nat, j: nat)
    requires IsDirectory(g, img, root, p) && i < SectorCount(g, root, p) && j < SectorCount(g, root, p)
    requires DirSector(g, img, root, p, i) == DirSector(g, img, root, p, j)
    ensures i == j
  {
    hide Bpb.WellFormed, TableImage.TableOf, SectorAt, OnData;
    if !root {
      DirectoryChain(g, img, p);
      SectorOnce(g, |img|, p, i, j);
    }
  }

  lemma DirectoryChain(g: Bpb, img: Image, p: seq<nat>)
    requires IsDirectory(g, img, false, p)
    ensures OnData(g, p) && Chains.Distinct(p)
  {
    hide TableImage.TableOf;
    FileOnData(g, img, p);
  }

  /** A sector of a directory is no sector of the table. */
  lemma DirSectorOutside(g: Bpb, img: Image, root: bool, p: seq<nat>, j: nat)
    requires IsDirectory(g, img, root, p) && j < SectorCount(g, root, p)
    ensures !(g.FatStart() <= DirSector(g, img, root, p, j) < g.FatEnd())
  {
    hide Bpb.WellFormed, TableImage.TableOf, SectorAt, Bpb.RootDirSector, Bpb.FatStart, Bpb.FatEnd;
    if root {
      NoWrap(g, |img|);
    } else {
      FileOnData(g, img, p);
      FileSector(g, |img|, p, j, DirSector(g, img, root, p, j));
    }
  }

  /** Writing a sector of a directory changes the sixteen slots of that sector and no others. */
  lemma SlotsAfter(g: Bpb, a: Image, root: bool, p: seq<nat>, sd: nat, x: Sector)
    requires IsDirectory(g, a, root, p) && sd < SectorCount(g, root, p)
    ensures var b := a[DirSector(g, a, root, p, sd) := x];
      && IsDirectory(g, b, root, p)
      && (forall j :: 0 <= j < SectorCount(g, root, p) ==> DirSector(g, b, root, p, j) == DirSector(g, a, root, p, j))
      && |Slots(g, b, root, p)| == |Slots(g, a, root, p)|
      && forall i :: 0 <= i < |Slots(g, a, root, p)| ==>
           Slots(g, b, root, p)[i] ==
           if i / 16 == sd then FatFiles.EntryAt(x, 32 * (i % 16)) else Slots(g, a, root, p)[i]
  {
    hide Bpb.WellFormed, TableImage.TableOf, DirSector, TableImage.Mirrored, Bpb.FatStart, Bpb.FatEnd, Bpb.RootDirSectorCount;
    var s := DirSector(g, a, root, p, sd);
    DirSectorOutside(g, a, root, p, sd);
    TableElsewhere(g, a, s, x);
    var b := a[s := x];
    forall j | 0 <= j < SectorCount(g, root, p)
      ensures DirSector(g, b, root, p, j) == DirSector(g, a, root, p, j)
    {
      SamePlace(g, a, b, root, p, j);
    }
    var u, v := Slots(g, a, root, p), Slots(g, b, root, p);
    forall i | 0 <= i < |u|
      ensures v[i] == if i / 16 == sd then FatFiles.EntryAt(x, 32 * (i % 16)) else u[i]
    {
      SlotAfter(g, a, b, root, p, sd, x, i);
    }
  }

  lemma SamePlace(g: Bpb, a: Image, b: Image, root: bool, p: seq<nat>, j: nat)
    requires IsDirectory(g, a, root, p) && IsDirectory(g, b, root, p) && |b| == |a| && j < SectorCount(g, root, p)
    ensures DirSector(g, b, root, p, j) == DirSector(g, a, root, p, j)
  {
    hide Bpb.WellFormed, TableImage.TableOf, SectorAt, Bpb.RootDirSectorCount, Bpb.RootDirSector;
  }

  lemma SlotAfter(g: Bpb, a: Image, b: Image, root: bool, p: seq<nat>, sd: nat, x: Sector, i: nat)
    requires IsDirectory(g, a, root, p) && IsDirectory(g, b, root, p) && sd < SectorCount(g, root, p)
    requires b == a[DirSector(g, a, root, p, sd) := x] && i < 16 * SectorCount(g, root, p)
    ensures 0 <= i / 16 < SectorCount(g, root, p)
    ensures SlotAt(g, b, root, p, i) ==
      if i / 16 == sd then FatFiles.EntryAt(x, 32 * (i % 16)) else SlotAt(g, a, root, p, i)
  {
    hide IsDirectory, DirSector, SectorCount;
    SamePlace(g, a, b, root, p, i / 16);
    if DirSector(g, a, root, p, i / 16) == DirSector(g, a, root, p, sd) {
      DirSectorOnce(g, a, root, p, i / 16, sd);
    }
  }

  // ----- the slots of a patched sector -----

  lemma PatchedSlot(s: Sector, o: nat, run: seq<DirEntry.Entry>, m: nat)
    requires o + |run| <= 16 && m < 16
    ensures 32 * o + |Concat(run)| <= SECTOR_SIZE
    ensures FatFiles.EntryAt(Patched(s, 32 * o, Concat(run)), 32 * m) ==
      if o <= m < o + |run| then run[m - o] else FatFiles.EntryAt(s, 32 * m)
  {
    hide Concat;
    if o <= m < o + |run| {
      ConcatAt(run, m - o);
      PatchInside(s, 32 * o, Concat(run), 32 * (m - o), 32);
    } else if m < o {
      PatchOutside(s, 32 * o, Concat(run), 32 * m);
    } else {
      PatchOutside(s, 32 * o, Concat(run), 32 * m);
    }
  }

  lemma PatchInside(s: seq<byte>, off: nat, d: seq<byte>, i: nat, n: nat)
    requires off + |d| <= |s| && i + n <= |d|
    ensures Patched(s, off, d)[off + i..off + i + n] == d[i..i + n]
  {
  }

  lemma PatchOutside(s: seq<byte>, off: nat, d: seq<byte>, i: nat)
    requires off + |d| <= |s| && i + 32 <= |s| && (i + 32 <= off || off + |d| <= i)
    ensures Patched(s, off, d)[i..i + 32] == s[i..i + 32]
  {
  }

  // ----- the scan reaches the entry with its run -----

  /** What is collected at a slot depends on the slots before it only. */
  lemma {:induction false} PendingSame(u: seq<DirEntry.Entry>, v: seq<DirEntry.Entry>, i: nat)
    requires i <= |u| && i <= |v| && forall j :: 0 <= j < i ==> u[j] == v[j]
    ensures Pending(u, i) == Pending(v, i)
  {
    if i > 0 {
      PendingSame(u, v, i - 1);
    }
  }

  /** The slots of a written name are live long-name slots. */
  lemma RunLive(units: seq<u16>, checksum: byte)
    requires SlotCount(|units|) <= 19
    ensures forall i :: 0 <= i < |Run(units, checksum)| ==>
      IsCollected(Run(units, checksum)[i]) && !IsEnd(Run(units, checksum)[i])
  {
    hide Run, SlotUnits, Padded, PartOf, OrderByte;
    var run := Run(units, checksum);
    forall i | 0 <= i < |run| ensures IsCollected(run[i]) && !IsEnd(run[i]) {
      RunSlot(units, checksum, i);
      OrderParts(SlotCount(|units|), i);
    }
  }

  /** A new file's entry is shown. */
  lemma NewEntryShown(kind: FatKind, dosName: seq<byte>, cluster: u32, size: u32, now: DirEntry.Stamp)
    requires |dosName| == 11 && IsDosByte(dosName[0]) && (kind == Fat16 ==> cluster < 0x1_0000)
    ensures var e := DirEntry.NewEntry(kind, dosName, cluster, size, now);
      && IsShown(e) && DirEntry.DosName(e) == dosName
      && DirEntry.FirstCluster(kind, e) == cluster && DirEntry.FileSize(e) == size
      && DirEntry.Attribute(e) / DirEntry.ATTR_DIRECTORY % 2 == 0
  {
    hide DirEntry.NewEntry, DirEntry.FirstCluster, DirEntry.FileSize;
    DirEntry.NewReadBack(kind, dosName, cluster, size, now);
    var e := DirEntry.NewEntry(kind, dosName, cluster, size, now);
    assert e[0] == DirEntry.DosName(e)[0];
  }

  /** The long-name slots collected at the entry after a run: those before and the run, or what is left after one too many. */
  function Collected(before: seq<DirEntry.Entry>, run: seq<DirEntry.Entry>): seq<DirEntry.Entry> {
    if |before| + |run| <= MAX_SLOTS || |before| > MAX_SLOTS then before + run
    else run[MAX_SLOTS + 1 - |before|..]
  }

  /** A run followed by its entry: a listing shows the entry exactly when no end marker comes before. */
  lemma RunIsListed(slots: seq<DirEntry.Entry>, first: nat, run: seq<DirEntry.Entry>, e: DirEntry.Entry)
    requires |run| <= MAX_SLOTS && first + |run| < |slots|
    requires slots[first..first + |run|] == run && slots[first + |run|] == e
    requires forall i :: 0 <= i < |run| ==> IsCollected(run[i]) && !IsEnd(run[i])
    requires IsShown(e)
    ensures Pending(slots, first + |run|) == Collected(Pending(slots, first), run)
    ensures first + |run| in ShownFrom(slots, 0) <==> NoEndBefore(slots, first)
  {
    hide IsShown, IsEnd, IsCollected, Pending, ShownFrom;
    var u := Pending(slots, first);
    if |u| + |run| <= MAX_SLOTS {
      PendingRun(slots, first, run, |run|);
    } else {
      PendingOverflow(slots, first, run, |run|);
    }
    assert run[..|run|] == run;
    ShownHere(slots, first, run, e);
    ShownFromIsExact(slots);
  }

  lemma ShownHere(slots: seq<DirEntry.Entry>, first: nat, run: seq<DirEntry.Entry>, e: DirEntry.Entry)
    requires first + |run| < |slots| && slots[first..first + |run|] == run && slots[first + |run|] == e
    requires IsShown(e) && forall i :: 0 <= i < |run| ==> !IsEnd(run[i])
    ensures Reached(slots, 0, first + |run|) <==> NoEndBefore(slots, first)
  {
    hide IsShown, IsEnd;
    forall j | first <= j < first + |run| ensures !IsEnd(slots[j]) {
      assert slots[j] == slots[first..first + |run|][j - first] == run[j - first];
    }
  }

  // ----- the name that is shown -----

  /**
   The name a listing shows for an entry with the short name `dosName` after the run of the text `t`,
   with the long-name slots `before` collected in front of the run: the text, up to its first U+FFFF,
   if the slots before do not spoil the run; else the short name.
   */
  function ShownName(t: Unicode.Text, dosName: seq<byte>, before: seq<DirEntry.Entry>): seq<byte>
    requires |dosName| == 11
  {
    if Joins(before, SlotCount(|Unicode.Utf16(t)|), ChecksumOf(dosName)) && BeforeMark(t) != [] then Unicode.Utf8(BeforeMark(t))
    else UpToZero(ShortName(dosName))
  }

  /** When that is the original name: nothing is spoiled and there is no U+FFFF, or the short name happens to be the name. */
  lemma ShownNameIs(t: Unicode.Text, name: seq<byte>, dosName: seq<byte>, before: seq<DirEntry.Entry>)
    requires t != [] && Unicode.IsReading(t, name, MAX_UNITS) && |dosName| == 11
    ensures ShownName(t, dosName, before) == name <==>
      if Joins(before, SlotCount(|Unicode.Utf16(t)|), ChecksumOf(dosName)) && t[0] != 0xFFFF then 0xFFFF !in t
      else UpToZero(ShortName(dosName)) == name
  {
    hide Joins, Unicode.Utf8, Unicode.Utf16, UpToZero, ShortName, ChecksumOf;
    MarkSplits(t);
  }

  /** The only slots of which nothing is said: those numbered 20 that pass for the beginning of the run. */
  ghost predicate MayPrecede(before: seq<DirEntry.Entry>, t: Unicode.Text, dosName: seq<byte>) {
    PassesFor(before, SlotCount(|Unicode.Utf16(t)|), ChecksumOf(dosName)) ==> AllModelled(before)
  }

  lemma DirentName(kind: FatKind, e: DirEntry.Entry, raw: seq<DirEntry.Entry>, sector: nat, offset: nat)
    requires IsReadable(e, raw)
    ensures DirentOf(kind, e, raw, sector, offset).name ==
      if HasLongName(e, raw) then LongNameOf(raw) else UpToZero(ShortName(DirEntry.DosName(e)))
  {
  }

  /** The name shown for what was collected at the entry. */
  lemma NameShown(kind: FatKind, t: Unicode.Text, name: seq<byte>, e: DirEntry.Entry, before: seq<DirEntry.Entry>,
                  sector: nat, offset: nat)
    requires t != [] && Unicode.IsReading(t, name, MAX_UNITS) && SlotCount(|Unicode.Utf16(t)|) <= 15
    requires MayPrecede(before, t, DirEntry.DosName(e)) && |before| <= MAX_SLOTS
    ensures SlotCount(|Unicode.Utf16(t)|) <= MAX_SLOTS
    ensures var raw := Collected(before, Run(Unicode.Utf16(t), ChecksumOf(DirEntry.DosName(e))));
      IsReadable(e, raw) && DirentOf(kind, e, raw, sector, offset).name == ShownName(t, DirEntry.DosName(e), before)
  {
    hide *;
    var units, checksum := Unicode.Utf16(t), ChecksumOf(DirEntry.DosName(e));
    TextUnits(t, name);
    RunLength(units, checksum);
    var run := Run(units, checksum);
    var raw := Collected(before, run);
    CollectedIs(before, run);
    PrecedeMeans(before, t, DirEntry.DosName(e));
    if |before| + |run| > MAX_SLOTS {
      TailNotValid(units, checksum, MAX_SLOTS + 1 - |before|);
      NotValidNoName(t, e, before, raw);
    } else {
      JoinedValid(before, units, checksum);
      if !PassesFor(before, |run|, checksum) {
        NotValidNoName(t, e, before, raw);
      } else if exists i :: 0 <= i < |before| && BadSlot(before[i]) {
        JoinedModelled(before, units, checksum);
        BadNoName(t, e, before, raw);
      } else {
        GoodName(t, name, e, before);
      }
    }
    DirentName(kind, e, raw, sector, offset);
  }

  lemma RunLength(units: seq<u16>, checksum: byte)
    requires SlotCount(|units|) <= 15
    ensures SlotCount(|units|) <= 19 <= MAX_SLOTS && |Run(units, checksum)| == SlotCount(|units|)
  {
    hide Run;
  }

  lemma CollectedIs(before: seq<DirEntry.Entry>, run: seq<DirEntry.Entry>)
    requires |before| <= MAX_SLOTS
    ensures MAX_SLOTS == 20
    ensures |before| + |run| <= MAX_SLOTS ==> Collected(before, run) == before + run
    ensures |before| + |run| > MAX_SLOTS ==> Collected(before, run) == run[MAX_SLOTS + 1 - |before|..]
  {
  }

  lemma PrecedeMeans(before: seq<DirEntry.Entry>, t: Unicode.Text, dosName: seq<byte>)
    requires MayPrecede(before, t, dosName)
    ensures var n := SlotCount(|Unicode.Utf16(t)|);
      && (PassesFor(before, n, ChecksumOf(dosName)) ==> AllModelled(before))
      && (|before| + n > MAX_SLOTS && n <= MAX_SLOTS ==> !PassesFor(before, n, ChecksumOf(dosName)))
  {
    hide ValidSlot, AllModelled, ChecksumOf, Unicode.Utf16;
  }

  lemma JoinedModelled(before: seq<DirEntry.Entry>, units: seq<u16>, checksum: byte)
    requires AllModelled(before) && SlotCount(|units|) <= 19
    ensures AllModelled(before + Run(units, checksum))
  {
    hide Run, Modelled, BadSlot;
    RunModelled(units, checksum);
  }

  lemma NotValidNoName(t: Unicode.Text, e: DirEntry.Entry, before: seq<DirEntry.Entry>, raw: seq<DirEntry.Entry>)
    requires !ValidRun(raw, ChecksumOf(DirEntry.DosName(e)))
    requires !PassesFor(before, SlotCount(|Unicode.Utf16(t)|), ChecksumOf(DirEntry.DosName(e)))
    ensures IsReadable(e, raw) && !HasLongName(e, raw)
    ensures ShownName(t, DirEntry.DosName(e), before) == UpToZero(ShortName(DirEntry.DosName(e)))
  {
    hide ValidRun, NameUnits, Unicode.Utf16, UpToZero, ShortName, PassesFor, BadSlot;
  }

  lemma BadNoName(t: Unicode.Text, e: DirEntry.Entry, before: seq<DirEntry.Entry>, raw: seq<DirEntry.Entry>)
    requires AllModelled(raw) && before <= raw
    requires exists i :: 0 <= i < |before| && BadSlot(before[i])
    ensures IsReadable(e, raw) && !HasLongName(e, raw)
    ensures ShownName(t, DirEntry.DosName(e), before) == UpToZero(ShortName(DirEntry.DosName(e)))
  {
    hide ValidRun, Unicode.Utf16, UpToZero, ShortName, PassesFor, BadSlot, CollectAll, AllModelled;
    var i :| 0 <= i < |before| && BadSlot(before[i]);
    assert raw[i] == before[i];
  }

  lemma GoodName(t: Unicode.Text, name: seq<byte>, e: DirEntry.Entry, before: seq<DirEntry.Entry>)
    requires t != [] && Unicode.IsReading(t, name, MAX_UNITS) && SlotCount(|Unicode.Utf16(t)|) <= 15
    requires AllModelled(before) && !(exists i :: 0 <= i < |before| && BadSlot(before[i]))
    requires PassesFor(before, SlotCount(|Unicode.Utf16(t)|), ChecksumOf(DirEntry.DosName(e)))
    ensures var raw := before + Run(Unicode.Utf16(t), ChecksumOf(DirEntry.DosName(e)));
      && IsReadable(e, raw)
      && (if HasLongName(e, raw) then LongNameOf(raw) else UpToZero(ShortName(DirEntry.DosName(e))))
           == ShownName(t, DirEntry.DosName(e), before)
  {
    hide Run, NameUnits, ValidRun, PassesFor, BadSlot, Modelled, PaddedUnit, Unicode.IsReading, Unicode.Utf16, Unicode.Utf8,
      Unicode.IsNaming, ChecksumOf, DirEntry.DosName, ShortName, UpToZero, BeforeMark;
    var units, checksum := Unicode.Utf16(t), ChecksumOf(DirEntry.DosName(e));
    var raw := before + Run(units, checksum);
    TextUnits(t, name);
    RunNameUnits(before, units, checksum);
    JoinedValid(before, units, checksum);
    JoinedModelled(before, units, checksum);
    var w, b := NameUnits(raw).1, BeforeMark(t);
    StoredNaming(t, w);
    MarkSplits(t);
    ShortEnough(t, b);
    assert b != [] ==> IsGoodName(b, w);
    assert forall u :: IsGoodName(u, w) ==> u == b;
  }

  lemma ShortEnough(t: Unicode.Text, b: Unicode.Text)
    requires b == BeforeMark(t) && SlotCount(|Unicode.Utf16(t)|) <= 15
    ensures |Unicode.Utf8(b)| < MAX_NAME
  {
    hide Unicode.Utf16, Unicode.Utf8, BeforeMark;
    MarkSplits(t);
    Utf8Length(b);
  }

  // ----- the round trip -----

  /** The written slots in the directory: the run, then the entry, and every other slot as it was. */
  lemma EntriesInPlace(g: Bpb, a: Image, b: Image, root: bool, p: seq<nat>, sd: nat, o: nat, entries: seq<DirEntry.Entry>)
    requires IsDirectory(g, a, root, p) && sd < SectorCount(g, root, p) && o + |entries| <= 16
    requires |Concat(entries)| == 32 * |entries|
    requires b == a[DirSector(g, a, root, p, sd) := Patched(a[DirSector(g, a, root, p, sd)], 32 * o, Concat(entries))]
    ensures IsDirectory(g, b, root, p) && |Slots(g, b, root, p)| == |Slots(g, a, root, p)| == 16 * SectorCount(g, root, p)
    ensures 16 * sd + o + |entries| <= |Slots(g, a, root, p)|
    ensures forall i :: 0 <= i < |Slots(g, a, root, p)| ==>
      Slots(g, b, root, p)[i] ==
      if 16 * sd + o <= i < 16 * sd + o + |entries| then entries[i - (16 * sd + o)] else Slots(g, a, root, p)[i]
  {
    hide IsDirectory, DirSector, SectorCount, SlotAt, Concat;
    var x := Patched(a[DirSector(g, a, root, p, sd)], 32 * o, Concat(entries));
    SlotsAfter(g, a, root, p, sd, x);
    var u, v := Slots(g, a, root, p), Slots(g, b, root, p);
    forall i | 0 <= i < |u|
      ensures v[i] == if 16 * sd + o <= i < 16 * sd + o + |entries| then entries[i - (16 * sd + o)] else u[i]
    {
      if i / 16 == sd {
        PatchedSlot(a[DirSector(g, a, root, p, sd)], o, entries, i % 16);
        SlotBefore(g, a, root, p, sd, i);
      }
    }
  }

  lemma SlotBefore(g: Bpb, a: Image, root: bool, p: seq<nat>, sd: nat, i: nat)
    requires IsDirectory(g, a, root, p) && sd < SectorCount(g, root, p) && i < |Slots(g, a, root, p)| && i / 16 == sd
    ensures Slots(g, a, root, p)[i] == FatFiles.EntryAt(a[DirSector(g, a, root, p, sd)], 32 * (i % 16))
  {
    hide IsDirectory, DirSector, SectorCount;
  }

  /** A listing of the directory shows slot `k`, as a file with this name, size and first cluster. */
  ghost predicate IsListed(kind: FatKind, slots: seq<DirEntry.Entry>, k: nat, name: seq<byte>, size: nat, cluster: nat) {
    && k < |slots| && k in ShownFrom(slots, 0)
    && IsShownAs(kind, slots[k], Pending(slots, k), name, size, cluster)
  }

  /** The entry `e` after the collected slots `raw` is shown, wherever it is, with this name, size and first cluster. */
  ghost predicate IsShownAs(kind: FatKind, e: DirEntry.Entry, raw: seq<DirEntry.Entry>, name: seq<byte>, size: nat, cluster: nat) {
    && IsReadable(e, raw)
    && forall sector, offset ::
         var d := DirentOf(kind, e, raw, sector, offset);
         d.name == name && d.size == size && d.firstCluster == cluster && !d.isDirectory
  }

  /** Exactly one call of `fat_readdir` on a freshly opened directory shows such a slot. */
  lemma ListedOnce(kind: FatKind, slots: seq<DirEntry.Entry>, k: nat, name: seq<byte>, size: nat, cluster: nat) returns (n: nat)
    requires IsListed(kind, slots, k, name, size, cluster)
    ensures Result(slots, n) == Shown(k, Pending(slots, k))
    ensures forall m: nat :: Result(slots, m).Shown? && Result(slots, m).index == k ==> m == n
  {
    hide Result, Pending, IsShownAs;
    var all := ShownFrom(slots, 0);
    n :| 0 <= n < |all| && all[n] == k;
    ListingIsExact(slots, n);
    ShownFromIsExact(slots);
    forall m: nat | Result(slots, m).Shown? && Result(slots, m).index == k ensures m == n {
      ListingIsExact(slots, m);
    }
  }

  /** What a scan that comes from the old slots shows for new entries at slot `first`: `e` after the run of `t`. */
  ghost predicate ShowsAs(kind: FatKind, was: seq<DirEntry.Entry>, slots: seq<DirEntry.Entry>, first: nat, t: Unicode.Text,
                          e: DirEntry.Entry, size: nat, cluster: nat)
    requires first <= |was|
  {
    var k := first + SlotCount(|Unicode.Utf16(t)|);
    && k < |slots|
    && (k in ShownFrom(slots, 0) <==> NoEndBefore(was, first))
    && slots[k] == e
    && IsShownAs(kind, slots[k], Pending(slots, k), ShownName(t, DirEntry.DosName(e), Pending(was, first)), size, cluster)
  }

  /**
   Writing a file's entries and reading the directory: after `write_file_directory_entries` a scan
   shows the slot after the run if and only if no end marker comes before the place, with the size and
   first cluster that were written, and under the name `ShownName`; so it is listed under the
   original name exactly when these say so, whatever the name's length up to the end of the sector.
   */
  lemma WrittenEntryIsListed(g: Bpb, a: Image, b: Image, root: bool, p: seq<nat>, sd: nat, o: nat, s': Sector,
                             name: seq<byte>, dosName: seq<byte>, cluster: u32, size: u32, t: Unicode.Text,
                             now: DirEntry.Stamp)
    requires IsDirectory(g, a, root, p) && sd < SectorCount(g, root, p) && o < 16
    requires b == a[DirSector(g, a, root, p, sd) := s']
    requires EntriesWritten(g.kind, a[DirSector(g, a, root, p, sd)], s', 32 * o, name, dosName, cluster, size, t, now)
    requires IsDosByte(dosName[0]) && (g.kind == Fat16 ==> cluster < 0x1_0000)
    requires 16 * sd + o < |Slots(g, a, root, p)|
    requires MayPrecede(Pending(Slots(g, a, root, p), 16 * sd + o), t, dosName)
    ensures IsDirectory(g, b, root, p)
    ensures var was, e := Slots(g, a, root, p), DirEntry.NewEntry(g.kind, dosName, cluster, size, now);
      && ShowsAs(g.kind, was, Slots(g, b, root, p), 16 * sd + o, t, e, size, cluster)
      && (IsListed(g.kind, Slots(g, b, root, p), 16 * sd + o + SlotCount(|Unicode.Utf16(t)|), name, size, cluster) <==>
          NoEndBefore(was, 16 * sd + o) && ShownName(t, dosName, Pending(was, 16 * sd + o)) == name)
  {
    hide *;
    ReadWritten(g.kind, a[DirSector(g, a, root, p, sd)], s', o, name, dosName, cluster, size, t, now);
    var run, e := Run(Unicode.Utf16(t), ChecksumOf(dosName)), DirEntry.NewEntry(g.kind, dosName, cluster, size, now);
    EntriesInPlace(g, a, b, root, p, sd, o, run + [e]);
    var was, v, first := Slots(g, a, root, p), Slots(g, b, root, p), 16 * sd + o;
    NewEntryShown(g.kind, dosName, cluster, size, now);
    RunLive(Unicode.Utf16(t), ChecksumOf(dosName));
    PendingSame(was, v, first);
    NoEndSame(was, v, first);
    RunInPlace(v, first, run, e);
    RunIsListed(v, first, run, e);
    EntryShownAs(g.kind, t, name, e, Pending(was, first), size, cluster);
    ShowsAsIs(g.kind, was, v, first, t, e, size, cluster);
    ListedWhen(g.kind, was, v, first, t, e, name, size, cluster);
  }

  lemma NoEndSame(u: seq<DirEntry.Entry>, v: seq<DirEntry.Entry>, first: nat)
    requires first <= |u| && first <= |v| && forall j :: 0 <= j < first ==> u[j] == v[j]
    ensures NoEndBefore(u, first) <==> NoEndBefore(v, first)
  {
    hide IsEnd;
    assert forall j :: 0 <= j < first ==> (IsEnd(u[j]) <==> IsEnd(v[j]));
  }

  lemma EntryShownAs(kind: FatKind, t: Unicode.Text, name: seq<byte>, e: DirEntry.Entry, before: seq<DirEntry.Entry>,
                     size: nat, cluster: nat)
    requires t != [] && Unicode.IsReading(t, name, MAX_UNITS) && SlotCount(|Unicode.Utf16(t)|) <= 15
    requires MayPrecede(before, t, DirEntry.DosName(e)) && |before| <= MAX_SLOTS
    requires DirEntry.FirstCluster(kind, e) == cluster && DirEntry.FileSize(e) == size
    requires DirEntry.Attribute(e) / DirEntry.ATTR_DIRECTORY % 2 == 0
    ensures IsShownAs(kind, e, Collected(before, Run(Unicode.Utf16(t), ChecksumOf(DirEntry.DosName(e)))),
                      ShownName(t, DirEntry.DosName(e), before), size, cluster)
  {
    hide DirentOf, Collected, Run, ChecksumOf, ShownName, Readable, MayPrecede, Unicode.Utf16, Unicode.IsReading,
      DirEntry.DosName, DirEntry.FirstCluster, DirEntry.FileSize, DirEntry.Attribute;
    var raw := Collected(before, Run(Unicode.Utf16(t), ChecksumOf(DirEntry.DosName(e))));
    NameShown(kind, t, name, e, before, 0, 0);
    forall sector, offset
      ensures var d := DirentOf(kind, e, raw, sector, offset);
        d.name == ShownName(t, DirEntry.DosName(e), before) && d.size == size && d.firstCluster == cluster && !d.isDirectory
    {
      NameShown(kind, t, name, e, before, sector, offset);
      DirentFields(kind, e, raw, sector, offset);
    }
  }

  lemma ShowsAsIs(kind: FatKind, was: seq<DirEntry.Entry>, slots: seq<DirEntry.Entry>, first: nat, t: Unicode.Text,
                  e: DirEntry.Entry, size: nat, cluster: nat)
    requires first <= |was| && first + SlotCount(|Unicode.Utf16(t)|) < |slots|
    requires first + SlotCount(|Unicode.Utf16(t)|) in ShownFrom(slots, 0) <==> NoEndBefore(was, first)
    requires slots[first + SlotCount(|Unicode.Utf16(t)|)] == e
    requires IsShownAs(kind, e, Pending(slots, first + SlotCount(|Unicode.Utf16(t)|)),
                       ShownName(t, DirEntry.DosName(e), Pending(was, first)), size, cluster)
    ensures ShowsAs(kind, was, slots, first, t, e, size, cluster)
  {
    hide IsShownAs, ShownFrom, Pending, ShownName, NoEndBefore, Unicode.Utf16;
  }

  lemma ListedWhen(kind: FatKind, was: seq<DirEntry.Entry>, slots: seq<DirEntry.Entry>, first: nat, t: Unicode.Text,
                   e: DirEntry.Entry, name: seq<byte>, size: nat, cluster: nat)
    requires first <= |was| && ShowsAs(kind, was, slots, first, t, e, size, cluster)
    ensures IsListed(kind, slots, first + SlotCount(|Unicode.Utf16(t)|), name, size, cluster) <==>
      NoEndBefore(was, first) && ShownName(t, DirEntry.DosName(e), Pending(was, first)) == name
  {
    hide ShownFrom, Pending, ShownName, NoEndBefore, Unicode.Utf16, DirentOf, IsReadable;
    var k := first + SlotCount(|Unicode.Utf16(t)|);
    var d := DirentOf(kind, slots[k], Pending(slots, k), 0, 0);
    assert d.name == ShownName(t, DirEntry.DosName(e), Pending(was, first));
  }

  lemma DirentFields(kind: FatKind, e: DirEntry.Entry, raw: seq<DirEntry.Entry>, sector: nat, offset: nat)
    requires IsReadable(e, raw)
    ensures var d := DirentOf(kind, e, raw, sector, offset);
      && d.size == DirEntry.FileSize(e) && d.firstCluster == DirEntry.FirstCluster(kind, e)
      && (d.isDirectory <==> DirEntry.Attribute(e) / DirEntry.ATTR_DIRECTORY % 2 == 1)
  {
  }

  lemma RunInPlace(v: seq<DirEntry.Entry>, first: nat, run: seq<DirEntry.Entry>, e: DirEntry.Entry)
    requires first + |run| < |v|
    requires forall i :: first <= i < first + |run| + 1 ==> v[i] == (run + [e])[i - first]
    ensures v[first..first + |run|] == run && v[first + |run|] == e
  {
  }

  lemma ReadWritten(kind: FatKind, s: Sector, s': Sector, o: nat, name: seq<byte>, dosName: seq<byte>, cluster: u32,
                    size: u32, t: Unicode.Text, now: DirEntry.Stamp)
    requires EntriesWritten(kind, s, s', 32 * o, name, dosName, cluster, size, t, now)
    ensures t != [] && Unicode.IsReading(t, name, MAX_UNITS) && |dosName| == 11
    ensures SlotCount(|Unicode.Utf16(t)|) <= 15 && 15 <= 19 <= MAX_SLOTS
    ensures var run, e := Run(Unicode.Utf16(t), ChecksumOf(dosName)), DirEntry.NewEntry(kind, dosName, cluster, size, now);
      && |run| == SlotCount(|Unicode.Utf16(t)|) && o + |run + [e]| <= 16 && |Concat(run + [e])| == 32 * |run + [e]|
      && s' == Patched(s, 32 * o, Concat(run + [e]))
  {
    hide Run, Unicode.IsReading, Unicode.Utf16, ChecksumOf, Concat;
  }
}
