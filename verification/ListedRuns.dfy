/** A file that a directory lists stays listed under its name, whatever is done to the open files of the volume. */
module ListedRuns {
  import opened Words
  import opened Geometry
  import TableImage
  import Chains
  import opened Allocator
  import opened FileBytes
  import DirEntry
  import FatFiles
  import opened LongNames
  import opened Listing
  import opened Directories
  import RoundTrips
  import Puts
  import Ledger
  import opened VolumeRuns
  import Unicode

  // ----- slots that differ only where file operations change them -----

  ghost predicate SameHead(x: DirEntry.Entry, y: DirEntry.Entry) {
    x[..ENTRY_HEAD] == y[..ENTRY_HEAD]
  }

  ghost predicate SlotsAlike(u: seq<DirEntry.Entry>, v: seq<DirEntry.Entry>) {
    |u| == |v| && forall i :: 0 <= i < |u| ==> SlotAlike(u[i], v[i])
  }

  ghost predicate SlotAlike(x: DirEntry.Entry, y: DirEntry.Entry) {
    y == x || (IsShown(x) && SameHead(x, y))
  }

  lemma HeadDecides(x: DirEntry.Entry, y: DirEntry.Entry)
    requires SlotAlike(x, y)
    ensures DirEntry.DosName(x) == DirEntry.DosName(y) && DirEntry.Attribute(x) == DirEntry.Attribute(y)
    ensures (IsEnd(x) <==> IsEnd(y)) && (IsShown(x) <==> IsShown(y)) && (x == y || IsShown(x))
  {
    if x != y {
      forall i | 0 <= i < 13 ensures x[i] == y[i] {
        assert x[..13][i] == y[..13][i];
      }
    }
  }

  lemma AlikeSelf(u: seq<DirEntry.Entry>)
    ensures SlotsAlike(u, u)
  {
  }

  lemma AlikeTrans(u: seq<DirEntry.Entry>, v: seq<DirEntry.Entry>, w: seq<DirEntry.Entry>)
    requires SlotsAlike(u, v) && SlotsAlike(v, w)
    ensures SlotsAlike(u, w)
  {
    hide IsShown;
    forall i | 0 <= i < |u| ensures SlotAlike(u[i], w[i]) {
      HeadDecides(u[i], v[i]);
    }
  }

  lemma {:induction false} AlikePending(u: seq<DirEntry.Entry>, v: seq<DirEntry.Entry>, i: nat)
    requires SlotsAlike(u, v) && i <= |u|
    ensures Pending(u, i) == Pending(v, i)
  {
    hide SlotAlike;
    if i > 0 {
      AlikePending(u, v, i - 1);
      HeadDecides(u[i - 1], v[i - 1]);
    }
  }

  lemma AlikeShown(u: seq<DirEntry.Entry>, v: seq<DirEntry.Entry>, k: nat)
    requires SlotsAlike(u, v)
    ensures k in ShownFrom(u, 0) <==> k in ShownFrom(v, 0)
  {
    hide SlotAlike, IsShown, IsEnd, ShownFrom;
    ShownFromIsExact(u);
    ShownFromIsExact(v);
    forall i | 0 <= i < |u| ensures (IsEnd(u[i]) <==> IsEnd(v[i])) && (IsShown(u[i]) <==> IsShown(v[i])) {
      HeadDecides(u[i], v[i]);
    }
  }

  lemma AlikeReadable(x: DirEntry.Entry, y: DirEntry.Entry, raw: seq<DirEntry.Entry>)
    requires SlotAlike(x, y)
    ensures IsReadable(x, raw) <==> IsReadable(y, raw)
  {
    hide SlotAlike, Readable, ChecksumOf;
    HeadDecides(x, y);
  }

  /** The name shown for an entry depends on its head only. */
  lemma AlikeName(kind: FatKind, x: DirEntry.Entry, y: DirEntry.Entry, raw: seq<DirEntry.Entry>, sector: nat, offset: nat)
    requires SlotAlike(x, y) && IsReadable(x, raw) && IsReadable(y, raw)
    ensures var d, d' := DirentOf(kind, x, raw, sector, offset), DirentOf(kind, y, raw, sector, offset);
      && d'.name == d.name && d'.isDirectory == d.isDirectory
      && d'.size == DirEntry.FileSize(y) && d'.firstCluster == DirEntry.FirstCluster(kind, y)
  {
    HeadDecides(x, y);
    hide SlotAlike, NameUnits, IsGoodName, ShortName, UpToZero, ChecksumOf, DirEntry.DosName, DirEntry.Attribute,
      DirEntry.FileSize, DirEntry.FirstCluster;
  }

  /** A listed slot is listed under the same name in slots that are alike, with the size and first cluster it has there. */
  lemma AlikeListed(kind: FatKind, u: seq<DirEntry.Entry>, v: seq<DirEntry.Entry>, k: nat, name: seq<byte>, size: nat, cluster: nat)
    requires SlotsAlike(u, v) && RoundTrips.IsListed(kind, u, k, name, size, cluster)
    ensures k < |v|
    ensures RoundTrips.IsListed(kind, v, k, name, DirEntry.FileSize(v[k]), DirEntry.FirstCluster(kind, v[k]))
  {
    hide SlotAlike, ShownFrom, Pending, DirentOf, Readable, DirEntry.FileSize, DirEntry.FirstCluster;
    AlikePending(u, v, k);
    AlikeShown(u, v, k);
    var raw := Pending(u, k);
    AlikeReadable(u[k], v[k], raw);
    forall sector, offset
      ensures var d := DirentOf(kind, v[k], raw, sector, offset);
        && d.name == name && d.size == DirEntry.FileSize(v[k])
        && d.firstCluster == DirEntry.FirstCluster(kind, v[k]) && !d.isDirectory
    {
      AlikeName(kind, u[k], v[k], raw, sector, offset);
    }
  }

  // ----- a directory beside open files -----

  /** The directory shares no cluster with an open file, and entries of open files that lie in it are shown slots. */
  ghost predicate IsBeside(g: Bpb, s: State, root: bool, q: seq<nat>) {
    && IsDirectory(g, s.image, root, q)
    && (!root ==> forall i :: 0 <= i < |s.files| ==> Ledger.DisjointSeqs(q, s.files[i].chain))
    && forall i :: 0 <= i < |s.files| ==> EntryShown(g, s.image, root, q, s.files[i])
  }

  ghost predicate EntryShown(g: Bpb, img: Image, root: bool, q: seq<nat>, f: File)
    requires IsDirectory(g, img, root, q)
  {
    forall j: nat :: j < SectorCount(g, root, q) && DirSector(g, img, root, q, j) == f.sector ==>
      f.offset % 32 == 0 && f.offset < 512 && IsShown(FatFiles.EntryAt(img[f.sector], f.offset))
  }

  /** An operation on a file leaves the sectors of the directory where they are. */
  lemma DirectoryStays(g: Bpb, a: Image, b: Image, d: nat, off: nat, p: seq<nat>, p': seq<nat>, root: bool, q: seq<nat>)
    requires IsDirectory(g, a, root, q) && Kept(g, d, off, a, p, b, p')
    requires !root ==> Ledger.DisjointSeqs(q, p)
    ensures |b| == |a| && IsDirectory(g, b, root, q)
    ensures !root ==> Ledger.DisjointSeqs(q, p')
    ensures forall j: nat :: j < SectorCount(g, root, q) ==> DirSector(g, b, root, q, j) == DirSector(g, a, root, q, j)
  {
    hide DirSector, SectorCount, SectorsKept;
    TableStays(g, a, b, d, off, p, p', root, q);
    forall j: nat | j < SectorCount(g, root, q) ensures DirSector(g, b, root, q, j) == DirSector(g, a, root, q, j) {
      RoundTrips.SamePlace(g, a, b, root, q, j);
    }
  }

  lemma TableStays(g: Bpb, a: Image, b: Image, d: nat, off: nat, p: seq<nat>, p': seq<nat>, root: bool, q: seq<nat>)
    requires IsDirectory(g, a, root, q) && Kept(g, d, off, a, p, b, p')
    requires !root ==> Ledger.DisjointSeqs(q, p)
    ensures |b| == |a| && IsDirectory(g, b, root, q)
    ensures !root ==> Ledger.DisjointSeqs(q, p')
  {
    hide TableImage.Entry, Bpb.MaxCluster, SectorsKept, Chains.Free, Bpb.RootDirSectorCount, Bpb.DataStart;
    if !root {
      var t, u := TableImage.TableOf(g, a), TableImage.TableOf(g, b);
      EocPositive(g);
      ChainNotFree(t, g.Eoc(), q);
      FileKept(t, u, g.Eoc(), q);
    }
  }

  lemma EocPositive(g: Bpb)
    ensures g.Eoc() > 0
  {
  }

  /** Every slot of the directory keeps its head, and all of it unless it is the entry of the file. */
  lemma SlotStays(g: Bpb, a: Image, b: Image, f: File, p': seq<nat>, root: bool, q: seq<nat>, i: nat)
    requires IsDirectory(g, a, root, q) && IsDirectory(g, b, root, q) && EntryShown(g, a, root, q, f)
    requires Kept(g, f.sector, f.offset, a, f.chain, b, p') && (!root ==> Ledger.DisjointSeqs(q, f.chain))
    requires f.offset + ENTRY_BYTES <= SECTOR_SIZE && i < 16 * SectorCount(g, root, q)
    requires 0 <= i / 16 < SectorCount(g, root, q) && DirSector(g, b, root, q, i / 16) == DirSector(g, a, root, q, i / 16)
    ensures i < |Slots(g, a, root, q)| && i < |Slots(g, b, root, q)|
    ensures SlotAlike(Slots(g, a, root, q)[i], Slots(g, b, root, q)[i])
  {
    hide *;
    SlotsCount(g, a, root, q);
    SlotsCount(g, b, root, q);
    var s := DirSector(g, a, root, q, i / 16);
    Disjointness(q, f.chain);
    Puts.DirSectorForeign(g, a, f.chain, root, q, i / 16);
    RoundTrips.SlotBefore(g, a, root, q, i / 16, i);
    RoundTrips.SlotBefore(g, b, root, q, i / 16, i);
    SectorStays(g, a, b, f, p', s);
    ShownWhere(g, a, root, q, f, i / 16);
    BytesStay(a[s], b[s], s == f.sector, f.offset, i % 16);
  }

  lemma Disjointness(q: seq<nat>, p: seq<nat>)
    ensures Ledger.DisjointSeqs(q, p) ==> forall c :: c in q ==> c !in p
  {
  }

  lemma SlotsCount(g: Bpb, a: Image, root: bool, q: seq<nat>)
    requires IsDirectory(g, a, root, q)
    ensures |Slots(g, a, root, q)| == 16 * SectorCount(g, root, q)
  {
    hide IsDirectory, SectorCount;
  }

  lemma SectorStays(g: Bpb, a: Image, b: Image, f: File, p': seq<nat>, s: nat)
    requires Kept(g, f.sector, f.offset, a, f.chain, b, p') && Foreign(g, a, f.chain, s)
    ensures s < |a| == |b| && SectorKept(s == f.sector, f.offset, a[s], b[s])
  {
    hide Bpb.WellFormed, TableImage.TableOf, TableKept, SectorKept;
    ForeignInside(g, a, f.chain, s);
  }

  lemma ShownWhere(g: Bpb, a: Image, root: bool, q: seq<nat>, f: File, j: nat)
    requires IsDirectory(g, a, root, q) && EntryShown(g, a, root, q, f) && j < SectorCount(g, root, q)
    ensures DirSector(g, a, root, q, j) == f.sector ==>
      f.offset % 32 == 0 && f.offset < 512 && f.sector < |a| && f.offset + ENTRY_BYTES <= SECTOR_SIZE
      && IsShown(FatFiles.EntryAt(a[f.sector], f.offset))
  {
    hide IsDirectory, SectorCount, DirSector, IsShown;
  }

  lemma BytesStay(x: Sector, y: Sector, isEntry: bool, off: nat, m: nat)
    requires SectorKept(isEntry, off, x, y) && m < 16
    requires isEntry ==> off % 32 == 0 && off < 512 && off + ENTRY_BYTES <= SECTOR_SIZE && IsShown(FatFiles.EntryAt(x, off))
    ensures SlotAlike(FatFiles.EntryAt(x, 32 * m), FatFiles.EntryAt(y, 32 * m))
  {
    hide IsShown;
    if isEntry {
      var u, v := FatFiles.EntryAt(x, 32 * m), FatFiles.EntryAt(y, 32 * m);
      if off == 32 * m {
        forall j | 0 <= j < 13 ensures u[j] == v[j] {
          assert u[j] == x[32 * m + j] && v[j] == y[32 * m + j];
        }
        assert u[..13] == v[..13];
      } else {
        assert off + 32 <= 32 * m || 32 * m + 32 <= off;
        forall j | 0 <= j < 32 ensures u[j] == v[j] {
          assert u[j] == x[32 * m + j] && v[j] == y[32 * m + j];
        }
        assert u == v;
      }
    }
  }

  // ----- one operation -----

  /** Every operation keeps the directory beside the open files, and its slots alike. */
  lemma StepKeepsListing(g: Bpb, s: State, k: nat, s': State, root: bool, q: seq<nat>)
    requires Invariant(g, s) && Step(g, s, k, s') && IsBeside(g, s, root, q)
    ensures IsBeside(g, s', root, q)
    ensures SlotsAlike(Slots(g, s.image, root, q), Slots(g, s'.image, root, q))
  {
    hide *;
    StepMeans(g, s, k, s');
    InvariantMeans(g, s);
    OpenMeans(g, s.image, s.files[k]);
    BesideMeans(g, s, root, q);
    var a, b, f, f' := s.image, s'.image, s.files[k], s'.files[k];
    DirectoryStays(g, a, b, f.sector, f.offset, f.chain, f'.chain, root, q);
    SlotsCount(g, a, root, q);
    SlotsCount(g, b, root, q);
    forall i | 0 <= i < |Slots(g, a, root, q)|
      ensures SlotAlike(Slots(g, a, root, q)[i], Slots(g, b, root, q)[i])
    {
      SlotIndex(i, SectorCount(g, root, q));
      SlotStays(g, a, b, f, f'.chain, root, q, i);
    }
    AlikeIs(Slots(g, a, root, q), Slots(g, b, root, q));
    forall i | 0 <= i < |s'.files| ensures EntryShown(g, b, root, q, s'.files[i]) {
      OpenMeans(g, a, s.files[i]);
      EntryStaysShown(g, a, b, root, q, s.files[i], s'.files[i]);
    }
    BesideIs(g, s, k, s', root, q);
  }

  lemma SlotIndex(i: nat, n: nat)
    requires i < 16 * n
    ensures 0 <= i / 16 < n && 0 <= i % 16 < 16
  {
  }

  lemma AlikeIs(u: seq<DirEntry.Entry>, v: seq<DirEntry.Entry>)
    requires |u| == |v| && forall i :: 0 <= i < |u| ==> SlotAlike(u[i], v[i])
    ensures SlotsAlike(u, v)
  {
    hide SlotAlike;
  }

  lemma BesideMeans(g: Bpb, s: State, root: bool, q: seq<nat>)
    requires IsBeside(g, s, root, q)
    ensures IsDirectory(g, s.image, root, q)
    ensures !root ==> forall i :: 0 <= i < |s.files| ==> Ledger.DisjointSeqs(q, s.files[i].chain)
    ensures forall i :: 0 <= i < |s.files| ==> EntryShown(g, s.image, root, q, s.files[i])
  {
    hide IsDirectory, EntryShown, Ledger.DisjointSeqs;
  }

  lemma BesideIs(g: Bpb, s: State, k: nat, s': State, root: bool, q: seq<nat>)
    requires IsBeside(g, s, root, q) && k < |s.files| == |s'.files| && IsDirectory(g, s'.image, root, q)
    requires forall i :: 0 <= i < |s.files| && i != k ==> s'.files[i] == s.files[i]
    requires !root ==> Ledger.DisjointSeqs(q, s'.files[k].chain)
    requires forall i :: 0 <= i < |s'.files| ==> EntryShown(g, s'.image, root, q, s'.files[i])
    ensures IsBeside(g, s', root, q)
  {
    hide IsDirectory, EntryShown, Ledger.DisjointSeqs;
  }

  lemma EntryStaysShown(g: Bpb, a: Image, b: Image, root: bool, q: seq<nat>, f: File, f': File)
    requires IsDirectory(g, a, root, q) && IsDirectory(g, b, root, q) && EntryShown(g, a, root, q, f)
    requires f'.sector == f.sector && f'.offset == f.offset && f.offset + ENTRY_BYTES <= SECTOR_SIZE
    requires SlotsAlike(Slots(g, a, root, q), Slots(g, b, root, q))
    requires forall j: nat :: j < SectorCount(g, root, q) ==> DirSector(g, b, root, q, j) == DirSector(g, a, root, q, j)
    ensures EntryShown(g, b, root, q, f')
  {
    hide IsDirectory, SectorCount, DirSector, IsShown, SlotAlike, Slots;
    forall j: nat | j < SectorCount(g, root, q) && DirSector(g, b, root, q, j) == f'.sector
      ensures f'.offset % 32 == 0 && f'.offset < 512 && IsShown(FatFiles.EntryAt(b[f'.sector], f'.offset))
    {
      ShownWhere(g, a, root, q, f, j);
      SlotsCount(g, a, root, q);
      var m := f.offset / 32;
      assert f.offset == 32 * m && (16 * j + m) / 16 == j && (16 * j + m) % 16 == m;
      RoundTrips.SlotBefore(g, a, root, q, j, 16 * j + m);
      RoundTrips.SlotBefore(g, b, root, q, j, 16 * j + m);
      HeadDecides(Slots(g, a, root, q)[16 * j + m], Slots(g, b, root, q)[16 * j + m]);
    }
  }

  // ----- all runs -----

  /** Over every run the slots of the directory stay alike. */
  lemma {:induction false} RunKeepsSlots(g: Bpb, states: seq<State>, ops: seq<nat>, n: nat, root: bool, q: seq<nat>)
    requires IsRun(g, states, ops) && Invariant(g, states[0]) && n < |states| && IsBeside(g, states[0], root, q)
    ensures IsBeside(g, states[n], root, q) && IsDirectory(g, states[0].image, root, q) && IsDirectory(g, states[n].image, root, q)
    ensures SlotsAlike(Slots(g, states[0].image, root, q), Slots(g, states[n].image, root, q))
  {
    hide Step, Invariant, IsBeside, SlotsAlike, Slots, IsDirectory;
    BesideMeans(g, states[0], root, q);
    if n == 0 {
      AlikeSelf(Slots(g, states[0].image, root, q));
    } else {
      RunKeepsSlots(g, states, ops, n - 1, root, q);
      RunKeepsInvariant(g, states, ops, n - 1);
      StepKeepsListing(g, states[n - 1], ops[n - 1], states[n], root, q);
      BesideMeans(g, states[n], root, q);
      AlikeTrans(Slots(g, states[0].image, root, q), Slots(g, states[n - 1].image, root, q), Slots(g, states[n].image, root, q));
    }
  }

  /** Over every run, whatever is listed stays listed under its name, with the size and first cluster of its entry. */
  lemma RunKeepsListing(g: Bpb, states: seq<State>, ops: seq<nat>, n: nat, root: bool, q: seq<nat>,
                        k: nat, name: seq<byte>, size: nat, cluster: nat)
    requires IsRun(g, states, ops) && Invariant(g, states[0]) && n < |states| && IsBeside(g, states[0], root, q)
    requires RoundTrips.IsListed(g.kind, Slots(g, states[0].image, root, q), k, name, size, cluster)
    ensures IsDirectory(g, states[n].image, root, q) && k < |Slots(g, states[n].image, root, q)|
    ensures var e := Slots(g, states[n].image, root, q)[k];
      RoundTrips.IsListed(g.kind, Slots(g, states[n].image, root, q), k, name, DirEntry.FileSize(e), DirEntry.FirstCluster(g.kind, e))
  {
    hide *;
    RunKeepsSlots(g, states, ops, n, root, q);
    AlikeListed(g.kind, Slots(g, states[0].image, root, q), Slots(g, states[n].image, root, q), k, name, size, cluster);
  }

  // ----- after a put -----

  /** The new file as the one open file. */
  ghost function NewFile(g: Bpb, a: Image, b: Image, root: bool, q: seq<nat>, sd: nat, o: nat, source: seq<byte>,
                         p: seq<nat>, t: Unicode.Text): State
    requires IsDirectory(g, a, root, q) && sd < SectorCount(g, root, q)
  {
    State(b, [File(p, |source|, DirSector(g, a, root, q, sd), 32 * (o + SlotCount(|Unicode.Utf16(t)|)))])
  }

  lemma PutBeside(g: Bpb, a: Image, b: Image, root: bool, q: seq<nat>, sd: nat, o: nat, name: seq<byte>, source: seq<byte>,
                  p: seq<nat>, t: Unicode.Text, now: DirEntry.Stamp)
    requires IsDirectory(g, a, root, q) && |source| < TWO32
    requires Puts.PutDone(g, a, b, root, q, sd, o, name, source, p, t, now)
    ensures sd < SectorCount(g, root, q) && IsDirectory(g, b, root, q)
    ensures Invariant(g, NewFile(g, a, b, root, q, sd, o, source, p, t))
    ensures IsBeside(g, NewFile(g, a, b, root, q, sd, o, source, p, t), root, q)
  {
    hide *;
    var s, c := Puts.PutParts(g, a, b, root, q, sd, o, name, source, p, t, now);
    Puts.StoredMeans(g, a, c, source, p);
    Puts.DirectoryKept(g, a, c, p, root, q);
    RoundTrips.SlotsAfter(g, c, root, q, sd, b[s]);
    Puts.EntryStands(g, a[s], b[s], o, name, DosFold(name).0, Head(p), |source|, t, now);
    Puts.HeadSmall(g, c, p, Head(p));
    RoundTrips.NewEntryShown(g.kind, DosFold(name).0, Head(p), |source|, now);
    NewFileOpen(g, a, b, root, q, sd, o, name, source, p, t, now);
    FreshApart(g, a, c, p, root, q);
    NewFileBeside(g, a, b, root, q, sd, o, source, p, t, s);
  }

  lemma NewFileOpen(g: Bpb, a: Image, b: Image, root: bool, q: seq<nat>, sd: nat, o: nat, name: seq<byte>,
                    source: seq<byte>, p: seq<nat>, t: Unicode.Text, now: DirEntry.Stamp)
    requires IsDirectory(g, a, root, q) && |source| < TWO32
    requires Puts.PutDone(g, a, b, root, q, sd, o, name, source, p, t, now)
    ensures sd < SectorCount(g, root, q) && Invariant(g, NewFile(g, a, b, root, q, sd, o, source, p, t))
  {
    hide IsDirectory, SectorCount, DirSector, Puts.Stored, FatFiles.EntryMatches, EntriesWritten, Unicode.Utf16, IsHandle,
      SlotCount, OnData, Bytes, Apart;
    HandleFormed(g, b, p, Head(p), |source|, DirSector(g, a, root, q, sd), 32 * (o + SlotCount(|Unicode.Utf16(t)|)));
  }

  lemma HandleFormed(g: Bpb, b: Image, p: seq<nat>, first: nat, size: nat, d: nat, off: nat)
    requires IsHandle(g, b, p, first, size, d, off)
    ensures g.WellFormed(|b|)
  {
  }

  /** A directory shares no cluster with a chain made of free ones. */
  lemma FreshApart(g: Bpb, a: Image, c: Image, p: seq<nat>, root: bool, q: seq<nat>)
    requires IsDirectory(g, a, root, q) && Kept(g, |a|, 0, a, [], c, p)
    ensures !root ==> Ledger.DisjointSeqs(q, p)
  {
    hide TableImage.Entry, Bpb.MaxCluster, SectorsKept, Chains.Free, Bpb.RootDirSectorCount, Bpb.DataStart;
    if !root {
      EocPositive(g);
      ChainNotFree(TableImage.TableOf(g, a), g.Eoc(), q);
    }
  }

  lemma NewFileBeside(g: Bpb, a: Image, b: Image, root: bool, q: seq<nat>, sd: nat, o: nat, source: seq<byte>,
                      p: seq<nat>, t: Unicode.Text, s: nat)
    requires IsDirectory(g, a, root, q) && IsDirectory(g, b, root, q) && sd < SectorCount(g, root, q)
    requires s == DirSector(g, a, root, q, sd) && s < |b| && o + SlotCount(|Unicode.Utf16(t)|) + 1 <= 16
    requires !root ==> Ledger.DisjointSeqs(q, p)
    requires IsShown(FatFiles.EntryAt(b[s], 32 * (o + SlotCount(|Unicode.Utf16(t)|))))
    ensures IsBeside(g, NewFile(g, a, b, root, q, sd, o, source, p, t), root, q)
  {
    hide IsDirectory, SectorCount, DirSector, IsShown, Unicode.Utf16, SlotCount, Ledger.DisjointSeqs;
  }

  /**
   A file that is listed under its name after its put stays listed under it after any run of
   operations on it, with the size and first cluster of its entry.
   */
  lemma PutStaysListed(g: Bpb, a: Image, b: Image, root: bool, q: seq<nat>, sd: nat, o: nat, name: seq<byte>,
                       source: seq<byte>, p: seq<nat>, t: Unicode.Text, now: DirEntry.Stamp, states: seq<State>,
                       ops: seq<nat>, n: nat)
    requires IsDirectory(g, a, root, q) && |source| < TWO32
    requires Puts.PutDone(g, a, b, root, q, sd, o, name, source, p, t, now) && sd < SectorCount(g, root, q)
    requires Puts.CanTell(g, a, root, q, name) && Puts.WillBeListed(g, a, root, q, name)
    requires IsRun(g, states, ops) && n < |states| && states[0] == NewFile(g, a, b, root, q, sd, o, source, p, t)
    ensures var k := 16 * sd + o + SlotCount(|Unicode.Utf16(t)|);
      && IsDirectory(g, states[n].image, root, q) && k < |Slots(g, states[n].image, root, q)|
      && var e := Slots(g, states[n].image, root, q)[k];
         RoundTrips.IsListed(g.kind, Slots(g, states[n].image, root, q), k, name, DirEntry.FileSize(e), DirEntry.FirstCluster(g.kind, e))
  {
    hide *;
    PutBeside(g, a, b, root, q, sd, o, name, source, p, t, now);
    Puts.PutThenList(g, a, b, root, q, sd, o, name, source, p, t, now);
    NewFileImage(g, a, b, root, q, sd, o, source, p, t);
    RunKeepsListing(g, states, ops, n, root, q, 16 * sd + o + SlotCount(|Unicode.Utf16(t)|), name, |source|, Head(p));
  }

  lemma NewFileImage(g: Bpb, a: Image, b: Image, root: bool, q: seq<nat>, sd: nat, o: nat, source: seq<byte>,
                     p: seq<nat>, t: Unicode.Text)
    requires IsDirectory(g, a, root, q) && sd < SectorCount(g, root, q)
    ensures NewFile(g, a, b, root, q, sd, o, source, p, t).image == b
  {
  }
}
