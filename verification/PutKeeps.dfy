/** What a put leaves alone in its directory, what it adds to the listing, and what it brings back. */
module PutKeeps {
  import opened Words
  import opened Geometry
  import TableImage
  import opened Allocator
  import DirEntry
  import opened LongNames
  import opened Listing
  import opened Directories
  import opened FreeSlots
  import opened Puts
  import RoundTrips
  import HiddenPuts
  import Unicode

  // ----- the slots -----

  /** `m` unused slots from `first` on become collected long-name slots and, last, a shown entry; no other slot changes. */
  ghost predicate IsReplaced(was: seq<DirEntry.Entry>, now: seq<DirEntry.Entry>, first: nat, m: nat) {
    && |now| == |was| && 0 < m && first + m <= |was|
    && IsByteRow(was, first, m)
    && (forall i :: 0 <= i < |was| && !(first <= i < first + m) ==> now[i] == was[i])
    && (forall i :: first <= i < first + m - 1 ==> IsCollected(now[i]) && !IsEnd(now[i]))
    && IsShown(now[first + m - 1])
  }

  /** The entries of a put take the place of slots that are not in use, byte by byte; all others stay. */
  lemma PutReplaces(g: Bpb, a: Image, b: Image, root: bool, q: seq<nat>, sd: nat, o: nat, name: seq<byte>,
                    source: seq<byte>, p: seq<nat>, t: Unicode.Text, now: DirEntry.Stamp)
    requires IsDirectory(g, a, root, q) && |source| < TWO32
    requires PutDone(g, a, b, root, q, sd, o, name, source, p, t, now)
    ensures IsDirectory(g, b, root, q)
    ensures IsReplaced(Slots(g, a, root, q), Slots(g, b, root, q), 16 * sd + o, SlotCount(|Unicode.Utf16(t)|) + 1)
  {
    hide *;
    var s, c := PutParts(g, a, b, root, q, sd, o, name, source, p, t, now);
    StoredMeans(g, a, c, source, p);
    DirectoryKept(g, a, c, p, root, q);
    HeadSmall(g, c, p, Head(p));
    GoesToMeans(g, a, root, q, name, t, sd, o);
    FoundRow(g, a, root, q, name, t, sd, o);
    var units, dosName, n := Unicode.Utf16(t), DosFold(name).0, SlotCount(|Unicode.Utf16(t)|);
    RoundTrips.ReadWritten(g.kind, a[s], b[s], o, name, dosName, Head(p), |source|, t, now);
    var run, e := Run(units, ChecksumOf(dosName)), DirEntry.NewEntry(g.kind, dosName, Head(p), |source|, now);
    RoundTrips.EntriesInPlace(g, c, b, root, q, sd, o, run + [e]);
    RoundTrips.RunLive(units, ChecksumOf(dosName));
    FoldLegal(name);
    RoundTrips.NewEntryShown(g.kind, dosName, Head(p), |source|, now);
    RowReplaced(Slots(g, a, root, q), Slots(g, b, root, q), 16 * sd + o, run, e);
  }

  lemma FoldLegal(name: seq<byte>)
    ensures |DosFold(name).0| == 11 && IsDosByte(DosFold(name).0[0])
  {
  }

  lemma FoundRow(g: Bpb, a: Image, root: bool, q: seq<nat>, name: seq<byte>, t: Unicode.Text, sd: nat, o: nat)
    requires IsDirectory(g, a, root, q) && GoesTo(g, a, root, q, name, t, sd, o)
    ensures IsByteRow(Slots(g, a, root, q), 16 * sd + o, SlotCount(|Unicode.Utf16(t)|) + 1)
  {
    hide IsDirectory, IsFound, Slots, FreeRun, IsByteRow, Unicode.Utf16, Unicode.IsReading;
    FoundFree(g, a, root, q, sd, o, SlotCount(|Unicode.Utf16(t)|) + 1);
    RowBytes(Slots(g, a, root, q), 16 * sd + o, SlotCount(|Unicode.Utf16(t)|) + 1);
  }

  lemma RowReplaced(was: seq<DirEntry.Entry>, now: seq<DirEntry.Entry>, first: nat, run: seq<DirEntry.Entry>, e: DirEntry.Entry)
    requires |now| == |was| && IsByteRow(was, first, |run| + 1)
    requires forall i :: 0 <= i < |was| ==>
      now[i] == if first <= i < first + |run + [e]| then (run + [e])[i - first] else was[i]
    requires forall i :: 0 <= i < |run| ==> IsCollected(run[i]) && !IsEnd(run[i])
    requires IsShown(e)
    ensures IsReplaced(was, now, first, |run| + 1)
  {
    hide IsCollected, IsEnd, IsShown;
    forall i | first <= i < first + |run| ensures IsCollected(now[i]) && !IsEnd(now[i]) {
      assert now[i] == run[i - first];
    }
  }

  // ----- what was shown before -----

  /** Up to an entry that a listing shows, the long-name slots collected are the same. */
  lemma {:induction false} PendingKept(was: seq<DirEntry.Entry>, now: seq<DirEntry.Entry>, first: nat, m: nat, k: nat)
    requires IsReplaced(was, now, first, m) && k <= |was| && NoEndBefore(was, k) && !(first < k < first + m)
    ensures Pending(now, k) == Pending(was, k)
    decreases k
  {
    if k > 0 {
      if k == first + m {
        assert IsUnused(was[k - 1]) && IsDeleted(was[k - 1]);
      } else {
        PendingKept(was, now, first, m, k - 1);
      }
    }
  }

  /** Whatever the directory listed before, it lists as before: the same bytes after the same long-name slots. */
  lemma ShownKept(was: seq<DirEntry.Entry>, now: seq<DirEntry.Entry>, first: nat, m: nat, k: nat)
    requires IsReplaced(was, now, first, m) && k in ShownFrom(was, 0)
    ensures k < |was| && k < |now| && k in ShownFrom(now, 0) && now[k] == was[k] && Pending(now, k) == Pending(was, k)
    ensures forall j :: 0 <= j <= k && was[j][0] != 0xE5 ==> now[j] == was[j]
  {
    hide Pending, ShownFrom;
    ShownFromIsExact(was);
    ShownFromIsExact(now);
    assert was[k][0] != 0x00 && was[k][0] != 0xE5;
    PendingKept(was, now, first, m, k);
    forall j | 0 <= j < k ensures !IsEnd(now[j]) {
      assert !IsEnd(was[j]);
    }
  }

  /**
   What the directory lists afterwards: the new entry, if no end marker comes before it, and every
   entry that was in use, unless an end marker outside the row comes before it.
   */
  lemma ShownAfter(was: seq<DirEntry.Entry>, now: seq<DirEntry.Entry>, first: nat, m: nat, k: nat)
    requires IsReplaced(was, now, first, m)
    ensures k in ShownFrom(now, 0) <==>
      if k == first + m - 1 then NoEndBefore(was, first)
      else k < |was| && !(first <= k < first + m) && IsShown(was[k])
           && forall j :: 0 <= j < k && IsEnd(was[j]) ==> first <= j < first + m
  {
    hide ShownFrom;
    ShownFromIsExact(now);
    EndsAfter(was, now, first, m);
    if first <= k < first + m - 1 {
      assert !IsShown(now[k]);
    }
  }

  lemma EndsAfter(was: seq<DirEntry.Entry>, now: seq<DirEntry.Entry>, first: nat, m: nat)
    requires IsReplaced(was, now, first, m)
    ensures forall j :: 0 <= j < |was| ==> (IsEnd(now[j]) <==> IsEnd(was[j]) && !(first <= j < first + m))
  {
    forall j | first <= j < first + m ensures !IsEnd(now[j]) {
    }
  }

  /** If nothing is in use after the end marker, a put adds the new file to the listing, or nothing; it never takes anything away. */
  lemma ShownPlusOne(was: seq<DirEntry.Entry>, now: seq<DirEntry.Entry>, first: nat, m: nat, k: nat)
    requires IsReplaced(was, now, first, m) && HiddenPuts.UnusedAfterEnd(was)
    ensures k in ShownFrom(now, 0) <==> k in ShownFrom(was, 0) || (k == first + m - 1 && NoEndBefore(was, first))
  {
    hide ShownFrom;
    ShownAfter(was, now, first, m, k);
    ShownFromIsExact(was);
    if k < |was| && IsShown(was[k]) {
      assert !IsUnused(was[k]);
    }
    if first <= k < first + m {
      assert IsUnused(was[k]) && !IsShown(was[k]);
    }
  }

  // ----- after a put -----

  /** After a put, every file that was listed is listed as before. */
  lemma PutKeepsListed(g: Bpb, a: Image, b: Image, root: bool, q: seq<nat>, sd: nat, o: nat, name: seq<byte>,
                       source: seq<byte>, p: seq<nat>, t: Unicode.Text, now: DirEntry.Stamp,
                       k: nat, other: seq<byte>, size: nat, cluster: nat)
    requires IsDirectory(g, a, root, q) && |source| < TWO32
    requires PutDone(g, a, b, root, q, sd, o, name, source, p, t, now)
    requires RoundTrips.IsListed(g.kind, Slots(g, a, root, q), k, other, size, cluster)
    ensures IsDirectory(g, b, root, q) && k < |Slots(g, a, root, q)| == |Slots(g, b, root, q)|
    ensures Slots(g, b, root, q)[k] == Slots(g, a, root, q)[k]
    ensures Pending(Slots(g, b, root, q), k) == Pending(Slots(g, a, root, q), k)
    ensures RoundTrips.IsListed(g.kind, Slots(g, b, root, q), k, other, size, cluster)
  {
    hide *;
    PutReplaces(g, a, b, root, q, sd, o, name, source, p, t, now);
    ListedKept(g.kind, Slots(g, a, root, q), Slots(g, b, root, q), 16 * sd + o, SlotCount(|Unicode.Utf16(t)|) + 1, k, other, size, cluster);
  }

  lemma ListedKept(kind: FatKind, was: seq<DirEntry.Entry>, now: seq<DirEntry.Entry>, first: nat, m: nat, k: nat,
                   other: seq<byte>, size: nat, cluster: nat)
    requires IsReplaced(was, now, first, m) && RoundTrips.IsListed(kind, was, k, other, size, cluster)
    ensures k < |was| == |now| && now[k] == was[k] && Pending(now, k) == Pending(was, k)
    ensures RoundTrips.IsListed(kind, now, k, other, size, cluster)
  {
    hide ShownFrom, Pending, RoundTrips.IsShownAs;
    ShownKept(was, now, first, m, k);
  }

  /** A put fails for lack of room only if there is no row of slots, by their bytes, where the search looks. */
  lemma RoomBytes(g: Bpb, img: Image, root: bool, q: seq<nat>, n: nat)
    requires IsDirectory(g, img, root, q)
    ensures !root ==>
      (HasRoom(g, img, root, q, n) <==>
         exists sd: nat, o: nat :: sd < SectorCount(g, root, q) && IsByteRow(SectorSlots(img[DirSector(g, img, root, q, sd)]), o, n))
    ensures root ==>
      (HasRoom(g, img, root, q, n) <==> exists i: nat :: IsFirstByteRow(Slots(g, img, root, q), i, n) && i % 16 + n <= 16)
  {
    hide IsDirectory, SectorCount, DirSector, Slots, SectorSlots, IsByteRow, FirstFreeRun, NoFreeRun;
    if root {
      forall i: nat ensures FirstFreeRun(Slots(g, img, root, q), i, n) <==> IsFirstByteRow(Slots(g, img, root, q), i, n) {
        RowsInBytes(Slots(g, img, root, q), n);
      }
    } else {
      forall sd: nat | sd < SectorCount(g, root, q)
        ensures NoFreeRun(SectorSlots(img[DirSector(g, img, root, q, sd)]), n) <==>
          forall o: nat :: !IsByteRow(SectorSlots(img[DirSector(g, img, root, q, sd)]), o, n)
      {
        RowsInBytes(SectorSlots(img[DirSector(g, img, root, q, sd)]), n);
      }
    }
  }

  ghost predicate IsFirstByteRow(slots: seq<DirEntry.Entry>, i: nat, n: nat) {
    IsByteRow(slots, i, n) && forall j: nat :: j < i ==> !IsByteRow(slots, j, n)
  }

  // ----- what a put brings back -----

  /**
   A root with two unused slots, an entry left over behind them, and nothing else: the end marker in
   slot 0 hides the entry. Every put of a one-slot name takes the two slots, writes no new end marker,
   and so brings the entry back into the listing.
   */
  lemma BroughtBack() returns (g: Bpb, img: Image)
    ensures g.WellFormed(|img|) && TableImage.Mirrored(g, img) && IsDirectory(g, img, true, [])
    ensures 2 !in ShownFrom(Slots(g, img, true, []), 0)
    ensures forall name, u: Unicode.Text :: HiddenPuts.IsOneSlot(u, name) ==> CanPut(g, img, true, [], name, [])
    ensures forall b, sd, o, name, source, p, t: Unicode.Text, now ::
      |source| < TWO32 && PutDone(g, img, b, true, [], sd, o, name, source, p, t, now) && SlotCount(|Unicode.Utf16(t)|) == 1 ==>
      IsDirectory(g, b, true, []) && 2 in ShownFrom(Slots(g, b, true, []), 0)
  {
    hide *;
    var x := StaleSector();
    g, img := HiddenPuts.RootWith(x);
    StaleSlots(g, img, x);
    StaleFirst(Slots(g, img, true, []));
    HiddenBefore(Slots(g, img, true, []));
    forall name, u: Unicode.Text | HiddenPuts.IsOneSlot(u, name) ensures CanPut(g, img, true, [], name, []) {
      HiddenPuts.OneSlotMeans(u, name);
      RoomAtStart(g, img);
      HiddenPuts.EmptyFits(g, img, true, []);
      HiddenPuts.PutHasRoom(g, img, true, [], name, u);
    }
    forall b, sd, o, name, source, p, t: Unicode.Text, now |
      |source| < TWO32 && PutDone(g, img, b, true, [], sd, o, name, source, p, t, now) && SlotCount(|Unicode.Utf16(t)|) == 1
      ensures IsDirectory(g, b, true, []) && 2 in ShownFrom(Slots(g, b, true, []), 0)
    {
      PutReplaces(g, img, b, true, [], sd, o, name, source, p, t, now);
      PutPlace(g, img, b, sd, o, name, source, p, t, now);
      StaleShown(Slots(g, img, true, []), Slots(g, b, true, []));
    }
  }

  /** Sixteen slots: all zero but the third. */
  lemma StaleSector() returns (x: Sector)
    ensures forall j :: 0 <= j < 512 ==> x[j] == if 64 <= j < 96 then 0x41 else 0
  {
    x := seq(512, j => if 64 <= j < 96 then 0x41 else 0);
  }

  /** Slots 0 and 1 are end markers, slot 2 is an entry. */
  ghost predicate IsStale(slots: seq<DirEntry.Entry>) {
    |slots| == 16 && IsEnd(slots[0]) && IsEnd(slots[1]) && IsShown(slots[2])
  }

  lemma StaleSlots(g: Bpb, img: Image, x: Sector)
    requires IsDirectory(g, img, true, []) && |img| == 10 && g.RootDirSector() == 3 && g.RootDirSectorCount() == 1
    requires img[3] == x && forall j :: 0 <= j < 512 ==> x[j] == if 64 <= j < 96 then 0x41 else 0
    ensures IsStale(Slots(g, img, true, [])) && SectorCount(g, true, []) == 1
  {
    hide IsDirectory, Bpb.RootDirSector, Bpb.RootDirSectorCount;
    RootSlots(g, img, []);
    RootSlotAt(g, img, [], 0, 0);
    RootSlotAt(g, img, [], 0, 1);
    RootSlotAt(g, img, [], 0, 2);
  }

  lemma StaleFirst(slots: seq<DirEntry.Entry>)
    requires IsStale(slots)
    ensures FirstFreeRun(slots, 0, 2)
  {
  }

  lemma HiddenBefore(slots: seq<DirEntry.Entry>)
    requires IsStale(slots)
    ensures 2 !in ShownFrom(slots, 0)
  {
    ShownFromIsExact(slots);
  }

  lemma RoomAtStart(g: Bpb, img: Image)
    requires IsDirectory(g, img, true, []) && FirstFreeRun(Slots(g, img, true, []), 0, 2)
    ensures HasRoom(g, img, true, [], 2)
  {
    hide IsDirectory, Slots, FirstFreeRun;
    assert 0 % 16 + 2 <= 16;
  }

  lemma PutPlace(g: Bpb, a: Image, b: Image, sd: nat, o: nat, name: seq<byte>, source: seq<byte>, p: seq<nat>,
                 t: Unicode.Text, now: DirEntry.Stamp)
    requires IsDirectory(g, a, true, []) && |source| < TWO32 && SlotCount(|Unicode.Utf16(t)|) == 1
    requires PutDone(g, a, b, true, [], sd, o, name, source, p, t, now)
    requires FirstFreeRun(Slots(g, a, true, []), 0, 2) && SectorCount(g, true, []) == 1
    ensures 16 * sd + o == 0
  {
    hide *;
    var s, c := PutParts(g, a, b, true, [], sd, o, name, source, p, t, now);
    AtStart(g, a, name, t, sd, o);
  }

  lemma AtStart(g: Bpb, a: Image, name: seq<byte>, t: Unicode.Text, sd: nat, o: nat)
    requires IsDirectory(g, a, true, []) && GoesTo(g, a, true, [], name, t, sd, o) && SlotCount(|Unicode.Utf16(t)|) == 1
    requires FirstFreeRun(Slots(g, a, true, []), 0, 2) && SectorCount(g, true, []) == 1
    ensures 16 * sd + o == 0
  {
    hide IsDirectory, Slots, FirstFreeRun, SectorCount, Unicode.Utf16, Unicode.IsReading, SlotCount;
    assert IsFound(g, a, true, [], 0, 0, 2);
    FoundOnce(g, a, true, [], sd, o, 0, 0, 2);
  }

  lemma StaleShown(was: seq<DirEntry.Entry>, now: seq<DirEntry.Entry>)
    requires IsStale(was) && IsReplaced(was, now, 0, 2)
    ensures 2 in ShownFrom(now, 0)
  {
    hide ShownFrom, IsShown;
    ShownFromIsExact(now);
    EndsAfter(was, now, 0, 2);
  }
}
