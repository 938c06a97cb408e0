/** Open files: seeking, reading and writing through a handle, over the chains of a volume. */
module FatFiles {
  import opened Words
  import opened Geometry
  import opened TableImage
  import Chains
  import opened Allocator
  import opened FileBytes
  import opened Volumes
  import DirEntry

  class FatFile {
    const vol: Volume
    const dirSector: u32
    const dirOffset: nat
    const readable: bool
    const writable: bool

    var firstCluster: u32
    var position: u64
    var size: u64
    var eof: bool
    var error: bool

    ghost var chain: seq<nat>

    /**
     `fat_open` on an entry that was found at `offset` of sector `sector`: the handle starts at the
     beginning, or at the end when appending. Mode "w" calls `Truncate` next.
     */
    constructor (vol: Volume, sector: u32, offset: nat, readable: bool, writable: bool, append: bool,
                 ghost p: seq<nat>)
      requires vol.Valid() && offset + ENTRY_BYTES <= SECTOR_SIZE && sector < |vol.image|
      requires var e := EntryAt(vol.image[sector], offset);
        IsHandle(vol.g, vol.image, p, DirEntry.FirstCluster(vol.g.kind, e), DirEntry.FileSize(e), sector, offset)
      ensures this.vol == vol && dirSector == sector && dirOffset == offset && chain == p
      ensures Valid() && IsRecorded() && size == DirEntry.FileSize(EntryAt(vol.image[sector], offset))
      ensures position == (if append then size else 0) < TWO63
      ensures this.readable == readable && this.writable == writable && !eof && !error
    {
      hide *;
      var e := EntryAt(vol.image[sector], offset);
      EntryFieldsFit(vol.g.kind, e);
      HandleStart(vol.g, vol.image, sector, offset, e);
      this.vol := vol;
      dirSector := sector;
      dirOffset := offset;
      this.readable := readable;
      this.writable := writable;
      firstCluster := DirEntry.FirstCluster(vol.g.kind, e);
      size := DirEntry.FileSize(e);
      position := if append then DirEntry.FileSize(e) else 0;
      eof := false;
      error := false;
      chain := p;
      new;
      ValidIs();
      RecordedIs();
    }

    ghost predicate Valid()
      reads this, vol
    {
      IsHandle(vol.g, vol.image, chain, firstCluster, size, dirSector, dirOffset)
    }

    /** The chain is no longer than the size needs. */
    ghost predicate Tight()
      reads this
    {
      IsTight(vol.g, chain, size)
    }

    /** The entry on disk tells the first cluster and the size of the handle. */
    ghost predicate IsRecorded()
      reads this, vol
    {
      EntryMatches(vol.g, vol.image, dirSector, dirOffset, firstCluster, size)
    }

    lemma RecordedIs()
      ensures IsRecorded() <==> EntryMatches(vol.g, vol.image, dirSector, dirOffset, firstCluster, size)
    {
    }

    ghost function Contents(): seq<byte>
      requires Valid()
      reads this, vol
    {
      Content(vol.g, vol.image, chain, size)
    }

    lemma HandleFacts()
      requires Valid()
      ensures vol.Valid() && vol.g.WellFormed(|vol.image|) && vol.Table() == TableOf(vol.g, vol.image)
      ensures OnData(vol.g, chain) && Chains.Distinct(chain)
      ensures size <= |chain| * vol.g.ClusterBytes() && vol.g.ClusterBytes() > 0 && vol.g.ClusterBytes() < 0x2_0000
      ensures |chain| < TWO32
      ensures chain != [] ==> Chains.IsChain(vol.Table(), vol.g.Eoc(), firstCluster, chain) && 2 <= firstCluster
      ensures IsFile(vol.Table(), vol.g.Eoc(), chain) && Head(chain) == firstCluster
      ensures TWO32 == 0x1_0000_0000 && SECTOR_SIZE == 512
      ensures size < TWO63 - 0x2_0000 && TWO64 == 2 * TWO63 && TWO63 > 0x2_0000
    {
      hide TableOf, Foreign, Mirrored, Entry, Bpb.MaxCluster;
      FileOnData(vol.g, vol.image, chain);
      vol.TableFacts();
      SizeSmall(|chain|, vol.g.ClusterBytes());
      if chain != [] {
        Chains.ChainBound(vol.Table(), vol.g.Eoc(), chain[0], chain);
        assert Chains.IsData(vol.Table(), chain[0]);
      }
    }

    /** The clusters the file could have: its own and the free ones. */
    ghost function Available(): nat
      requires Valid()
      reads this, vol
    {
      Avail(vol.g, vol.image, chain)
    }

    lemma ValidIs()
      requires IsHandle(vol.g, vol.image, chain, firstCluster, size, dirSector, dirOffset)
      ensures Valid() && Contents() == Content(vol.g, vol.image, chain, size)
      ensures Available() == Avail(vol.g, vol.image, chain)
      ensures Tight() <==> IsTight(vol.g, chain, size)
    {
    }

    lemma ValidMeans()
      requires Valid()
      ensures IsHandle(vol.g, vol.image, chain, firstCluster, size, dirSector, dirOffset)
      ensures Contents() == Content(vol.g, vol.image, chain, size) && |Contents()| == size
      ensures Available() == Avail(vol.g, vol.image, chain)
      ensures Tight() <==> IsTight(vol.g, chain, size)
      ensures firstCluster == Head(chain)
      ensures IsHandle(vol.g, vol.image, chain, firstCluster, 0, dirSector, dirOffset)
    {
    }

    /** `fat_file_cluster_at`. */
    method ClusterAt(pos: u64) returns (c: u32)
      requires Valid() && pos < |chain| * vol.g.ClusterBytes()
      ensures InCluster(vol.g, chain, pos, c)
    {
      hide *;
      HandleFacts();
      Locate(vol.g, |vol.image|, chain, pos);
      ChainClusters();
      c := 0;
      if firstCluster >= 2 {
        c := vol.GetNthCluster(firstCluster, pos / vol.g.ClusterBytes());
      }
      InClusterIs(vol.g, chain, pos, c);
    }

    lemma ChainClusters()
      requires Valid()
      ensures forall i :: 0 <= i < |chain| ==> 2 <= chain[i]
      ensures chain == [] ==> |chain| * vol.g.ClusterBytes() == 0
    {
      hide TableOf, Foreign, Mirrored, Bpb.MaxCluster, Bpb.WellFormed;
      FileOnData(vol.g, vol.image, chain);
    }

    // ----- the write loops -----

    /** The inner loop of `fat_write`: `data` goes to one cluster, sector by sector. */
    method WriteInCluster(cluster: u32, start: nat, data: seq<byte>)
      requires Valid() && position + |data| <= size
      requires InCluster(vol.g, chain, position, cluster)
      requires start == position % vol.g.ClusterBytes() && start + |data| <= vol.g.ClusterBytes()
      modifies this`position, vol
      ensures position == old(position) + |data|
      ensures SpanWritten(vol.g, dirSector, dirOffset, old(vol.image), vol.image, chain, old(position), data)
    {
      hide *;
      HandleFacts();
      ghost var g, d, off, a, pos0, size0 := vol.g, dirSector, dirOffset, vol.image, position, size;
      SpanNothing(g, d, off, a, chain, position);
      var k := 0;
      assert data[..0] == [];
      while k < |data|
        invariant 0 <= k <= |data|
        invariant position == pos0 + k
        invariant SpanWritten(g, d, off, a, vol.image, chain, pos0, data[..k])
      {
        SpanFacts(g, d, off, a, vol.image, chain, pos0, data[..k]);
        var (s, offsetInSector, n) := Chunk(vol.g, cluster, start, k, |data|);
        ChunkPlace(g, |vol.image|, chain, pos0, cluster, start, k, |data|);
        ghost var b := vol.image;
        var chunk := data[k..k + n];
        SpanStep(g, d, off, b, chain, position, chunk, s);
        var buffer: Sector := ZeroSector();
        if offsetInSector != 0 || n != SECTOR_SIZE {
          var read;
          read, buffer := vol.ReadSector(s);
        }
        WholeSector(b[s], buffer, offsetInSector, chunk);
        var written := vol.WriteSector(s, Patched(buffer, offsetInSector, chunk));
        PatchedImageIs(b, s, offsetInSector, chunk);
        SpanJoin(g, d, off, a, b, vol.image, chain, pos0, data[..k], chunk);
        assert data[..k] + chunk == data[..k + n];
        k := k + n;
        PositionFits(position, n, size0);
        position := position + n;
      }
      assert data[..|data|] == data;
    }

    /** The outer loop of `fat_write`: `data` goes into the file at the position, cluster by cluster. */
    method WriteSpan(data: seq<byte>)
      requires Valid() && position + |data| <= size
      modifies this`position, vol
      ensures position == old(position) + |data|
      ensures SpanWritten(vol.g, dirSector, dirOffset, old(vol.image), vol.image, chain, old(position), data)
    {
      hide *;
      HandleFacts();
      ghost var g, d, off, a, pos0 := vol.g, dirSector, dirOffset, vol.image, position;
      SpanNothing(g, d, off, a, chain, position);
      var k := 0;
      assert data[..0] == [];
      while k < |data|
        invariant 0 <= k <= |data| && position == pos0 + k && Valid()
        invariant SpanWritten(g, d, off, a, vol.image, chain, pos0, data[..k])
      {
        HandleFacts();
        ValidMeans();
        var clusterSize := vol.g.ClusterBytes();
        var cluster := ClusterAt(position);
        var clusterOffset := position % clusterSize;
        var clusterRemaining := clusterSize - clusterOffset;
        var amount := if |data| - k < clusterRemaining then |data| - k else clusterRemaining;
        ghost var b := vol.image;
        var part := data[k..k + amount];
        WriteInCluster(cluster, clusterOffset, part);
        SpanKeepsHandle(g, d, off, b, vol.image, chain, pos0 + k, part, firstCluster, size);
        ValidIs();
        SpanJoin(g, d, off, a, b, vol.image, chain, pos0, data[..k], part);
        assert data[..k] + part == data[..k + amount];
        k := k + amount;
      }
      assert data[..|data|] == data;
    }

    // ----- size and directory entry -----

    /** `fat_file_ensure_size`: the chain gets the clusters the code computes for `n` bytes, or nothing changes. */
    method EnsureSize(n: u64) returns (ok: bool)
      requires Valid()
      modifies this`firstCluster, this`chain, vol
      ensures vol.g.ClusterBytes() > 0 && firstCluster == Head(chain)
      ensures Ensured(vol.g, dirSector, dirOffset, old(vol.image), old(chain), vol.image, chain,
                      Required(n, vol.g.ClusterBytes()), ok)
    {
      hide *;
      HandleFacts();
      vol.TableFacts();
      ghost var g, d, off, a, p := vol.g, dirSector, dirOffset, vol.image, chain;
      var clusterSize := vol.g.ClusterBytes();
      if n == 0 {
        RequiredNothing(clusterSize);
        ok := true;
        if firstCluster != 0 {
          ok := vol.FreeChain(firstCluster);
        }
        vol.TableFacts();
        FreedFile(TableOf(g, a), vol.Table(), g.Eoc(), Head(p), ok);
        if !ok {
          return false;
        }
        firstCluster := 0;
        chain := [];
        EnsuredFrom(g, d, off, a, p, vol.image, [], 0, ok);
        return true;
      }
      RequiredFits(n, clusterSize);
      var required := Required(n, clusterSize);
      if required > 0xFFFF_FFFF {
        EnsuredRefused(g, d, off, a, p, required);
        return false;
      }
      ok, firstCluster, chain := vol.ResizeChain(firstCluster, required);
      vol.TableFacts();
      ResizeUndone(TableOf(g, a), vol.Table(), g.Eoc(), p, required, chain, ok);
      EnsuredFrom(g, d, off, a, p, vol.image, chain, required, ok);
    }

    /** `fat_file_update_directory_entry`: the clusters need not cover the size. */
    method UpdateDirectoryEntry()
      requires IsHandle(vol.g, vol.image, chain, firstCluster, 0, dirSector, dirOffset)
      modifies vol
      ensures EntryStored(vol.g, dirSector, dirOffset, old(vol.image), vol.image, chain)
      ensures EntryMatches(vol.g, vol.image, dirSector, dirOffset, firstCluster, size)
    {
      hide *;
      EntryFacts();
      var read, buffer := vol.ReadSector(dirSector);
      EntryLengths();
      var e := EntryAt(buffer, dirOffset);
      var now := CurrentDatetime();
      SizeFits(size);
      var e' := DirEntry.Updated(vol.g.kind, e, firstCluster, size % TWO32, now);
      ghost var a := vol.image;
      EntryFitsSector(buffer, dirOffset, e');
      UpdatedHead(vol.g.kind, buffer, dirOffset, firstCluster, size % TWO32, now);
      var written := vol.WriteSector(dirSector, Patched(buffer, dirOffset, e'));
      PatchedImageIs(a, dirSector, dirOffset, e');
      StoreEntry(vol.g, dirSector, dirOffset, a, chain, e');
      DirEntry.UpdatedReadBack(vol.g.kind, e, firstCluster, size % TWO32, now);
      EntryReadBack(vol.g, a, dirSector, dirOffset, e', firstCluster, size);
    }

    // ----- fat_write -----

    /**
     `fat_write`. With enough clusters the contents are overlaid at the position, a hole reading as
     zeros; otherwise nothing is transferred, and at most the hole was filled. When the end of the
     write is so near 2^64 that the rounded size wraps (see `RequiredExact`), the code asks for no
     clusters: nothing is transferred either, but unless a hole stops it before, the file is lost.
     */
    method Write(data: seq<byte>, elem: nat, count: nat) returns (n: nat)
      requires Valid() && |data| == elem * count && position < TWO63
      modifies this`position, this`size, this`firstCluster, this`chain, this`error, vol
      ensures Kept(vol.g, dirSector, dirOffset, old(vol.image), old(chain), vol.image, chain)
      ensures HeadKept(old(vol.image), vol.image, dirSector, dirOffset)
      ensures n > 0 || old(IsRecorded()) ==> IsRecorded()
      ensures position < TWO63
      ensures !Wraps(vol.g.ClusterBytes(), writable, |data|, old(position)) ==>
        && Valid() && (old(Tight()) || size > old(size) ==> Tight())
        && WriteOutcome(vol.g.ClusterBytes(), old(Available()), writable, data, elem, count, old(Contents()),
                        old(position), old(error), Contents(), position, error, n)
      ensures Wraps(vol.g.ClusterBytes(), writable, |data|, old(position)) ==>
        && n == 0 && position == old(position) && error
        && if NoRoomForHole(vol.g.ClusterBytes(), old(Available()), old(size), old(position))
           then Valid() && Contents() == old(Contents()) && (old(Tight()) ==> Tight())
           else IsLost(vol.g, vol.image, chain, firstCluster, size, dirSector, dirOffset, old(position) + |data|)
      decreases if position > size then 1 else 0, 3
    {
      hide *;
      RecordedIs();
      HandleFacts();
      ValidMeans();
      ghost var a, p := vol.image, chain;
      ghost var cs, avail, c0, pos0, err0 := vol.g.ClusterBytes(), Available(), Contents(), position, error;
      KeptSelf(vol.g, dirSector, dirOffset, a, p);
      OwnEntryKept();
      ArgumentLimits(elem, count, pos0);
      WrapsMeans(cs, writable, |data|, pos0);
      OutcomeEarly(cs, avail, writable, data, elem, count, c0, pos0, err0);
      if elem == 0 || count == 0 {
        return 0;
      }
      if !writable || count > (TWO64 - 1) / elem || elem * count > TWO64 - 1 - position {
        error := true;
        ValidIs();
        RecordedIs();
        return 0;
      }
      n := WriteAccepted(data, elem, count);
    }

    /** `fat_write` with accepted arguments; the count of whole elements at its end. */
    method WriteAccepted(data: seq<byte>, elem: nat, count: nat) returns (n: nat)
      requires Valid() && |data| == elem * count > 0 && position < TWO63
      requires elem > 0 && count > 0 && writable && elem * count < TWO64 && position + elem * count < TWO64
      modifies this`position, this`size, this`firstCluster, this`chain, this`error, vol
      ensures Kept(vol.g, dirSector, dirOffset, old(vol.image), old(chain), vol.image, chain)
      ensures HeadKept(old(vol.image), vol.image, dirSector, dirOffset)
      ensures n > 0 || old(IsRecorded()) ==> IsRecorded()
      ensures position < TWO63
      ensures !Wraps(vol.g.ClusterBytes(), writable, |data|, old(position)) ==>
        && Valid() && (old(Tight()) || size > old(size) ==> Tight())
        && WriteOutcome(vol.g.ClusterBytes(), old(Available()), writable, data, elem, count, old(Contents()),
                        old(position), old(error), Contents(), position, error, n)
      ensures Wraps(vol.g.ClusterBytes(), writable, |data|, old(position)) ==>
        && n == 0 && position == old(position) && error
        && if NoRoomForHole(vol.g.ClusterBytes(), old(Available()), old(size), old(position))
           then Valid() && Contents() == old(Contents()) && (old(Tight()) ==> Tight())
           else IsLost(vol.g, vol.image, chain, firstCluster, size, dirSector, dirOffset, old(position) + |data|)
      decreases if position > size then 1 else 0, 2
    {
      hide *;
      RecordedIs();
      ValidMeans();
      ghost var cs, avail, c0, err0 := vol.g.ClusterBytes(), Available(), Contents(), error;
      var original := position;
      var ok := WriteChecked(data);
      CountMoved(elem, original, position);
      n := (position - original) / elem;
      if !Wraps(cs, writable, |data|, original) {
        ValidMeans();
        OutcomeChecked(cs, avail, writable, data, elem, count, c0, original, err0, Contents(), position, error, ok);
      }
    }

    /** The body of `fat_write` once its arguments are accepted. */
    method WriteChecked(data: seq<byte>) returns (ok: bool)
      requires Valid() && writable && |data| > 0 && position < TWO63 && position + |data| < TWO64
      modifies this`position, this`size, this`firstCluster, this`chain, this`error, vol
      ensures position >= old(position) && position < TWO63
      ensures ok || old(IsRecorded()) ==> IsRecorded()
      ensures Kept(vol.g, dirSector, dirOffset, old(vol.image), old(chain), vol.image, chain)
      ensures HeadKept(old(vol.image), vol.image, dirSector, dirOffset)
      ensures !Wraps(vol.g.ClusterBytes(), writable, |data|, old(position)) ==>
        && Valid() && (old(Tight()) || size > old(size) ==> Tight())
        && CheckedOutcome(vol.g.ClusterBytes(), old(Available()), data, old(Contents()), old(position), old(error),
                          Contents(), position, error, ok)
      ensures Wraps(vol.g.ClusterBytes(), writable, |data|, old(position)) ==>
        && !ok && position == old(position) && error
        && if NoRoomForHole(vol.g.ClusterBytes(), old(Available()), old(size), old(position))
           then Valid() && Contents() == old(Contents()) && (old(Tight()) ==> Tight())
           else IsLost(vol.g, vol.image, chain, firstCluster, size, dirSector, dirOffset, old(position) + |data|)
      decreases if position > size then 1 else 0, 1
    {
      hide *;
      RecordedIs();
      HandleFacts();
      ValidMeans();
      ghost var g, d, off, a, p := vol.g, dirSector, dirOffset, vol.image, chain;
      ghost var cs, avail, c0, pos0, err0 := vol.g.ClusterBytes(), Available(), Contents(), position, error;
      KeptSelf(g, d, off, a, p);
      OwnEntryKept();
      NoHole(c0, pos0);
      WrapsMeans(cs, writable, |data|, pos0);
      NoRoomMeans(cs, avail, size, pos0);
      var end := position + |data|;
      ok := true;
      if position > size {
        ok := FillHole();
        ValidMeans();
      }
      AfterHole(cs, avail, data, c0, pos0, err0, Contents(), ok);
      KeptHead(g, d, off, a, p, vol.image, chain);
      RecordedIs();
      if !ok {
        error := true;
        ValidIs();
        RecordedIs();
        return;
      }
      ghost var b, q, c1 := vol.image, chain, Contents();
      AvailKept(g, d, off, a, p, b, q);
      ok := Extend(end);
      KeptTrans(g, d, off, a, p, b, q, vol.image, chain);
      KeptHead(g, d, off, a, p, vol.image, chain);
      if end + cs <= TWO64 {
        ValidMeans();
        AfterExtend(cs, avail, data, c0, pos0, err0, c1, Contents(), ok);
      }
      RecordedIs();
      if !ok {
        error := true;
        ValidIs();
        RecordedIs();
        return;
      }
      b, q := vol.image, chain;
      if end + cs <= TWO64 {
        HasClusters();
      }
      if firstCluster < 2 {
        // the first round of the loop: `fat_file_cluster_at` finds no cluster
        error := true;
        UpdateDirectoryEntry();
        ok := false;
        LostFile(g, d, off, b, vol.image, q, end);
        KeptTrans(g, d, off, a, p, b, q, vol.image, chain);
        KeptHead(g, d, off, a, p, vol.image, chain);
        RecordedIs();
        return;
      }
      WriteAndRecord(data, c1);
      RecordedIs();
      KeptTrans(g, d, off, a, p, b, q, vol.image, chain);
      KeptHead(g, d, off, a, p, vol.image, chain);
    }

    lemma OwnEntryKept()
      requires Valid()
      ensures HeadKept(vol.image, vol.image, dirSector, dirOffset)
      ensures Foreign(vol.g, vol.image, chain, dirSector) && dirOffset + ENTRY_BYTES <= SECTOR_SIZE
    {
      hide TableOf, Mirrored, IsFile, Bpb.WellFormed, Bpb.IsData, Bpb.ClusterFromSector, Bpb.FatStart, Bpb.FatEnd, Bpb.DataStart;
    }

    lemma HasClusters()
      requires Valid()
      ensures size > 0 ==> firstCluster >= 2
      ensures size < TWO63
    {
      hide *;
      HandleFacts();
      ChainClusters();
    }

    /** The transfer itself and the final update of the directory entry. */
    method WriteAndRecord(data: seq<byte>, ghost c1: seq<byte>)
      requires Valid() && writable && position <= |c1| && |c1| <= size == (if position + |data| > |c1| then position + |data| else |c1|)
      requires Contents()[..|c1|] == c1
      modifies this`position, vol
      ensures Valid() && (old(Tight()) ==> Tight())
      ensures position == old(position) + |data| <= size && Contents() == Written(c1, old(position), data)
      ensures Kept(vol.g, dirSector, dirOffset, old(vol.image), chain, vol.image, chain)
      ensures EntryMatches(vol.g, vol.image, dirSector, dirOffset, firstCluster, size)
    {
      hide *;
      ValidMeans();
      ghost var g, d, off, a, p, pos0 := vol.g, dirSector, dirOffset, vol.image, chain, position;
      WriteSpan(data);
      ContentPatched(g, d, off, a, vol.image, p, size, pos0, data, c1, firstCluster);
      SpanKeepsHandle(g, d, off, a, vol.image, p, pos0, data, firstCluster, size);
      ValidIs();
      SpanFacts(g, d, off, a, vol.image, p, pos0, data);
      ValidMeans();
      ghost var b := vol.image;
      UpdateDirectoryEntry();
      EntryStoredHandle(g, d, off, b, vol.image, p, firstCluster, size);
      EntryStoredKept(g, d, off, b, vol.image, p);
      ValidIs();
      KeptTrans(g, d, off, a, p, b, p, vol.image, p);
    }

    /** The first part: a position beyond the end fills the hole with zeros. */
    method FillHole() returns (ok: bool)
      requires Valid() && writable && size < position < TWO63
      modifies this`position, this`size, this`firstCluster, this`chain, this`error, vol
      ensures Valid() && position == old(position) && error == old(error)
      ensures Kept(vol.g, dirSector, dirOffset, old(vol.image), old(chain), vol.image, chain)
      ensures vol.g.ClusterBytes() > 0 && ok == (Ceil(position, vol.g.ClusterBytes()) <= old(Available()))
      ensures ok || old(IsRecorded()) ==> IsRecorded()
      ensures ok ==> Tight() && Contents() == ZeroExtended(old(Contents()), position)
      ensures !ok ==> Contents() == old(Contents()) && size == old(size) && (old(Tight()) ==> Tight())
      decreases 1, 0
    {
      hide *;
      RecordedIs();
      HandleFacts();
      ValidMeans();
      ghost var g, d, off, a, p, n := vol.g, dirSector, dirOffset, vol.image, chain, Required(position, vol.g.ClusterBytes());
      var oldPosition := position;
      RequiredIsCeil(position, g.ClusterBytes());
      ok := EnsureSize(position);
      EnsuredHandle(g, d, off, a, p, vol.image, chain, n, ok, Head(p), size);
      EnsuredFacts(g, d, off, a, p, vol.image, chain, n, ok);
      ValidIs();
      RecordedIs();
      if !ok {
        return;
      }
      ghost var b, q := vol.image, chain;
      AvailKept(g, d, off, a, p, b, q);
      ok := ZeroRange(size, position);
      ValidMeans();
      size := oldPosition;
      ValidIs();
      KeptTrans(g, d, off, a, p, b, q, vol.image, chain);
      b, q := vol.image, chain;
      UpdateDirectoryEntry();
      EntryStoredHandle(g, d, off, b, vol.image, q, firstCluster, size);
      EntryStoredKept(g, d, off, b, vol.image, q);
      ValidIs();
      RecordedIs();
      KeptTrans(g, d, off, a, p, b, q, vol.image, q);
    }

    /**
     The second part: the chain covers the end of the write. The new bytes are whatever the clusters
     hold. When the rounded size wraps, the chain is freed instead.
     */
    method Extend(end: u64) returns (ok: bool)
      requires Valid()
      modifies this`size, this`firstCluster, this`chain, vol
      ensures vol.g.ClusterBytes() > 0
      ensures Kept(vol.g, dirSector, dirOffset, old(vol.image), old(chain), vol.image, chain)
      ensures !ok && old(IsRecorded()) ==> IsRecorded()
      ensures end + vol.g.ClusterBytes() <= TWO64 ==>
        && Valid() && (old(Tight()) || size > old(size) ==> Tight())
        && ok == (end <= old(size) || Ceil(end, vol.g.ClusterBytes()) <= old(Available()))
        && size == (if ok && end > old(size) then end else old(size))
        && |old(Contents())| <= |Contents()| && Contents()[..|old(Contents())|] == old(Contents())
      ensures end + vol.g.ClusterBytes() > TWO64 ==>
        && ok && chain == [] && firstCluster == 0 && size == end
        && IsHandle(vol.g, vol.image, chain, 0, 0, dirSector, dirOffset)
    {
      hide *;
      RecordedIs();
      HandleFacts();
      ValidMeans();
      ghost var g, d, off, a, p, n := vol.g, dirSector, dirOffset, vol.image, chain, Required(end, vol.g.ClusterBytes());
      KeptSelf(g, d, off, a, p);
      assert Contents()[..|Contents()|] == Contents();
      if end <= size {
        return true;
      }
      RequiredOf(end, g.ClusterBytes());
      ok := EnsureSize(end);
      EnsuredFacts(g, d, off, a, p, vol.image, chain, n, ok);
      RecordedIs();
      if end + g.ClusterBytes() <= TWO64 {
        EnsuredHandle(g, d, off, a, p, vol.image, chain, n, ok, Head(p), size);
        ValidIs();
      } else {
        TruncatedHandle(g, d, off, a, p, vol.image, chain, Head(p), size);
      }
      if !ok {
        return;
      }
      if end + g.ClusterBytes() <= TWO64 {
        HandleGrow(g, vol.image, chain, firstCluster, size, end, d, off);
      }
      size := end;
      if end + g.ClusterBytes() <= TWO64 {
        ValidIs();
      }
    }

    /**
     `fat_file_zero_range` as `fat_write` uses it, from the end of the file: every nested write
     starts with its position at the size, so the recursion ends, and none of them can fail.
     */
    method ZeroRange(start0: u64, end: u64) returns (ok: bool)
      requires Valid() && writable && start0 == size < end < TWO63
      requires vol.g.ClusterBytes() > 0 && Ceil(end, vol.g.ClusterBytes()) <= Available()
      modifies this`position, this`size, this`firstCluster, this`chain, this`error, vol
      ensures ok && Valid() && Tight() && position == size == end && error == old(error)
      ensures Kept(vol.g, dirSector, dirOffset, old(vol.image), old(chain), vol.image, chain)
      ensures Contents() == ZeroExtended(old(Contents()), end)
      decreases 0, 4
    {
      hide *;
      HandleFacts();
      ValidMeans();
      ghost var g, d, off, a, p := vol.g, dirSector, dirOffset, vol.image, chain;
      ghost var cs, avail, c0, err0 := vol.g.ClusterBytes(), Available(), Contents(), error;
      KeptSelf(g, d, off, a, p);
      ZeroExtendedSelf(c0);
      var start := start0;
      while start < end
        invariant start0 <= start <= end && size == start && Valid() && error == err0
        invariant start > start0 ==> Tight() && position == start
        invariant Kept(g, d, off, a, p, vol.image, chain)
        invariant Contents() == ZeroExtended(c0, start)
        decreases end - start
      {
        var remaining := end - start;
        var amount := if remaining < SECTOR_SIZE then remaining else SECTOR_SIZE;
        ValidMeans();
        position := start;
        ValidIs();
        ghost var b, q, c := vol.image, chain, Contents();
        AvailKept(g, d, off, a, p, b, q);
        WrapsMeans(cs, writable, amount, start);
        var written := Write(Zeros(amount), 1, amount);
        ValidMeans();
        ZeroStep(cs, avail, c0, start, amount, end, err0, c, Contents(), position, error, written);
        KeptTrans(g, d, off, a, p, b, q, vol.image, chain);
        if written != amount {
          return false;
        }
        start := start + amount;
      }
      ok := true;
    }

    /** What opening in mode "w" does to the file: every cluster goes back to the free ones. */
    method Truncate()
      requires Valid()
      modifies this`position, this`size, this`firstCluster, this`chain, vol
      ensures Valid() && Tight() && Contents() == [] && chain == [] && position == 0
      ensures Kept(vol.g, dirSector, dirOffset, old(vol.image), old(chain), vol.image, chain)
      ensures EntryMatches(vol.g, vol.image, dirSector, dirOffset, 0, 0)
      ensures HeadKept(old(vol.image), vol.image, dirSector, dirOffset)
    {
      hide *;
      HandleFacts();
      ValidMeans();
      OwnEntryKept();
      ghost var g, d, off, a, p := vol.g, dirSector, dirOffset, vol.image, chain;
      RequiredNothing(g.ClusterBytes());
      var ok := EnsureSize(0);
      EnsuredFacts(g, d, off, a, p, vol.image, chain, 0, ok);
      TruncatedHandle(g, d, off, a, p, vol.image, chain, Head(p), size);
      size := 0;
      position := 0;
      ValidIs();
      ghost var b, q := vol.image, chain;
      UpdateDirectoryEntry();
      EntryStoredHandle(g, d, off, b, vol.image, q, firstCluster, 0);
      EntryStoredKept(g, d, off, b, vol.image, q);
      ValidIs();
      KeptTrans(g, d, off, a, p, b, q, vol.image, q);
      KeptHead(g, d, off, a, p, vol.image, chain);
    }

    // ----- fat_read -----

    /** The inner loop of `fat_read`: `amount` bytes of one cluster, sector by sector, to `dest` at `at`. */
    method ReadInCluster(cluster: u32, start: nat, pos: u64, amount: nat, dest: array<byte>, at: nat)
      requires Valid() && pos + amount <= size && at + amount <= dest.Length
      requires InCluster(vol.g, chain, pos, cluster)
      requires start == pos % vol.g.ClusterBytes() && start + amount <= vol.g.ClusterBytes()
      modifies dest
      ensures dest[..] == Patched(old(dest[..]), at, Contents()[pos..pos + amount])
    {
      hide *;
      HandleFacts();
      ValidMeans();
      ghost var c, was := Contents(), dest[..];
      var k := 0;
      assert c[pos..pos] == [];
      PatchedNothing(was, at);
      while k < amount
        invariant 0 <= k <= amount
        invariant dest[..] == Patched(was, at, c[pos..pos + k])
      {
        var (s, offsetInSector, n) := Chunk(vol.g, cluster, start, k, amount);
        ChunkPlace(vol.g, |vol.image|, chain, pos, cluster, start, k, amount);
        SectorOfContents(vol.g, vol.image, chain, size, pos + k, n, s);
        var read, buffer := vol.ReadSector(s);
        CopyInto(dest, at + k, buffer[offsetInSector..offsetInSector + n]);
        PatchedTwice(was, at, c[pos..pos + k], c[pos + k..pos + k + n]);
        SlicesJoin(c, pos, pos + k, pos + k + n);
        k := k + n;
      }
    }

    /** The outer loop of `fat_read`: `requested` bytes from the position to the start of `dest`. */
    method ReadSpan(requested: nat, dest: array<byte>) returns (pos: u64)
      requires Valid() && position + requested <= size && requested <= dest.Length
      modifies dest
      ensures pos == position + requested
      ensures dest[..] == Patched(old(dest[..]), 0, Contents()[position..pos])
    {
      hide *;
      HandleFacts();
      ValidMeans();
      ghost var c, was := Contents(), dest[..];
      pos := position;
      var k := 0;
      assert c[pos..pos] == [];
      PatchedNothing(was, 0);
      while k < requested
        invariant 0 <= k <= requested && pos == position + k
        invariant dest[..] == Patched(was, 0, c[position..pos])
      {
        var clusterSize := vol.g.ClusterBytes();
        var cluster := ClusterAt(pos);
        var clusterOffset := pos % clusterSize;
        var clusterRemaining := clusterSize - clusterOffset;
        var amount := if requested - k < clusterRemaining then requested - k else clusterRemaining;
        ReadInCluster(cluster, clusterOffset, pos, amount, dest, k);
        PatchedTwice(was, 0, c[position..pos], c[pos..pos + amount]);
        SlicesJoin(c, position, pos, pos + amount);
        k := k + amount;
        pos := pos + amount;
      }
    }

    /** `fat_read`: exactly the slice of the contents at the position, as much as there is. */
    method Read(dest: array<byte>, elem: nat, count: nat) returns (n: nat)
      requires Valid() && dest.Length == elem * count
      modifies this`position, this`eof, this`error, dest
      ensures Valid() && Contents() == old(Contents())
      ensures ReadOutcome(readable, elem, count, Contents(), old(position), old(eof), old(error), old(dest[..]),
                          position, eof, error, dest[..], n)
      ensures old(position) < TWO63 ==> position < TWO63
    {
      hide *;
      HandleFacts();
      ValidMeans();
      ghost var c, was, pos0 := Contents(), dest[..], position;
      ArgumentLimits(elem, count, 0);
      ReadEarly(readable, elem, count, c, pos0, eof, error, was);
      if elem == 0 || count == 0 {
        return 0;
      }
      if !readable || count > (TWO64 - 1) / elem {
        error := true;
        ValidIs();
        return 0;
      }
      var requested := elem * count;
      if position >= size {
        eof := true;
        ValidIs();
        return 0;
      }
      if requested > size - position {
        requested := size - position;
      }
      var pos := ReadSpan(requested, dest);
      var bytesRead := pos - position;
      position := pos;
      ghost var eof0 := eof;
      if position >= size {
        eof := true;
      }
      ReadDone(elem, count, c, pos0, eof0, error, was, dest[..], requested);
      ValidIs();
      n := bytesRead / elem;
    }

    // ----- fat_seek, fat_rewind, fat_tell -----

    /**
     `fat_seek`. `whence` is 0 for the start, 1 for the position, 2 for the end; a target below
     zero, above the signed range, or an unknown `whence` is refused with the error flag.
     */
    method Seek(offset: int, whence: int) returns (r: int)
      requires Valid() && -TWO63 <= offset < TWO63
      modifies this`position, this`eof, this`error
      ensures Valid() && Contents() == old(Contents())
      ensures SeekOutcome(offset, whence, size, old(position), old(eof), old(error), position, eof, error, r)
      ensures old(position) < TWO63 ==> position < TWO63
    {
      hide TableOf, Mirrored, Foreign, IsFile, Bpb.WellFormed, Bytes;
      var base: int;
      if whence == 0 {
        base := 0;
      } else if whence == 1 {
        if position > TWO63 - 1 {
          return -1;
        }
        base := position;
      } else if whence == 2 {
        if size > TWO63 - 1 {
          return -1;
        }
        base := size;
      } else {
        error := true;
        return -1;
      }
      if (offset > 0 && base > TWO63 - 1 - offset) || (offset < 0 && base < -TWO63 - offset) {
        error := true;
        return -1;
      }
      var target := base + offset;
      if target < 0 {
        error := true;
        return -1;
      }
      position := target;
      eof := false;
      return 0;
    }

    /** `fat_rewind`. */
    method Rewind()
      requires Valid()
      modifies this`position, this`eof, this`error
      ensures Valid() && Contents() == old(Contents())
      ensures position == 0 && !eof && !error
    {
      position := 0;
      eof := false;
      error := false;
    }

    lemma EntryFacts()
      requires IsHandle(vol.g, vol.image, chain, firstCluster, 0, dirSector, dirOffset)
      ensures vol.Valid() && vol.g.WellFormed(|vol.image|)
      ensures vol.g.kind == Fat16 ==> firstCluster < 0x1_0000
      ensures dirSector < |vol.image| && dirOffset + ENTRY_BYTES <= SECTOR_SIZE && Foreign(vol.g, vol.image, chain, dirSector)
    {
      hide TableOf, Mirrored, Bpb.MaxCluster;
      if chain != [] {
        assert vol.g.IsData(firstCluster) by { FileOnData(vol.g, vol.image, chain); }
      }
    }
  }

  lemma SizeSmall(n: nat, cs: nat)
    ensures n < TWO32 && cs < 0x2_0000 ==> 0 <= n * cs < TWO63 - 0x2_0000
  {
    if n < TWO32 && cs < 0x2_0000 {
      Times(n, TWO32, cs);
      Times(0, n, cs);
    }
  }

  lemma UpdatedHead(kind: FatKind, s: Sector, off: nat, first: u32, size: u32, now: DirEntry.Stamp)
    requires off + ENTRY_BYTES <= SECTOR_SIZE
    ensures DirEntry.Updated(kind, EntryAt(s, off), first, size, now)[..ENTRY_HEAD] == s[off..off + ENTRY_HEAD]
  {
    hide DirEntry.Tail;
  }

  // ----- outcomes -----

  ghost predicate IsTight(g: Bpb, p: seq<nat>, size: nat) {
    g.ClusterBytes() > 0 && |p| == Ceil(size, g.ClusterBytes())
  }

  ghost function Avail(g: Bpb, img: Image, p: seq<nat>): nat
    requires g.WellFormed(|img|)
  {
    |p| + |Chains.Free(TableOf(g, img))|
  }

  /**
   The outcome of `fat_write` on contents `c` and position `pos`, with `avail` clusters to be had of
   `cs` bytes each: nothing to do, refused arguments, success, or too few clusters.
   */
  ghost predicate WriteOutcome(cs: nat, avail: nat, writable: bool, data: seq<byte>, elem: nat, count: nat,
                               c: seq<byte>, pos: nat, err: bool, c': seq<byte>, pos': nat, err': bool, n: nat) {
    if elem == 0 || count == 0 then n == 0 && c' == c && pos' == pos && err' == err
    else if !writable || elem * count >= TWO64 || pos + elem * count >= TWO64 then n == 0 && c' == c && pos' == pos && err'
    else CheckedOutcome(cs, avail, data, c, pos, err, c', pos', err', n > 0) && n == if n > 0 then count else 0
  }

  ghost predicate CheckedOutcome(cs: nat, avail: nat, data: seq<byte>, c: seq<byte>, pos: nat, err: bool,
                                 c': seq<byte>, pos': nat, err': bool, ok: bool) {
    var end := pos + |data|;
    && cs > 0
    && ok == (end <= |c| || Ceil(end, cs) <= avail)
    && (if ok then c' == Written(c, pos, data) && pos' == end && err' == err
        else pos' == pos && err' && c' == if Ceil(pos, cs) <= avail then ZeroExtended(c, pos) else c)
  }

  /** Accepted arguments for which the size rounded up to whole clusters passes 2^64. */
  ghost predicate Wraps(cs: nat, writable: bool, n: nat, pos: nat) {
    writable && n > 0 && pos + n < TWO64 < pos + n + cs
  }

  ghost predicate NoRoomForHole(cs: nat, avail: nat, size: nat, pos: nat) {
    pos > size && cs > 0 && Ceil(pos, cs) > avail
  }

  /** The file has no cluster and the size `end`, and its entry says the same. */
  ghost predicate IsLost(g: Bpb, img: Image, p: seq<nat>, first: nat, size: nat, d: nat, off: nat, end: nat) {
    && p == [] && first == 0 && size == end
    && IsHandle(g, img, p, 0, 0, d, off) && EntryMatches(g, img, d, off, 0, end)
  }

  lemma WrapsMeans(cs: nat, writable: bool, n: nat, pos: nat)
    ensures Wraps(cs, writable, n, pos) <==> writable && n > 0 && pos + n < TWO64 < pos + n + cs
    ensures TWO64 == 2 * TWO63 && TWO63 > 0x2_0000
  {
  }

  lemma NoRoomMeans(cs: nat, avail: nat, size: nat, pos: nat)
    requires cs > 0
    ensures NoRoomForHole(cs, avail, size, pos) <==> pos > size && Ceil(pos, cs) > avail
  {
    hide Ceil;
  }

  lemma LostFile(g: Bpb, d: nat, off: nat, a: Image, b: Image, p: seq<nat>, end: nat)
    requires EntryStored(g, d, off, a, b, p) && (p == [] ==> IsHandle(g, a, p, 0, 0, d, off))
    ensures Kept(g, d, off, a, p, b, p)
    ensures p == [] && EntryMatches(g, b, d, off, 0, end) ==> IsLost(g, b, p, 0, end, d, off, end)
  {
    hide Kept, EntryMatches, IsHandle;
    if p == [] {
      EntryStoredHandle(g, d, off, a, b, p, 0, 0);
    }
  }

  lemma RequiredOf(n: u64, cs: nat)
    requires 0 < cs < 0x2_0000 && n > 0
    ensures n + cs <= TWO64 ==> Required(n, cs) == Ceil(n, cs) && n <= Ceil(n, cs) * cs
    ensures n + cs > TWO64 ==> Required(n, cs) == 0
  {
    CeilIs(n, cs);
    RequiredExact(n, cs);
  }

  /** The code's overflow tests are the overflows. */
  lemma ArgumentLimits(elem: nat, count: nat, pos: u64)
    ensures elem > 0 ==> (count > (TWO64 - 1) / elem <==> elem * count >= TWO64)
    ensures elem * count > TWO64 - 1 - pos <==> pos + elem * count >= TWO64
  {
    if elem > 0 {
      var m := (TWO64 - 1) / elem;
      assert TWO64 - 1 == m * elem + (TWO64 - 1) % elem;
      if count > m {
        Times(m + 1, count, elem);
      } else {
        Times(count, m, elem);
      }
    }
  }

  lemma OutcomeEarly(cs: nat, avail: nat, writable: bool, data: seq<byte>, elem: nat, count: nat, c: seq<byte>, pos: nat,
                     err: bool)
    ensures elem == 0 || count == 0 ==> WriteOutcome(cs, avail, writable, data, elem, count, c, pos, err, c, pos, err, 0)
    ensures elem > 0 && count > 0 && (!writable || elem * count >= TWO64 || pos + elem * count >= TWO64) ==>
      WriteOutcome(cs, avail, writable, data, elem, count, c, pos, err, c, pos, true, 0)
    ensures elem > 0 && count > 0 ==> elem * count > 0
  {
    if elem > 0 {
      Times(1, elem, count);
    }
  }

  lemma OutcomeChecked(cs: nat, avail: nat, writable: bool, data: seq<byte>, elem: nat, count: nat, c: seq<byte>, pos: nat,
                       err: bool, c': seq<byte>, pos': nat, err': bool, ok: bool)
    requires elem > 0 && count > 0 && |data| == elem * count
    requires writable && elem * count < TWO64 && pos + elem * count < TWO64
    requires CheckedOutcome(cs, avail, data, c, pos, err, c', pos', err', ok)
    ensures pos' >= pos && (pos' - pos) / elem >= 0
    ensures WriteOutcome(cs, avail, writable, data, elem, count, c, pos, err, c', pos', err', (pos' - pos) / elem)
    ensures (pos' - pos) / elem > 0 ==> ok
  {
    Division(elem * count, elem, count, 0);
    Division(0, elem, 0, 0);
  }

  lemma CountMoved(elem: nat, pos: nat, pos': nat)
    requires elem > 0 && pos <= pos'
    ensures (pos' - pos) / elem >= 0 && (pos' == pos ==> (pos' - pos) / elem == 0)
  {
    Division(0, elem, 0, 0);
    QuotientNonNegative(pos' - pos, elem);
  }

  lemma CeilMono(x: nat, y: nat, cs: nat)
    requires cs > 0 && x <= y
    ensures Ceil(x, cs) <= Ceil(y, cs)
  {
    CeilIs(x, cs);
    CeilIs(y, cs);
  }

  lemma NoHole(c: seq<byte>, pos: nat)
    ensures pos <= |c| ==> ZeroExtended(c, pos) == c
    ensures |ZeroExtended(c, pos)| == if pos > |c| then pos else |c|
  {
  }

  lemma AfterHole(cs: nat, avail: nat, data: seq<byte>, c0: seq<byte>, pos: nat, err: bool, c1: seq<byte>, ok: bool)
    requires cs > 0 && |data| > 0
    requires if pos > |c0| then ok == (Ceil(pos, cs) <= avail) else ok
    requires c1 == if ok then ZeroExtended(c0, pos) else c0
    ensures !ok ==> CheckedOutcome(cs, avail, data, c0, pos, err, c1, pos, true, false)
  {
    CeilMono(pos, pos + |data|, cs);
  }

  lemma AfterExtend(cs: nat, avail: nat, data: seq<byte>, c0: seq<byte>, pos: nat, err: bool, c1: seq<byte>, c2: seq<byte>,
                    ok: bool)
    requires cs > 0 && |data| > 0 && c1 == ZeroExtended(c0, pos) && (pos > |c0| ==> Ceil(pos, cs) <= avail)
    requires ok == (pos + |data| <= |c1| || Ceil(pos + |data|, cs) <= avail)
    requires |c2| == (if ok && pos + |data| > |c1| then pos + |data| else |c1|) && c2[..|c1|] == c1
    ensures !ok ==> CheckedOutcome(cs, avail, data, c0, pos, err, c2, pos, true, false)
    ensures ok ==> CheckedOutcome(cs, avail, data, c0, pos, err, Written(c1, pos, data), pos + |data|, err, true)
    ensures pos <= |c1|
  {
    assert Written(c1, pos, data) == Written(c0, pos, data);
    if !ok {
      assert c2 == c2[..|c1|];
    }
  }

  lemma ZeroExtendedSelf(c: seq<byte>)
    ensures ZeroExtended(c, |c|) == c
  {
  }

  lemma ZeroStep(cs: nat, avail: nat, c0: seq<byte>, start: nat, amount: nat, end: nat, err: bool, c: seq<byte>,
                 c': seq<byte>, pos': nat, err': bool, n: nat)
    requires cs > 0 && |c0| <= start && 0 < amount && start + amount <= end < TWO64 && Ceil(end, cs) <= avail
    requires c == ZeroExtended(c0, start)
    requires WriteOutcome(cs, avail, true, Zeros(amount), 1, amount, c, start, err, c', pos', err', n)
    ensures n == amount && pos' == start + amount && err' == err && c' == ZeroExtended(c0, start + amount)
    ensures |c'| == start + amount
  {
    CeilMono(start + amount, end, cs);
    WriteZerosAtEnd(c0, start - |c0|, amount);
  }

  lemma AvailKept(g: Bpb, d: nat, off: nat, a: Image, p: seq<nat>, b: Image, q: seq<nat>)
    requires Kept(g, d, off, a, p, b, q)
    ensures |b| == |a| && g.WellFormed(|b|) && Avail(g, b, q) == Avail(g, a, p)
  {
  }

  lemma EnsuredFacts(g: Bpb, d: nat, off: nat, a: Image, p: seq<nat>, b: Image, q: seq<nat>, n: nat, ok: bool)
    requires Ensured(g, d, off, a, p, b, q, n, ok)
    ensures Kept(g, d, off, a, p, b, q) && g.WellFormed(|a|)
    ensures ok <==> n <= Avail(g, a, p)
    ensures if ok then |q| == n else q == p && b == a
    ensures ok ==> forall size: nat :: g.ClusterBytes() > 0 && n == Ceil(size, g.ClusterBytes()) ==> IsTight(g, q, size)
  {
    hide Bpb.WellFormed, TableOf, OnData, IsFile, Mirrored, Bytes, TableKept, SectorsKept;
  }

  lemma RequiredIsCeil(n: u64, cs: nat)
    requires 0 < cs < 0x2_0000 && n + cs <= TWO64
    ensures Required(n, cs) == Ceil(n, cs) && n <= Ceil(n, cs) * cs
  {
    CeilIs(n, cs);
    if n > 0 {
      RequiredExact(n, cs);
    } else {
      Division(cs - 1, cs, 0, cs - 1);
    }
  }

  lemma HandleGrow(g: Bpb, img: Image, p: seq<nat>, first: nat, size: nat, size': nat, d: nat, off: nat)
    requires IsHandle(g, img, p, first, size, d, off) && size <= size' && g.ClusterBytes() > 0
    requires |p| == Ceil(size', g.ClusterBytes())
    ensures IsHandle(g, img, p, first, size', d, off) && IsTight(g, p, size')
    ensures Content(g, img, p, size')[..size] == Content(g, img, p, size)
  {
    hide Bpb.WellFormed, TableOf, IsFile, Mirrored, Foreign, Bytes;
    CeilIs(size', g.ClusterBytes());
  }

  /** The contents after the transfer, from the contents before the file was extended. */
  lemma ContentPatched(g: Bpb, d: nat, off: nat, a: Image, b: Image, p: seq<nat>, size: nat, pos: nat, data: seq<byte>,
                       c: seq<byte>, first: nat)
    requires IsHandle(g, a, p, first, size, d, off) && SpanWritten(g, d, off, a, b, p, pos, data)
    requires pos <= |c| <= size == (if pos + |data| > |c| then pos + |data| else |c|)
    requires Content(g, a, p, size)[..|c|] == c
    ensures IsHandle(g, b, p, first, size, d, off) && Content(g, b, p, size) == Written(c, pos, data)
  {
    SpanKeepsHandle(g, d, off, a, b, p, pos, data, first, size);
    hide Bpb.WellFormed, TableOf, IsFile, Mirrored, Foreign, Kept, OnData;
    assert Bytes(g, a, p)[..size][..|c|] == Bytes(g, a, p)[..|c|];
    PatchIsWrite(Bytes(g, a, p), c, pos, data);
  }

  lemma TruncatedHandle(g: Bpb, d: nat, off: nat, a: Image, p: seq<nat>, b: Image, q: seq<nat>, first: nat, size: nat)
    requires IsHandle(g, a, p, first, size, d, off) && Ensured(g, d, off, a, p, b, q, 0, true) && g.ClusterBytes() > 0
    ensures q == [] && Head(q) == 0 && IsHandle(g, b, q, 0, 0, d, off) && Content(g, b, q, 0) == []
    ensures IsTight(g, q, 0) && 0 % TWO32 == 0
  {
    hide Bpb.WellFormed, TableOf, Mirrored, Foreign, Kept, OnData, Bytes;
    KeptForeign(g, d, off, a, p, b, q, d);
    CeilIs(0, g.ClusterBytes());
  }

  // ----- what the contracts give together -----

  /**
   Two handles on one volume: what changes one file changes no byte of the other, and leaves the
   other handle good. Each file's directory entry lies outside both files.
   */
  lemma OtherFileKept(g: Bpb, d: nat, off: nat, a: Image, p: seq<nat>, b: Image, q: seq<nat>,
                      r: seq<nat>, first: nat, size: nat, d': nat, off': nat)
    requires Kept(g, d, off, a, p, b, q) && Mirrored(g, b)
    requires IsHandle(g, a, r, first, size, d', off') && IsFile(TableOf(g, a), g.Eoc(), p)
    requires (forall c :: c in r ==> c !in p) && Foreign(g, a, r, d) && Foreign(g, a, p, d')
    ensures IsHandle(g, b, r, first, size, d', off')
    ensures Content(g, b, r, size) == Content(g, a, r, size)
    ensures forall c :: c in r ==> c !in q
  {
    FileOnData(g, a, r);
    OtherChainKept(g, d, off, a, p, b, q, r);
    KeptForeign(g, d, off, a, p, b, q, d');
    hide Bpb.WellFormed, IsFile, Bytes, OnData, Mirrored, Kept, TableOf, Bpb.IsData, Bpb.ClusterFromSector;
    ForeignOfTwo(g, a, b, q, r, d');
  }

  lemma ForeignOfTwo(g: Bpb, a: Image, b: Image, q: seq<nat>, r: seq<nat>, s: nat)
    requires g.WellFormed(|a|) && |b| == |a| && Foreign(g, a, r, s) && Foreign(g, b, q, s)
    ensures Foreign(g, b, r, s)
  {
  }

  /** The chain of another file, and its bytes, survive; there may be no directory entry at all (`d` past the image). */
  lemma OtherChainKept(g: Bpb, d: nat, off: nat, a: Image, p: seq<nat>, b: Image, q: seq<nat>, r: seq<nat>)
    requires Kept(g, d, off, a, p, b, q)
    requires IsFile(TableOf(g, a), g.Eoc(), r) && OnData(g, r)
    requires (forall c :: c in r ==> c !in p) && (d >= |a| || Foreign(g, a, r, d))
    ensures |b| == |a| && IsFile(TableOf(g, b), g.Eoc(), r)
    ensures Bytes(g, b, r) == Bytes(g, a, r)
    ensures forall c :: c in r ==> c !in q
  {
    hide Bpb.WellFormed, Foreign, SectorAt, Bytes, Bpb.MaxCluster, Entry, Chains.Free;
    FileOnData(g, a, r);
    ChainNotFree(TableOf(g, a), g.Eoc(), r);
    FileKept(TableOf(g, a), TableOf(g, b), g.Eoc(), r);
    forall j | 0 <= j < |r| * g.spc ensures b[SectorAt(g, |a|, r, j)] == a[SectorAt(g, |a|, r, j)] {
      OwnSectorForeign(g, a, p, r, j, d);
    }
    BytesElsewhere(g, a, b, r);
  }

  lemma OwnSectorForeign(g: Bpb, a: Image, p: seq<nat>, r: seq<nat>, j: nat, d: nat)
    requires g.WellFormed(|a|) && IsFile(TableOf(g, a), g.Eoc(), r) && OnData(g, r) && j < |r| * g.spc
    requires (forall c :: c in r ==> c !in p) && (d >= |a| || Foreign(g, a, r, d))
    ensures Foreign(g, a, p, SectorAt(g, |a|, r, j)) && SectorAt(g, |a|, r, j) != d
  {
    hide Bpb.WellFormed, SectorAt, Bpb.MaxCluster, Entry, Bpb.ClusterFromSector, OnData, IsFile, Bpb.FatStart, Bpb.FatEnd,
      Bpb.DataStart;
    FileOnData(g, a, r);
    ChainNotFree(TableOf(g, a), g.Eoc(), r);
    FileSector(g, |a|, r, j, SectorAt(g, |a|, r, j));
  }

  /** A complete write is read back: seeking to where it went and reading as much gives the same bytes. */
  lemma WriteThenRead(cs: nat, avail: nat, data: seq<byte>, elem: nat, count: nat, c: seq<byte>, pos: nat, err: bool,
                      c': seq<byte>, pos': nat, err': bool, n: nat, d: seq<byte>, d': seq<byte>, pos'': nat, eof': bool,
                      m: nat)
    requires |data| == elem * count == |d| && elem > 0 && n == count > 0
    requires WriteOutcome(cs, avail, true, data, elem, count, c, pos, err, c', pos', err', n)
    requires ReadOutcome(true, elem, count, c', pos, false, err', d, pos'', eof', err', d', m)
    ensures d' == data && m == count && pos'' == pos'
  {
    Division(elem * count, elem, count, 0);
    assert c' == Written(c, pos, data);
    assert c'[pos..pos + |data|] == data;
  }

  /** The entry on disk tells the size of the handle exactly when the size fits 32 bits; then reopening gives the same file. */
  lemma ReopenSame(g: Bpb, img: Image, p: seq<nat>, first: nat, size: nat, d: nat, off: nat)
    requires IsHandle(g, img, p, first, size, d, off) && EntryMatches(g, img, d, off, first, size)
    ensures DirEntry.FileSize(EntryAt(img[d], off)) == size <==> size < TWO32
    ensures size < TWO32 ==>
      var e := EntryAt(img[d], off);
      IsHandle(g, img, p, DirEntry.FirstCluster(g.kind, e), DirEntry.FileSize(e), d, off)
  {
    hide IsHandle;
  }

  lemma EntryStoredKept(g: Bpb, d: nat, off: nat, a: Image, b: Image, p: seq<nat>)
    requires EntryStored(g, d, off, a, b, p)
    ensures Kept(g, d, off, a, p, b, p)
  {
  }

  /** The outcome of `fat_read`; `d` and `d'` are the destination before and after. */
  ghost predicate ReadOutcome(readable: bool, elem: nat, count: nat, c: seq<byte>, pos: nat, eof: bool, err: bool,
                              d: seq<byte>, pos': nat, eof': bool, err': bool, d': seq<byte>, n: nat) {
    if elem == 0 || count == 0 then n == 0 && pos' == pos && eof' == eof && err' == err && d' == d
    else if !readable || elem * count >= TWO64 then n == 0 && pos' == pos && eof' == eof && err' && d' == d
    else if pos >= |c| then n == 0 && pos' == pos && eof' && err' == err && d' == d
    else
      var k := if elem * count < |c| - pos then elem * count else |c| - pos;
      && n == k / elem && pos' == pos + k && eof' == (eof || pos + k >= |c|) && err' == err
      && k <= |d| && d' == Patched(d, 0, c[pos..pos + k])
  }

  lemma ReadEarly(readable: bool, elem: nat, count: nat, c: seq<byte>, pos: nat, eof: bool, err: bool, d: seq<byte>)
    ensures elem == 0 || count == 0 ==> ReadOutcome(readable, elem, count, c, pos, eof, err, d, pos, eof, err, d, 0)
    ensures elem > 0 && count > 0 && (!readable || elem * count >= TWO64) ==>
      ReadOutcome(readable, elem, count, c, pos, eof, err, d, pos, eof, true, d, 0)
    ensures elem > 0 && count > 0 && readable && elem * count < TWO64 && pos >= |c| ==>
      ReadOutcome(readable, elem, count, c, pos, eof, err, d, pos, true, err, d, 0)
    ensures elem > 0 && count > 0 ==> elem * count > 0
  {
    if elem > 0 {
      Times(1, elem, count);
    }
  }

  lemma ReadDone(elem: nat, count: nat, c: seq<byte>, pos: nat, eof: bool, err: bool, d: seq<byte>, d': seq<byte>, k: nat)
    requires elem > 0 && count > 0 && elem * count < TWO64 && |d| == elem * count && pos < |c|
    requires k == if elem * count < |c| - pos then elem * count else |c| - pos
    requires d' == Patched(d, 0, c[pos..pos + k])
    ensures 0 <= k / elem
    ensures ReadOutcome(true, elem, count, c, pos, eof, err, d, pos + k, eof || pos + k >= |c|, err, d', k / elem)
  {
    QuotientNonNegative(k, elem);
  }

  lemma QuotientNonNegative(k: nat, d: nat)
    requires d > 0
    ensures 0 <= k / d
  {
  }

  lemma SlicesJoin(c: seq<byte>, i: nat, j: nat, k: nat)
    requires i <= j <= k <= |c|
    ensures c[i..j] + c[j..k] == c[i..k]
  {
  }

  method CopyInto(dest: array<byte>, at: nat, chunk: seq<byte>)
    requires at + |chunk| <= dest.Length
    modifies dest
    ensures dest[..] == Patched(old(dest[..]), at, chunk)
  {
    forall i | 0 <= i < |chunk| {
      dest[at + i] := chunk[i];
    }
  }

  lemma SectorOfContents(g: Bpb, img: Image, p: seq<nat>, size: nat, pos: nat, n: nat, s: nat)
    requires g.WellFormed(|img|) && IsFile(TableOf(g, img), g.Eoc(), p) && size <= |p| * g.ClusterBytes()
    requires pos + n <= size && pos < size && pos % SECTOR_SIZE + n <= SECTOR_SIZE
    requires OnData(g, p) && pos / SECTOR_SIZE < |p| * g.spc && s == SectorAt(g, |img|, p, pos / SECTOR_SIZE)
    ensures img[s][pos % SECTOR_SIZE..pos % SECTOR_SIZE + n] == Content(g, img, p, size)[pos..pos + n]
  {
    hide Bpb.WellFormed, OnData, TableOf, IsFile, SectorAt;
    ReadInSector(g, img, p, pos, n, s);
    FileOnData(g, img, p);
    assert Bytes(g, img, p)[..size][pos..pos + n] == Bytes(g, img, p)[pos..pos + n];
  }

  /** The outcome of `fat_seek`: the code's tests are exactly "the target is in the signed 64-bit range and not negative". */
  ghost predicate SeekOutcome(offset: int, whence: int, size: nat, pos: nat, eof: bool, err: bool,
                              pos': nat, eof': bool, err': bool, r: int) {
    var base := if whence == 0 then 0 else if whence == 1 then pos else size;
    if (whence == 1 || whence == 2) && base >= TWO63 then r == -1 && pos' == pos && eof' == eof && err' == err
    else if whence < 0 || whence > 2 || !(0 <= base + offset < TWO63) then r == -1 && pos' == pos && eof' == eof && err'
    else r == 0 && pos' == base + offset && !eof' && err' == err
  }

  /** The number of clusters `fat_file_ensure_size` computes for `n` bytes, in 64-bit arithmetic. */
  function Required(n: u64, clusterSize: nat): nat
    requires clusterSize > 0
  {
    if n == 0 then 0 else (n + clusterSize - 1) % TWO64 / clusterSize
  }

  /** It is the number needed exactly when the rounded sum does not wrap; when it wraps, it is zero. */
  lemma RequiredExact(n: u64, clusterSize: nat)
    requires 0 < clusterSize < 0x2_0000 && n > 0
    ensures Required(n, clusterSize) == Ceil(n, clusterSize) <==> n + clusterSize - 1 < TWO64
    ensures n + clusterSize - 1 >= TWO64 ==> Required(n, clusterSize) == 0
  {
    CeilIs(n, clusterSize);
    if n + clusterSize - 1 >= TWO64 {
      var r := n + clusterSize - 1 - TWO64;
      assert (n + clusterSize - 1) % TWO64 == r;
      Division(r, clusterSize, 0, r);
    }
  }

  /** A concrete file size for which the sum wraps: 2^64 - 1 bytes need no cluster, says the code. */
  lemma RequiredWraps()
    ensures Required(0xFFFF_FFFF_FFFF_FFFF, 512) == 0 && Ceil(0xFFFF_FFFF_FFFF_FFFF, 512) > 0
  {
    RequiredExact(0xFFFF_FFFF_FFFF_FFFF, 512);
    CeilIs(0xFFFF_FFFF_FFFF_FFFF, 512);
  }

  lemma RequiredNothing(clusterSize: nat)
    requires clusterSize > 0
    ensures Required(0, clusterSize) == 0
  {
  }

  lemma RequiredFits(n: u64, clusterSize: nat)
    requires clusterSize > 0
    ensures 0 <= Required(n, clusterSize) && 0xFFFF_FFFF == TWO32 - 1
  {
  }

  lemma ResizeUndone(t: Chains.Table, u: Chains.Table, eoc: nat, p: seq<nat>, n: nat, q: seq<nat>, ok: bool)
    requires Resized(t, u, eoc, p, n, q, ok)
    ensures n == 0 ==> ok
  {
  }

  method CurrentDatetime() returns (now: DirEntry.Stamp)
  {
    now := *;
  }

  lemma EntryLengths()
    ensures ENTRY_BYTES == 32 && SECTOR_SIZE == 512
  {
  }

  lemma SizeFits(size: u64)
    ensures 0 <= size % TWO32 < TWO32
  {
  }

  lemma EntryFitsSector(s: Sector, off: nat, e: DirEntry.Entry)
    requires off + ENTRY_BYTES <= SECTOR_SIZE
    ensures off + |e| <= |s| && off + |e| <= SECTOR_SIZE && |e| == ENTRY_BYTES
  {
  }

  lemma EntryReadBack(g: Bpb, a: Image, d: nat, off: nat, e: DirEntry.Entry, first: nat, size: nat)
    requires d < |a| && off + ENTRY_BYTES <= SECTOR_SIZE
    requires DirEntry.FirstCluster(g.kind, e) == first && DirEntry.FileSize(e) == size % TWO32
    ensures off + |e| <= SECTOR_SIZE && EntryMatches(g, PatchedImage(a, d, off, e), d, off, first, size)
  {
    var s := Patched(a[d], off, e);
    assert s[off..off + 32] == e;
  }

  /** `c` is the cluster of the chain that holds position `pos`. */
  ghost predicate InCluster(g: Bpb, p: seq<nat>, pos: nat, c: nat) {
    var cs := g.ClusterBytes();
    cs > 0 && 0 <= pos / cs < |p| && p[pos / cs] == c && 2 <= c
  }

  lemma InClusterIs(g: Bpb, p: seq<nat>, pos: nat, c: nat)
    requires g.ClusterBytes() > 0 && 0 <= pos / g.ClusterBytes() < |p|
    requires p[pos / g.ClusterBytes()] == c && 2 <= c
    ensures InCluster(g, p, pos, c)
  {
  }

  /** Where byte `k` of a transfer goes that starts at byte `start` of a cluster, and how much fits the sector. */
  function Chunk(g: Bpb, cluster: u32, start: nat, k: nat, total: nat): (r: (nat, nat, nat))
    requires k < total
    ensures r.1 < SECTOR_SIZE && 0 < r.2 && k + r.2 <= total && r.1 + r.2 <= SECTOR_SIZE
  {
    var offsetInSector := (start + k) % SECTOR_SIZE;
    var sectorRemaining := SECTOR_SIZE - offsetInSector;
    (g.ClusterToSector(cluster) + (start + k) / SECTOR_SIZE, offsetInSector,
     if total - k < sectorRemaining then total - k else sectorRemaining)
  }

  /** The chunk goes to the sector of the file that holds its position. */
  lemma ChunkPlace(g: Bpb, sectors: nat, p: seq<nat>, pos0: nat, cluster: u32, start: nat, k: nat, total: nat)
    requires g.WellFormed(sectors) && OnData(g, p) && InCluster(g, p, pos0, cluster)
    requires start == pos0 % g.ClusterBytes() && start + total <= g.ClusterBytes() && k < total
    ensures var pos, r := pos0 + k, Chunk(g, cluster, start, k, total);
      && pos < |p| * g.ClusterBytes() && pos / SECTOR_SIZE < |p| * g.spc
      && r.0 == SectorAt(g, sectors, p, pos / SECTOR_SIZE) < sectors && r.0 < TWO32
      && r.1 == pos % SECTOR_SIZE
  {
    hide Bpb.WellFormed, OnData, Bpb.ClusterToSector, SectorAt;
    var cs := g.ClusterBytes();
    StayInCluster(pos0, k, cs);
    var pos := pos0 + k;
    assert pos == (pos / cs) * cs + pos % cs;
    Times(pos / cs + 1, |p|, cs);
    Locate(g, sectors, p, pos);
    FileSector(g, sectors, p, pos / SECTOR_SIZE, SectorAt(g, sectors, p, pos / SECTOR_SIZE));
  }

  /** The 32 bytes of a directory entry. */
  function EntryAt(s: Sector, off: nat): DirEntry.Entry
    requires off + ENTRY_BYTES <= SECTOR_SIZE
  {
    s[off..off + 32]
  }

  /** The directory entry on disk tells the first cluster and the size (modulo 2^32) of the handle. */
  ghost predicate EntryMatches(g: Bpb, img: Image, d: nat, off: nat, first: nat, size: nat) {
    && d < |img| && off + ENTRY_BYTES <= SECTOR_SIZE
    && DirEntry.FirstCluster(g.kind, EntryAt(img[d], off)) == first
    && DirEntry.FileSize(EntryAt(img[d], off)) == size % TWO32
  }

  lemma HandleStart(g: Bpb, img: Image, d: nat, off: nat, e: DirEntry.Entry)
    requires d < |img| && off + ENTRY_BYTES <= SECTOR_SIZE && e == EntryAt(img[d], off)
    ensures EntryMatches(g, img, d, off, DirEntry.FirstCluster(g.kind, e), DirEntry.FileSize(e))
  {
    EntryFieldsFit(g.kind, e);
  }

  lemma EntryFieldsFit(kind: FatKind, e: DirEntry.Entry)
    ensures DirEntry.FirstCluster(kind, e) < TWO32 && DirEntry.FileSize(e) < TWO32 < TWO63 < TWO64
  {
  }

  function ZeroSector(): (s: Sector)
    ensures forall i :: 0 <= i < |s| ==> s[i] == 0
  {
    seq(512, _ => 0)
  }

  lemma PositionFits(pos: u64, n: nat, size: u64)
    requires pos + n <= size
    ensures pos + n < TWO64
  {
  }

  lemma SpanFacts(g: Bpb, d: nat, off: nat, a: Image, b: Image, p: seq<nat>, pos: nat, data: seq<byte>)
    requires SpanWritten(g, d, off, a, b, p, pos, data)
    ensures |b| == |a| && g.WellFormed(|b|) && OnData(g, p) && pos + |data| <= |p| * g.ClusterBytes()
    ensures TableOf(g, b) == TableOf(g, a) && (Mirrored(g, a) ==> Mirrored(g, b))
    ensures Kept(g, d, off, a, p, b, p)
  {
  }

  /** A whole sector needs no read before it is written. */
  lemma WholeSector(was: Sector, buffer: Sector, off: nat, chunk: seq<byte>)
    requires off + |chunk| <= SECTOR_SIZE
    requires buffer == was || (off == 0 && |chunk| == SECTOR_SIZE)
    ensures |was| == |buffer| == SECTOR_SIZE
    ensures Patched(buffer, off, chunk) == Patched(was, off, chunk)
  {
  }

  lemma PatchedImageIs(a: Image, s: nat, off: nat, chunk: seq<byte>)
    requires s < |a| && off + |chunk| <= SECTOR_SIZE
    ensures off + |chunk| <= |a[s]| && a[s := Patched(a[s], off, chunk)] == PatchedImage(a, s, off, chunk)
  {
  }
}
