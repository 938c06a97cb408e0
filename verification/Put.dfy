/** Copying a new file onto a volume: `neededcluster`, `write_file_data` and the transaction of `fput`. */
module Puts {
  import opened Words
  import opened Geometry
  import TableImage
  import Chains
  import opened Allocator
  import opened FileBytes
  import opened Volumes
  import DirEntry
  import FatFiles
  import opened LongNames
  import opened Listing
  import opened Directories
  import FatDirs
  import RoundTrips
  import opened FreeSlots
  import Unicode

  // ----- how many clusters -----

  /**
   `neededcluster`, in 64-bit arithmetic: the rounded size may wrap, but only for sizes that no
   volume could hold, so the answer is right for every size.
   */
  function NeededCluster(g: Bpb, size: u64): (r: nat)
    ensures g.spc == 0 ==> r == 0
    ensures g.spc > 0 ==>
      g.ClusterBytes() > 0 &&
      r == if size > 0 && Ceil(size, g.ClusterBytes()) <= g.ClusterCount() then Ceil(size, g.ClusterBytes()) else 0
  {
    if g.spc == 0 || size == 0 then 0
    else
      NeededExact(g, size);
      var count := FatFiles.Required(size, g.ClusterBytes());
      if g.ClusterCount() == 0 || count > g.ClusterCount() || count > 0xFFFF_FFFF then 0 else count
  }

  lemma NeededExact(g: Bpb, size: u64)
    requires g.spc > 0 && size > 0
    ensures 0 < g.ClusterBytes() < 0x2_0000 && Ceil(size, g.ClusterBytes()) > 0
    ensures var count := FatFiles.Required(size, g.ClusterBytes());
      count == Ceil(size, g.ClusterBytes()) || (count == 0 && Ceil(size, g.ClusterBytes()) > 0xFFFF_FFFF)
  {
    hide Ceil, FatFiles.Required;
    var cs := g.ClusterBytes();
    CeilIs(size, cs);
    FatFiles.RequiredExact(size, cs);
    if size + cs - 1 >= TWO64 && Ceil(size, cs) <= 0xFFFF_FFFF {
      Times(Ceil(size, cs), 0xFFFF_FFFF, cs);
    }
  }

  // ----- write_file_data -----

  /** The sector loop of `write_file_data`: a whole cluster at position `pos` of the file. */
  method WriteBuffer(vol: Volume, cluster: u32, buffer: seq<byte>, ghost p: seq<nat>, ghost pos: nat, ghost d: nat)
    requires vol.Valid() && OnData(vol.g, p) && Chains.Distinct(p) && |buffer| == vol.g.ClusterBytes()
    requires FatFiles.InCluster(vol.g, p, pos, cluster) && pos % vol.g.ClusterBytes() == 0
    modifies vol
    ensures vol.Valid()
    ensures SpanWritten(vol.g, d, 0, old(vol.image), vol.image, p, pos, buffer)
  {
    hide *;
    vol.TableFacts();
    ghost var g, a := vol.g, vol.image;
    BufferStart(g, d, a, p, pos, cluster, buffer);
    assert buffer[..0] == [];
    for s := 0 to vol.g.spc
      invariant |vol.image| == |a| && 512 * s <= |buffer|
      invariant SpanWritten(g, d, 0, a, vol.image, p, pos, buffer[..512 * s])
    {
      FatFiles.SpanFacts(g, d, 0, a, vol.image, p, pos, buffer[..512 * s]);
      BufferSector(g, |a|, p, pos, cluster, s, |buffer|);
      ghost var b := vol.image;
      var chunk: Sector := buffer[512 * s..512 * s + 512];
      SpanStep(g, d, 0, b, p, pos + 512 * s, chunk, g.ClusterToSector(cluster) + s);
      WholePatch(b, g.ClusterToSector(cluster) + s, chunk, pos + 512 * s);
      var written := vol.WriteSector(vol.g.ClusterToSector(cluster) + s, chunk);
      SpanJoin(g, d, 0, a, b, vol.image, p, pos, buffer[..512 * s], chunk);
      assert buffer[..512 * s] + chunk == buffer[..512 * (s + 1)];
    }
    BufferLength(g, buffer);
    assert buffer[..|buffer|] == buffer;
    FatFiles.SpanFacts(g, d, 0, a, vol.image, p, pos, buffer);
    vol.ValidIs();
  }

  lemma BufferLength(g: Bpb, buffer: seq<byte>)
    requires |buffer| == g.ClusterBytes()
    ensures |buffer| == 512 * g.spc
  {
  }

  lemma BufferStart(g: Bpb, d: nat, a: Image, p: seq<nat>, pos: nat, cluster: nat, buffer: seq<byte>)
    requires g.WellFormed(|a|) && OnData(g, p) && FatFiles.InCluster(g, p, pos, cluster)
    ensures pos < |p| * g.ClusterBytes() && SpanWritten(g, d, 0, a, a, p, pos, [])
  {
    hide Bpb.WellFormed, OnData, SpanWritten, Bpb.ClusterBytes;
    var cs := g.ClusterBytes();
    assert pos == (pos / cs) * cs + pos % cs;
    Times(pos / cs + 1, |p|, cs);
    SpanNothing(g, d, 0, a, p, pos);
  }

  lemma BufferSector(g: Bpb, sectors: nat, p: seq<nat>, pos: nat, cluster: u32, s: nat, n: nat)
    requires g.WellFormed(sectors) && OnData(g, p) && FatFiles.InCluster(g, p, pos, cluster) && pos % g.ClusterBytes() == 0
    requires s < g.spc && n == g.ClusterBytes()
    ensures SECTOR_SIZE == 512 && 512 * s + 512 <= n
    ensures g.ClusterToSector(cluster) + s < TWO32 && g.ClusterToSector(cluster) + s < sectors
    ensures pos + 512 * s < |p| * g.ClusterBytes() && (pos + 512 * s) / SECTOR_SIZE < |p| * g.spc
    ensures g.ClusterToSector(cluster) + s == SectorAt(g, sectors, p, (pos + 512 * s) / SECTOR_SIZE)
    ensures (pos + 512 * s) % SECTOR_SIZE == 0
  {
    hide Bpb.WellFormed, OnData, SectorAt, Bpb.ClusterToSector;
    FatFiles.ChunkPlace(g, sectors, p, pos, cluster, 0, 512 * s, n);
    assert (0 + 512 * s) / 512 == s;
    SectorAligned(pos, g.spc, g.ClusterBytes());
  }

  lemma SectorAligned(pos: nat, spc: nat, cs: nat)
    requires cs == spc * 512 && spc > 0 && pos % cs == 0
    ensures pos % 512 == 0
  {
    assert pos == (pos / cs) * cs;
    assert (pos / cs) * (spc * 512) == ((pos / cs) * spc) * 512;
  }

  lemma WholePatch(b: Image, s: nat, chunk: Sector, pos: nat)
    requires s < |b| && pos % SECTOR_SIZE == 0
    ensures pos % SECTOR_SIZE + |chunk| <= SECTOR_SIZE && PatchedImage(b, s, pos % SECTOR_SIZE, chunk) == b[s := chunk]
  {
    assert Patched(b[s], 0, chunk) == chunk;
  }

  /** The bytes of the source, then zeros to the end of its last cluster. */
  function Filled(source: seq<byte>, cs: nat): (f: seq<byte>)
    requires cs > 0
    ensures |f| == Ceil(|source|, cs) * cs && source <= f
    ensures forall i :: |source| <= i < |f| ==> f[i] == 0
  {
    CeilIs(|source|, cs);
    source + Zeros(Ceil(|source|, cs) * cs - |source|)
  }

  function FirstPart(data: seq<byte>, n: nat): (r: seq<byte>)
    ensures r <= data && |r| <= n
  {
    if |data| <= n then data else data[..n]
  }

  /**
   `write_file_data` on the chain of a file: it succeeds exactly when the chain is long enough, and
   then the clusters hold the source followed by zeros; on a chain that is too short it fails after
   it has filled the chain.
   */
  method WriteFileData(vol: Volume, source: seq<byte>, first: u32, ghost p: seq<nat>, ghost d: nat) returns (ok: bool)
    requires vol.Valid() && IsFile(vol.Table(), vol.g.Eoc(), p) && Head(p) == first
    modifies vol
    ensures vol.Valid() && vol.g.ClusterBytes() > 0 && |vol.image| == |old(vol.image)|
    ensures ok == (if source == [] then p == [] else Ceil(|source|, vol.g.ClusterBytes()) <= |p|)
    ensures source == [] ==> vol.image == old(vol.image)
    ensures source != [] ==>
      SpanWritten(vol.g, d, 0, old(vol.image), vol.image, p, 0,
                  FirstPart(Filled(source, vol.g.ClusterBytes()), |p| * vol.g.ClusterBytes()))
  {
    hide *;
    vol.TableFacts();
    ghost var g, a := vol.g, vol.image;
    FileStart(g, d, a, p, first);
    ok := false;
    if source == [] {
      ok := first == 0;
      return;
    }
    var clusterSize := vol.g.ClusterBytes();
    ghost var data := Filled(source, clusterSize);
    PartNothing(data, |p| * clusterSize);
    if first < 2 {
      return;
    }
    var remaining, cluster, guard := |source|, first, 0;
    ghost var i: nat := 0;
    while remaining > 0
      invariant vol.Valid() && |vol.image| == |a| && TableImage.TableOf(g, vol.image) == TableImage.TableOf(g, a)
      invariant i <= |p| && guard == i && 0 <= i * clusterSize <= |data|
      invariant remaining == (if |source| > i * clusterSize then |source| - i * clusterSize else 0)
      invariant remaining == 0 ==> i * clusterSize == |data|
      invariant remaining > 0 ==> i < |p| && cluster == p[i]
      invariant SpanWritten(g, d, 0, a, vol.image, p, 0, data[..i * clusterSize])
      decreases remaining
    {
      vol.TableFacts();
      guard := guard + 1;
      OnChain(g, vol.image, p, i, cluster);
      if guard > vol.g.MaxCluster() {
        return;
      }
      if cluster < 2 || cluster > vol.g.MaxCluster() {
        return;
      }
      var amount := if remaining > clusterSize then clusterSize else remaining;
      FilledPart(source, clusterSize, i, remaining, amount);
      var buffer := source[|source| - remaining..|source| - remaining + amount] + Zeros(clusterSize - amount);
      if vol.g.ClusterToSector(cluster) == 0 {
        return;
      }
      ghost var b := vol.image;
      WriteBuffer(vol, cluster, buffer, p, i * clusterSize, d);
      SpanJoin(g, d, 0, a, b, vol.image, p, 0, data[..i * clusterSize], buffer);
      FatFiles.SpanFacts(g, d, 0, b, vol.image, p, i * clusterSize, buffer);
      remaining := remaining - amount;
      if remaining > 0 {
        vol.TableFacts();
        NextOnChain(g, vol.image, p, i, cluster);
        var next := vol.ReadCluster(cluster);
        if next < 2 || vol.g.IsEoc(next) || next > vol.g.MaxCluster() {
          PartShort(data, |source|, clusterSize, i + 1, |p|);
          return;
        }
        cluster := next;
      }
      i := i + 1;
    }
    PartWhole(data, |source|, clusterSize, i, |p|);
    ok := true;
  }

  lemma FileStart(g: Bpb, d: nat, a: Image, p: seq<nat>, first: nat)
    requires g.WellFormed(|a|) && IsFile(TableImage.TableOf(g, a), g.Eoc(), p) && Head(p) == first
    ensures g.ClusterBytes() > 0 && SpanWritten(g, d, 0, a, a, p, 0, [])
    ensures if p == [] then first == 0 && |p| * g.ClusterBytes() == 0 else p[0] == first && 2 <= first
    ensures 0 * g.ClusterBytes() == 0 && 0 <= |p| * g.ClusterBytes()
    ensures OnData(g, p) && Chains.Distinct(p)
  {
    hide TableImage.TableOf, SpanWritten, Bpb.MaxCluster, Bpb.RootDirSectorCount, Bpb.DataStart;
    FileOnData(g, a, p);
    Times(0, |p|, g.ClusterBytes());
    SpanNothing(g, d, 0, a, p, 0);
  }

  lemma PartNothing(data: seq<byte>, n: nat)
    ensures n == 0 ==> FirstPart(data, n) == []
    ensures data[..0] == []
  {
  }

  /** Round `i` is at cluster `i` of the chain. */
  lemma OnChain(g: Bpb, a: Image, p: seq<nat>, i: nat, cluster: nat)
    requires g.WellFormed(|a|) && IsFile(TableImage.TableOf(g, a), g.Eoc(), p) && i < |p| && cluster == p[i]
    ensures i + 1 <= g.MaxCluster() && 2 <= cluster <= g.MaxCluster() && cluster < TWO32 && g.ClusterToSector(cluster) > 0
    ensures OnData(g, p) && Chains.Distinct(p) && g.ClusterBytes() > 0
    ensures FatFiles.InCluster(g, p, i * g.ClusterBytes(), cluster) && i * g.ClusterBytes() % g.ClusterBytes() == 0
  {
    hide TableImage.Entry, Bpb.MaxCluster, Bpb.ClusterToSector, Bpb.RootDirSectorCount, Bpb.DataStart;
    FileOnData(g, a, p);
    Chains.ChainBound(TableImage.TableOf(g, a), g.Eoc(), p[0], p);
    ClusterInside(g, |a|, cluster, 0);
    NoWrap(g, |a|);
    Division(i * g.ClusterBytes(), g.ClusterBytes(), i, 0);
  }

  lemma NextOnChain(g: Bpb, a: Image, p: seq<nat>, i: nat, cluster: nat)
    requires g.WellFormed(|a|) && IsFile(TableImage.TableOf(g, a), g.Eoc(), p) && i < |p| && cluster == p[i]
    ensures cluster < |TableImage.TableOf(g, a)|
    ensures var next := TableImage.TableOf(g, a)[cluster];
      if i + 1 < |p| then next == p[i + 1] && 2 <= next <= g.MaxCluster() && next < g.Eoc() else next >= g.Eoc()
  {
    hide Bpb.MaxCluster, TableImage.Entry, Bpb.RootDirSectorCount, Bpb.DataStart;
    FileOnData(g, a, p);
  }

  /** What one round reads from the source and pads is the next cluster of the filled source. */
  lemma FilledPart(source: seq<byte>, cs: nat, i: nat, remaining: nat, amount: nat)
    requires cs > 0 && remaining > 0 && remaining == |source| - i * cs
    requires amount == if remaining > cs then cs else remaining
    ensures 0 <= i * cs && (i + 1) * cs == i * cs + cs <= |Filled(source, cs)|
    ensures var data, buffer := Filled(source, cs), source[i * cs..i * cs + amount] + Zeros(cs - amount);
      |buffer| == cs && data[..i * cs] + buffer == data[..(i + 1) * cs]
    ensures remaining <= cs ==> (i + 1) * cs == |Filled(source, cs)|
  {
    CeilIs(|source|, cs);
    var n := Ceil(|source|, cs);
    assert i < n by {
      if n <= i {
        Times(n, i, cs);
      }
    }
    Times(i + 1, n, cs);
    if remaining <= cs {
      assert |source| <= (i + 1) * cs;
    }
    FilledCluster(source, cs, i * cs, amount);
  }

  lemma FilledCluster(source: seq<byte>, cs: nat, at: nat, amount: nat)
    requires cs > 0 && at + cs <= |Filled(source, cs)| && at < |source|
    requires amount == if |source| - at > cs then cs else |source| - at
    ensures Filled(source, cs)[..at] + (source[at..at + amount] + Zeros(cs - amount)) == Filled(source, cs)[..at + cs]
  {
    hide Filled, Ceil;
    var data := Filled(source, cs);
    forall j | 0 <= j < at + cs
      ensures (data[..at] + (source[at..at + amount] + Zeros(cs - amount)))[j] == data[j]
    {
      if j < |source| {
        assert source[j] == data[j];
      }
    }
  }

  /** The chain ended before the source did. */
  lemma PartShort(data: seq<byte>, n: nat, cs: nat, i: nat, k: nat)
    requires cs > 0 && i == k && n > i * cs && i * cs <= |data| == Ceil(n, cs) * cs
    ensures Ceil(n, cs) > k && k * cs >= 0 && FirstPart(data, k * cs) == data[..i * cs]
  {
    CeilIs(n, cs);
    if Ceil(n, cs) <= k {
      Times(Ceil(n, cs), k, cs);
    }
  }

  lemma PartWhole(data: seq<byte>, n: nat, cs: nat, i: nat, k: nat)
    requires cs > 0 && i <= k && i * cs == |data| == Ceil(n, cs) * cs
    ensures Ceil(n, cs) <= k && k * cs >= 0 && FirstPart(data, k * cs) == data[..i * cs]
  {
    Times(i, k, cs);
    if Ceil(n, cs) > i {
      Times(i + 1, Ceil(n, cs), cs);
    }
    assert data[..|data|] == data;
  }

  // ----- storing the data -----

  /** From `a` to `b` a new chain `p` of `n` clusters was made of free ones, and freeing it would undo the table. */
  ghost predicate Fresh(g: Bpb, a: Image, b: Image, p: seq<nat>, n: nat) {
    && g.WellFormed(|a|) && |b| == |a| && |p| == n
    && Kept(g, |a|, 0, a, [], b, p)
    && IsFile(TableImage.TableOf(g, b), g.Eoc(), p) && OnData(g, p)
    && Chains.Zeroed(TableImage.TableOf(g, b), p) == TableImage.TableOf(g, a)
  }

  /** Moreover the new chain holds the source. */
  ghost predicate Stored(g: Bpb, a: Image, b: Image, source: seq<byte>, p: seq<nat>) {
    && g.ClusterBytes() > 0 && Fresh(g, a, b, p, Ceil(|source|, g.ClusterBytes()))
    && TableImage.Mirrored(g, b) && Bytes(g, b, p) == Filled(source, g.ClusterBytes())
  }

  /** The first part of the transaction: count, allocate, write. It fails only for lack of free clusters. */
  method StoreData(vol: Volume, source: seq<byte>) returns (ok: bool, first: u32, ghost p: seq<nat>)
    requires vol.Valid() && |source| < TWO32
    modifies vol
    ensures vol.Valid() && vol.g.ClusterBytes() > 0
    ensures ok <==> Ceil(|source|, vol.g.ClusterBytes()) <= |Chains.Free(old(vol.Table()))|
    ensures !ok ==> vol.image == old(vol.image)
    ensures ok ==> Head(p) == first && Stored(vol.g, old(vol.image), vol.image, source, p)
  {
    hide *;
    vol.TableFacts();
    ghost var g, a, t := vol.g, vol.image, vol.Table();
    SourceFits(g, a, source);
    ok, first, p := false, 0, [];
    var required := NeededCluster(vol.g, |source|);
    if |source| != 0 && required == 0 {
      return;
    }
    if required != 0 {
      first := vol.AllocChain(required);
      vol.TableFacts();
      p := AllocatedFile(t, vol.Table(), g.Eoc(), required, first);
      AllocatedKept(g, a, vol.image, p, required, first);
      if first == 0 {
        return;
      }
    } else {
      NothingKept(g, a);
    }
    ghost var b := vol.image;
    FreshMeans(g, a, b, p, required);
    ok := WriteFileData(vol, source, first, p, |a|);
    vol.TableFacts();
    StoredFrom(g, a, b, vol.image, source, p);
  }

  lemma SourceFits(g: Bpb, a: Image, source: seq<byte>)
    requires g.WellFormed(|a|) && |source| < TWO32
    ensures |source| < TWO64 && g.spc > 0 && g.ClusterBytes() > 0
    ensures |Chains.Free(TableImage.TableOf(g, a))| <= g.ClusterCount()
    ensures source == [] <==> Ceil(|source|, g.ClusterBytes()) == 0
  {
    hide TableImage.Entry, Bpb.ClusterCount, Ceil;
    CeilIs(|source|, g.ClusterBytes());
    CeilNone(g.ClusterBytes());
  }

  lemma CeilNone(cs: nat)
    requires cs > 0
    ensures Ceil(0, cs) == 0
  {
    Division(cs - 1, cs, 0, cs - 1);
  }

  lemma NothingKept(g: Bpb, a: Image)
    requires g.WellFormed(|a|)
    ensures Fresh(g, a, a, [], 0) && Head([]) == 0
  {
    hide Bpb.WellFormed, TableImage.TableOf, Kept;
    KeptSelf(g, |a|, 0, a, []);
    Chains.ZeroedNone(TableImage.TableOf(g, a));
  }

  lemma AllocatedKept(g: Bpb, a: Image, b: Image, p: seq<nat>, n: nat, first: nat)
    requires g.WellFormed(|a|) && |b| == |a| && TableImage.FatFrame(g, a, b) && n > 0 && Head(p) == first
    requires Resized(TableImage.TableOf(g, a), TableImage.TableOf(g, b), g.Eoc(), [], n, p, first != 0)
    ensures first != 0 <==> n <= |Chains.Free(TableImage.TableOf(g, a))|
    ensures first != 0 ==> Fresh(g, a, b, p, n)
  {
    hide *;
    EmptyFile(TableImage.TableOf(g, a), g.Eoc());
    ResizeKeeps(g, |a|, 0, a, [], b, p, n, first != 0);
    AllocatedUndone(TableImage.TableOf(g, a), TableImage.TableOf(g, b), g.Eoc(), n, p, first != 0);
    if first != 0 {
      FreshIs(g, a, b, p, n);
    }
  }

  lemma EmptyFile(t: Chains.Table, eoc: nat)
    ensures IsFile(t, eoc, [])
  {
  }

  lemma AllocatedUndone(t: Chains.Table, u: Chains.Table, eoc: nat, n: nat, p: seq<nat>, ok: bool)
    requires n > 0 && Resized(t, u, eoc, [], n, p, ok)
    ensures ok ==> Chains.Zeroed(u, p) == t
  {
    hide Grown, Chains.Free;
    if ok {
      assert p == Chains.Free(t)[..n] by { assert p == [] + Chains.Free(t)[..n - 0]; }
      ZeroedUndoesGrown(t, u, eoc, p);
    }
  }

  lemma FreshIs(g: Bpb, a: Image, b: Image, p: seq<nat>, n: nat)
    requires g.WellFormed(|a|) && |b| == |a| && |p| == n && Kept(g, |a|, 0, a, [], b, p)
    requires IsFile(TableImage.TableOf(g, b), g.Eoc(), p) && OnData(g, p)
    requires Chains.Zeroed(TableImage.TableOf(g, b), p) == TableImage.TableOf(g, a)
    ensures Fresh(g, a, b, p, n)
  {
    hide Bpb.WellFormed, Kept, IsFile, OnData, TableImage.TableOf, Chains.Zeroed;
  }

  lemma StoredFrom(g: Bpb, a: Image, b: Image, c: Image, source: seq<byte>, p: seq<nat>)
    requires g.ClusterBytes() > 0 && g.WellFormed(|a|) && Fresh(g, a, b, p, Ceil(|source|, g.ClusterBytes()))
    requires source == [] ==> c == b
    requires |c| == |a| && TableImage.Mirrored(g, c)
    requires source != [] ==>
      SpanWritten(g, |a|, 0, b, c, p, 0, FirstPart(Filled(source, g.ClusterBytes()), |p| * g.ClusterBytes()))
    ensures Stored(g, a, c, source, p)
  {
    hide *;
    FreshMeans(g, a, b, p, Ceil(|source|, g.ClusterBytes()));
    if source != [] {
      FatFiles.SpanFacts(g, |a|, 0, b, c, p, 0, FirstPart(Filled(source, g.ClusterBytes()), |p| * g.ClusterBytes()));
      KeptTrans(g, |a|, 0, a, [], b, p, c, p);
      FreshIs(g, a, c, p, Ceil(|source|, g.ClusterBytes()));
      SpanWhole(g, a, b, c, source, p);
    } else {
      EmptyFilled(g, b, p);
    }
    StoredIs(g, a, c, source, p);
  }

  lemma FreshMeans(g: Bpb, a: Image, b: Image, p: seq<nat>, n: nat)
    requires Fresh(g, a, b, p, n)
    ensures g.WellFormed(|a|) && |b| == |a| && |p| == n && Kept(g, |a|, 0, a, [], b, p)
    ensures IsFile(TableImage.TableOf(g, b), g.Eoc(), p) && OnData(g, p)
    ensures Chains.Zeroed(TableImage.TableOf(g, b), p) == TableImage.TableOf(g, a)
  {
    hide Bpb.WellFormed, Kept, IsFile, OnData, TableImage.TableOf, Chains.Zeroed;
  }

  lemma SpanWhole(g: Bpb, a: Image, b: Image, c: Image, source: seq<byte>, p: seq<nat>)
    requires g.ClusterBytes() > 0 && |p| == Ceil(|source|, g.ClusterBytes())
    requires SpanWritten(g, |a|, 0, b, c, p, 0, FirstPart(Filled(source, g.ClusterBytes()), |p| * g.ClusterBytes()))
    ensures g.WellFormed(|c|) && OnData(g, p) && Bytes(g, c, p) == Filled(source, g.ClusterBytes())
  {
    hide Bpb.WellFormed, TableImage.TableOf, Kept, TableImage.Mirrored, Ceil, OnData, Filled, Bytes, Patched;
    PatchedWhole(Bytes(g, b, p), Filled(source, g.ClusterBytes()));
  }

  lemma StoredIs(g: Bpb, a: Image, b: Image, source: seq<byte>, p: seq<nat>)
    requires g.ClusterBytes() > 0 && Fresh(g, a, b, p, Ceil(|source|, g.ClusterBytes()))
    requires g.WellFormed(|b|) && TableImage.Mirrored(g, b)
    requires OnData(g, p) && Bytes(g, b, p) == Filled(source, g.ClusterBytes())
    ensures Stored(g, a, b, source, p)
  {
    hide Bpb.WellFormed, Fresh, OnData, Bytes, Filled, TableImage.Mirrored;
  }

  lemma StoredMeans(g: Bpb, a: Image, b: Image, source: seq<byte>, p: seq<nat>)
    requires Stored(g, a, b, source, p)
    ensures g.ClusterBytes() > 0 && Fresh(g, a, b, p, Ceil(|source|, g.ClusterBytes()))
    ensures g.WellFormed(|a|) && |b| == |a| && |p| == Ceil(|source|, g.ClusterBytes()) && Kept(g, |a|, 0, a, [], b, p)
    ensures IsFile(TableImage.TableOf(g, b), g.Eoc(), p) && OnData(g, p)
    ensures Chains.Zeroed(TableImage.TableOf(g, b), p) == TableImage.TableOf(g, a)
    ensures TableImage.Mirrored(g, b) && Bytes(g, b, p) == Filled(source, g.ClusterBytes())
  {
    hide Bpb.WellFormed, Kept, IsFile, OnData, TableImage.TableOf, Chains.Zeroed, Bytes, Filled, TableImage.Mirrored;
  }

  lemma EmptyFilled(g: Bpb, b: Image, p: seq<nat>)
    requires g.WellFormed(|b|) && OnData(g, p) && g.ClusterBytes() > 0 && |p| == Ceil(0, g.ClusterBytes())
    ensures Bytes(g, b, p) == Filled([], g.ClusterBytes())
  {
    hide Bpb.WellFormed, OnData, Ceil;
    CeilNone(g.ClusterBytes());
  }

  lemma PatchedWhole(x: seq<byte>, y: seq<byte>)
    requires |x| == |y|
    ensures Patched(x, 0, y) == y
  {
  }

  /** The undo: `freechain` gives the table back as it was, and touches nothing but the new chain. */
  method Undo(vol: Volume, first: u32, ghost a: Image, ghost source: seq<byte>, ghost p: seq<nat>)
    requires vol.Valid() && Stored(vol.g, a, vol.image, source, p) && Head(p) == first
    modifies vol
    ensures vol.Valid() && |vol.image| == |a|
    ensures vol.Table() == TableImage.TableOf(vol.g, a)
    ensures Kept(vol.g, |a|, 0, a, [], vol.image, [])
  {
    hide *;
    vol.TableFacts();
    ghost var g, b := vol.g, vol.image;
    StoredMeans(g, a, b, source, p);
    HeadZero(g, b, p, first);
    if first != 0 {
      var ok := vol.FreeChain(first);
      vol.TableFacts();
      UndoneKept(g, a, b, vol.image, p, ok);
    } else {
      Chains.ZeroedNone(TableImage.TableOf(g, b));
    }
  }

  lemma HeadZero(g: Bpb, b: Image, p: seq<nat>, first: nat)
    requires g.WellFormed(|b|) && Head(p) == first && IsFile(TableImage.TableOf(g, b), g.Eoc(), p)
    ensures (first == 0 <==> p == []) && (first != 0 ==> g.IsData(first))
  {
    hide TableImage.TableOf, Bpb.MaxCluster;
    FileOnData(g, b, p);
  }

  lemma UndoneKept(g: Bpb, a: Image, b: Image, c: Image, p: seq<nat>, ok: bool)
    requires g.WellFormed(|a|) && |b| == |a| && |c| == |b| && TableImage.FatFrame(g, b, c)
    requires Kept(g, |a|, 0, a, [], b, p) && IsFile(TableImage.TableOf(g, b), g.Eoc(), p) && Head(p) != 0
    requires Chains.Zeroed(TableImage.TableOf(g, b), p) == TableImage.TableOf(g, a)
    requires |TableImage.TableOf(g, b)| <= g.Eoc()
    requires TableFreed(TableImage.TableOf(g, b), TableImage.TableOf(g, c), g.Eoc(), Head(p), ok)
    ensures TableImage.TableOf(g, c) == TableImage.TableOf(g, a) && Kept(g, |a|, 0, a, [], c, [])
  {
    hide *;
    var t, u := TableImage.TableOf(g, b), TableImage.TableOf(g, c);
    FreedFile(t, u, g.Eoc(), Head(p), ok);
    ResizedToNothing(t, u, g.Eoc(), p, ok);
    ResizeKeeps(g, |a|, 0, b, p, c, [], 0, ok);
    KeptTrans(g, |a|, 0, a, [], b, p, c, []);
  }

  lemma ResizedToNothing(t: Chains.Table, u: Chains.Table, eoc: nat, p: seq<nat>, ok: bool)
    requires Resized(t, u, eoc, p, 0, [], ok)
    ensures u == Chains.Zeroed(t, p)
  {
  }

  // ----- the directory beside the new chain -----

  /** The sectors of a directory belong neither to free space, nor to the table, nor to a file apart from it. */
  lemma DirSectorForeign(g: Bpb, a: Image, p: seq<nat>, root: bool, q: seq<nat>, j: nat)
    requires IsDirectory(g, a, root, q) && j < SectorCount(g, root, q)
    requires !root ==> forall c :: c in q ==> c !in p
    ensures Foreign(g, a, p, DirSector(g, a, root, q, j)) && DirSector(g, a, root, q, j) < TWO32
  {
    hide TableImage.TableOf, IsFile, SectorAt, OnData, Bpb.ClusterFromSector;
    if root {
      NoWrap(g, |a|);
      FatDirs.RootSector(g, a, q, j);
    } else {
      FileOnData(g, a, q);
      FatFiles.OwnSectorForeign(g, a, p, q, j, |a|);
    }
  }

  /** Storing the data leaves the directory as it was. */
  lemma DirectoryKept(g: Bpb, a: Image, c: Image, p: seq<nat>, root: bool, q: seq<nat>)
    requires IsDirectory(g, a, root, q) && Kept(g, |a|, 0, a, [], c, p)
    ensures |c| == |a| && IsDirectory(g, c, root, q) && Slots(g, c, root, q) == Slots(g, a, root, q)
    ensures forall j :: 0 <= j < SectorCount(g, root, q) ==>
      && DirSector(g, c, root, q, j) == DirSector(g, a, root, q, j)
      && c[DirSector(g, a, root, q, j)] == a[DirSector(g, a, root, q, j)]
      && Foreign(g, c, p, DirSector(g, a, root, q, j))
  {
    hide *;
    DirectoryStays(g, a, c, p, root, q);
    forall j | 0 <= j < SectorCount(g, root, q)
      ensures DirSector(g, c, root, q, j) == DirSector(g, a, root, q, j)
      ensures c[DirSector(g, a, root, q, j)] == a[DirSector(g, a, root, q, j)]
      ensures Foreign(g, c, p, DirSector(g, a, root, q, j))
    {
      DirSectorForeign(g, a, [], root, q, j);
      RoundTrips.SamePlace(g, a, c, root, q, j);
      KeptForeign(g, |a|, 0, a, [], c, p, DirSector(g, a, root, q, j));
      ForeignSame(g, a, c, p, DirSector(g, a, root, q, j));
    }
    SlotsSame(g, a, c, root, q);
  }

  lemma ForeignSame(g: Bpb, a: Image, c: Image, p: seq<nat>, s: nat)
    requires Kept(g, |a|, 0, a, [], c, p) && Foreign(g, a, [], s)
    ensures s < |a| == |c| && c[s] == a[s]
  {
    hide TableKept, Bpb.WellFormed, TableImage.TableOf, Bpb.FatStart, Bpb.FatEnd, Bpb.DataStart, Bpb.ClusterFromSector;
    assert SectorKept(s == |a|, 0, a[s], c[s]);
  }

  lemma DirectoryStays(g: Bpb, a: Image, c: Image, p: seq<nat>, root: bool, q: seq<nat>)
    requires IsDirectory(g, a, root, q) && Kept(g, |a|, 0, a, [], c, p)
    ensures |c| == |a| && IsDirectory(g, c, root, q) && g.WellFormed(|a|)
  {
    hide TableImage.TableOf, IsFile, OnData, Bpb.RootDirSectorCount, Bpb.DataStart, Bpb.MaxCluster, TableKept, SectorsKept;
    if !root {
      FileOnData(g, a, q);
      FatFiles.OtherChainKept(g, |a|, 0, a, [], c, p, q);
    }
  }

  lemma SlotsSame(g: Bpb, a: Image, c: Image, root: bool, q: seq<nat>)
    requires IsDirectory(g, a, root, q) && IsDirectory(g, c, root, q) && |c| == |a|
    requires forall j :: 0 <= j < SectorCount(g, root, q) ==>
      && DirSector(g, c, root, q, j) == DirSector(g, a, root, q, j)
      && c[DirSector(g, a, root, q, j)] == a[DirSector(g, a, root, q, j)]
    ensures Slots(g, c, root, q) == Slots(g, a, root, q)
  {
    hide IsDirectory, SectorCount, DirSector;
    var u, v := Slots(g, a, root, q), Slots(g, c, root, q);
    forall i | 0 <= i < |u| ensures v[i] == u[i] {
      assert 0 <= i / 16 < SectorCount(g, root, q);
      RoundTrips.SlotBefore(g, a, root, q, i / 16, i);
      RoundTrips.SlotBefore(g, c, root, q, i / 16, i);
    }
  }

  // ----- a place for the entries -----

  /**
   Where the search finds `n` unused slots: in the fixed root the first row of all, which may cross
   sectors; in a chain the first row that lies in one sector. It starts at slot `o` of sector `sd`.
   */
  ghost predicate IsFound(g: Bpb, img: Image, root: bool, q: seq<nat>, sd: nat, o: nat, n: nat)
    requires IsDirectory(g, img, root, q)
  {
    && sd < SectorCount(g, root, q) && o < 16
    && if root then FirstFreeRun(Slots(g, img, root, q), 16 * sd + o, n)
       else FirstFreeRun(SectorSlots(img[DirSector(g, img, root, q, sd)]), o, n) && NoneBefore(g, img, root, q, sd, n)
  }

  /** There is at most one such place. */
  lemma FoundOnce(g: Bpb, img: Image, root: bool, q: seq<nat>, sd: nat, o: nat, sd': nat, o': nat, n: nat)
    requires IsDirectory(g, img, root, q) && IsFound(g, img, root, q, sd, o, n) && IsFound(g, img, root, q, sd', o', n)
    ensures sd == sd' && o == o'
  {
    hide IsDirectory, SectorCount, DirSector, Slots, SectorSlots, FreeRun;
    if root {
      assert 16 * sd + o == 16 * sd' + o';
    } else {
      RowsExclude(SectorSlots(img[DirSector(g, img, root, q, sd)]), o, n);
      RowsExclude(SectorSlots(img[DirSector(g, img, root, q, sd')]), o', n);
    }
  }

  /** It is a row of unused slots of the directory. */
  lemma FoundFree(g: Bpb, img: Image, root: bool, q: seq<nat>, sd: nat, o: nat, n: nat)
    requires IsDirectory(g, img, root, q) && IsFound(g, img, root, q, sd, o, n) && n > 0
    ensures FreeRun(Slots(g, img, root, q), 16 * sd + o, n)
  {
    hide IsDirectory, SectorCount, DirSector, Slots, SectorSlots, FreeRun;
    if !root {
      RowsExclude(SectorSlots(img[DirSector(g, img, root, q, sd)]), o, n);
      RowInSlots(g, img, q, sd, o, n);
    }
  }

  /** What the search must meet so that the entries can be written: the row it finds lies in one sector. */
  ghost predicate HasRoom(g: Bpb, img: Image, root: bool, q: seq<nat>, n: nat)
    requires IsDirectory(g, img, root, q)
  {
    if root then exists i: nat :: FirstFreeRun(Slots(g, img, root, q), i, n) && i % 16 + n <= 16
    else exists sd: nat :: sd < SectorCount(g, root, q) && !NoFreeRun(SectorSlots(img[DirSector(g, img, root, q, sd)]), n)
  }

  /**
   A fixed root for which the search goes wrong: the first row of two free slots is the last slot of
   its first sector and the first of its second, and the third sector is free altogether. A name of
   one long-name slot needs two, so it cannot be put.
   */
  lemma CrossingRow() returns (g: Bpb, img: Image)
    ensures g.WellFormed(|img|) && IsDirectory(g, img, true, [])
    ensures FirstFreeRun(Slots(g, img, true, []), 15, 2) && FreeRun(Slots(g, img, true, []), 32, 16)
    ensures !HasRoom(g, img, true, [], 2)
    ensures forall name, u :: u != [] && |Unicode.Utf16(u)| <= 13 ==> !NameHasRoom(g, img, true, [], name, u)
  {
    hide *;
    var used, free;
    g, img, used, free := CrossingImage();
    CrossingSlots(g, img, used, free);
    CrossingFirst(Slots(g, img, true, []));
    NoRoomAcross(g, img);
    forall name, u | u != [] && |Unicode.Utf16(u)| <= 13 ensures !NameHasRoom(g, img, true, [], name, u) {
      OneSlotName(g, img, name, u);
    }
  }

  lemma CrossingImage() returns (g: Bpb, img: Image, used: Sector, free: Sector)
    ensures g.WellFormed(|img|) && IsDirectory(g, img, true, [])
    ensures |img| == 12 && g.RootDirSector() == 3 && g.RootDirSectorCount() == 3
    ensures (forall j :: 0 <= j < 512 ==> used[j] == 0x41 && free[j] == 0)
    ensures img[3] == used[480 := 0] && img[4] == used[0 := 0] && img[5] == free
  {
    hide *;
    used, free := seq(512, _ => 0x41), seq(512, _ => 0);
    g := CrossingLayout();
    img := [free, free, free, used[480 := 0], used[0 := 0], free, free, free, free, free, free, free];
    IsRoot(g, img);
  }

  lemma CrossingLayout() returns (g: Bpb)
    ensures g.WellFormed(12) && g.kind == Fat16 && g.RootDirSector() == 3 && g.RootDirSectorCount() == 3
  {
    g := Bpb(Fat16, 0, 1, 2, 1, 48, 1, 12);
    assert g.RootDirSectorCount() == 3;
    assert g.DataSectorCount() == 6;
    assert g.ClusterCount() == 6;
    LayoutFits(g);
  }

  lemma LayoutFits(g: Bpb)
    requires g == Bpb(Fat16, 0, 1, 2, 1, 48, 1, 12) && g.RootDirSectorCount() == 3 && g.ClusterCount() == 6
    ensures g.WellFormed(12)
  {
    hide Bpb.RootDirSectorCount, Bpb.ClusterCount;
  }

  lemma IsRoot(g: Bpb, img: Image)
    requires g.WellFormed(|img|) && g.kind == Fat16 && g.RootDirSectorCount() > 0
    ensures IsDirectory(g, img, true, [])
  {
    hide Bpb.WellFormed, Bpb.RootDirSectorCount;
  }

  lemma NoRoomAcross(g: Bpb, img: Image)
    requires IsDirectory(g, img, true, [])
    requires forall i: nat :: FirstFreeRun(Slots(g, img, true, []), i, 2) ==> i == 15
    ensures !HasRoom(g, img, true, [], 2)
  {
    hide IsDirectory, Slots, FirstFreeRun;
  }

  lemma OneSlotName(g: Bpb, img: Image, name: seq<byte>, u: Unicode.Text)
    requires IsDirectory(g, img, true, []) && !HasRoom(g, img, true, [], 2)
    requires u != [] && |Unicode.Utf16(u)| <= 13
    ensures !NameHasRoom(g, img, true, [], name, u)
  {
    hide IsDirectory, HasRoom, Unicode.Utf16, Unicode.IsReading;
    Unicode.Utf16First(u);
    assert SlotCount(|Unicode.Utf16(u)|) == 1;
  }

  lemma CrossingSlots(g: Bpb, img: Image, used: Sector, free: Sector)
    requires IsDirectory(g, img, true, []) && |img| == 12 && g.RootDirSector() == 3 && g.RootDirSectorCount() == 3
    requires (forall j :: 0 <= j < 512 ==> used[j] == 0x41 && free[j] == 0)
    requires img[3] == used[480 := 0] && img[4] == used[0 := 0] && img[5] == free
    ensures var slots := Slots(g, img, true, []);
      |slots| == 48 && forall i :: 0 <= i < 48 ==> (IsUnused(slots[i]) <==> i == 15 || i == 16 || i >= 32)
  {
    hide IsDirectory, Bpb.RootDirSector, Bpb.RootDirSectorCount;
    RootSlots(g, img, []);
    forall i | 0 <= i < 48
      ensures IsUnused(Slots(g, img, true, [])[i]) <==> i == 15 || i == 16 || i >= 32
    {
      RootSlotAt(g, img, [], i / 16, i % 16);
    }
  }

  lemma CrossingFirst(slots: seq<DirEntry.Entry>)
    requires |slots| == 48 && forall i :: 0 <= i < 48 ==> (IsUnused(slots[i]) <==> i == 15 || i == 16 || i >= 32)
    ensures FirstFreeRun(slots, 15, 2) && FreeRun(slots, 32, 16)
    ensures forall i: nat :: FirstFreeRun(slots, i, 2) ==> i == 15
  {
    hide IsUnused;
    forall i: nat | i < 15 ensures !FreeRun(slots, i, 2) {
      assert !IsUnused(slots[i]);
    }
  }

  /** The choice between the two searches in `fput`, by the first sector of the directory; each finds the first row it can. */
  method FindSlots(vol: Volume, directorySector: u32, n: nat, ghost root: bool, ghost q: seq<nat>)
    returns (ok: bool, sector: u32, offset: nat, ghost sd: nat)
    requires vol.Valid() && IsDirectory(vol.g, vol.image, root, q) && n > 0
    requires 0 < SectorCount(vol.g, root, q) && directorySector == DirSector(vol.g, vol.image, root, q, 0)
    requires vol.g.kind == Fat16 ==> vol.g.RootDirSectorCount() > 0
    ensures ok ==>
      && IsFound(vol.g, vol.image, root, q, sd, offset / 32, n) && offset % 32 == 0
      && sector == DirSector(vol.g, vol.image, root, q, sd)
    ensures ok && offset + 32 * n <= 512 <==> HasRoom(vol.g, vol.image, root, q, n)
  {
    hide *;
    ok, sector, offset, sd := false, 0, 0, 0;
    WhichDirectory(vol.g, vol.image, root, q, directorySector);
    if vol.g.kind == Fat16 && directorySector == vol.g.RootDirSector() {
      ghost var first;
      ok, sector, offset, first := FindFreeSlotsRoot(vol, n, q);
      sd := first / 16;
      RoomInRoot(vol.g, vol.image, q, first, sector, offset, n, ok);
    } else {
      var directoryCluster := vol.g.ClusterFromSector(directorySector);
      if directoryCluster < 2 {
        return;
      }
      ok, sector, offset, sd := FindFreeSlots(vol, directoryCluster, n, q);
      RoomInChain(vol.g, vol.image, q, sd, sector, offset, n, ok);
    }
  }

  lemma WhichDirectory(g: Bpb, img: Image, root: bool, q: seq<nat>, directorySector: u32)
    requires IsDirectory(g, img, root, q) && (g.kind == Fat16 ==> g.RootDirSectorCount() > 0)
    requires 0 < SectorCount(g, root, q) && directorySector == DirSector(g, img, root, q, 0)
    ensures root <==> g.kind == Fat16 && directorySector == g.RootDirSector()
    ensures !root ==> g.ClusterFromSector(directorySector) == Head(q) && Head(q) >= 2
  {
    hide Bpb.WellFormed, TableImage.TableOf, DirSector, Bpb.RootDirSectorCount, Bpb.RootDirSector, Bpb.ClusterToSector,
      Bpb.ClusterFromSector, IsFile, Bpb.MaxCluster;
    if root {
      FatDirs.RootSector(g, img, q, 0);
    } else {
      FatDirs.ChainSector(g, img, q, 0);
      Division(0, g.spc, 0, 0);
      NoWrap(g, |img|);
      ClusterInside(g, |img|, q[0], 0);
      ClusterSectorRoundTrip(g, |img|, q[0], 0, directorySector);
    }
  }

  lemma RoomInRoot(g: Bpb, img: Image, q: seq<nat>, first: nat, sector: nat, offset: nat, n: nat, ok: bool)
    requires IsDirectory(g, img, true, q) && n > 0
    requires ok ==> FirstFreeRun(Slots(g, img, true, q), first, n) && 0 <= first / 16 < SectorCount(g, true, q)
    requires ok ==> offset == 32 * (first % 16)
    requires !ok ==> NoFreeRun(Slots(g, img, true, q), n)
    ensures 0 <= first / 16
    ensures ok ==> IsFound(g, img, true, q, first / 16, offset / 32, n) && offset % 32 == 0
    ensures ok && offset + 32 * n <= 512 <==> HasRoom(g, img, true, q, n)
  {
    hide IsDirectory, SectorCount, Slots, FreeRun;
  }

  lemma RoomInChain(g: Bpb, img: Image, q: seq<nat>, sd: nat, sector: nat, offset: nat, n: nat, ok: bool)
    requires IsDirectory(g, img, false, q) && n > 0
    requires ok ==> FoundInSector(g, img, false, q, sd, sector, offset, n)
    requires !ok ==> NoneBefore(g, img, false, q, SectorCount(g, false, q), n)
    ensures ok ==>
      && IsFound(g, img, false, q, sd, offset / 32, n) && offset % 32 == 0
      && sector == DirSector(g, img, false, q, sd)
    ensures ok && offset + 32 * n <= 512 <==> HasRoom(g, img, false, q, n)
  {
    hide IsDirectory, SectorCount, Slots, DirSector, SectorSlots, FreeRun;
    if ok {
      RowsExclude(SectorSlots(img[sector]), offset / 32, n);
      RowInSlots(g, img, q, sd, offset / 32, n);
    }
  }

  /** A row inside one sector is a row of the directory. */
  lemma RowInSlots(g: Bpb, img: Image, q: seq<nat>, sd: nat, o: nat, n: nat)
    requires IsDirectory(g, img, false, q) && sd < SectorCount(g, false, q) && n > 0
    requires FreeRun(SectorSlots(img[DirSector(g, img, false, q, sd)]), o, n)
    ensures o < 16 && o + n <= 16 && FreeRun(Slots(g, img, false, q), 16 * sd + o, n)
  {
    hide IsDirectory, SectorCount, DirSector, IsUnused, SlotAt;
    var u, v := SectorSlots(img[DirSector(g, img, false, q, sd)]), Slots(g, img, false, q);
    assert |v| == 16 * SectorCount(g, false, q);
    forall j | 16 * sd + o <= j < 16 * sd + o + n ensures IsUnused(v[j]) {
      assert j / 16 == sd && j % 16 == j - 16 * sd;
      RoundTrips.SlotBefore(g, img, false, q, sd, j);
      assert IsUnused(u[j - 16 * sd]);
    }
  }

  // ----- the transaction -----

  /**
   What a new file's put has done when it succeeds: from `a` to `b`, the data went to a fresh chain
   `p`, the slots that the search finds became the entries of the file, and that is all; a
   handle on the entry is good, and the clusters hold the source followed by zeros.
   */
  ghost predicate PutDone(g: Bpb, a: Image, b: Image, root: bool, q: seq<nat>, sd: nat, o: nat, name: seq<byte>,
                          source: seq<byte>, p: seq<nat>, t: Unicode.Text, now: DirEntry.Stamp)
    requires IsDirectory(g, a, root, q) && |source| < TWO32
  {
    var n := SlotCount(|Unicode.Utf16(t)|);
    && |b| == |a| && IsFound(g, a, root, q, sd, o, n + 1) && o + n + 1 <= 16
    && var s := DirSector(g, a, root, q, sd);
       && Head(p) < TWO32
       && EntriesWritten(g.kind, a[s], b[s], 32 * o, name, DosFold(name).0, Head(p), |source|, t, now)
       && Stored(g, a, b[s := a[s]], source, p)
       && IsHandle(g, b, p, Head(p), |source|, s, 32 * (o + n))
       && FatFiles.EntryMatches(g, b, s, 32 * (o + n), Head(p), |source|)
       && OnData(g, p) && Bytes(g, b, p) == Filled(source, g.ClusterBytes())
  }

  /** Every condition the put depends on: an acceptable name, a row of slots where the search finds it, enough free clusters. */
  ghost predicate CanPut(g: Bpb, a: Image, root: bool, q: seq<nat>, name: seq<byte>, source: seq<byte>)
    requires IsDirectory(g, a, root, q)
  {
    && g.ClusterBytes() > 0 && Ceil(|source|, g.ClusterBytes()) <= |Chains.Free(TableImage.TableOf(g, a))|
    && exists u: Unicode.Text :: NameHasRoom(g, a, root, q, name, u)
  }

  ghost predicate NameHasRoom(g: Bpb, a: Image, root: bool, q: seq<nat>, name: seq<byte>, u: Unicode.Text)
    requires IsDirectory(g, a, root, q)
  {
    u != [] && Unicode.IsReading(u, name, MAX_UNITS) && HasRoom(g, a, root, q, SlotCount(|Unicode.Utf16(u)|) + 1)
  }

  /**
   The transaction of `fput` for a file that is not there yet: it succeeds exactly under `CanPut`;
   when it fails, the table is what it was, and nothing outside free clusters has changed.
   */
  method PutNew(vol: Volume, source: seq<byte>, name: seq<byte>, directorySector: u32,
                ghost root: bool, ghost q: seq<nat>)
    returns (ok: bool, ghost sd: nat, ghost o: nat, ghost p: seq<nat>, ghost t: Unicode.Text, ghost now: DirEntry.Stamp)
    requires vol.Valid() && |source| < TWO32 && Unicode.NoZero(name)
    requires IsDirectory(vol.g, vol.image, root, q)
    requires 0 < SectorCount(vol.g, root, q) && directorySector == DirSector(vol.g, vol.image, root, q, 0)
    requires vol.g.kind == Fat16 ==> vol.g.RootDirSectorCount() > 0
    modifies vol
    ensures vol.Valid() && |vol.image| == |old(vol.image)|
    ensures ok <==> CanPut(vol.g, old(vol.image), root, q, name, source)
    ensures ok ==> PutDone(vol.g, old(vol.image), vol.image, root, q, sd, o, name, source, p, t, now)
    ensures !ok ==> vol.Table() == old(vol.Table())
    ensures !ok ==> Kept(vol.g, |old(vol.image)|, 0, old(vol.image), [], vol.image, [])
  {
    hide *;
    vol.TableFacts();
    ghost var g, a := vol.g, vol.image;
    ok, sd, o, p, now := false, 0, 0, [], DirEntry.NO_TIME;
    NothingKept(g, a);
    FreshMeans(g, a, a, [], 0);
    var utf16Name := new u16[255](_ => 0);
    var n;
    n, t := Unicode.ToUtf16(name, utf16Name);
    NameRooms(g, a, root, q, name, source, n, t, utf16Name.Length);
    if n == 0 {
      return;
    }
    var entriesNeeded := SlotCount(n) + 1;
    var dosName := DosNameOf(name);
    var first;
    ok, first, p := StoreData(vol, source);
    vol.TableFacts();
    if !ok {
      return;
    }
    ghost var c := vol.image;
    StoredMeans(g, a, c, source, p);
    DirectoryKept(g, a, c, p, root, q);
    DirectoryKeptRoom(g, a, c, root, q, entriesNeeded);
    var sector, offset;
    ok, sector, offset, sd := FindSlots(vol, directorySector, entriesNeeded, root, q);
    if ok {
      o := offset / 32;
      FoundMeans(g, c, root, q, sd, offset, entriesNeeded);
      DirSectorForeign(g, c, [], root, q, sd);
      RoundTrips.DirSectorOutside(g, c, root, q, sd);
      FitsMeans(name, offset, n, t, 255);
      ghost var t', now';
      ok, t', now' := WriteEntries(vol, sector, offset, name, dosName, first, |source|);
      if ok {
        ReadingIs(g.kind, c[sector], vol.image[sector], offset, name, dosName, first, |source|, t', now', t);
        now := now';
        FoundSame(g, a, c, root, q, sd, o, entriesNeeded);
        PutIsDone(g, a, c, vol.image, root, q, sd, offset, sector, name, source, p, first, t, now);
      }
    }
    if !ok {
      Undo(vol, first, a, source, p);
      vol.TableFacts();
    }
  }

  lemma NameRooms(g: Bpb, a: Image, root: bool, q: seq<nat>, name: seq<byte>, source: seq<byte>, n: nat, t: Unicode.Text,
                  max: nat)
    requires IsDirectory(g, a, root, q) && max == 255
    requires n > 0 ==> t != [] && Unicode.IsReading(t, name, max) && |Unicode.Utf16(t)| == n
    requires forall u: Unicode.Text :: u != [] && Unicode.IsReading(u, name, max) ==> n > 0 && u == t
    ensures CanPut(g, a, root, q, name, source) <==>
      && g.ClusterBytes() > 0 && Ceil(|source|, g.ClusterBytes()) <= |Chains.Free(TableImage.TableOf(g, a))|
      && n > 0 && HasRoom(g, a, root, q, SlotCount(n) + 1)
  {
    hide IsDirectory, HasRoom, Unicode.IsReading, Unicode.Utf16, SlotCount, Ceil, Chains.Free, TableImage.TableOf;
    if n > 0 && HasRoom(g, a, root, q, SlotCount(n) + 1) {
      assert NameHasRoom(g, a, root, q, name, t);
    }
  }

  lemma DirectoryKeptRoom(g: Bpb, a: Image, c: Image, root: bool, q: seq<nat>, n: nat)
    requires IsDirectory(g, a, root, q) && IsDirectory(g, c, root, q) && |c| == |a|
    requires Slots(g, c, root, q) == Slots(g, a, root, q)
    requires forall j :: 0 <= j < SectorCount(g, root, q) ==>
      && DirSector(g, c, root, q, j) == DirSector(g, a, root, q, j)
      && c[DirSector(g, a, root, q, j)] == a[DirSector(g, a, root, q, j)]
    ensures HasRoom(g, c, root, q, n) <==> HasRoom(g, a, root, q, n)
  {
    hide IsDirectory, SectorCount, DirSector, Slots, FirstFreeRun, NoFreeRun, SectorSlots;
  }

  lemma FoundSame(g: Bpb, a: Image, c: Image, root: bool, q: seq<nat>, sd: nat, o: nat, n: nat)
    requires IsDirectory(g, a, root, q) && IsDirectory(g, c, root, q) && |c| == |a|
    requires Slots(g, c, root, q) == Slots(g, a, root, q)
    requires forall j :: 0 <= j < SectorCount(g, root, q) ==>
      && DirSector(g, c, root, q, j) == DirSector(g, a, root, q, j)
      && c[DirSector(g, a, root, q, j)] == a[DirSector(g, a, root, q, j)]
    requires IsFound(g, c, root, q, sd, o, n)
    ensures IsFound(g, a, root, q, sd, o, n)
  {
    hide IsDirectory, SectorCount, DirSector, Slots, FirstFreeRun, NoFreeRun, SectorSlots;
  }

  lemma FoundMeans(g: Bpb, c: Image, root: bool, q: seq<nat>, sd: nat, offset: nat, n: nat)
    requires IsDirectory(g, c, root, q) && IsFound(g, c, root, q, sd, offset / 32, n) && offset % 32 == 0
    ensures sd < SectorCount(g, root, q) && 0 <= offset / 32 < 16 && offset == 32 * (offset / 32)
  {
    hide IsDirectory, SectorCount, DirSector, Slots, SectorSlots, FirstFreeRun, NoneBefore;
  }

  /** The text of the written entries is the one the name was read as before. */
  lemma ReadingIs(kind: FatKind, s: Sector, s': Sector, offset: nat, name: seq<byte>, dosName: seq<byte>, cluster: u32,
                  size: u32, t': Unicode.Text, now: DirEntry.Stamp, t: Unicode.Text)
    requires EntriesWritten(kind, s, s', offset, name, dosName, cluster, size, t', now)
    requires forall u: Unicode.Text :: u != [] && Unicode.IsReading(u, name, 255) ==> u == t
    ensures EntriesWritten(kind, s, s', offset, name, dosName, cluster, size, t, now)
  {
    hide Unicode.IsReading, Unicode.Utf16, Run, Concat, SlotCount, DirEntry.NewEntry, ChecksumOf;
    assert t' == t;
  }

  lemma PutIsDone(g: Bpb, a: Image, c: Image, b: Image, root: bool, q: seq<nat>, sd: nat, offset: nat, sector: nat,
                  name: seq<byte>, source: seq<byte>, p: seq<nat>, first: u32, t: Unicode.Text,
                  now: DirEntry.Stamp)
    requires IsDirectory(g, a, root, q) && |source| < TWO32 && Stored(g, a, c, source, p) && Head(p) == first
    requires offset % 32 == 0 && IsFound(g, a, root, q, sd, offset / 32, SlotCount(|Unicode.Utf16(t)|) + 1)
    requires sector == DirSector(g, a, root, q, sd) && |b| == |c| && b == c[sector := b[sector]]
    requires EntriesWritten(g.kind, c[sector], b[sector], offset, name, DosFold(name).0, first, |source|, t, now)
    ensures PutDone(g, a, b, root, q, sd, offset / 32, name, source, p, t, now)
  {
    hide *;
    StoredMeans(g, a, c, source, p);
    DirectoryKept(g, a, c, p, root, q);
    FoundMeans(g, a, root, q, sd, offset, SlotCount(|Unicode.Utf16(t)|) + 1);
    EntryStands(g, c[sector], b[sector], offset / 32, name, DosFold(name).0, first, |source|, t, now);
    HeadSmall(g, c, p, first);
    NewHandle(g, c, b, p, sector, 32 * (offset / 32 + SlotCount(|Unicode.Utf16(t)|)), source, DosFold(name).0, first, now);
    assert b[sector := a[sector]] == c;
    PutDoneIs(g, a, b, root, q, sd, offset / 32, name, source, p, t, now);
  }

  lemma PutDoneIs(g: Bpb, a: Image, b: Image, root: bool, q: seq<nat>, sd: nat, o: nat, name: seq<byte>,
                  source: seq<byte>, p: seq<nat>, t: Unicode.Text, now: DirEntry.Stamp)
    requires IsDirectory(g, a, root, q) && |source| < TWO32
    requires |b| == |a| && IsFound(g, a, root, q, sd, o, SlotCount(|Unicode.Utf16(t)|) + 1)
    requires o + SlotCount(|Unicode.Utf16(t)|) + 1 <= 16 && sd < SectorCount(g, root, q) && Head(p) < TWO32
    requires var n, s := SlotCount(|Unicode.Utf16(t)|), DirSector(g, a, root, q, sd);
       && EntriesWritten(g.kind, a[s], b[s], 32 * o, name, DosFold(name).0, Head(p), |source|, t, now)
       && Stored(g, a, b[s := a[s]], source, p)
       && IsHandle(g, b, p, Head(p), |source|, s, 32 * (o + n))
       && FatFiles.EntryMatches(g, b, s, 32 * (o + n), Head(p), |source|)
       && g.WellFormed(|b|) && OnData(g, p) && g.ClusterBytes() > 0 && Bytes(g, b, p) == Filled(source, g.ClusterBytes())
    ensures PutDone(g, a, b, root, q, sd, o, name, source, p, t, now)
  {
    hide IsDirectory, SectorCount, DirSector, IsFound, Stored, IsHandle, FatFiles.EntryMatches, EntriesWritten, Unicode.Utf16,
      SlotCount, Bytes, Filled, OnData, Bpb.WellFormed;
  }

  lemma HeadSmall(g: Bpb, c: Image, p: seq<nat>, first: nat)
    requires g.WellFormed(|c|) && IsFile(TableImage.TableOf(g, c), g.Eoc(), p) && Head(p) == first
    ensures g.kind == Fat16 ==> first < 0x1_0000
  {
    hide TableImage.TableOf, Bpb.MaxCluster;
    FileOnData(g, c, p);
  }

  /** The short entry stands after the run. */
  lemma EntryStands(g: Bpb, s: Sector, s': Sector, o: nat, name: seq<byte>, dosName: seq<byte>, cluster: u32, size: u32,
                    t: Unicode.Text, now: DirEntry.Stamp)
    requires EntriesWritten(g.kind, s, s', 32 * o, name, dosName, cluster, size, t, now)
    ensures |dosName| == 11 && o + SlotCount(|Unicode.Utf16(t)|) + 1 <= 16 && SECTOR_SIZE == 512 && ENTRY_BYTES == 32
    ensures FatFiles.EntryAt(s', 32 * (o + SlotCount(|Unicode.Utf16(t)|))) ==
      DirEntry.NewEntry(g.kind, dosName, cluster, size, now)
  {
    hide Run, Concat, Unicode.Utf16, Unicode.IsReading, ChecksumOf, DirEntry.NewEntry, FatFiles.EntryAt, Patched;
    var n := SlotCount(|Unicode.Utf16(t)|);
    RoundTrips.ReadWritten(g.kind, s, s', o, name, dosName, cluster, size, t, now);
    RoundTrips.PatchedSlot(s, o, Run(Unicode.Utf16(t), ChecksumOf(dosName))
                                 + [DirEntry.NewEntry(g.kind, dosName, cluster, size, now)], o + n);
  }

  /** A handle on the new entry. */
  lemma NewHandle(g: Bpb, c: Image, b: Image, p: seq<nat>, s: nat, off: nat, source: seq<byte>, dosName: seq<byte>,
                  first: u32, now: DirEntry.Stamp)
    requires g.WellFormed(|c|) && TableImage.Mirrored(g, c) && IsFile(TableImage.TableOf(g, c), g.Eoc(), p) && Head(p) == first
    requires g.ClusterBytes() > 0 && |p| == Ceil(|source|, g.ClusterBytes()) && OnData(g, p) && |source| < TWO32
    requires Foreign(g, c, p, s) && s < |c| == |b| && b == c[s := b[s]] && off + ENTRY_BYTES <= SECTOR_SIZE && |dosName| == 11
    requires FatFiles.EntryAt(b[s], off) == DirEntry.NewEntry(g.kind, dosName, first, |source|, now)
    requires g.kind == Fat16 ==> first < 0x1_0000
    ensures IsHandle(g, b, p, first, |source|, s, off)
    ensures FatFiles.EntryMatches(g, b, s, off, first, |source|)
    ensures Bytes(g, b, p) == Bytes(g, c, p)
  {
    hide *;
    CeilIs(|source|, g.ClusterBytes());
    DirEntry.NewReadBack(g.kind, dosName, first, |source|, now);
    EntryApart(g, c, p, s, b[s]);
    ForeignOutside(g, c, p, s);
    TableElsewhere(g, c, s, b[s]);
    HandleIs(g, c, b, p, first, |source|, s, off);
  }

  lemma ForeignOutside(g: Bpb, c: Image, p: seq<nat>, s: nat)
    requires g.WellFormed(|c|) && Foreign(g, c, p, s)
    ensures s < |c| && !(g.FatStart() <= s < g.FatEnd())
  {
  }

  lemma HandleIs(g: Bpb, c: Image, b: Image, p: seq<nat>, first: u32, size: u32, s: nat, off: nat)
    requires g.WellFormed(|c|) && |b| == |c| && TableImage.Mirrored(g, b)
    requires TableImage.TableOf(g, b) == TableImage.TableOf(g, c)
    requires IsFile(TableImage.TableOf(g, c), g.Eoc(), p) && Head(p) == first && size <= |p| * g.ClusterBytes()
    requires Foreign(g, c, p, s) && off + ENTRY_BYTES <= SECTOR_SIZE
    requires s < |b| && DirEntry.FirstCluster(g.kind, FatFiles.EntryAt(b[s], off)) == first
    requires DirEntry.FileSize(FatFiles.EntryAt(b[s], off)) == size
    ensures IsHandle(g, b, p, first, size, s, off) && FatFiles.EntryMatches(g, b, s, off, first, size)
  {
    hide TableImage.TableOf, TableImage.Mirrored, Bpb.WellFormed, IsFile, FatFiles.EntryAt, DirEntry.FirstCluster,
      DirEntry.FileSize, Bpb.MaxCluster, Bpb.ClusterFromSector, Bpb.FatStart, Bpb.FatEnd, Bpb.DataStart;
  }

  // ----- replacing an existing file -----

  /** The chain that `fput` goes on with: an entry of size zero counts as one without clusters. */
  function UsedChain(e: DirEntry.Entry, p: seq<nat>): (r: seq<nat>)
    ensures r == if e[28] == 0 && e[29] == 0 && e[30] == 0 && e[31] == 0 then [] else p
  {
    DirEntry.EntryFields(Fat16, e);
    if DirEntry.FileSize(e) == 0 then [] else p
  }

  /** A file was replaced: its chain has become `q`, which holds the source and zeros, and its entry says so. */
  ghost predicate Replaced(g: Bpb, a: Image, b: Image, p: seq<nat>, q: seq<nat>, source: seq<byte>, d: nat, off: nat) {
    && g.WellFormed(|a|) && |b| == |a| && g.ClusterBytes() > 0
    && Kept(g, d, off, a, p, b, q) && HeadKept(a, b, d, off)
    && IsHandle(g, b, q, Head(q), |source|, d, off) && FatFiles.EntryMatches(g, b, d, off, Head(q), |source|)
    && OnData(g, q) && |q| == Ceil(|source|, g.ClusterBytes()) && Bytes(g, b, q) == Filled(source, g.ClusterBytes())
  }

  /**
   The transaction of `fput` for a file that is there: it succeeds exactly when the file's clusters and
   the free ones are enough, and otherwise changes nothing.
   */
  method PutExisting(vol: Volume, source: seq<byte>, sector: u32, offset: nat, ghost p: seq<nat>)
    returns (ok: bool, ghost q: seq<nat>)
    requires vol.Valid() && |source| < TWO32 && offset + ENTRY_BYTES <= SECTOR_SIZE && sector < |vol.image|
    requires var e := FatFiles.EntryAt(vol.image[sector], offset);
      IsHandle(vol.g, vol.image, p, DirEntry.FirstCluster(vol.g.kind, e), DirEntry.FileSize(e), sector, offset)
    modifies vol
    ensures vol.Valid() && |vol.image| == |old(vol.image)| && vol.g.ClusterBytes() > 0
    ensures var p0 := UsedChain(FatFiles.EntryAt(old(vol.image)[sector], offset), p);
      && (ok <==> Ceil(|source|, vol.g.ClusterBytes()) <= |p0| + |Chains.Free(old(vol.Table()))|)
      && (ok ==> Replaced(vol.g, old(vol.image), vol.image, p0, q, source, sector, offset))
    ensures !ok ==> vol.image == old(vol.image)
  {
    hide *;
    vol.TableFacts();
    ghost var g, a := vol.g, vol.image;
    ok, q := false, [];
    SourceFits(g, a, source);
    var read, buffer := vol.ReadSector(sector);
    var e := FatFiles.EntryAt(buffer, offset);
    ghost var p0 := UsedChain(e, p);
    UsedHandle(g, a, e, p, sector, offset);
    var required := NeededCluster(vol.g, |source|);
    NeededFits(g, a, source, p0);
    if |source| != 0 && required == 0 {
      return;
    }
    var first := DirEntry.FirstCluster(vol.g.kind, e);
    if DirEntry.FileSize(e) != 0 && first < 2 {
      return;
    }
    if DirEntry.FileSize(e) == 0 {
      first := 0;
    }
    ok, q := ReplaceData(vol, source, sector, offset, first, required, p0);
  }

  /** The chain is resized and filled, and the entry follows. */
  method ReplaceData(vol: Volume, source: seq<byte>, sector: u32, offset: nat, first0: nat, required: nat, ghost p: seq<nat>)
    returns (ok: bool, ghost q: seq<nat>)
    requires vol.Valid() && IsHandle(vol.g, vol.image, p, first0, 0, sector, offset) && vol.g.ClusterBytes() > 0
    requires |source| < TWO32 && required == Ceil(|source|, vol.g.ClusterBytes()) < TWO32 && first0 < TWO32
    modifies vol
    ensures vol.Valid() && |vol.image| == |old(vol.image)|
    ensures ok <==> required <= |p| + |Chains.Free(old(vol.Table()))|
    ensures ok ==> Replaced(vol.g, old(vol.image), vol.image, p, q, source, sector, offset)
    ensures !ok ==> vol.image == old(vol.image)
  {
    hide *;
    vol.TableFacts();
    ghost var g, a := vol.g, vol.image;
    HandleParts(g, a, p, first0, 0, sector, offset);
    var first;
    ok, first, q := vol.ResizeChain(first0, required);
    vol.TableFacts();
    EnsuredFromResize(g, a, vol.image, p, q, required, ok, sector, offset);
    if !ok {
      return;
    }
    ghost var b := vol.image;
    ok := WriteFileData(vol, source, first, q, |a|);
    vol.TableFacts();
    ReplacedData(g, a, b, vol.image, p, q, source, sector, offset);
    if !ok {
      return;
    }
    ghost var c := vol.image;
    ReplaceEntry(vol, sector, offset, first, |source|, q);
    ReplacedIs(g, a, c, vol.image, p, q, source, sector, offset);
  }

  /** The last part: the entry gets its new size and first cluster. */
  method ReplaceEntry(vol: Volume, sector: u32, offset: nat, first: u32, size: u32, ghost q: seq<nat>)
    requires IsHandle(vol.g, vol.image, q, first, 0, sector, offset)
    modifies vol
    ensures vol.Valid() && |vol.image| == |old(vol.image)|
    ensures EntryStored(vol.g, sector, offset, old(vol.image), vol.image, q)
    ensures FatFiles.EntryMatches(vol.g, vol.image, sector, offset, first, size)
  {
    hide *;
    EntryPlace(vol.g, vol.image, q, first, sector, offset);
    ghost var g, a := vol.g, vol.image;
    var read, buffer := vol.ReadSector(sector);
    var e := FatFiles.EntryAt(buffer, offset);
    var now := FatFiles.CurrentDatetime();
    var e' := DirEntry.Updated(vol.g.kind, e, first, size, now);
    FatFiles.EntryFitsSector(buffer, offset, e');
    FatFiles.UpdatedHead(vol.g.kind, buffer, offset, first, size, now);
    var written := vol.WriteSector(sector, Patched(buffer, offset, e'));
    FatFiles.PatchedImageIs(a, sector, offset, e');
    StoreEntry(g, sector, offset, a, q, e');
    DirEntry.UpdatedReadBack(g.kind, e, first, size, now);
    SmallSize(size);
    FatFiles.EntryReadBack(g, a, sector, offset, e', first, size);
    StoredValid(g, sector, offset, a, vol.image, q);
    vol.ValidIs();
  }

  lemma SmallSize(size: u32)
    ensures size % TWO32 == size
  {
  }

  lemma EntryPlace(g: Bpb, a: Image, q: seq<nat>, first: nat, d: nat, off: nat)
    requires IsHandle(g, a, q, first, 0, d, off)
    ensures g.WellFormed(|a|) && TableImage.Mirrored(g, a) && Foreign(g, a, q, d) && d < |a|
    ensures off + ENTRY_BYTES <= SECTOR_SIZE && SECTOR_SIZE == 512 && ENTRY_BYTES == 32
    ensures g.kind == Fat16 ==> first < 0x1_0000
  {
    hide TableImage.TableOf, TableImage.Mirrored;
    HeadSmall(g, a, q, first);
  }

  lemma StoredValid(g: Bpb, d: nat, off: nat, a: Image, b: Image, q: seq<nat>)
    requires EntryStored(g, d, off, a, b, q) && g.WellFormed(|a|) && TableImage.Mirrored(g, a)
    ensures |b| == |a| && g.WellFormed(|b|) && TableImage.Mirrored(g, b)
  {
    hide TableImage.TableOf, TableImage.Mirrored, Bpb.WellFormed, TableKept, SectorsKept, OnData, Bytes;
  }

  lemma UsedHandle(g: Bpb, a: Image, e: DirEntry.Entry, p: seq<nat>, d: nat, off: nat)
    requires IsHandle(g, a, p, DirEntry.FirstCluster(g.kind, e), DirEntry.FileSize(e), d, off)
    ensures var p0 := UsedChain(e, p);
      && IsHandle(g, a, p0, Head(p0), 0, d, off) && IsFile(TableImage.TableOf(g, a), g.Eoc(), p0)
      && Head(p0) == (if DirEntry.FileSize(e) == 0 then 0 else DirEntry.FirstCluster(g.kind, e)) < TWO32
      && (DirEntry.FileSize(e) != 0 ==> DirEntry.FirstCluster(g.kind, e) >= 2)
  {
    hide TableImage.TableOf, TableImage.Mirrored, Bpb.WellFormed, Bpb.ClusterFromSector, Bpb.FatStart, Bpb.FatEnd, Bpb.DataStart,
      DirEntry.FileSize, DirEntry.FirstCluster, Bpb.MaxCluster;
    FileOnData(g, a, p);
    FatFiles.EntryFieldsFit(g.kind, e);
    if DirEntry.FileSize(e) != 0 && p == [] {
      Times(|p|, 0, g.ClusterBytes());
    }
  }

  /** Enough clusters are never more than the volume has. */
  lemma NeededFits(g: Bpb, a: Image, source: seq<byte>, p: seq<nat>)
    requires g.WellFormed(|a|) && |source| < TWO32 && g.spc > 0 && g.ClusterBytes() > 0
    requires IsFile(TableImage.TableOf(g, a), g.Eoc(), p)
    ensures |p| + |Chains.Free(TableImage.TableOf(g, a))| <= g.ClusterCount() < TWO32
  {
    hide TableImage.Entry, Bpb.ClusterCount, Ceil;
    var t := TableImage.TableOf(g, a);
    FileOnData(g, a, p);
    NoDataNoFile(g, a, p);
    WellFormedFacts(g, |a|);
    if |t| >= 2 {
      OwnedAndFree(t, g.Eoc(), p);
    }
  }

  lemma NoDataNoFile(g: Bpb, a: Image, p: seq<nat>)
    requires g.WellFormed(|a|) && IsFile(TableImage.TableOf(g, a), g.Eoc(), p)
    ensures |TableImage.TableOf(g, a)| < 2 ==> g.MaxCluster() == 0 && p == [] && Chains.Free(TableImage.TableOf(g, a)) == []
    ensures |TableImage.TableOf(g, a)| == g.MaxCluster() + 1
  {
    hide TableImage.Entry, Bpb.ClusterCount;
    MaxClusterIs(g, |a|);
    if p != [] {
      assert Chains.IsData(TableImage.TableOf(g, a), p[0]);
    }
  }

  /** Owned and free clusters are different data clusters. */
  lemma OwnedAndFree(t: Chains.Table, eoc: nat, p: seq<nat>)
    requires |t| <= eoc && 0 < eoc && IsFile(t, eoc, p) && |t| >= 2
    ensures |p| + |Chains.Free(t)| <= |t| - 2
  {
    var f := Chains.Free(t);
    Chains.FreeIsExact(t);
    ChainNotFree(t, eoc, p);
    if p != [] {
      Chains.ChainDistinct(t, eoc, p[0], p);
    }
    var both := p + f;
    assert forall i :: 0 <= i < |p| ==> p[i] in p;
    assert forall i :: 0 <= i < |f| ==> f[i] in f;
    Chains.DistinctCount(both, 2, |t|);
  }

  lemma EnsuredFromResize(g: Bpb, a: Image, b: Image, p: seq<nat>, q: seq<nat>, n: nat, ok: bool, d: nat, off: nat)
    requires IsHandle(g, a, p, Head(p), 0, d, off) && |b| == |a| && TableImage.Mirrored(g, b)
    requires g.WellFormed(|a|) && TableImage.FatFrame(g, a, b) && (!ok && n != 0 ==> b == a)
    requires Resized(TableImage.TableOf(g, a), TableImage.TableOf(g, b), g.Eoc(), p, n, q, ok)
    ensures ok <==> n <= |p| + |Chains.Free(TableImage.TableOf(g, a))|
    ensures ok ==> |q| == n && IsHandle(g, b, q, Head(q), 0, d, off) && Kept(g, d, off, a, p, b, q)
    ensures !ok ==> b == a
    ensures IsFile(TableImage.TableOf(g, b), g.Eoc(), q)
  {
    hide *;
    HandleParts(g, a, p, Head(p), 0, d, off);
    FatFiles.ResizeUndone(TableImage.TableOf(g, a), TableImage.TableOf(g, b), g.Eoc(), p, n, q, ok);
    EnsuredFrom(g, d, off, a, p, b, q, n, ok);
    FatFiles.EnsuredFacts(g, d, off, a, p, b, q, n, ok);
    Zero(n, g.ClusterBytes());
    EnsuredHandle(g, d, off, a, p, b, q, n, ok, Head(p), 0);
    HandleParts(g, b, q, Head(q), 0, d, off);
    AvailIs(g, a, p);
  }

  lemma AvailIs(g: Bpb, a: Image, p: seq<nat>)
    requires g.WellFormed(|a|)
    ensures FatFiles.Avail(g, a, p) == |p| + |Chains.Free(TableImage.TableOf(g, a))|
  {
  }

  lemma Zero(n: nat, cs: nat)
    ensures 0 <= n * cs
  {
    Times(0, n, cs);
  }

  lemma HandleParts(g: Bpb, a: Image, p: seq<nat>, first: nat, size: nat, d: nat, off: nat)
    requires IsHandle(g, a, p, first, size, d, off)
    ensures g.WellFormed(|a|) && TableImage.Mirrored(g, a) && IsFile(TableImage.TableOf(g, a), g.Eoc(), p) && Head(p) == first
    ensures Foreign(g, a, p, d) && off + ENTRY_BYTES <= SECTOR_SIZE
  {
    hide Bpb.WellFormed, TableImage.TableOf, TableImage.Mirrored, IsFile, Foreign;
  }

  /** A change without an entry is one with any entry. */
  lemma KeptAnyEntry(g: Bpb, a: Image, p: seq<nat>, b: Image, q: seq<nat>, d: nat, off: nat)
    requires Kept(g, |a|, 0, a, p, b, q)
    ensures Kept(g, d, off, a, p, b, q)
  {
    hide TableKept, Bpb.WellFormed, TableImage.TableOf, Foreign;
    forall s | 0 <= s < |a| && Foreign(g, a, p, s) ensures SectorKept(s == d, off, a[s], b[s]) {
      assert SectorKept(s == |a|, 0, a[s], b[s]);
    }
  }

  lemma SpanAnyEntry(g: Bpb, a: Image, b: Image, p: seq<nat>, data: seq<byte>, d: nat, off: nat)
    requires SpanWritten(g, |a|, 0, a, b, p, 0, data)
    ensures SpanWritten(g, d, off, a, b, p, 0, data)
  {
    hide Bpb.WellFormed, TableImage.TableOf, TableImage.Mirrored, OnData, Bytes, Patched, TableKept, SectorsKept;
    KeptAnyEntry(g, a, p, b, p, d, off);
  }

  lemma ReplacedData(g: Bpb, a: Image, b: Image, c: Image, p: seq<nat>, q: seq<nat>, source: seq<byte>, d: nat, off: nat)
    requires IsHandle(g, b, q, Head(q), 0, d, off) && Kept(g, d, off, a, p, b, q) && |b| == |a| == |c|
    requires g.ClusterBytes() > 0 && |q| == Ceil(|source|, g.ClusterBytes()) && TableImage.Mirrored(g, c)
    requires source == [] ==> c == b
    requires source != [] ==>
      SpanWritten(g, |a|, 0, b, c, q, 0, FirstPart(Filled(source, g.ClusterBytes()), |q| * g.ClusterBytes()))
    ensures g.WellFormed(|a|) && Kept(g, d, off, a, p, c, q) && IsHandle(g, c, q, Head(q), |source|, d, off)
    ensures IsHandle(g, c, q, Head(q), 0, d, off)
    ensures OnData(g, q) && Bytes(g, c, q) == Filled(source, g.ClusterBytes())
    ensures source == [] ==> q == []
  {
    hide *;
    HandleParts(g, b, q, Head(q), 0, d, off);
    FileOnData(g, b, q);
    CeilIs(|source|, g.ClusterBytes());
    CeilNone(g.ClusterBytes());
    KeptSelf(g, d, off, b, q);
    if source != [] {
      var data := FirstPart(Filled(source, g.ClusterBytes()), |q| * g.ClusterBytes());
      FatFiles.SpanFacts(g, |a|, 0, b, c, q, 0, data);
      KeptAnyEntry(g, b, q, c, q, d, off);
      SpanWhole(g, a, b, c, source, q);
      SpanAnyEntry(g, b, c, q, data, d, off);
      SpanKeepsHandle(g, d, off, b, c, q, 0, data, Head(q), 0);
    } else {
      EmptyFilled(g, b, q);
    }
    KeptTrans(g, d, off, a, p, b, q, c, q);
    HandleSize(g, c, q, Head(q), |source|, d, off);
  }

  lemma HandleSize(g: Bpb, c: Image, q: seq<nat>, first: nat, size: nat, d: nat, off: nat)
    requires IsHandle(g, c, q, first, 0, d, off) && size <= |q| * g.ClusterBytes()
    ensures IsHandle(g, c, q, first, size, d, off) && g.WellFormed(|c|)
  {
    hide Bpb.WellFormed, TableImage.TableOf, TableImage.Mirrored, IsFile, Foreign;
  }

  lemma ReplacedIs(g: Bpb, a: Image, c: Image, b: Image, p: seq<nat>, q: seq<nat>, source: seq<byte>, d: nat, off: nat)
    requires g.WellFormed(|a|) && |c| == |a| && g.ClusterBytes() > 0 && Foreign(g, a, p, d)
    requires Kept(g, d, off, a, p, c, q) && IsHandle(g, c, q, Head(q), |source|, d, off) && OnData(g, q)
    requires |q| == Ceil(|source|, g.ClusterBytes()) && Bytes(g, c, q) == Filled(source, g.ClusterBytes())
    requires EntryStored(g, d, off, c, b, q) && FatFiles.EntryMatches(g, b, d, off, Head(q), |source|)
    ensures Replaced(g, a, b, p, q, source, d, off)
  {
    hide *;
    HandleParts(g, c, q, Head(q), |source|, d, off);
    EntryStoredHandle(g, d, off, c, b, q, Head(q), |source|);
    FatFiles.EntryStoredKept(g, d, off, c, b, q);
    KeptTrans(g, d, off, a, p, c, q, b, q);
    KeptHead(g, d, off, a, p, b, q);
    StoredBytes(g, d, off, c, b, q);
    ReplacedMeans(g, a, b, p, q, source, d, off);
  }

  lemma StoredBytes(g: Bpb, d: nat, off: nat, a: Image, b: Image, q: seq<nat>)
    requires EntryStored(g, d, off, a, b, q) && OnData(g, q) && g.WellFormed(|a|)
    ensures |b| == |a| && Bytes(g, b, q) == Bytes(g, a, q)
  {
    hide Bpb.WellFormed, TableImage.TableOf, TableImage.Mirrored, TableKept, SectorsKept, OnData, Bytes;
  }

  lemma ReplacedMeans(g: Bpb, a: Image, b: Image, p: seq<nat>, q: seq<nat>, source: seq<byte>, d: nat, off: nat)
    requires g.WellFormed(|a|) && |b| == |a| && g.ClusterBytes() > 0
    requires Kept(g, d, off, a, p, b, q) && HeadKept(a, b, d, off)
    requires IsHandle(g, b, q, Head(q), |source|, d, off) && FatFiles.EntryMatches(g, b, d, off, Head(q), |source|)
    requires OnData(g, q) && |q| == Ceil(|source|, g.ClusterBytes()) && Bytes(g, b, q) == Filled(source, g.ClusterBytes())
    ensures Replaced(g, a, b, p, q, source, d, off)
  {
    hide Kept, HeadKept, IsHandle, FatFiles.EntryMatches, OnData, Bytes, Filled, Bpb.WellFormed, Ceil;
  }

  /**
   An entry of size zero that has a chain all the same, as an entry whose size does not fit 32 bits
   may: replacing the file forgets the chain. It stays allocated as it is, and no entry leads to it.
   */
  lemma ForgottenChain(g: Bpb, a: Image, b: Image, p: seq<nat>, q: seq<nat>, source: seq<byte>, d: nat, off: nat)
    requires Replaced(g, a, b, [], q, source, d, off) && |source| < TWO32
    requires IsFile(TableImage.TableOf(g, a), g.Eoc(), p) && Foreign(g, a, p, d)
    ensures g.WellFormed(|b|) && IsFile(TableImage.TableOf(g, b), g.Eoc(), p)
    ensures forall c :: c in p ==> c !in Chains.Free(TableImage.TableOf(g, b)) && c !in q
    ensures FatFiles.EntryMatches(g, b, d, off, Head(q), |source|)
  {
    hide IsHandle, HeadKept, FatFiles.EntryMatches, OnData, Bytes, Filled, Kept, Foreign, IsFile, TableImage.TableOf, Bpb.WellFormed,
      Chains.Free;
    FileOnData(g, a, p);
    FatFiles.OtherChainKept(g, d, off, a, [], b, q, p);
    Chains.FreeIsExact(TableImage.TableOf(g, b));
    EocAbove(g);
    ChainNotFree(TableImage.TableOf(g, b), g.Eoc(), p);
  }

  lemma EocAbove(g: Bpb)
    ensures g.Eoc() > 0
  {
  }

  // ----- what the transaction gives -----

  /** The put round trip: reading the whole file through a handle on its entry gives the source, and the slack is zero. */
  lemma PutThenRead(g: Bpb, a: Image, b: Image, root: bool, q: seq<nat>, sd: nat, o: nat, name: seq<byte>,
                    source: seq<byte>, p: seq<nat>, t: Unicode.Text, now: DirEntry.Stamp)
    requires IsDirectory(g, a, root, q) && |source| < TWO32
    requires PutDone(g, a, b, root, q, sd, o, name, source, p, t, now)
    ensures g.WellFormed(|b|) && IsFile(TableImage.TableOf(g, b), g.Eoc(), p) && |source| <= |p| * g.ClusterBytes()
    ensures Content(g, b, p, |source|) == source
    ensures OnData(g, p) && forall i :: |source| <= i < |Bytes(g, b, p)| ==> Bytes(g, b, p)[i] == 0
    ensures forall err, d: seq<byte>, pos', eof', err', d', n ::
      |d| == |source| > 0 && FatFiles.ReadOutcome(true, 1, |source|, Content(g, b, p, |source|), 0, false, err, d, pos', eof', err', d', n) ==>
      d' == source && n == |source|
  {
    hide IsDirectory, SectorCount, DirSector, IsFound, Stored, FatFiles.EntryMatches, EntriesWritten, Unicode.Utf16,
      SlotCount, OnData, Bpb.WellFormed, TableImage.TableOf, IsFile, TableImage.Mirrored, Foreign, Bytes, Bpb.ClusterBytes;
  }

  // What a listing will show is decided by the directory before the put.

  /** The text that the name is read as, and the place that the search finds for its entries. */
  ghost predicate GoesTo(g: Bpb, a: Image, root: bool, q: seq<nat>, name: seq<byte>, t: Unicode.Text, sd: nat, o: nat)
    requires IsDirectory(g, a, root, q)
  {
    t != [] && Unicode.IsReading(t, name, MAX_UNITS) && IsFound(g, a, root, q, sd, o, SlotCount(|Unicode.Utf16(t)|) + 1)
  }

  /** The long-name slots that a listing has collected when it reaches the place. */
  ghost function LeftBefore(g: Bpb, a: Image, root: bool, q: seq<nat>, sd: nat, o: nat): (raw: seq<DirEntry.Entry>)
    requires IsDirectory(g, a, root, q) && sd < SectorCount(g, root, q) && o < 16
    ensures |raw| <= MAX_SLOTS
  {
    SlotsBound(g, a, root, q, sd, o);
    Pending(Slots(g, a, root, q), 16 * sd + o)
  }

  /** No end marker comes before the place, and the name that is shown there is the name itself. */
  ghost predicate ListsAt(g: Bpb, a: Image, root: bool, q: seq<nat>, name: seq<byte>, t: Unicode.Text, sd: nat, o: nat)
    requires IsDirectory(g, a, root, q) && GoesTo(g, a, root, q, name, t, sd, o)
  {
    && NoEndBefore(Slots(g, a, root, q), 16 * sd + o)
    && RoundTrips.ShownName(t, DosFold(name).0, LeftBefore(g, a, root, q, sd, o)) == name
  }

  ghost predicate WillBeListed(g: Bpb, a: Image, root: bool, q: seq<nat>, name: seq<byte>)
    requires IsDirectory(g, a, root, q)
  {
    exists t, sd, o :: GoesTo(g, a, root, q, name, t, sd, o) && ListsAt(g, a, root, q, name, t, sd, o)
  }

  /** Nothing is said of a place before which slots numbered 20 pass for the beginning of the new run. */
  ghost predicate CanTell(g: Bpb, a: Image, root: bool, q: seq<nat>, name: seq<byte>)
    requires IsDirectory(g, a, root, q)
  {
    forall t, sd, o :: GoesTo(g, a, root, q, name, t, sd, o) ==>
      RoundTrips.MayPrecede(LeftBefore(g, a, root, q, sd, o), t, DosFold(name).0)
  }

  /** There is one text and one place. */
  lemma GoesToOne(g: Bpb, a: Image, root: bool, q: seq<nat>, name: seq<byte>, t: Unicode.Text, sd: nat, o: nat,
                  t': Unicode.Text, sd': nat, o': nat)
    requires IsDirectory(g, a, root, q)
    requires GoesTo(g, a, root, q, name, t, sd, o) && GoesTo(g, a, root, q, name, t', sd', o')
    ensures t == t' && sd == sd' && o == o'
  {
    hide IsDirectory, IsFound, Unicode.IsReading, Unicode.Utf16;
    Unicode.ReadingUnique(t, t', name, MAX_UNITS);
    FoundOnce(g, a, root, q, sd, o, sd', o', SlotCount(|Unicode.Utf16(t)|) + 1);
  }

  lemma ListedIffAt(g: Bpb, a: Image, root: bool, q: seq<nat>, name: seq<byte>, t: Unicode.Text, sd: nat, o: nat)
    requires IsDirectory(g, a, root, q) && GoesTo(g, a, root, q, name, t, sd, o)
    ensures WillBeListed(g, a, root, q, name) <==> ListsAt(g, a, root, q, name, t, sd, o)
  {
    hide IsDirectory, GoesTo, ListsAt;
    if WillBeListed(g, a, root, q, name) {
      var t', sd', o' :| GoesTo(g, a, root, q, name, t', sd', o') && ListsAt(g, a, root, q, name, t', sd', o');
      GoesToOne(g, a, root, q, name, t, sd, o, t', sd', o');
    }
  }

  lemma GoesToMeans(g: Bpb, a: Image, root: bool, q: seq<nat>, name: seq<byte>, t: Unicode.Text, sd: nat, o: nat)
    requires IsDirectory(g, a, root, q) && GoesTo(g, a, root, q, name, t, sd, o)
    ensures sd < SectorCount(g, root, q) && o < 16 && 16 * sd + o < |Slots(g, a, root, q)|
    ensures LeftBefore(g, a, root, q, sd, o) == Pending(Slots(g, a, root, q), 16 * sd + o)
    ensures ListsAt(g, a, root, q, name, t, sd, o) <==>
      && NoEndBefore(Slots(g, a, root, q), 16 * sd + o)
      && RoundTrips.ShownName(t, DosFold(name).0, Pending(Slots(g, a, root, q), 16 * sd + o)) == name
    ensures CanTell(g, a, root, q, name) ==>
      RoundTrips.MayPrecede(Pending(Slots(g, a, root, q), 16 * sd + o), t, DosFold(name).0)
  {
    hide IsDirectory, SectorCount, Slots, NoEndBefore, Pending, RoundTrips.ShownName, RoundTrips.MayPrecede, DosFold,
      FirstFreeRun, NoneBefore, SectorSlots, DirSector, Unicode.IsReading, Unicode.Utf16;
    SlotsBound(g, a, root, q, sd, o);
  }

  /**
   After the put the directory shows the file if and only if no end marker comes before its place,
   with the size and first cluster of the new chain, under the name that `RoundTrips.ShownName` says;
   and it is listed under its own name exactly when `WillBeListed` said so of the directory before.
   */
  lemma PutThenList(g: Bpb, a: Image, b: Image, root: bool, q: seq<nat>, sd: nat, o: nat, name: seq<byte>,
                    source: seq<byte>, p: seq<nat>, t: Unicode.Text, now: DirEntry.Stamp)
    requires IsDirectory(g, a, root, q) && |source| < TWO32
    requires PutDone(g, a, b, root, q, sd, o, name, source, p, t, now) && CanTell(g, a, root, q, name)
    ensures IsDirectory(g, b, root, q) && Head(p) < TWO32
    ensures GoesTo(g, a, root, q, name, t, sd, o) && 16 * sd + o < |Slots(g, a, root, q)|
    ensures var was, first, e :=
        Slots(g, a, root, q), 16 * sd + o, DirEntry.NewEntry(g.kind, DosFold(name).0, Head(p), |source|, now);
      && RoundTrips.ShowsAs(g.kind, was, Slots(g, b, root, q), first, t, e, |source|, Head(p))
      && (RoundTrips.IsListed(g.kind, Slots(g, b, root, q), first + SlotCount(|Unicode.Utf16(t)|), name, |source|, Head(p)) <==>
          WillBeListed(g, a, root, q, name))
  {
    hide *;
    var s, c := PutParts(g, a, b, root, q, sd, o, name, source, p, t, now);
    StoredMeans(g, a, c, source, p);
    DirectoryKept(g, a, c, p, root, q);
    HeadSmall(g, c, p, Head(p));
    GoesToMeans(g, a, root, q, name, t, sd, o);
    ListedIffAt(g, a, root, q, name, t, sd, o);
    RoundTrips.WrittenEntryIsListed(g, c, b, root, q, sd, o, b[s], name, DosFold(name).0, Head(p), |source|, t, now);
  }

  lemma PutParts(g: Bpb, a: Image, b: Image, root: bool, q: seq<nat>, sd: nat, o: nat, name: seq<byte>,
                 source: seq<byte>, p: seq<nat>, t: Unicode.Text, now: DirEntry.Stamp)
    returns (s: nat, c: Image)
    requires IsDirectory(g, a, root, q) && |source| < TWO32
    requires PutDone(g, a, b, root, q, sd, o, name, source, p, t, now)
    ensures sd < SectorCount(g, root, q) && o < 16 && s == DirSector(g, a, root, q, sd) < |a| == |b|
    ensures c == b[s := a[s]] && b == c[s := b[s]] && c[s] == a[s] && Stored(g, a, c, source, p)
    ensures Head(p) < TWO32 && EntriesWritten(g.kind, a[s], b[s], 32 * o, name, DosFold(name).0, Head(p), |source|, t, now)
    ensures GoesTo(g, a, root, q, name, t, sd, o)
  {
    hide IsDirectory, SectorCount, DirSector, Stored, FatFiles.EntryMatches, Unicode.Utf16, Unicode.IsReading, IsHandle, Run,
      Concat, Patched, ChecksumOf, DirEntry.NewEntry, DosFold, SlotCount, OnData, FirstFreeRun, NoneBefore, Slots, SectorSlots, Bytes;
    s := DirSector(g, a, root, q, sd);
    c := b[s := a[s]];
  }

  lemma SlotsBound(g: Bpb, c: Image, root: bool, q: seq<nat>, sd: nat, o: nat)
    requires IsDirectory(g, c, root, q) && sd < SectorCount(g, root, q) && o < 16
    ensures 16 * sd + o < |Slots(g, c, root, q)|
  {
    hide IsDirectory, SectorCount;
  }
}
