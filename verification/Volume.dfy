/**
 A mounted volume: an image of sectors, entry access to the allocation tables, and the chain
 allocator. Reading and writing a sector inside the image succeeds.
 */
module Volumes {
  import opened Words
  import opened Geometry
  import opened TableImage
  import Chains
  import opened Allocator

  class Volume {
    const g: Bpb
    var image: Image

    constructor (g: Bpb, image: Image)
      requires g.WellFormed(|image|) && Mirrored(g, image)
      ensures Valid() && this.g == g && this.image == image
    {
      this.g := g;
      this.image := image;
    }

    ghost predicate Valid()
      reads this
    {
      g.WellFormed(|image|) && Mirrored(g, image)
    }

    ghost function Table(): Chains.Table
      requires Valid()
      reads this
    {
      TableOf(g, image)
    }

    lemma ValidIs()
      requires g.WellFormed(|image|) && Mirrored(g, image)
      ensures Valid()
    {
    }

    /** What the chain code needs to know of a valid volume. */
    lemma TableFacts()
      requires Valid()
      ensures g.WellFormed(|image|) && Mirrored(g, image) && Table() == TableOf(g, image)
      ensures FatFrame(g, image, image)
      ensures 1 <= |Table()| == g.MaxCluster() + 1 <= g.Eoc() < g.Mask() <= TWO32
      ensures forall c :: g.IsData(c) <==> Chains.IsData(Table(), c)
      ensures forall c :: g.IsData(c) <==> 2 <= c <= g.MaxCluster()
      ensures forall v :: g.IsEoc(v) <==> v >= g.Eoc()
      ensures g.ClusterCount() + 1 >= g.MaxCluster() && TWO32 == 0x1_0000_0000
      ensures 0 % g.Mask() == 0 && g.Eoc() % g.Mask() == g.Eoc()
      ensures forall c :: 0 <= c <= g.MaxCluster() ==> c % g.Mask() == c
    {
      hide Bpb.WellFormed, Entry, Bpb.ClusterCount, Bpb.MaxCluster, FatFrame, Mirrored;
      WellFormedFacts(g, |image|);
      NoWrap(g, |image|);
      FatFrameSelf(g, image);
    }

    // ----- sectors -----

    method ReadSector(s: u32) returns (ok: bool, buffer: Sector)
      ensures ok == (s < |image|)
      ensures ok ==> buffer == image[s]
    {
      if s >= |image| {
        return false, seq(512, _ => 0);
      }
      return true, image[s];
    }

    method WriteSector(s: u32, buffer: Sector) returns (ok: bool)
      modifies this
      ensures ok == (s < old(|image|))
      ensures image == if ok then old(image)[s := buffer] else old(image)
    {
      if s >= |image| {
        return false;
      }
      image := image[s := buffer];
      return true;
    }

    // ----- table entries -----

    /** `readcluster`. */
    method ReadCluster(c: u32) returns (v: u32)
      requires Valid() && c <= g.MaxCluster()
      ensures v == if c < 2 then 0 else Table()[c]
      ensures c >= 2 ==> IsTableValue(g, image, 0, c, v)
    {
      hide Bpb.WellFormed, Bpb.MaxCluster, Bpb.FatSector, Bpb.FatEntryOffset, EntryIn, Mirrored, Bpb.EntrySector, IsTableValue;
      if c < 2 {
        return 0;
      }
      FirstCopy(g, |image|);
      EntryInside(g, |image|, 0, c);
      FirstEntrySector(g, c);
      EntryBytes(g, image, 0, c);
      var ok, buffer := ReadSector(g.FatSector(c));
      EntryFits(g, buffer, c);
      v := EntryIn(g, buffer, c);
    }

    /** `getnextcluster`, with its own index formula and no test of the cluster number. */
    method GetNextCluster(c: u32) returns (v: u32)
      requires Valid() && g.IsData(c)
      ensures v == Table()[c] && IsTableValue(g, image, 0, c, v)
    {
      hide Bpb.WellFormed, Bpb.MaxCluster, Bpb.FatSector, Bpb.FatEntryOffset, EntryIn, Mirrored, Bpb.EntrySector,
        Bpb.FatSectorScaled, Bpb.FatEntryOffsetScaled, RawAt, IsTableValue;
      IndexFormulasAgree(g, |image|, c);
      FirstCopy(g, |image|);
      EntryInside(g, |image|, 0, c);
      FirstEntrySector(g, c);
      EntryBytes(g, image, 0, c);
      var ok, buffer := ReadSector(g.FatSectorScaled(c));
      EntryRaw(g, buffer, c);
      EntryFits(g, buffer, c);
      v := RawAt(g.kind, buffer, g.FatEntryOffsetScaled(c)) % (if g.kind == Fat16 then TWO32 else 0x1000_0000);
    }

    /** `writecluster`: every copy of the table. */
    method WriteCluster(c: u32, v: u32) returns (ok: bool)
      requires Valid() && c <= g.MaxCluster()
      modifies this
      ensures Valid() && |image| == |old(image)| && FatFrame(g, old(image), image)
      ensures ok == (c >= 2)
      ensures !ok ==> image == old(image)
      ensures ok ==> Table() == old(Table())[c := v % g.Mask()]
      ensures ok ==> forall copy: nat :: copy < g.fats ==> HoldsValue(g, old(image), image, copy, c, v)
    {
      hide Bpb.WellFormed, Bpb.MaxCluster, Bpb.FatSector, Bpb.EntrySector, Mirrored, FatFrame, PatchEntry, Entry, HoldsValue;
      if c < 2 {
        NoWrap(g, |image|);
        FatFrameSelf(g, image);
        return false;
      }
      ghost var was := image;
      var i := 0;
      while i < g.fats
        invariant 0 <= i <= g.fats
        invariant image == WithEntry(g, was, c, v, i)
      {
        EntryInside(g, |was|, i, c);
        var s := g.EntrySector(i, c);
        var read, buffer := ReadSector(s);
        var written := WriteSector(s, PatchEntry(g, buffer, c, v));
        i := i + 1;
      }
      WithEntryFrame(g, was, c, v, g.fats);
      WithEntryTable(g, was, c, v);
      forall copy: nat | copy < g.fats ensures HoldsValue(g, was, image, copy, c, v) {
        WithEntryBytes(g, was, c, v, copy);
      }
      ok := true;
    }

    /** The scan of `get_free_cluster_count`. */
    method CountFree() returns (n: nat)
      requires Valid()
      ensures n == |Chains.Free(Table())|
    {
      hide *;
      TableFacts();
      n := 0;
      var cluster: u32 := 2;
      FreeSplit(Table(), 2);
      while cluster <= g.MaxCluster()
        invariant 2 <= cluster && (cluster <= g.MaxCluster() + 1 || g.MaxCluster() < 2)
        invariant n + |Chains.FreeFrom(Table(), cluster)| == |Chains.Free(Table())|
      {
        FreeSplit(Table(), cluster);
        var value := ReadCluster(cluster);
        if value == 0 {
          n := n + 1;
        }
        cluster := cluster + 1;
      }
      FreeSplit(Table(), cluster);
    }

    // ----- chains -----

    /** `freechain`: total on every table; its iteration guard is never the reason to stop. */
    method FreeChain(first: u32) returns (ok: bool)
      requires Valid()
      modifies this
      ensures Valid() && |image| == |old(image)| && FatFrame(g, old(image), image)
      ensures first == 0 ==> ok && image == old(image)
      ensures first != 0 && !g.IsData(first) ==> !ok && image == old(image)
      ensures g.IsData(first) ==> TableFreed(old(Table()), Table(), g.Eoc(), first, ok)
    {
      hide *;
      TableFacts();
      if first == 0 {
        return true;
      }
      if !g.IsData(first) {
        return false;
      }
      ghost var t0 := Table();
      ghost var p: seq<nat> := [];
      var cluster := first;
      var iterations := 0;
      FreeStart(t0, first);
      while g.IsData(cluster)
        invariant Valid() && |image| == |old(image)| && FatFrame(g, old(image), image)
        invariant g.IsData(cluster)
        invariant |p| == iterations
        invariant FreeProgress(t0, Table(), first, cluster, p)
        decreases |t0| - |p|
      {
        TableFacts();
        FreeGuard(t0, Table(), first, cluster, p);
        iterations := iterations + 1;
        if iterations > g.MaxCluster() {
          return false;
        }
        var next := ReadCluster(cluster);
        ghost var t, before := Table(), image;
        var written := WriteCluster(cluster, 0);
        FatFrameTrans(g, old(image), before, image);
        TableFacts();
        FreeStep(t0, t, g.Eoc(), first, cluster, p, next);
        if next == 0 || g.IsEoc(next) {
          return true;
        }
        if next < 2 || next > g.MaxCluster() {
          return false;
        }
        p := p + [cluster];
        cluster := next;
      }
      return false;
    }

    /** `allocchain`: the lowest free clusters, or the image exactly as it was. */
    method AllocChain(count: nat) returns (first: u32)
      requires Valid()
      modifies this
      ensures Valid() && |image| == |old(image)| && FatFrame(g, old(image), image)
      ensures Allocated(old(Table()), Table(), g.Eoc(), count, first)
      ensures first == 0 ==> image == old(image)
    {
      hide *;
      TableFacts();
      ghost var t0, img0 := Table(), image;
      AllocNone(t0, g.Eoc(), count, g.ClusterCount());
      if count == 0 || g.MaxCluster() < 2 || count > g.ClusterCount() {
        return 0;
      }
      first := 0;
      var previous: u32, found := 0, 0;
      var cluster: u32 := 2;
      ghost var q: seq<nat> := [];
      AllocStart(t0, g.Eoc());
      while cluster <= g.MaxCluster() && found < count
        invariant Valid() && |image| == |img0| && FatFrame(g, img0, image)
        invariant 2 <= cluster <= g.MaxCluster() + 1
        invariant |q| == found <= count
        invariant AllocProgress(t0, Table(), g.Eoc(), cluster, first, previous, q)
        decreases g.MaxCluster() + 1 - cluster
      {
        TableFacts();
        ghost var t := Table();
        var value := ReadCluster(cluster);
        if value != 0 {
          AllocSkip(t0, t, g.Eoc(), cluster, first, previous, q);
          cluster := cluster + 1;
          continue;
        }
        AllocTake(t0, t, g.Eoc(), cluster, first, previous, q);
        ghost var before := image;
        var marked := WriteCluster(cluster, g.Eoc());
        FatFrameTrans(g, img0, before, image);
        if first == 0 {
          first := cluster;
        }
        if previous != 0 {
          before := image;
          var linked := WriteCluster(previous, cluster);
          FatFrameTrans(g, img0, before, image);
        }
        q := q + [cluster as nat];
        previous := cluster;
        found := found + 1;
        cluster := cluster + 1;
      }
      if found != count {
        TableFacts();
        ghost var t := Table();
        AllocFails(t0, t, g.Eoc(), cluster, first, previous, q, count);
        if first != 0 {
          ghost var before := image;
          var undone := FreeChain(first);
          FatFrameTrans(g, img0, before, image);
          AllocUndone(t0, t, Table(), g.Eoc(), cluster, first, previous, q, undone);
        }
        TableFacts();
        ImageDetermined(g, img0, image);
        return 0;
      }
      AllocSucceeds(t0, Table(), g.Eoc(), cluster, first, previous, q, count);
    }

    /** `chain_length`: zero exactly when no chain starts at `first`. */
    method ChainLength(first: u32) returns (n: nat)
      requires Valid()
      ensures n > 0 <==> exists p :: Chains.IsChain(Table(), g.Eoc(), first, p)
      ensures forall p :: Chains.IsChain(Table(), g.Eoc(), first, p) ==> n == |p|
    {
      hide *;
      TableFacts();
      if first == 0 || !g.IsData(first) {
        NoChainFrom(Table(), g.Eoc(), first);
        return 0;
      }
      n := 0;
      var cluster := first;
      var count := 0;
      ghost var w: seq<nat> := [first as nat];
      PathStart(Table(), first);
      while g.IsData(cluster)
        invariant g.IsData(cluster) && |w| == count + 1 && w[count] == cluster
        invariant Chains.IsPath(Table(), w) && w[0] == first
        invariant count <= g.MaxCluster()
        decreases g.MaxCluster() - count
      {
        count := count + 1;
        if count > g.MaxCluster() {
          TooLong(Table(), g.Eoc(), w);
          return 0;
        }
        var next := ReadCluster(cluster);
        PathEnds(Table(), g.Eoc(), w);
        if next == 0 {
          return 0;
        }
        if g.IsEoc(next) {
          PathIsChain(Table(), g.Eoc(), w);
          return count;
        }
        if next < 2 || next > g.MaxCluster() {
          return 0;
        }
        PathSnoc(Table(), w, next);
        w := w + [next as nat];
        cluster := next;
      }
    }

    /**
     `get_nth_cluster`: the cluster at a position of a chain, and zero past its end. On any table it is
     a data cluster exactly when a path of that length starts at `first`, and then the last one of it.
     */
    method GetNthCluster(first: u32, index: u32) returns (r: u32)
      requires Valid()
      ensures !g.IsData(first) ==> r == 0
      ensures forall p :: Chains.IsChain(Table(), g.Eoc(), first, p) ==> r == if index < |p| then p[index] else 0
      ensures g.IsData(r) <==> exists w :: Chains.IsPath(Table(), w) && w[0] == first && |w| == index + 1
      ensures forall w :: Chains.IsPath(Table(), w) && w[0] == first && |w| == index + 1 ==> r == w[index]
    {
      hide *;
      TableFacts();
      if first < 2 || !g.IsData(first) {
        NoChainFrom(Table(), g.Eoc(), first);
        NoPathFrom(Table(), first);
        return 0;
      }
      r := first;
      ghost var w: seq<nat> := [];
      StepsStart(Table(), first);
      ChainAtStart(Table(), g.Eoc(), first);
      for i := 0 to index
        invariant ChainsReach(Table(), g.Eoc(), first, i, r)
        invariant |w| == i && StepsTo(Table(), first, w, r)
      {
        ChainAtStep(Table(), g.Eoc(), first, i, r);
        StepsOn(Table(), first, w, r, index);
        if r < 2 || r > g.MaxCluster() {
          return 0;
        }
        var next := ReadCluster(r);
        if next < 2 || g.IsEoc(next) {
          return 0;
        }
        w := w + [r as nat];
        r := next;
      }
      StepsEnd(Table(), first, w, r);
      ChainAtEnd(Table(), g.Eoc(), first, index, r);
    }

    /**
     `resizechain`, with the caller's head cluster as an in-out parameter. On a file it has the
     effect `Resized`; a head from which no chain starts is refused.
     */
    method ResizeChain(first: u32, required: u32) returns (ok: bool, first': u32, ghost q: seq<nat>)
      requires Valid()
      modifies this
      ensures Valid() && |image| == |old(image)| && FatFrame(g, old(image), image)
      ensures forall p :: IsFile(old(Table()), g.Eoc(), p) && Head(p) == first ==>
        Head(q) == first' && Resized(old(Table()), Table(), g.Eoc(), p, required, q, ok)
      ensures !ok && required != 0 ==> image == old(image)
      ensures first != 0 && required != 0 && !(exists p :: Chains.IsChain(old(Table()), g.Eoc(), first, p)) ==>
        !ok && first' == first
      ensures first != 0 && !g.IsData(first) && required == 0 ==> !ok && first' == first && image == old(image)
      ensures g.IsData(first) && required == 0 ==>
        TableFreed(old(Table()), Table(), g.Eoc(), first, ok) && first' == if ok then 0 else first
    {
      hide *;
      TableFacts();
      ghost var t0, img0 := Table(), image;
      first', q := first, [];
      HeadOfFile(t0, g.Eoc(), first);
      if required == 0 {
        ok := true;
        if first != 0 {
          ok := FreeChain(first);
          if !ok {
            FreedFile(t0, Table(), g.Eoc(), first, ok);
            return;
          }
          first' := 0;
        }
        FreedFile(t0, Table(), g.Eoc(), first, ok);
        return;
      }
      if first == 0 {
        first' := AllocChain(required);
        q := AllocatedFile(t0, Table(), g.Eoc(), required, first');
        return first' != 0, first', q;
      }
      var count := ChainLength(first);
      if count == 0 {
        return false, first, q;
      }
      ghost var p :| Chains.IsChain(t0, g.Eoc(), first, p);
      OnlyFile(t0, g.Eoc(), first, p);
      if count == required {
        ResizedSame(t0, g.Eoc(), p);
        return true, first, p;
      }
      if count > required {
        var cluster := GetNthCluster(first, required - 1);
        CutHere(t0, g.Eoc(), first, p, required);
        var next := ReadCluster(cluster);
        q := p[..required];
        if next >= 2 && !g.IsEoc(next) {
          var marked := WriteCluster(cluster, g.Eoc());
          ghost var cut := image;
          TableFacts();
          var freed := FreeChain(next);
          FatFrameTrans(g, img0, cut, image);
          CutDone(t0, Table(), g.Eoc(), first, p, required, freed);
          if !freed {
            return false, first, q;
          }
        }
        return true, first, q;
      }
      var cluster := GetNthCluster(first, count - 1);
      LastOf(t0, g.Eoc(), first, p);
      var next := AllocChain(required - count);
      if next == 0 {
        GrowRefused(t0, Table(), g.Eoc(), first, p, required);
        return false, first, p;
      }
      ghost var grown := image;
      TableFacts();
      GrowDone(t0, Table(), g.Eoc(), first, p, required, next);
      var linked := WriteCluster(cluster, next);
      FatFrameTrans(g, img0, grown, image);
      q := p + Chains.Free(t0)[..required - count];
      return true, first, q;
    }
  }

  /** What `freechain` does to the table from a data cluster: it zeroes exactly the clusters on the walk from it. */
  ghost predicate TableFreed(t: Chains.Table, u: Chains.Table, eoc: nat, first: nat, ok: bool) {
    && Chains.IsData(t, first)
    && u == Chains.Zeroed(t, Chains.TraceOf(t, first))
    && ok == Chains.EndsWell(t, eoc, Chains.TraceOf(t, first))
  }

  // ----- facts about the table of a valid image -----

  lemma WellFormedFacts(g: Bpb, sectors: nat)
    requires g.WellFormed(sectors)
    ensures g.MaxCluster() + 1 <= g.Eoc() && g.ClusterCount() + 1 >= g.MaxCluster()
  {
  }

  /** The tables in sectors 1 and 2, the root in sector 3, then six clusters of one sector. */
  ghost predicate IsBlankLayout(g: Bpb) {
    && g.kind == Fat16 && g.spc == 1 && g.fats == 2 && g.MaxCluster() == 7 && g.FatStart() == 1 && g.FatEnd() == 3
    && g.RootDirSector() == 3 && g.RootDirSectorCount() == 1 && g.FirstDataSector() == 4
  }

  /** The assumptions can be met: a small FAT16 volume whose tables are blank. */
  lemma BlankVolume() returns (g: Bpb, img: Image)
    ensures g.WellFormed(|img|) && Mirrored(g, img) && g.IsData(2) && 2 in Chains.Free(TableOf(g, img))
    ensures IsBlankLayout(g) && |img| == 10 && forall i :: 0 <= i < 10 ==> img[i] == seq(512, _ => 0)
  {
    hide Mirrored, TableOf, Chains.Free, EntryIn;
    var zero: Sector := seq(512, _ => 0);
    g, img := Bpb(Fat16, 0, 1, 2, 1, 16, 1, 10), seq(10, _ => zero);
    assert g.MaxCluster() == 7;
    BlankMirrored(g, img, zero);
    Chains.FreeIsExact(TableOf(g, img));
  }

  lemma BlankMirrored(g: Bpb, img: Image, zero: Sector)
    requires g.WellFormed(|img|) && g.IsData(2)
    requires (forall i :: 0 <= i < |img| ==> img[i] == zero) && (forall j :: 0 <= j < SECTOR_SIZE ==> zero[j] == 0)
    ensures Mirrored(g, img) && Chains.IsData(TableOf(g, img), 2) && TableOf(g, img)[2] == 0
  {
    hide Bpb.WellFormed, Bpb.MaxCluster, Bpb.EntrySector;
    FirstCopy(g, |img|);
    forall copy: nat, c: u32 | copy < g.fats && c <= g.MaxCluster() ensures Entry(g, img, copy, c) == 0 {
      EntryInside(g, |img|, copy, c);
      BlankEntry(g, zero, c);
    }
  }

  lemma BlankEntry(g: Bpb, zero: Sector, c: u32)
    requires forall j :: 0 <= j < SECTOR_SIZE ==> zero[j] == 0
    ensures EntryIn(g, zero, c) == 0
  {
    OffsetFits(g, c);
  }

  // ----- freechain -----

  /** The walk so far freed `p`; it goes on at `cluster`, or has come back to a cluster of `p`. */
  ghost predicate FreeProgress(t0: Chains.Table, t: Chains.Table, first: nat, cluster: nat, p: seq<nat>) {
    && Chains.IsData(t0, first) && Chains.IsData(t0, cluster)
    && t == Chains.Zeroed(t0, p)
    && (if cluster in p then p == Chains.TraceOf(t0, first) && t0[p[|p| - 1]] == cluster
        else Chains.IsTrace(t0, first, p + [cluster]) && Chains.TraceFrom(t0, p + [cluster]) == Chains.TraceOf(t0, first))
  }

  lemma FreeStart(t0: Chains.Table, first: nat)
    requires Chains.IsData(t0, first)
    ensures FreeProgress(t0, t0, first, first, [])
  {
    Chains.ZeroedNone(t0);
    Chains.TraceStart(t0, first);
    assert [] + [first] == [first];
  }

  /** The pigeonhole argument: fewer than `max_cluster` clusters have been freed. */
  lemma FreeGuard(t0: Chains.Table, t: Chains.Table, first: nat, cluster: nat, p: seq<nat>)
    requires FreeProgress(t0, t, first, cluster, p)
    ensures |t| == |t0| && |p| + 1 <= |t0| - 1
  {
    if cluster in p {
      Chains.PathBound(t0, p);
    } else {
      Chains.PathBound(t0, p + [cluster]);
    }
  }

  lemma FreeStep(t0: Chains.Table, t: Chains.Table, eoc: nat, first: nat, cluster: nat, p: seq<nat>, next: nat)
    requires |t0| <= eoc && FreeProgress(t0, t, first, cluster, p) && cluster < |t| && next == t[cluster]
    ensures next == 0 || next >= eoc ==> TableFreed(t0, t[cluster := 0], eoc, first, true)
    ensures next != 0 && next < eoc && !Chains.IsData(t0, next) ==> TableFreed(t0, t[cluster := 0], eoc, first, false)
    ensures Chains.IsData(t0, next) ==> FreeProgress(t0, t[cluster := 0], first, next, p + [cluster])
  {
    if cluster in p {
      assert t[cluster := 0] == t;
    } else {
      var p' := p + [cluster];
      Chains.ZeroedSnoc(t0, p, cluster);
      assert next == t0[cluster] && p'[|p'| - 1] == cluster;
      assert Chains.IsData(t0, next) && next !in p' ==>
        Chains.TraceFrom(t0, p') == Chains.TraceFrom(t0, p' + [next]) && Chains.IsTrace(t0, first, p' + [next]) by {
        if Chains.IsData(t0, next) && next !in p' {
          Chains.TraceExtends(t0, first, p');
        }
      }
    }
  }

  // ----- allocchain -----

  /** The free clusters below `cluster` are `q`, and they are linked. */
  ghost predicate AllocProgress(t0: Chains.Table, t: Chains.Table, eoc: nat, cluster: nat, first: nat, previous: nat,
                                q: seq<nat>) {
    && |t| == |t0| && 2 <= cluster <= |t0|
    && Chains.Free(t0) == q + Chains.FreeFrom(t0, cluster)
    && (forall c :: c in q ==> 2 <= c < cluster)
    && (if q == [] then t == t0 && first == 0 && previous == 0
        else Grown(t0, t, eoc, [], q) && first == q[0] && previous == q[|q| - 1])
  }

  lemma AllocStart(t0: Chains.Table, eoc: nat)
    requires |t0| >= 2
    ensures AllocProgress(t0, t0, eoc, 2, 0, 0, [])
  {
    assert [] + Chains.FreeFrom(t0, 2) == Chains.FreeFrom(t0, 2);
  }

  lemma AllocNone(t0: Chains.Table, eoc: nat, count: nat, clusters: nat)
    requires clusters + 2 >= |t0|
    ensures count == 0 || |t0| <= 2 || count > clusters ==> Allocated(t0, t0, eoc, count, 0)
  {
  }

  lemma AllocSkip(t0: Chains.Table, t: Chains.Table, eoc: nat, cluster: nat, first: nat, previous: nat, q: seq<nat>)
    requires AllocProgress(t0, t, eoc, cluster, first, previous, q) && cluster < |t| && t[cluster] != 0
    ensures AllocProgress(t0, t, eoc, cluster + 1, first, previous, q)
  {
    assert cluster !in q;
  }

  lemma AllocTake(t0: Chains.Table, t: Chains.Table, eoc: nat, cluster: nat, first: nat, previous: nat, q: seq<nat>)
    requires AllocProgress(t0, t, eoc, cluster, first, previous, q) && cluster < |t| && t[cluster] == 0
    requires |t0| <= eoc
    ensures previous < |t| && (first == 0 <==> previous == 0) && (previous != 0 ==> 2 <= previous)
    ensures first == 0 ==> AllocProgress(t0, t[cluster := eoc], eoc, cluster + 1, cluster, cluster, q + [cluster])
    ensures previous != 0 ==>
      AllocProgress(t0, t[cluster := eoc][previous := cluster], eoc, cluster + 1, first, cluster, q + [cluster])
  {
    assert cluster !in q;
    var r := q + [cluster];
    assert Chains.Free(t0) == r + Chains.FreeFrom(t0, cluster + 1);
    if q == [] {
      assert r == [cluster];
    } else {
      assert q[0] in q && q[|q| - 1] in q;
      TakeNext(t0, t, eoc, cluster, q);
    }
  }

  lemma TakeNext(t0: Chains.Table, t: Chains.Table, eoc: nat, cluster: nat, q: seq<nat>)
    requires Grown(t0, t, eoc, [], q) && Chains.IsData(t0, cluster) && t0[cluster] == 0 && cluster !in q
    ensures Grown(t0, t[cluster := eoc][q[|q| - 1] := cluster], eoc, [], q + [cluster])
  {
    var n, r, u := |q|, q + [cluster], t[cluster := eoc][q[|q| - 1] := cluster];
    forall i | 0 <= i < n ensures u[r[i]] == r[i + 1] {
      assert r[i] == q[i] && q[i] in q;
      if i < n - 1 {
        assert t[q[i]] == q[i + 1] && q[i] != q[n - 1];
      }
    }
    assert u[r[n]] == eoc by {
      assert q[n - 1] in q;
    }
  }

  lemma AllocSucceeds(t0: Chains.Table, t: Chains.Table, eoc: nat, cluster: nat, first: nat, previous: nat, q: seq<nat>,
                      count: nat)
    requires AllocProgress(t0, t, eoc, cluster, first, previous, q) && |q| == count > 0
    ensures Allocated(t0, t, eoc, count, first) && first != 0
  {
    assert q == Chains.Free(t0)[..count];
    assert q[0] in q;
  }

  lemma AllocFails(t0: Chains.Table, t: Chains.Table, eoc: nat, cluster: nat, first: nat, previous: nat, q: seq<nat>,
                   count: nat)
    requires AllocProgress(t0, t, eoc, cluster, first, previous, q) && cluster >= |t0| && |q| < count
    ensures Allocated(t0, t0, eoc, count, 0)
    ensures first == 0 ==> t == t0
    ensures first != 0 ==> Chains.IsData(t, first)
  {
    assert Chains.FreeFrom(t0, cluster) == [];
    assert q != [] ==> q[0] in q;
  }

  lemma AllocUndone(t0: Chains.Table, t: Chains.Table, u: Chains.Table, eoc: nat, cluster: nat, first: nat, previous: nat,
                    q: seq<nat>, ok: bool)
    requires |t0| <= eoc && 0 < eoc && AllocProgress(t0, t, eoc, cluster, first, previous, q) && first != 0
    requires TableFreed(t, u, eoc, first, ok)
    ensures u == t0 && ok
  {
    assert [] + q == q;
    GrownChain(t0, t, eoc, [], q);
    Chains.ChainTrace(t, eoc, first, q);
    ZeroedUndoesGrown(t0, t, eoc, q);
  }

  lemma FreeSplit(t: Chains.Table, c: nat)
    ensures Chains.Free(t) == Chains.FreeFrom(t, 2)
    ensures |Chains.FreeFrom(t, c)| ==
      if c >= |t| then 0 else |Chains.FreeFrom(t, c + 1)| + if t[c] == 0 then 1 else 0
  {
  }

  // ----- chain_length and get_nth_cluster -----

  lemma NoChainFrom(t: Chains.Table, eoc: nat, h: nat)
    requires !Chains.IsData(t, h)
    ensures !(exists p :: Chains.IsChain(t, eoc, h, p))
  {
  }

  lemma PathStart(t: Chains.Table, h: nat)
    requires Chains.IsData(t, h)
    ensures Chains.IsPath(t, [h])
  {
  }

  lemma PathSnoc(t: Chains.Table, w: seq<nat>, next: nat)
    requires Chains.IsPath(t, w) && Chains.IsData(t, next) && t[w[|w| - 1]] == next
    ensures Chains.IsPath(t, w + [next])
  {
  }

  /** The pigeonhole argument: the guard of `chain_length` never rejects a chain. */
  lemma TooLong(t: Chains.Table, eoc: nat, w: seq<nat>)
    requires |t| <= eoc && Chains.IsPath(t, w) && |w| > |t| - 2
    ensures !(exists p :: Chains.IsChain(t, eoc, w[0], p))
  {
    forall p | Chains.IsChain(t, eoc, w[0], p) ensures false {
      Chains.ChainNotLonger(t, eoc, w[0], p, w);
      Chains.ChainBound(t, eoc, w[0], p);
    }
  }

  lemma PathEnds(t: Chains.Table, eoc: nat, w: seq<nat>)
    requires |t| <= eoc && Chains.IsPath(t, w)
    ensures w[|w| - 1] < |t|
    ensures !Chains.IsData(t, t[w[|w| - 1]]) && t[w[|w| - 1]] < eoc ==> !(exists p :: Chains.IsChain(t, eoc, w[0], p))
  {
    var n := |w| - 1;
    if !Chains.IsData(t, t[w[n]]) && t[w[n]] < eoc {
      forall p | Chains.IsChain(t, eoc, w[0], p) ensures false {
        Chains.ChainNotLonger(t, eoc, w[0], p, w);
        if n + 1 < |p| {
          Chains.PathStep(t, p, n);
        }
        Chains.PathsAgree(t, p, w, n);
      }
    }
  }

  lemma PathIsChain(t: Chains.Table, eoc: nat, w: seq<nat>)
    requires |t| <= eoc && Chains.IsPath(t, w) && t[w[|w| - 1]] >= eoc
    ensures Chains.IsChain(t, eoc, w[0], w)
    ensures forall p :: Chains.IsChain(t, eoc, w[0], p) ==> p == w
  {
    forall p | Chains.IsChain(t, eoc, w[0], p) ensures p == w {
      Chains.ChainUnique(t, eoc, w[0], p, w);
    }
  }

  /** If a chain starts at `h`, the walk is at its position `i`. */
  ghost predicate ChainsReach(t: Chains.Table, eoc: nat, h: nat, i: nat, r: nat) {
    forall p :: Chains.IsChain(t, eoc, h, p) ==> i < |p| && p[i] == r
  }

  lemma ChainAtStart(t: Chains.Table, eoc: nat, h: nat)
    ensures ChainsReach(t, eoc, h, 0, h)
  {
  }

  lemma ChainAtStep(t: Chains.Table, eoc: nat, h: nat, i: nat, r: nat)
    requires |t| <= eoc && ChainsReach(t, eoc, h, i, r)
    ensures !Chains.IsData(t, r) ==> !(exists p :: Chains.IsChain(t, eoc, h, p))
    ensures Chains.IsData(t, r) && t[r] < eoc ==> ChainsReach(t, eoc, h, i + 1, t[r])
    ensures Chains.IsData(t, r) && (t[r] < 2 || t[r] >= eoc) ==> forall p :: Chains.IsChain(t, eoc, h, p) ==> |p| <= i + 1
  {
    forall p | Chains.IsChain(t, eoc, h, p)
      ensures Chains.IsData(t, r)
      ensures t[r] < eoc ==> i + 1 < |p| && p[i + 1] == t[r]
      ensures t[r] < 2 || t[r] >= eoc ==> |p| <= i + 1
    {
      assert Chains.IsData(t, p[i]);
      if i + 1 < |p| {
        assert t[p[i]] == p[i + 1] && Chains.IsData(t, p[i + 1]);
      }
    }
  }

  lemma ChainAtEnd(t: Chains.Table, eoc: nat, h: nat, i: nat, r: nat)
    requires ChainsReach(t, eoc, h, i, r)
    ensures forall p :: Chains.IsChain(t, eoc, h, p) ==> i < |p| && p[i] == r
  {
  }

  /** From `first` the entries of the clusters `w` lead to `r`, which need not be a data cluster. */
  ghost predicate StepsTo(t: Chains.Table, first: nat, w: seq<nat>, r: nat) {
    if w == [] then r == first else Chains.IsPath(t, w) && w[0] == first && t[w[|w| - 1]] == r
  }

  lemma NoPathFrom(t: Chains.Table, first: nat)
    requires !Chains.IsData(t, first)
    ensures !(exists w :: Chains.IsPath(t, w) && w[0] == first)
  {
  }

  lemma StepsStart(t: Chains.Table, first: nat)
    ensures StepsTo(t, first, [], first)
  {
  }

  lemma StepsOn(t: Chains.Table, first: nat, w: seq<nat>, r: nat, index: nat)
    requires StepsTo(t, first, w, r) && |w| < index
    ensures !Chains.IsData(t, r) ==> !(exists v :: Chains.IsPath(t, v) && v[0] == first && |v| == index + 1)
    ensures Chains.IsData(t, r) ==> r < |t| && StepsTo(t, first, w + [r], t[r])
    ensures Chains.IsData(t, r) && !Chains.IsData(t, t[r]) ==>
      !(exists v :: Chains.IsPath(t, v) && v[0] == first && |v| == index + 1)
  {
    forall v | Chains.IsPath(t, v) && v[0] == first && |v| == index + 1
      ensures v[|w|] == r && Chains.IsData(t, r) && Chains.IsData(t, t[r])
    {
      if w != [] {
        Chains.PathsAgree(t, v, w, |w| - 1);
        assert t[v[|w| - 1]] == v[|w|];
      }
      assert t[v[|w|]] == v[|w| + 1] && Chains.IsData(t, v[|w|]) && Chains.IsData(t, v[|w| + 1]);
    }
  }

  lemma StepsEnd(t: Chains.Table, first: nat, w: seq<nat>, r: nat)
    requires StepsTo(t, first, w, r)
    ensures Chains.IsData(t, r) <==> exists v :: Chains.IsPath(t, v) && v[0] == first && |v| == |w| + 1
    ensures forall v :: Chains.IsPath(t, v) && v[0] == first && |v| == |w| + 1 ==> r == v[|w|]
  {
    if Chains.IsData(t, r) {
      assert Chains.IsPath(t, w + [r]) && (w + [r])[0] == first;
    }
    forall v | Chains.IsPath(t, v) && v[0] == first && |v| == |w| + 1 ensures v[|w|] == r && Chains.IsData(t, r) {
      if w != [] {
        Chains.PathsAgree(t, v, w, |w| - 1);
        assert t[v[|w| - 1]] == v[|w|];
      }
      assert Chains.IsData(t, v[|w|]);
    }
  }

  // ----- resizechain -----

  lemma HeadOfFile(t: Chains.Table, eoc: nat, h: nat)
    ensures forall p :: IsFile(t, eoc, p) && Head(p) == h ==> if h == 0 then p == [] else Chains.IsChain(t, eoc, h, p)
  {
  }

  lemma OnlyFile(t: Chains.Table, eoc: nat, h: nat, p: seq<nat>)
    requires |t| <= eoc && Chains.IsChain(t, eoc, h, p)
    ensures forall r :: IsFile(t, eoc, r) && Head(r) == h ==> r == p
    ensures |p| > 0 && p[0] == h && Head(p) == h && Chains.IsData(t, h) && h >= 2
  {
    assert Chains.IsData(t, p[0]);
    forall r | IsFile(t, eoc, r) && Head(r) == h ensures r == p {
      Chains.ChainUnique(t, eoc, h, r, p);
    }
  }

  lemma FreedFile(t: Chains.Table, u: Chains.Table, eoc: nat, h: nat, ok: bool)
    requires |t| <= eoc && (h == 0 ==> u == t && ok)
    requires Chains.IsData(t, h) ==> TableFreed(t, u, eoc, h, ok)
    ensures forall p :: IsFile(t, eoc, p) && Head(p) == h ==> ok && Resized(t, u, eoc, p, 0, [], ok)
    ensures Head([]) == 0
  {
    forall p | IsFile(t, eoc, p) && Head(p) == h ensures ok && Resized(t, u, eoc, p, 0, [], ok) {
      if p == [] {
        Chains.ZeroedNone(t);
      } else {
        assert Chains.IsData(t, p[0]);
        Chains.ChainTrace(t, eoc, h, p);
      }
    }
  }

  lemma AllocatedFile(t: Chains.Table, u: Chains.Table, eoc: nat, n: nat, h: nat) returns (q: seq<nat>)
    requires n > 0 && Allocated(t, u, eoc, n, h)
    ensures Head(q) == h && Resized(t, u, eoc, [], n, q, h != 0)
    ensures forall p :: IsFile(t, eoc, p) && Head(p) == 0 ==> p == []
  {
    LowestFree(t);
    q := if n <= |Chains.Free(t)| then Chains.Free(t)[..n] else [];
    assert [] + q == q;
  }

  lemma LowestFree(t: Chains.Table)
    ensures |Chains.Free(t)| > 0 ==> Chains.Free(t)[0] >= 2
  {
    if |Chains.Free(t)| > 0 {
      Chains.FreeFromSound(t, 2, 0);
    }
  }

  lemma ResizedSame(t: Chains.Table, eoc: nat, p: seq<nat>)
    requires |p| > 0
    ensures Resized(t, t, eoc, p, |p|, p, true)
  {
  }

  /** The cut point of a shrinking chain: the rest is a chain of its own, before and after the cut. */
  lemma CutHere(t: Chains.Table, eoc: nat, h: nat, p: seq<nat>, n: nat)
    requires |t| <= eoc && Chains.IsChain(t, eoc, h, p) && 0 < n < |p|
    ensures p[n - 1] < |t| && Chains.IsData(t, p[n - 1]) && t[p[n - 1]] == p[n] >= 2 && Chains.IsData(t, p[n])
    ensures |t[p[n - 1] := eoc]| == |t|
    ensures Head(p[..n]) == h
  {
    assert Chains.IsData(t, p[n]);
  }

  lemma CutDone(t: Chains.Table, u: Chains.Table, eoc: nat, h: nat, p: seq<nat>, n: nat, ok: bool)
    requires |t| <= eoc && Chains.IsChain(t, eoc, h, p) && 0 < n < |p| && p[n - 1] < |t|
    requires TableFreed(t[p[n - 1] := eoc], u, eoc, p[n], ok)
    ensures ok && Resized(t, u, eoc, p, n, p[..n], true)
  {
    Chains.ChainDistinct(t, eoc, h, p);
    Chains.ChainSuffix(t, eoc, h, p, n);
    var v, r := t[p[n - 1] := eoc], p[n..];
    assert Chains.IsChain(v, eoc, p[n], r) by {
      forall i | 0 <= i < |r| ensures v[r[i]] == t[r[i]] {
        assert r[i] == p[n + i];
      }
    }
    Chains.ChainTrace(v, eoc, p[n], r);
    assert p[n - 1] !in r;
    assert u == Cut(t, eoc, p, n);
  }

  lemma LastOf(t: Chains.Table, eoc: nat, h: nat, p: seq<nat>)
    requires Chains.IsChain(t, eoc, h, p)
    ensures Chains.IsData(t, p[|p| - 1])
  {
  }

  lemma GrowRefused(t: Chains.Table, u: Chains.Table, eoc: nat, h: nat, p: seq<nat>, n: nat)
    requires n > |p| > 0 && Allocated(t, u, eoc, n - |p|, 0)
    ensures u == t && Resized(t, u, eoc, p, n, p, false)
  {
    LowestFree(t);
  }

  lemma GrowDone(t: Chains.Table, u: Chains.Table, eoc: nat, h: nat, p: seq<nat>, n: nat, next: nat)
    requires |t| <= eoc && 0 < eoc && Chains.IsChain(t, eoc, h, p) && n > |p| && next != 0
    requires Allocated(t, u, eoc, n - |p|, next)
    ensures n - |p| <= |Chains.Free(t)| && p[|p| - 1] < |u| == |t| && Chains.IsData(t, next)
    ensures var q := p + Chains.Free(t)[..n - |p|];
      Head(q) == h && Resized(t, u[p[|p| - 1] := next], eoc, p, n, q, true)
  {
    var x := Chains.Free(t)[..n - |p|];
    FreePrefix(t, n - |p|);
    ChainNotFree(t, eoc, p);
    assert p[|p| - 1] in p;
    assert x[0] == next && x[0] in x;
    assert p[|p| - 1] !in x;
  }

  lemma FirstEntrySector(g: Bpb, c: u32)
    ensures g.EntrySector(0, c) == g.FatSector(c)
  {
  }

  lemma EntryFits(g: Bpb, s: Sector, c: u32)
    ensures EntryIn(g, s, c) < g.Mask() < TWO32
  {
  }

  /** On FAT16 the two-byte value needs no mask. */
  lemma EntryRaw(g: Bpb, s: Sector, c: u32)
    ensures g.FatEntryOffset(c) + (if g.kind == Fat16 then 2 else 4) <= SECTOR_SIZE
    ensures EntryIn(g, s, c) == RawAt(g.kind, s, g.FatEntryOffset(c)) % (if g.kind == Fat16 then TWO32 else 0x1000_0000)
  {
    OffsetFits(g, c);
    RawBound(g.kind, s, g.FatEntryOffset(c));
  }
}
