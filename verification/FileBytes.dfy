/** The bytes of a file: its clusters, in chain order, and what writing sectors and resizing chains do to them. */
module FileBytes {
  import opened Words
  import opened Geometry
  import opened TableImage
  import Chains
  import opened Allocator

  /** All numbers of `p` are data clusters. */
  ghost predicate OnData(g: Bpb, p: seq<nat>) {
    forall i :: 0 <= i < |p| ==> p[i] < TWO32 && g.IsData(p[i])
  }

  /** Sector `j` of the file: clusters in chain order, `spc` sectors each. */
  ghost function SectorAt(g: Bpb, sectors: nat, p: seq<nat>, j: nat): (s: nat)
    requires g.WellFormed(sectors) && OnData(g, p) && j < |p| * g.spc
    ensures s < sectors
  {
    ClusterOfSector(g, sectors, |p|, j);
    ClusterInside(g, sectors, p[j / g.spc], j % g.spc);
    g.ClusterToSector(p[j / g.spc]) + j % g.spc
  }

  lemma ClusterOfSector(g: Bpb, sectors: nat, n: nat, j: nat)
    requires g.WellFormed(sectors) && j < n * g.spc
    ensures g.spc > 0 && 0 <= j / g.spc < n && 0 <= j % g.spc < g.spc
  {
    assert j == (j / g.spc) * g.spc + j % g.spc;
    TimesBack(j / g.spc, n, g.spc);
  }

  /** All bytes of the clusters of `p`, in order, the slack after the end of the file included. */
  ghost function Bytes(g: Bpb, img: Image, p: seq<nat>): (b: seq<byte>)
    requires g.WellFormed(|img|) && OnData(g, p)
    ensures |b| == |p| * g.ClusterBytes() == SECTOR_SIZE * (|p| * g.spc)
    ensures forall i :: 0 <= i < |b| ==> b[i] == img[SectorAt(g, |img|, p, i / SECTOR_SIZE)][i % SECTOR_SIZE]
  {
    Times(0, |p|, g.spc);
    Capacity(|p|, g.spc);
    seq(SECTOR_SIZE * (|p| * g.spc), i requires 0 <= i < SECTOR_SIZE * (|p| * g.spc) =>
      img[SectorAt(g, |img|, p, i / SECTOR_SIZE)][i % SECTOR_SIZE])
  }

  lemma Capacity(n: nat, spc: nat)
    ensures n * (spc * SECTOR_SIZE) == SECTOR_SIZE * (n * spc)
  {
  }

  function Ceil(n: nat, d: nat): nat
    requires d > 0
  {
    (n + d - 1) / d
  }

  lemma CeilIs(n: nat, d: nat)
    requires d > 0
    ensures n <= Ceil(n, d) * d
    ensures forall k: nat :: n <= k * d ==> Ceil(n, d) <= k
    ensures n > 0 ==> Ceil(n, d) >= 1
  {
    var x := n + d - 1;
    assert x == (x / d) * d + x % d;
    forall k: nat | n <= k * d ensures Ceil(n, d) <= k {
      if x / d >= k + 1 {
        Times(k + 1, x / d, d);
      }
    }
    if n > 0 && x / d < 1 {
      Times(x / d, 0, d);
    }
  }

  // ----- positions -----

  /** Where the code finds position `pos`: a cluster index and a sector inside the cluster. */
  lemma Locate(g: Bpb, sectors: nat, p: seq<nat>, pos: nat)
    requires g.WellFormed(sectors) && OnData(g, p) && pos < |p| * g.ClusterBytes()
    ensures g.ClusterBytes() > 0 && pos / SECTOR_SIZE < |p| * g.spc
    ensures 0 <= pos / g.ClusterBytes() < |p|
    ensures SectorAt(g, sectors, p, pos / SECTOR_SIZE) ==
      g.ClusterToSector(p[pos / g.ClusterBytes()]) + pos % g.ClusterBytes() / SECTOR_SIZE
    ensures pos % g.ClusterBytes() % SECTOR_SIZE == pos % SECTOR_SIZE
  {
    hide Bpb.WellFormed, OnData, Bpb.ClusterToSector;
    Capacity(|p|, g.spc);
    ClusterOfSector(g, sectors, |p|, pos / SECTOR_SIZE);
    SectorIndexParts(g.spc, pos, g.ClusterBytes());
  }

  lemma SectorIndexParts(spc: nat, i: nat, cs: nat)
    requires cs == spc * SECTOR_SIZE && spc > 0
    ensures i / cs == i / SECTOR_SIZE / spc
    ensures i % cs / SECTOR_SIZE == i / SECTOR_SIZE % spc
    ensures i % cs % SECTOR_SIZE == i % SECTOR_SIZE
  {
    var k := i / SECTOR_SIZE;
    var q, r := k / spc, k % spc;
    assert k == q * spc + r;
    assert i == q * cs + (r * SECTOR_SIZE + i % SECTOR_SIZE) by {
      assert q * cs == SECTOR_SIZE * (q * spc);
    }
    Times(r + 1, spc, SECTOR_SIZE);
    Division(i, cs, q, r * SECTOR_SIZE + i % SECTOR_SIZE);
  }

  /** Inside one chain without repetition, different sectors of the file are different sectors of the image. */
  lemma SectorOnce(g: Bpb, sectors: nat, p: seq<nat>, i: nat, j: nat)
    requires g.WellFormed(sectors) && OnData(g, p) && Chains.Distinct(p) && i < |p| * g.spc && j < |p| * g.spc
    requires SectorAt(g, sectors, p, i) == SectorAt(g, sectors, p, j)
    ensures i == j
  {
    hide Bpb.WellFormed, Bpb.IsData, Bpb.ClusterToSector;
    ClusterOfSector(g, sectors, |p|, i);
    ClusterOfSector(g, sectors, |p|, j);
    ClustersDisjoint(g, sectors, p[i / g.spc], i % g.spc, p[j / g.spc], j % g.spc);
    assert i / g.spc == j / g.spc;
    assert i == (i / g.spc) * g.spc + i % g.spc && j == (j / g.spc) * g.spc + j % g.spc;
  }

  /** Chains without a common cluster have no common sector. */
  lemma SectorsApart(g: Bpb, sectors: nat, p: seq<nat>, i: nat, q: seq<nat>, j: nat)
    requires g.WellFormed(sectors) && OnData(g, p) && OnData(g, q) && i < |p| * g.spc && j < |q| * g.spc
    requires forall c :: c in q ==> c !in p
    ensures SectorAt(g, sectors, p, i) != SectorAt(g, sectors, q, j)
  {
    hide Bpb.WellFormed, Bpb.IsData, Bpb.ClusterToSector;
    ClusterOfSector(g, sectors, |p|, i);
    ClusterOfSector(g, sectors, |q|, j);
    assert q[j / g.spc] in q;
    if SectorAt(g, sectors, p, i) == SectorAt(g, sectors, q, j) {
      ClustersDisjoint(g, sectors, p[i / g.spc], i % g.spc, q[j / g.spc], j % g.spc);
    }
  }

  // ----- writing part of a sector -----

  function Patched(s: seq<byte>, off: nat, data: seq<byte>): (r: seq<byte>)
    requires off + |data| <= |s|
    ensures |r| == |s|
  {
    s[..off] + data + s[off + |data|..]
  }

  function PatchedImage(img: Image, s: nat, off: nat, data: seq<byte>): (r: Image)
    requires s < |img| && off + |data| <= SECTOR_SIZE
    ensures |r| == |img|
  {
    img[s := Patched(img[s], off, data)]
  }

  /** Writing bytes of the sector that holds position `pos` overlays them on the file at `pos`, and nowhere else. */
  lemma WriteInSector(g: Bpb, img: Image, p: seq<nat>, pos: nat, data: seq<byte>, s: nat)
    requires g.WellFormed(|img|) && OnData(g, p) && Chains.Distinct(p)
    requires pos < SECTOR_SIZE * (|p| * g.spc) && pos % SECTOR_SIZE + |data| <= SECTOR_SIZE
    requires s == SectorAt(g, |img|, p, pos / SECTOR_SIZE)
    ensures pos + |data| <= |Bytes(g, img, p)|
    ensures Bytes(g, PatchedImage(img, s, pos % SECTOR_SIZE, data), p) == Patched(Bytes(g, img, p), pos, data)
  {
    hide Bpb.WellFormed, OnData, SectorAt, Chains.Distinct;
    var img' := PatchedImage(img, s, pos % SECTOR_SIZE, data);
    var b, b' := Bytes(g, img, p), Bytes(g, img', p);
    forall i | 0 <= i < |b| ensures b'[i] == Patched(b, pos, data)[i] {
      if i / SECTOR_SIZE != pos / SECTOR_SIZE {
        if SectorAt(g, |img|, p, i / SECTOR_SIZE) == s {
          SectorOnce(g, |img|, p, i / SECTOR_SIZE, pos / SECTOR_SIZE);
        }
      }
    }
  }

  /** The sector read at a position holds the file's bytes from there to the end of the sector. */
  lemma ReadInSector(g: Bpb, img: Image, p: seq<nat>, pos: nat, n: nat, s: nat)
    requires g.WellFormed(|img|) && OnData(g, p)
    requires pos < SECTOR_SIZE * (|p| * g.spc) && pos % SECTOR_SIZE + n <= SECTOR_SIZE
    requires s == SectorAt(g, |img|, p, pos / SECTOR_SIZE)
    ensures pos + n <= |Bytes(g, img, p)|
    ensures img[s][pos % SECTOR_SIZE..pos % SECTOR_SIZE + n] == Bytes(g, img, p)[pos..pos + n]
  {
    hide Bpb.WellFormed, OnData, SectorAt;
    var b := Bytes(g, img, p);
    forall i | pos <= i < pos + n ensures b[i] == img[s][pos % SECTOR_SIZE + (i - pos)] {
      assert i / SECTOR_SIZE == pos / SECTOR_SIZE && i % SECTOR_SIZE == pos % SECTOR_SIZE + (i - pos);
    }
    var x, y := img[s][pos % SECTOR_SIZE..pos % SECTOR_SIZE + n], b[pos..pos + n];
    forall k | 0 <= k < n ensures x[k] == y[k] {
      var i := pos + k;
      assert b[i] == y[k];
    }
  }

  /** A change of sectors that the chain does not use leaves its bytes alone. */
  lemma BytesElsewhere(g: Bpb, img: Image, img': Image, p: seq<nat>)
    requires g.WellFormed(|img|) && |img'| == |img| && OnData(g, p)
    requires forall j :: 0 <= j < |p| * g.spc ==>
      img'[SectorAt(g, |img|, p, j)] == img[SectorAt(g, |img|, p, j)]
    ensures Bytes(g, img', p) == Bytes(g, img, p)
  {
    hide Bpb.WellFormed, OnData, SectorAt;
    var b, b' := Bytes(g, img, p), Bytes(g, img', p);
    forall i | 0 <= i < |b| ensures b'[i] == b[i] {
      assert 0 <= i / SECTOR_SIZE < |p| * g.spc;
    }
  }

  /** A prefix of a chain holds a prefix of its bytes. */
  lemma BytesPrefix(g: Bpb, img: Image, p: seq<nat>, q: seq<nat>)
    requires g.WellFormed(|img|) && OnData(g, q) && p <= q
    ensures OnData(g, p) && |p| * g.ClusterBytes() <= |q| * g.ClusterBytes()
    ensures Bytes(g, img, p) == Bytes(g, img, q)[..|p| * g.ClusterBytes()]
  {
    Times(|p|, |q|, g.ClusterBytes());
    assert OnData(g, p);
    hide Bpb.WellFormed, OnData;
    Times(|p|, |q|, g.spc);
    Capacity(|p|, g.spc);
    forall j | 0 <= j < |p| * g.spc ensures SectorAt(g, |img|, p, j) == SectorAt(g, |img|, q, j) {
      ClusterOfSector(g, |img|, |p|, j);
    }
    var b, b' := Bytes(g, img, p), Bytes(g, img, q);
    forall i | 0 <= i < |b| ensures b[i] == b'[i] {
      assert 0 <= i / SECTOR_SIZE < |p| * g.spc;
    }
  }

  // ----- what belongs to nobody else -----

  /** Sector `s` is neither in the table area, nor in a cluster of `p`, nor in a free cluster. */
  ghost predicate Foreign(g: Bpb, img: Image, p: seq<nat>, s: nat)
    requires g.WellFormed(|img|)
  {
    && s < |img| && s < TWO32
    && !(g.FatStart() <= s < g.FatEnd())
    && (g.DataStart() <= s && g.IsData(g.ClusterFromSector(s)) ==>
          var c := g.ClusterFromSector(s);
          TableOf(g, img)[c] != 0 && c !in p)
  }

  /** The table changes only at clusters of `p` and at free clusters, `q` is made of those, and clusters are conserved. */
  ghost predicate TableKept(t: Chains.Table, p: seq<nat>, u: Chains.Table, q: seq<nat>) {
    && Touches(t, u, p)
    && FromOwnOrFree(t, p, q)
    && |Chains.Free(t)| + |p| == |Chains.Free(u)| + |q|
  }

  /** The bytes of an entry that no file operation changes: name, attribute and the reserved byte. */
  const ENTRY_HEAD := 13

  /** The entry at `off` of sector `d` keeps them. */
  ghost predicate HeadKept(a: Image, b: Image, d: nat, off: nat) {
    && d < |a| == |b| && off + ENTRY_BYTES <= SECTOR_SIZE
    && b[d][off..off + ENTRY_HEAD] == a[d][off..off + ENTRY_HEAD]
  }

  /** Foreign sectors other than `d` are the same, and `d` is the same but for the changeable bytes of the entry at `off`. */
  ghost predicate SectorsKept(g: Bpb, d: nat, off: nat, a: Image, p: seq<nat>, b: Image)
    requires g.WellFormed(|a|)
  {
    && |b| == |a|
    && forall s :: 0 <= s < |a| && Foreign(g, a, p, s) ==> SectorKept(s == d, off, a[s], b[s])
  }

  ghost predicate SectorKept(isEntry: bool, off: nat, x: Sector, y: Sector) {
    if isEntry then forall j :: 0 <= j < SECTOR_SIZE && !(off + ENTRY_HEAD <= j < off + ENTRY_BYTES) ==> y[j] == x[j]
    else y == x
  }

  /**
   What an operation on the file with chain `p` (afterwards `q`) leaves alone: every table entry and
   every sector that belongs neither to the file nor to free space, except times, first cluster and
   size in the file's own directory entry, at `off` of sector `d`. It also conserves clusters.
   */
  ghost predicate Kept(g: Bpb, d: nat, off: nat, a: Image, p: seq<nat>, b: Image, q: seq<nat>) {
    && g.WellFormed(|a|) && |b| == |a|
    && TableKept(TableOf(g, a), p, TableOf(g, b), q)
    && SectorsKept(g, d, off, a, p, b)
  }

  lemma TableKeptTrans(t: Chains.Table, p: seq<nat>, u: Chains.Table, q: seq<nat>, v: Chains.Table, r: seq<nat>)
    requires TableKept(t, p, u, q) && TableKept(u, q, v, r)
    ensures TableKept(t, p, v, r)
  {
    hide Chains.Free;
    forall x | 0 <= x < |t| && x !in p && (x < 2 || t[x] != 0) ensures v[x] == t[x] {
      assert u[x] == t[x] && x !in q;
    }
    forall c | c in r ensures c in p || (Chains.IsData(t, c) && t[c] == 0) {
      assert c < |t| && c !in p && (c < 2 || t[c] != 0) ==> u[c] == t[c];
    }
  }

  lemma KeptForeign(g: Bpb, d: nat, off: nat, a: Image, p: seq<nat>, b: Image, q: seq<nat>, s: nat)
    requires Kept(g, d, off, a, p, b, q) && Foreign(g, a, p, s)
    ensures |b| == |a| && Foreign(g, b, q, s)
  {
    hide Bpb.WellFormed, Bpb.MaxCluster, Bpb.ClusterFromSector, Bpb.FatStart, Bpb.FatEnd, Bpb.DataStart, Entry,
      SectorsKept, Chains.Free;
    if g.DataStart() <= s && g.IsData(g.ClusterFromSector(s)) {
      var c := g.ClusterFromSector(s);
      assert TableOf(g, b)[c] == TableOf(g, a)[c];
    }
  }

  /** An entry outside the file keeps its name and attribute. */
  lemma KeptHead(g: Bpb, d: nat, off: nat, a: Image, p: seq<nat>, b: Image, q: seq<nat>)
    requires Kept(g, d, off, a, p, b, q) && Foreign(g, a, p, d) && off + ENTRY_BYTES <= SECTOR_SIZE
    ensures HeadKept(a, b, d, off)
  {
    hide Bpb.WellFormed, TableOf, TableKept, Bpb.FatStart, Bpb.FatEnd, Bpb.DataStart, Bpb.ClusterFromSector;
    assert SectorKept(true, off, a[d], b[d]);
  }

  lemma KeptTrans(g: Bpb, d: nat, off: nat, a: Image, p: seq<nat>, b: Image, q: seq<nat>, c: Image, r: seq<nat>)
    requires Kept(g, d, off, a, p, b, q) && Kept(g, d, off, b, q, c, r)
    ensures Kept(g, d, off, a, p, c, r)
  {
    hide Bpb.WellFormed, TableOf, Foreign, TableKept, Bpb.MaxCluster;
    TableKeptTrans(TableOf(g, a), p, TableOf(g, b), q, TableOf(g, c), r);
    forall s | 0 <= s < |a| && Foreign(g, a, p, s) ensures SectorKept(s == d, off, a[s], c[s]) {
      KeptForeign(g, d, off, a, p, b, q, s);
      assert SectorKept(s == d, off, a[s], b[s]) && SectorKept(s == d, off, b[s], c[s]);
    }
  }

  lemma KeptSelf(g: Bpb, d: nat, off: nat, a: Image, p: seq<nat>)
    requires g.WellFormed(|a|)
    ensures Kept(g, d, off, a, p, a, p)
  {
    hide Bpb.WellFormed, Entry, Bpb.MaxCluster, Foreign, Chains.Free;
  }

  // ----- sectors outside the table -----

  lemma TableElsewhere(g: Bpb, a: Image, s: nat, x: Sector)
    requires g.WellFormed(|a|) && s < |a| && !(g.FatStart() <= s < g.FatEnd())
    ensures TableOf(g, a[s := x]) == TableOf(g, a)
    ensures Mirrored(g, a) ==> Mirrored(g, a[s := x])
  {
    hide Bpb.WellFormed, Bpb.MaxCluster, EntryIn, Bpb.EntrySector, Bpb.FatStart, Bpb.FatEnd;
    FirstCopy(g, |a|);
    var b: Image := a[s := x];
    forall copy: nat, c: u32 | copy < g.fats && c <= g.MaxCluster()
      ensures Entry(g, b, copy, c) == Entry(g, a, copy, c)
    {
      EntryInside(g, |a|, copy, c);
    }
    if Mirrored(g, a) {
      forall copy: nat, c: u32 | copy < g.fats && g.IsData(c) ensures Entry(g, b, copy, c) == Entry(g, b, 0, c) {
        assert Entry(g, a, copy, c) == Entry(g, a, 0, c);
      }
    }
  }

  /** The clusters of a file are data clusters. */
  lemma FileOnData(g: Bpb, img: Image, p: seq<nat>)
    requires g.WellFormed(|img|) && IsFile(TableOf(g, img), g.Eoc(), p)
    ensures OnData(g, p) && Chains.Distinct(p) && |TableOf(g, img)| <= g.Eoc() && 0 < g.Eoc()
  {
    hide Entry;
    FirstCopy(g, |img|);
    assert |TableOf(g, img)| <= g.Eoc();
    if p != [] {
      Chains.ChainDistinct(TableOf(g, img), g.Eoc(), p[0], p);
      forall i | 0 <= i < |p| ensures p[i] < TWO32 && g.IsData(p[i]) {
        assert Chains.IsData(TableOf(g, img), p[i]);
      }
    }
  }

  /** A sector of a data cluster is in the data area, and is found in its cluster. */
  lemma FileSector(g: Bpb, sectors: nat, p: seq<nat>, j: nat, s: nat)
    requires g.WellFormed(sectors) && OnData(g, p) && j < |p| * g.spc && s == SectorAt(g, sectors, p, j)
    ensures !(g.FatStart() <= s < g.FatEnd()) && g.DataStart() <= s < TWO32 && s < sectors
    ensures g.IsData(g.ClusterFromSector(s)) && g.ClusterFromSector(s) in p
  {
    hide Bpb.WellFormed, Bpb.MaxCluster, Bpb.ClusterFromSector, Bpb.ClusterToSector;
    ClusterOfSector(g, sectors, |p|, j);
    var c, k := p[j / g.spc], j % g.spc;
    assert g.IsData(c) && c in p;
    NoWrap(g, sectors);
    ClusterInside(g, sectors, c, k);
    ClusterSectorRoundTrip(g, sectors, c, k, s);
  }

  /** Writing a sector of the file itself. */
  lemma KeptOwnSector(g: Bpb, d: nat, off: nat, a: Image, p: seq<nat>, j: nat, s: nat, x: Sector)
    requires g.WellFormed(|a|) && OnData(g, p) && j < |p| * g.spc && s == SectorAt(g, |a|, p, j)
    ensures Kept(g, d, off, a, p, a[s := x], p)
    ensures TableOf(g, a[s := x]) == TableOf(g, a)
    ensures Mirrored(g, a) ==> Mirrored(g, a[s := x])
  {
    hide Bpb.WellFormed, Bpb.IsData, Bpb.ClusterFromSector, Bpb.FatStart, Bpb.FatEnd, Bpb.DataStart, TableOf,
      Mirrored, TableKept, OnData, SectorAt;
    FileSector(g, |a|, p, j, s);
    TableElsewhere(g, a, s, x);
    TableKeptSelf(TableOf(g, a), p);
  }

  lemma TableKeptSelf(t: Chains.Table, p: seq<nat>)
    ensures TableKept(t, p, t, p)
  {
  }

  /** Writing the file's directory entry. */
  lemma KeptOwnEntry(g: Bpb, d: nat, off: nat, a: Image, p: seq<nat>, entry: seq<byte>)
    requires g.WellFormed(|a|) && Foreign(g, a, p, d) && off + ENTRY_BYTES <= SECTOR_SIZE && |entry| == ENTRY_BYTES
    requires entry[..ENTRY_HEAD] == a[d][off..off + ENTRY_HEAD]
    ensures Kept(g, d, off, a, p, PatchedImage(a, d, off, entry), p)
    ensures TableOf(g, PatchedImage(a, d, off, entry)) == TableOf(g, a)
    ensures Mirrored(g, a) ==> Mirrored(g, PatchedImage(a, d, off, entry))
  {
    hide Bpb.WellFormed, Bpb.IsData, Bpb.ClusterFromSector, Bpb.FatStart, Bpb.FatEnd, Bpb.DataStart, TableOf,
      Mirrored, TableKept;
    TableElsewhere(g, a, d, Patched(a[d], off, entry));
    TableKeptSelf(TableOf(g, a), p);
  }

  /** The directory entry is not part of the file. */
  lemma EntryApart(g: Bpb, a: Image, p: seq<nat>, d: nat, x: Sector)
    requires g.WellFormed(|a|) && Foreign(g, a, p, d) && OnData(g, p)
    ensures Bytes(g, a[d := x], p) == Bytes(g, a, p)
  {
    hide Bpb.WellFormed, Bpb.IsData, Bpb.ClusterFromSector, Bpb.FatStart, Bpb.FatEnd, Bpb.DataStart, TableOf, OnData,
      SectorAt, Bytes;
    forall j | 0 <= j < |p| * g.spc ensures SectorAt(g, |a|, p, j) != d {
      FileSector(g, |a|, p, j, SectorAt(g, |a|, p, j));
    }
    BytesElsewhere(g, a, a[d := x], p);
  }

  // ----- resizing -----

  /** Everything the file layer needs from a resize of its chain. */
  lemma ResizeKeeps(g: Bpb, d: nat, off: nat, a: Image, p: seq<nat>, b: Image, q: seq<nat>, n: nat, ok: bool)
    requires g.WellFormed(|a|) && |b| == |a| && FatFrame(g, a, b) && IsFile(TableOf(g, a), g.Eoc(), p)
    requires Resized(TableOf(g, a), TableOf(g, b), g.Eoc(), p, n, q, ok)
    ensures Kept(g, d, off, a, p, b, q)
    ensures IsFile(TableOf(g, b), g.Eoc(), q) && OnData(g, p) && OnData(g, q)
    ensures ok <==> n <= |p| + |Chains.Free(TableOf(g, a))|
    ensures if ok then |q| == n else q == p
    ensures forall size: nat :: size <= |p| * g.ClusterBytes() && size <= |q| * g.ClusterBytes() ==>
      Bytes(g, b, q)[..size] == Bytes(g, a, p)[..size]
  {
    hide Bpb.WellFormed, Bpb.IsData, TableOf, Resized, IsFile, Foreign, Touches, FromOwnOrFree, Chains.Free, OnData, Bytes,
      FatFrame, Chains.Distinct;
    FileOnData(g, a, p);
    ResizedFile(TableOf(g, a), TableOf(g, b), g.Eoc(), p, n, q, ok);
    ResizedTouches(TableOf(g, a), TableOf(g, b), g.Eoc(), p, n, q, ok);
    ResizedConserves(TableOf(g, a), TableOf(g, b), g.Eoc(), p, n, q, ok);
    FileOnData(g, b, q);
    FrameKeepsForeign(g, d, off, a, p, b);
    FrameKeepsBytes(g, a, b, p);
    FrameKeepsBytes(g, a, b, q);
    if q <= p {
      BytesPrefix(g, a, q, p);
    } else {
      BytesPrefix(g, a, p, q);
    }
  }

  lemma FrameKeepsForeign(g: Bpb, d: nat, off: nat, a: Image, p: seq<nat>, b: Image)
    requires g.WellFormed(|a|) && |b| == |a| && FatFrame(g, a, b)
    ensures SectorsKept(g, d, off, a, p, b)
  {
    hide Bpb.WellFormed, TableOf, Bpb.FatStart, Bpb.FatEnd, HiddenKept;
  }

  lemma FrameKeepsBytes(g: Bpb, a: Image, b: Image, p: seq<nat>)
    requires g.WellFormed(|a|) && |b| == |a| && FatFrame(g, a, b) && OnData(g, p)
    ensures Bytes(g, b, p) == Bytes(g, a, p)
  {
    hide Bpb.WellFormed, OnData, SectorAt, Bpb.FatStart, Bpb.FatEnd, HiddenKept, Bytes;
    forall j | 0 <= j < |p| * g.spc ensures b[SectorAt(g, |a|, p, j)] == a[SectorAt(g, |a|, p, j)] {
      FileSector(g, |a|, p, j, SectorAt(g, |a|, p, j));
    }
    BytesElsewhere(g, a, b, p);
  }

  // ----- the file behind a handle -----

  /** What a file handle relies on: its chain, which covers its size, and a directory entry outside the file. */
  ghost predicate IsHandle(g: Bpb, img: Image, p: seq<nat>, first: nat, size: nat, d: nat, off: nat) {
    && g.WellFormed(|img|) && Mirrored(g, img)
    && IsFile(TableOf(g, img), g.Eoc(), p) && Head(p) == first
    && size <= |p| * g.ClusterBytes()
    && Foreign(g, img, p, d) && off + ENTRY_BYTES <= SECTOR_SIZE
  }

  /** The contents of the file: its first `size` bytes. */
  ghost function Content(g: Bpb, img: Image, p: seq<nat>, size: nat): (c: seq<byte>)
    requires g.WellFormed(|img|) && IsFile(TableOf(g, img), g.Eoc(), p) && size <= |p| * g.ClusterBytes()
    ensures |c| == size
  {
    FileOnData(g, img, p);
    Bytes(g, img, p)[..size]
  }

  /** `b` is `a` with `data` written over the bytes of the chain `p` at `pos`; the table is untouched. */
  ghost predicate SpanWritten(g: Bpb, d: nat, off: nat, a: Image, b: Image, p: seq<nat>, pos: nat, data: seq<byte>) {
    && g.WellFormed(|a|) && |b| == |a| && OnData(g, p)
    && pos + |data| <= |p| * g.ClusterBytes()
    && Bytes(g, b, p) == Patched(Bytes(g, a, p), pos, data)
    && TableOf(g, b) == TableOf(g, a) && (Mirrored(g, a) ==> Mirrored(g, b))
    && Kept(g, d, off, a, p, b, p)
  }

  lemma PatchedTwice(s: seq<byte>, pos: nat, x: seq<byte>, y: seq<byte>)
    requires pos + |x| + |y| <= |s|
    ensures Patched(Patched(s, pos, x), pos + |x|, y) == Patched(s, pos, x + y)
  {
  }

  lemma PatchedNothing(s: seq<byte>, pos: nat)
    requires pos <= |s|
    ensures Patched(s, pos, []) == s
  {
  }

  lemma SpanNothing(g: Bpb, d: nat, off: nat, a: Image, p: seq<nat>, pos: nat)
    requires g.WellFormed(|a|) && OnData(g, p) && pos <= |p| * g.ClusterBytes()
    ensures SpanWritten(g, d, off, a, a, p, pos, [])
  {
    hide Bpb.WellFormed, OnData, TableOf, Mirrored, Kept;
    PatchedNothing(Bytes(g, a, p), pos);
    KeptSelf(g, d, off, a, p);
  }

  lemma SpanJoin(g: Bpb, d: nat, off: nat, a: Image, b: Image, c: Image, p: seq<nat>, pos: nat, x: seq<byte>, y: seq<byte>)
    requires SpanWritten(g, d, off, a, b, p, pos, x) && SpanWritten(g, d, off, b, c, p, pos + |x|, y)
    ensures SpanWritten(g, d, off, a, c, p, pos, x + y)
  {
    hide Bpb.WellFormed, OnData, TableOf, Mirrored, Kept, Patched;
    PatchedTwice(Bytes(g, a, p), pos, x, y);
    KeptTrans(g, d, off, a, p, b, p, c, p);
  }

  /** One sector write of the file layer: position `pos` is sector `k` of the cluster that holds it. */
  lemma SpanStep(g: Bpb, d: nat, off: nat, a: Image, p: seq<nat>, pos: nat, data: seq<byte>, s: nat)
    requires g.WellFormed(|a|) && OnData(g, p) && Chains.Distinct(p) && pos < |p| * g.ClusterBytes()
    requires pos % SECTOR_SIZE + |data| <= SECTOR_SIZE
    requires pos / SECTOR_SIZE < |p| * g.spc && s == SectorAt(g, |a|, p, pos / SECTOR_SIZE)
    ensures s < |a| && SpanWritten(g, d, off, a, PatchedImage(a, s, pos % SECTOR_SIZE, data), p, pos, data)
  {
    hide Bpb.WellFormed, OnData, TableOf, Mirrored, Kept, SectorAt, Chains.Distinct;
    Capacity(|p|, g.spc);
    WriteInSector(g, a, p, pos, data, s);
    KeptOwnSector(g, d, off, a, p, pos / SECTOR_SIZE, s, Patched(a[s], pos % SECTOR_SIZE, data));
  }

  /** Positions inside one cluster. */
  lemma StayInCluster(pos: nat, k: nat, cs: nat)
    requires cs > 0 && pos % cs + k < cs
    ensures (pos + k) / cs == pos / cs && (pos + k) % cs == pos % cs + k
  {
    assert pos == (pos / cs) * cs + pos % cs;
    Division(pos + k, cs, pos / cs, pos % cs + k);
  }

  lemma SpanKeepsHandle(g: Bpb, d: nat, off: nat, a: Image, b: Image, p: seq<nat>, pos: nat, data: seq<byte>, first: nat, size: nat)
    requires IsHandle(g, a, p, first, size, d, off) && SpanWritten(g, d, off, a, b, p, pos, data)
    ensures IsHandle(g, b, p, first, size, d, off)
  {
    hide Bpb.WellFormed, OnData, TableOf, Mirrored, Kept, Foreign, IsFile, Bytes;
    KeptForeign(g, d, off, a, p, b, p, d);
  }

  // ----- the file's abstract contents -----

  function Zeros(n: nat): (z: seq<byte>)
    ensures |z| == n && forall i :: 0 <= i < n ==> z[i] == 0
  {
    seq(n, _ => 0)
  }

  function ZeroExtended(c: seq<byte>, n: nat): seq<byte> {
    if |c| < n then c + Zeros(n - |c|) else c
  }

  /** What a write of `data` at `pos` makes of the contents `c`: a hole reads as zeros. */
  function Written(c: seq<byte>, pos: nat, data: seq<byte>): seq<byte> {
    var e := ZeroExtended(c, pos);
    if pos + |data| <= |e| then e[..pos] + data + e[pos + |data|..] else e[..pos] + data
  }

  /** Byte by byte: the data where it was written, the old bytes elsewhere, zeros in the hole. */
  lemma WrittenBytes(c: seq<byte>, pos: nat, data: seq<byte>, i: nat)
    requires i < |Written(c, pos, data)|
    ensures |Written(c, pos, data)| == if pos + |data| > |ZeroExtended(c, pos)| then pos + |data| else |ZeroExtended(c, pos)|
    ensures Written(c, pos, data)[i] ==
      if pos <= i < pos + |data| then data[i - pos] else if i < |c| then c[i] else 0
  {
  }

  /** The overlay on the raw bytes is the write on the contents, once the file covers its position. */
  lemma PatchIsWrite(b: seq<byte>, c: seq<byte>, pos: nat, data: seq<byte>)
    requires pos <= |c| <= |b| && pos + |data| <= |b| && b[..|c|] == c
    ensures var size' := if pos + |data| > |c| then pos + |data| else |c|;
      Patched(b, pos, data)[..size'] == Written(c, pos, data)
  {
    var e := pos + |data|;
    assert b[..pos] == c[..pos];
    if e <= |c| {
      assert b[e..|c|] == c[e..];
    }
  }

  /** Writing zeros at the end extends with zeros. */
  lemma WriteZerosAtEnd(c: seq<byte>, k: nat, n: nat)
    ensures Written(ZeroExtended(c, |c| + k), |c| + k, Zeros(n)) == ZeroExtended(c, |c| + k + n)
  {
  }

  // ----- growing and shrinking a file -----

  /** The effect of asking for `n` clusters on the file with chain `p`. */
  ghost predicate Ensured(g: Bpb, d: nat, off: nat, a: Image, p: seq<nat>, b: Image, q: seq<nat>, n: nat, ok: bool) {
    && Kept(g, d, off, a, p, b, q)
    && (Mirrored(g, a) ==> Mirrored(g, b))
    && IsFile(TableOf(g, a), g.Eoc(), p) && IsFile(TableOf(g, b), g.Eoc(), q) && OnData(g, p) && OnData(g, q)
    && (ok <==> n <= |p| + |Chains.Free(TableOf(g, a))|)
    && (if ok then |q| == n else q == p && b == a)
    && forall size: nat :: size <= |p| * g.ClusterBytes() && size <= |q| * g.ClusterBytes() ==>
         Bytes(g, b, q)[..size] == Bytes(g, a, p)[..size]
  }

  lemma EnsuredFrom(g: Bpb, d: nat, off: nat, a: Image, p: seq<nat>, b: Image, q: seq<nat>, n: nat, ok: bool)
    requires g.WellFormed(|a|) && |b| == |a| && FatFrame(g, a, b) && IsFile(TableOf(g, a), g.Eoc(), p)
    requires Mirrored(g, a) && Mirrored(g, b) && (!ok ==> b == a)
    requires Resized(TableOf(g, a), TableOf(g, b), g.Eoc(), p, n, q, ok)
    ensures Ensured(g, d, off, a, p, b, q, n, ok)
  {
    hide Bpb.WellFormed, OnData, TableOf, Mirrored, Kept, Foreign, IsFile, Bytes, FatFrame, Resized, Chains.Free;
    ResizeKeeps(g, d, off, a, p, b, q, n, ok);
  }

  /** More clusters than a 32-bit count can say are refused, as they could never be had. */
  lemma EnsuredRefused(g: Bpb, d: nat, off: nat, a: Image, p: seq<nat>, n: nat)
    requires g.WellFormed(|a|) && IsFile(TableOf(g, a), g.Eoc(), p) && n >= TWO32
    ensures Ensured(g, d, off, a, p, a, p, n, false)
  {
    hide Bpb.WellFormed, TableOf, Mirrored, Kept, Foreign, Bytes, OnData, IsFile;
    KeptSelf(g, d, off, a, p);
    FileOnData(g, a, p);
    TableSmall(g, a, p);
  }

  lemma TableSmall(g: Bpb, a: Image, p: seq<nat>)
    requires g.WellFormed(|a|) && IsFile(TableOf(g, a), g.Eoc(), p)
    ensures |p| + |Chains.Free(TableOf(g, a))| < TWO32
  {
    hide Entry, Bpb.MaxCluster;
    FileOnData(g, a, p);
    if p != [] {
      Chains.ChainBound(TableOf(g, a), g.Eoc(), p[0], p);
    }
  }

  lemma EnsuredHandle(g: Bpb, d: nat, off: nat, a: Image, p: seq<nat>, b: Image, q: seq<nat>, n: nat, ok: bool,
                      first: nat, size: nat)
    requires IsHandle(g, a, p, first, size, d, off) && Ensured(g, d, off, a, p, b, q, n, ok)
    requires size <= n * g.ClusterBytes()
    ensures IsHandle(g, b, q, Head(q), size, d, off)
    ensures Content(g, b, q, size) == Content(g, a, p, size)
  {
    hide Bpb.WellFormed, OnData, TableOf, Mirrored, Kept, Foreign, IsFile, Bytes, Chains.Free;
    KeptForeign(g, d, off, a, p, b, q, d);
  }

  // ----- the directory entry -----

  /** The file's directory entry was rewritten, but not its name and attribute, and nothing else. */
  ghost predicate EntryStored(g: Bpb, d: nat, off: nat, a: Image, b: Image, p: seq<nat>) {
    && Kept(g, d, off, a, p, b, p) && HeadKept(a, b, d, off)
    && TableOf(g, b) == TableOf(g, a) && (Mirrored(g, a) ==> Mirrored(g, b))
    && (OnData(g, p) ==> Bytes(g, b, p) == Bytes(g, a, p))
  }

  lemma StoreEntry(g: Bpb, d: nat, off: nat, a: Image, p: seq<nat>, entry: seq<byte>)
    requires g.WellFormed(|a|) && Foreign(g, a, p, d) && off + ENTRY_BYTES <= SECTOR_SIZE && |entry| == ENTRY_BYTES
    requires entry[..ENTRY_HEAD] == a[d][off..off + ENTRY_HEAD]
    ensures EntryStored(g, d, off, a, PatchedImage(a, d, off, entry), p)
  {
    hide Bpb.WellFormed, OnData, TableOf, Mirrored, Kept, Foreign, Bytes;
    ForeignInside(g, a, p, d);
    KeptOwnEntry(g, d, off, a, p, entry);
    if OnData(g, p) {
      EntryApart(g, a, p, d, Patched(a[d], off, entry));
    }
  }

  lemma ForeignInside(g: Bpb, a: Image, p: seq<nat>, d: nat)
    requires g.WellFormed(|a|) && Foreign(g, a, p, d)
    ensures d < |a| && d < TWO32
  {
  }

  lemma EntryStoredHandle(g: Bpb, d: nat, off: nat, a: Image, b: Image, p: seq<nat>, first: nat, size: nat)
    requires IsHandle(g, a, p, first, size, d, off) && EntryStored(g, d, off, a, b, p)
    ensures IsHandle(g, b, p, first, size, d, off)
    ensures Content(g, b, p, size) == Content(g, a, p, size)
  {
    hide Bpb.WellFormed, OnData, TableOf, Mirrored, Kept, Foreign, IsFile, Bytes, Bpb.ClusterBytes, Chains.Distinct;
    FileOnData(g, a, p);
    KeptForeign(g, d, off, a, p, b, p, d);
  }
}
