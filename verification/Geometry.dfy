/**
 Where things are on a FAT16 or FAT32 volume: the layout arithmetic of `fat/fatlib.c`,
 in 32-bit unsigned arithmetic as the code computes it.
 */
module Geometry {
  import opened Words

  const SECTOR_SIZE := 512
  const ENTRY_BYTES := 32          // one directory entry

  type Sector = s: seq<byte> | |s| == 512 witness seq(512, _ => 0)
  type Image = seq<Sector>

  datatype FatKind = Fat16 | Fat32

  /** The fields of the boot sector that the layout depends on, with the partition's first sector. */
  datatype Bpb = Bpb(kind: FatKind, lbaStart: u32, reserved: u16, fats: byte, fatSize: u32,
                     rootEntries: u16, spc: byte, total: u32)
  {
    // ----- the code's own computations, modulo 2^32 -----

    function RootDirSectorCount(): u32 {
      if kind == Fat16 then (ENTRY_BYTES * rootEntries + SECTOR_SIZE - 1) / SECTOR_SIZE else 0
    }

    function RootDirSector(): u32 {
      U32(lbaStart + reserved + fats * fatSize)
    }

    function FirstDataSector(): u32 {
      U32(lbaStart + reserved + fats * fatSize + RootDirSectorCount())
    }

    function DataSectorCount(): u32 {
      var relative := U32(reserved + fats * fatSize + RootDirSectorCount());
      if total <= relative then 0 else total - relative
    }

    function ClusterCount(): u32 {
      if spc == 0 then 0 else DivBound(DataSectorCount(), spc); DataSectorCount() / spc
    }

    function MaxCluster(): u32 {
      var count := ClusterCount();
      if count == 0 then 0 else if count == TWO32 - 1 then count else count + 1
    }

    function ClusterToSector(c: u32): u32 {
      if c < 2 then 0 else U32(FirstDataSector() + (c - 2) * spc)
    }

    function ClusterFromSector(s: u32): u32 {
      if s < FirstDataSector() || spc == 0 then 0
      else U32((s - FirstDataSector()) / spc + 2)
    }

    function EntrySize(): nat {
      if kind == Fat16 then 2 else 4
    }

    function EntriesPerSector(): nat {
      if kind == Fat16 then 256 else 128
    }

    function FatSector(c: u32): u32 {
      U32(lbaStart + reserved + c / EntriesPerSector())
    }

    function FatEntryOffset(c: u32): nat {
      c % EntriesPerSector() * EntrySize()
    }

    /** Where the loop of `writecluster` finds the entry in each copy. */
    function EntrySector(copy: nat, c: u32): nat {
      FatSector(c) + copy * fatSize
    }

    /** The index of the entry's sector inside each copy. */
    function EntryIndex(c: nat): nat {
      c / EntriesPerSector()
    }

    /** The other index formula, which scales the cluster number before it divides. */
    function FatSectorScaled(c: u32): u32 {
      U32(lbaStart + U32(reserved + U32(c * EntrySize()) / SECTOR_SIZE))
    }

    function FatEntryOffsetScaled(c: u32): nat {
      U32(c * EntrySize()) % SECTOR_SIZE
    }

    function Mask(): nat {
      if kind == Fat16 then 0x1_0000 else 0x1000_0000
    }

    function Eoc(): u32 {
      if kind == Fat16 then 0xFFF8 else 0x0FFF_FFF8
    }

    function ClusterBytes(): nat {
      spc * SECTOR_SIZE
    }

    predicate IsData(c: int) {
      2 <= c <= MaxCluster()
    }

    predicate IsEoc(v: int) {
      v >= Eoc()
    }

    // ----- the same quantities without wrap-around -----

    function FatStart(): nat {
      lbaStart + reserved
    }

    /** Sector `k` of one copy of the table. */
    function TableSector(copy: nat, k: nat): nat {
      FatStart() + copy * fatSize + k
    }

    function FatEnd(): nat {
      FatStart() + fats * fatSize
    }

    function DataStart(): nat {
      FatEnd() + RootDirSectorCount()
    }

    /**
     A volume whose regions fit: what `loadfat` checks, each file allocation table is large enough
     for every cluster, cluster numbers stay below the end marks, and the partition lies inside
     the image and inside 32-bit sector numbers.
     */
    ghost predicate WellFormed(sectors: nat) {
      && spc > 0 && fats > 0 && fatSize > 0 && reserved > 0
      && DataStart() - lbaStart <= total
      && lbaStart + total <= sectors
      && lbaStart + total < TWO32
      && MaxCluster() < fatSize * EntriesPerSector()
      && MaxCluster() < Eoc()
    }
  }

  function U32(x: int): u32 {
    x % TWO32
  }

  // ----- no wrap-around on a well-formed volume -----

  /** The code's wrapped sums are the true ones, and the regions follow one another inside the partition. */
  lemma NoWrap(g: Bpb, sectors: nat)
    requires g.WellFormed(sectors)
    ensures g.RootDirSector() == g.FatEnd() && g.FirstDataSector() == g.DataStart()
    ensures g.DataSectorCount() == g.total - (g.DataStart() - g.lbaStart)
    ensures g.FatStart() < g.FatEnd() <= g.DataStart() <= g.lbaStart + g.total <= sectors
    ensures g.DataStart() + g.DataSectorCount() == g.lbaStart + g.total < TWO32
  {
    Times(1, g.fats, g.fatSize);
    hide U32;
    Fits(g.lbaStart + g.reserved + g.fats * g.fatSize);
    Fits(g.lbaStart + g.reserved + g.fats * g.fatSize + g.RootDirSectorCount());
    Fits(g.reserved + g.fats * g.fatSize + g.RootDirSectorCount());
  }

  lemma Fits(x: nat)
    ensures x < TWO32 ==> U32(x) == x
  {
  }

  /** Where the regions are: reserved sectors, the copies of the table, the root of FAT16 rounded up to sectors, the clusters. */
  lemma RegionsAt(g: Bpb, sectors: nat, c: u32)
    requires g.WellFormed(sectors)
    ensures var r := g.RootDirSectorCount();
      && (if g.kind == Fat16 then 512 * r >= 32 * g.rootEntries > 512 * (r - 1) else r == 0)
      && g.RootDirSector() == g.lbaStart + g.reserved + g.fats * g.fatSize
      && (g.IsData(c) ==> g.ClusterToSector(c) == g.lbaStart + g.reserved + g.fats * g.fatSize + r + (c - 2) * g.spc)
  {
    NoWrap(g, sectors);
    RootRounded(g);
    if g.IsData(c) {
      ClusterInside(g, sectors, c, 0);
    }
  }

  lemma RootRounded(g: Bpb)
    ensures var r := g.RootDirSectorCount();
      if g.kind == Fat16 then 512 * r >= 32 * g.rootEntries > 512 * (r - 1) else r == 0
  {
  }

  /** `fat_max_cluster` counts exactly the whole clusters of the data area. */
  lemma MaxClusterIs(g: Bpb, sectors: nat)
    requires g.WellFormed(sectors)
    ensures g.MaxCluster() == 0 <==> g.ClusterCount() == 0
    ensures g.ClusterCount() > 0 ==> g.MaxCluster() == g.ClusterCount() + 1
    ensures g.ClusterCount() * g.spc <= g.DataSectorCount() < (g.ClusterCount() + 1) * g.spc
  {
    var n, d := g.DataSectorCount(), g.spc;
    assert n == (n / d) * d + n % d;
  }

  /** Every sector of every data cluster lies in the data area of the partition; nothing wraps. */
  lemma ClusterInside(g: Bpb, sectors: nat, c: u32, k: nat)
    requires g.WellFormed(sectors) && g.IsData(c) && k < g.spc
    ensures g.ClusterToSector(c) == g.DataStart() + (c - 2) * g.spc
    ensures g.DataStart() <= g.ClusterToSector(c) + k < g.lbaStart + g.total <= sectors
  {
    NoWrap(g, sectors);
    MaxClusterIs(g, sectors);
    Times(0, c - 2, g.spc);
    Times(c - 1, g.ClusterCount(), g.spc);
    assert (c - 1) * g.spc == (c - 2) * g.spc + g.spc;
  }

  /** `getclusterfromsector` undoes `clustertosector` on every sector of the cluster. */
  lemma ClusterSectorRoundTrip(g: Bpb, sectors: nat, c: u32, k: nat, s: u32)
    requires g.WellFormed(sectors) && g.IsData(c) && k < g.spc && s == g.ClusterToSector(c) + k
    ensures g.ClusterFromSector(s) == c
  {
    hide *;
    ClusterInside(g, sectors, c, k);
    FromSector(g, sectors, s);
    DataBounds(g, sectors, c);
    Division((c - 2) * g.spc + k, g.spc, c - 2, k);
  }

  lemma DataBounds(g: Bpb, sectors: nat, c: u32)
    requires g.WellFormed(sectors) && g.IsData(c)
    ensures 2 <= c && g.spc > 0 && (c - 2) * g.spc >= 0
  {
    Times(0, c - 2, g.spc);
  }

  lemma FromSector(g: Bpb, sectors: nat, s: u32)
    requires g.WellFormed(sectors) && g.DataStart() <= s
    ensures g.spc > 0
    ensures g.ClusterFromSector(s) == U32((s - g.DataStart()) / g.spc + 2)
    ensures (s - g.DataStart()) / g.spc + 2 < TWO32 ==> g.ClusterFromSector(s) == (s - g.DataStart()) / g.spc + 2
  {
    NoWrap(g, sectors);
    DivBound(s - g.DataStart(), g.spc);
  }

  /** Conversely, a sector of the data area that belongs to a data cluster is found in it. */
  lemma SectorInCluster(g: Bpb, sectors: nat, s: u32, c: u32)
    requires g.WellFormed(sectors) && g.DataStart() <= s && c == g.ClusterFromSector(s) && g.IsData(c)
    ensures g.ClusterToSector(c) <= s < g.ClusterToSector(c) + g.spc
  {
    hide *;
    FromSector(g, sectors, s);
    DataBounds(g, sectors, c);
    ClusterInside(g, sectors, c, 0);
    QuotientIs(s - g.DataStart(), g.spc, c);
  }

  lemma QuotientIs(x: u32, d: nat, c: nat)
    requires d >= 1 && c == U32(x / d + 2) && 2 <= c
    ensures (c - 2) * d <= x < (c - 2) * d + d
  {
    DivBound(x, d);
    assert x == (x / d) * d + x % d;
  }

  /** The last sector of the last cluster is inside the partition, without wrap-around. */
  lemma LastClusterInside(g: Bpb, sectors: nat)
    requires g.WellFormed(sectors) && g.MaxCluster() >= 2
    ensures g.ClusterToSector(g.MaxCluster()) + g.spc - 1 < g.lbaStart + g.total < TWO32
  {
    ClusterInside(g, sectors, g.MaxCluster(), g.spc - 1);
  }

  /** Distinct clusters own distinct sectors. */
  lemma ClustersDisjoint(g: Bpb, sectors: nat, c: u32, k: nat, d: u32, l: nat)
    requires g.WellFormed(sectors) && g.IsData(c) && g.IsData(d) && k < g.spc && l < g.spc
    requires g.ClusterToSector(c) + k == g.ClusterToSector(d) + l
    ensures c == d && k == l
  {
    hide *;
    ClusterInside(g, sectors, c, k);
    ClusterInside(g, sectors, d, l);
    DataBounds(g, sectors, c);
    DataBounds(g, sectors, d);
    Division((c - 2) * g.spc + k, g.spc, c - 2, k);
    Division((d - 2) * g.spc + l, g.spc, d - 2, l);
  }

  /** Every copy of every data cluster's table entry lies in the table area, inside its copy. */
  lemma EntryInside(g: Bpb, sectors: nat, copy: nat, c: u32)
    requires g.WellFormed(sectors) && copy < g.fats && c <= g.MaxCluster()
    ensures g.FatSector(c) == g.FatStart() + g.EntryIndex(c) > 0
    ensures g.EntryIndex(c) < g.fatSize
    ensures g.EntrySector(copy, c) == g.TableSector(copy, g.EntryIndex(c))
    ensures g.FatStart() <= g.EntrySector(copy, c) < g.FatEnd() <= sectors
    ensures g.EntrySector(copy, c) < TWO32
  {
    NoWrap(g, sectors);
    EntryIndexSmall(g, sectors, c);
    CopyInside(g, copy, g.EntryIndex(c));
  }

  lemma EntryIndexSmall(g: Bpb, sectors: nat, c: u32)
    requires g.WellFormed(sectors) && c <= g.MaxCluster()
    ensures g.EntryIndex(c) < g.fatSize
  {
  }

  lemma CopyInside(g: Bpb, copy: nat, k: nat)
    requires copy < g.fats && k < g.fatSize
    ensures 0 <= copy * g.fatSize && copy * g.fatSize + k < g.fats * g.fatSize
  {
    Times(copy + 1, g.fats, g.fatSize);
    Times(0, copy, g.fatSize);
  }

  /** Table sectors of different copies, or of different indices, are different sectors. */
  lemma TableSectorsDisjoint(g: Bpb, i: nat, j: nat, k: nat, l: nat)
    requires k < g.fatSize && l < g.fatSize && g.TableSector(i, k) == g.TableSector(j, l)
    ensures i == j && k == l
  {
    Division(i * g.fatSize + k, g.fatSize, i, k);
    Division(j * g.fatSize + l, g.fatSize, j, l);
  }

  /** Every sector of the table area belongs to some copy, and the other way round. */
  lemma TableSectorOf(g: Bpb, s: nat) returns (copy: nat, k: nat)
    requires g.fatSize > 0 && g.FatStart() <= s < g.FatEnd()
    ensures copy < g.fats && k < g.fatSize && s == g.TableSector(copy, k)
  {
    copy, k := SplitBelow(s - g.FatStart(), g.fats, g.fatSize);
  }

  lemma SplitBelow(x: nat, n: nat, d: nat) returns (q: nat, r: nat)
    requires d > 0 && x < n * d
    ensures q < n && r < d && x == q * d + r
  {
    q, r := x / d, x % d;
    assert x == q * d + r;
    TimesBack(q, n, d);
  }

  lemma TableSectorInside(g: Bpb, copy: nat, k: nat)
    requires copy < g.fats && k < g.fatSize
    ensures g.FatStart() <= g.TableSector(copy, k) < g.FatEnd()
  {
    CopyInside(g, copy, k);
  }

  /** The two index formulas agree on every data cluster: scaling by the entry size does not wrap. */
  lemma IndexFormulasAgree(g: Bpb, sectors: nat, c: u32)
    requires g.WellFormed(sectors) && c <= g.MaxCluster()
    ensures g.FatSectorScaled(c) == g.FatSector(c)
    ensures g.FatEntryOffsetScaled(c) == g.FatEntryOffset(c)
  {
    ScaledIndex(c);
    assert U32(c * g.EntrySize()) == c * g.EntrySize();
    SumsWrapAlike(g.lbaStart, g.reserved + c / g.EntriesPerSector());
  }

  lemma ScaledIndex(c: nat)
    ensures c * 2 / 512 == c / 256 && c * 2 % 512 == c % 256 * 2
    ensures c * 4 / 512 == c / 128 && c * 4 % 512 == c % 128 * 4
  {
  }

  lemma SumsWrapAlike(x: u32, y: nat)
    ensures U32(x + U32(y)) == U32(x + y)
  {
  }
}
