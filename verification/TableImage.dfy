/** The file allocation tables as bytes of the image: entry access in every copy, and what an entry write leaves alone. */
module TableImage {
  import opened Words
  import opened Geometry

  // ----- entries inside a sector -----

  function Le16(b0: int, b1: int): int {
    b0 + 0x100 * b1
  }

  function Le32(b0: int, b1: int, b2: int, b3: int): int {
    b0 + 0x100 * (b1 + 0x100 * (b2 + 0x100 * b3))
  }

  /** The little-endian value at `off`: two bytes on FAT16, four on FAT32. */
  function RawAt(kind: FatKind, s: Sector, off: nat): nat
    requires off + (if kind == Fat16 then 2 else 4) <= SECTOR_SIZE
  {
    match kind
    case Fat16 => Le16(s[off], s[off + 1])
    case Fat32 => Le32(s[off], s[off + 1], s[off + 2], s[off + 3])
  }

  function PutRaw(kind: FatKind, s: Sector, off: nat, raw: nat): Sector
    requires off + (if kind == Fat16 then 2 else 4) <= SECTOR_SIZE
  {
    match kind
    case Fat16 => s[off := raw % 0x100][off + 1 := raw / 0x100 % 0x100]
    case Fat32 =>
      s[off := raw % 0x100][off + 1 := raw / 0x100 % 0x100]
       [off + 2 := raw / 0x100 / 0x100 % 0x100][off + 3 := raw / 0x100 / 0x100 / 0x100 % 0x100]
  }

  /** The new word of an entry: FAT32 keeps the top four bits of the old one. */
  function NewRaw(kind: FatKind, was: nat, v: nat): nat {
    match kind
    case Fat16 => v % 0x1_0000
    case Fat32 => was / 0x1000_0000 * 0x1000_0000 + v % 0x1000_0000
  }

  function PatchEntry(g: Bpb, s: Sector, c: u32, v: nat): Sector {
    OffsetFits(g, c);
    PutRaw(g.kind, s, g.FatEntryOffset(c), NewRaw(g.kind, RawAt(g.kind, s, g.FatEntryOffset(c)), v))
  }

  lemma OffsetFits(g: Bpb, c: u32)
    ensures g.FatEntryOffset(c) + g.EntrySize() <= SECTOR_SIZE
    ensures g.FatEntryOffset(c) % g.EntrySize() == 0
  {
  }

  function EntryIn(g: Bpb, s: Sector, c: u32): nat {
    OffsetFits(g, c);
    RawAt(g.kind, s, g.FatEntryOffset(c)) % g.Mask()
  }

  lemma RawBound(kind: FatKind, s: Sector, off: nat)
    requires off + (if kind == Fat16 then 2 else 4) <= SECTOR_SIZE
    ensures RawAt(kind, s, off) < if kind == Fat16 then 0x1_0000 else 0x1_0000_0000
  {
  }

  lemma PutGet(kind: FatKind, s: Sector, off: nat, raw: nat)
    requires off + (if kind == Fat16 then 2 else 4) <= SECTOR_SIZE
    requires raw < if kind == Fat16 then 0x1_0000 else 0x1_0000_0000
    ensures RawAt(kind, PutRaw(kind, s, off, raw), off) == raw
  {
    if kind == Fat32 {
      LittleEndian(raw);
    }
  }

  lemma LittleEndian(raw: nat)
    requires raw < 0x1_0000_0000
    ensures raw == Le32(raw % 0x100, raw / 0x100 % 0x100, raw / 0x100 / 0x100 % 0x100, raw / 0x100 / 0x100 / 0x100 % 0x100)
    ensures raw / 0x100 / 0x100 / 0x100 < 0x100
  {
  }

  /** Writing an entry and reading it back gives the value, masked. */
  lemma PatchedEntry(g: Bpb, s: Sector, c: u32, v: nat)
    ensures EntryIn(g, PatchEntry(g, s, c, v), c) == v % g.Mask()
  {
    OffsetFits(g, c);
    var raw := RawAt(g.kind, s, g.FatEntryOffset(c));
    RawBound(g.kind, s, g.FatEntryOffset(c));
    NewRawIs(g.kind, raw, v);
    PutGet(g.kind, s, g.FatEntryOffset(c), NewRaw(g.kind, raw, v));
  }

  lemma NewRawIs(kind: FatKind, was: nat, v: nat)
    requires was < if kind == Fat16 then 0x1_0000 else 0x1_0000_0000
    ensures NewRaw(kind, was, v) < if kind == Fat16 then 0x1_0000 else 0x1_0000_0000
    ensures kind == Fat16 ==> NewRaw(kind, was, v) % 0x1_0000 == v % 0x1_0000
    ensures kind == Fat32 ==> NewRaw(kind, was, v) % 0x1000_0000 == v % 0x1000_0000
    ensures kind == Fat32 ==> NewRaw(kind, was, v) / 0x1000_0000 == was / 0x1000_0000
  {
  }

  /** Neighbours in the same sector keep their entries. */
  lemma PatchedNeighbour(g: Bpb, s: Sector, c: u32, v: nat, d: u32)
    requires c % g.EntriesPerSector() != d % g.EntriesPerSector()
    ensures EntryIn(g, PatchEntry(g, s, c, v), d) == EntryIn(g, s, d)
  {
    hide RawAt, PutRaw, NewRaw, Bpb.FatEntryOffset;
    OffsetFits(g, c);
    OffsetFits(g, d);
    OffsetsApart(g, c, d);
    var raw := NewRaw(g.kind, RawAt(g.kind, s, g.FatEntryOffset(c)), v);
    PutElsewhere(g.kind, s, g.FatEntryOffset(c), g.FatEntryOffset(d), raw);
  }

  lemma OffsetsApart(g: Bpb, c: u32, d: u32)
    requires c % g.EntriesPerSector() != d % g.EntriesPerSector()
    ensures g.FatEntryOffset(c) + g.EntrySize() <= g.FatEntryOffset(d)
         || g.FatEntryOffset(d) + g.EntrySize() <= g.FatEntryOffset(c)
  {
  }

  lemma PutElsewhere(kind: FatKind, s: Sector, i: nat, j: nat, raw: nat)
    requires var e := if kind == Fat16 then 2 else 4;
      i + e <= SECTOR_SIZE && j + e <= SECTOR_SIZE && (i + e <= j || j + e <= i)
    ensures RawAt(kind, PutRaw(kind, s, i, raw), j) == RawAt(kind, s, j)
  {
  }

  // ----- what is hidden from the entries -----

  /** The bytes of table sector `k` that no data entry reads: unused bytes, and on FAT32 the top four bits of each entry. */
  ghost predicate SameHidden(g: Bpb, k: nat, a: Sector, b: Sector) {
    forall j :: 0 <= j < SECTOR_SIZE ==> SameHiddenByte(g, k, j, a[j], b[j])
  }

  ghost predicate SameHiddenByte(g: Bpb, k: nat, j: nat, x: byte, y: byte) {
    if !g.IsData(k * g.EntriesPerSector() + j / g.EntrySize()) then x == y
    else g.kind == Fat32 && j % 4 == 3 ==> x / 0x10 == y / 0x10
  }

  lemma PatchKeepsHidden(g: Bpb, k: nat, s: Sector, c: u32, v: nat)
    requires g.IsData(c) && g.EntryIndex(c) == k
    ensures SameHidden(g, k, s, PatchEntry(g, s, c, v))
  {
    var t := PatchEntry(g, s, c, v);
    forall j | 0 <= j < SECTOR_SIZE ensures SameHiddenByte(g, k, j, s[j], t[j]) {
      PatchKeepsHiddenByte(g, k, s, c, v, j);
    }
  }

  lemma PatchKeepsHiddenByte(g: Bpb, k: nat, s: Sector, c: u32, v: nat, j: nat)
    requires g.IsData(c) && g.EntryIndex(c) == k && j < SECTOR_SIZE
    ensures SameHiddenByte(g, k, j, s[j], PatchEntry(g, s, c, v)[j])
  {
    OffsetFits(g, c);
    var off := g.FatEntryOffset(c);
    var raw := RawAt(g.kind, s, off);
    RawBound(g.kind, s, off);
    NewRawIs(g.kind, raw, v);
    if g.kind == Fat16 {
      assert off <= j < off + 2 ==> k * 256 + j / 2 == c;
    } else {
      assert off <= j < off + 4 ==> k * 128 + j / 4 == c;
      assert off % 4 == 0;
      TopNibble(raw, NewRaw(g.kind, raw, v), s[off], s[off + 1], s[off + 2], s[off + 3]);
    }
  }

  lemma TopNibble(raw: nat, raw': nat, b0: byte, b1: byte, b2: byte, b3: byte)
    requires raw == Le32(b0, b1, b2, b3)
    requires raw' < 0x1_0000_0000 && raw' / 0x1000_0000 == raw / 0x1000_0000
    ensures raw' / 0x100 / 0x100 / 0x100 % 0x100 / 0x10 == b3 / 0x10
  {
    LittleEndian(raw');
    WordParts(b0, b1, b2, b3);
    var c3 := raw' / 0x100 / 0x100 / 0x100;
    WordParts(raw' % 0x100, raw' / 0x100 % 0x100, raw' / 0x100 / 0x100 % 0x100, c3);
  }

  /** The hidden bytes together with the data entries determine the sector. */
  lemma SectorDetermined(g: Bpb, k: nat, a: Sector, b: Sector)
    requires SameHidden(g, k, a, b)
    requires forall c: u32 :: g.IsData(c) && g.EntryIndex(c) == k ==> EntryIn(g, a, c) == EntryIn(g, b, c)
    ensures a == b
  {
    forall j | 0 <= j < SECTOR_SIZE ensures a[j] == b[j] {
      AnyByteDetermined(g, k, a, b, j);
    }
  }

  lemma AnyByteDetermined(g: Bpb, k: nat, a: Sector, b: Sector, j: nat)
    requires SameHidden(g, k, a, b) && j < SECTOR_SIZE
    requires forall c: u32 :: g.IsData(c) && g.EntryIndex(c) == k ==> EntryIn(g, a, c) == EntryIn(g, b, c)
    ensures a[j] == b[j]
  {
    hide EntryIn, Bpb.MaxCluster;
    assert SameHiddenByte(g, k, j, a[j], b[j]);
    var c := k * g.EntriesPerSector() + j / g.EntrySize();
    if g.IsData(c) {
      DataFits(g, c);
      IndexParts(g, c, k, j / g.EntrySize());
      assert EntryIn(g, a, c) == EntryIn(g, b, c);
      ByteDetermined(g, k, a, b, j, c);
    }
  }

  lemma DataFits(g: Bpb, c: nat)
    requires g.IsData(c)
    ensures c < TWO32
  {
  }

  lemma ByteDetermined(g: Bpb, k: nat, a: Sector, b: Sector, j: nat, c: u32)
    requires j < SECTOR_SIZE && SameHidden(g, k, a, b) && g.IsData(c)
    requires c == k * g.EntriesPerSector() + j / g.EntrySize() && EntryIn(g, a, c) == EntryIn(g, b, c)
    ensures a[j] == b[j]
  {
    hide Bpb.IsData, EntryIn, SameHidden;
    var i := j / g.EntrySize();
    if g.kind == Fat16 {
      HalfWordDetermined(g, k, a, b, i, c);
      assert j == 2 * i || j == 2 * i + 1;
    } else {
      WordDetermined(g, k, a, b, i, c);
      assert j == 4 * i || j == 4 * i + 1 || j == 4 * i + 2 || j == 4 * i + 3;
    }
  }

  lemma HalfWordDetermined(g: Bpb, k: nat, a: Sector, b: Sector, i: nat, c: u32)
    requires g.kind == Fat16 && i < 256
    requires c == k * 256 + i && EntryIn(g, a, c) == EntryIn(g, b, c)
    ensures a[2 * i] == b[2 * i] && a[2 * i + 1] == b[2 * i + 1]
  {
    IndexParts(g, c, k, i);
    HalfWordsEqual(a[2 * i], a[2 * i + 1], b[2 * i], b[2 * i + 1]);
  }

  lemma WordDetermined(g: Bpb, k: nat, a: Sector, b: Sector, i: nat, c: u32)
    requires g.kind == Fat32 && i < 128 && SameHidden(g, k, a, b) && g.IsData(c)
    requires c == k * 128 + i && EntryIn(g, a, c) == EntryIn(g, b, c)
    ensures a[4 * i] == b[4 * i] && a[4 * i + 1] == b[4 * i + 1]
    ensures a[4 * i + 2] == b[4 * i + 2] && a[4 * i + 3] == b[4 * i + 3]
  {
    hide Bpb.IsData;
    IndexParts(g, c, k, i);
    var j := 4 * i + 3;
    assert SameHiddenByte(g, k, j, a[j], b[j]);
    assert j / 4 == i && j % 4 == 3;
    WordsEqual(a[4 * i], a[4 * i + 1], a[4 * i + 2], a[4 * i + 3], b[4 * i], b[4 * i + 1], b[4 * i + 2], b[4 * i + 3]);
  }

  lemma IndexParts(g: Bpb, c: nat, k: nat, i: nat)
    requires c == k * g.EntriesPerSector() + i && i < g.EntriesPerSector()
    ensures g.EntryIndex(c) == k && c % g.EntriesPerSector() == i
  {
  }

  lemma HalfWordsEqual(a0: byte, a1: byte, b0: byte, b1: byte)
    requires Le16(a0, a1) % 0x1_0000 == Le16(b0, b1) % 0x1_0000
    ensures a0 == b0 && a1 == b1
  {
    HalfWordFits(a0, a1);
    HalfWordFits(b0, b1);
    HornerEqual(a0, a1, b0, b1);
  }

  lemma HalfWordFits(b0: byte, b1: byte)
    ensures Le16(b0, b1) % 0x1_0000 == Le16(b0, b1) == b0 + 0x100 * b1
  {
  }

  lemma WordsEqual(a0: byte, a1: byte, a2: byte, a3: byte, b0: byte, b1: byte, b2: byte, b3: byte)
    requires Le32(a0, a1, a2, a3) % 0x1000_0000 == Le32(b0, b1, b2, b3) % 0x1000_0000
    requires a3 / 0x10 == b3 / 0x10
    ensures a0 == b0 && a1 == b1 && a2 == b2 && a3 == b3
  {
    WordParts(a0, a1, a2, a3);
    WordParts(b0, b1, b2, b3);
    HornerEqual(a0, a1 + 0x100 * (a2 + 0x100 * (a3 % 0x10)), b0, b1 + 0x100 * (b2 + 0x100 * (b3 % 0x10)));
    HornerEqual(a1, a2 + 0x100 * (a3 % 0x10), b1, b2 + 0x100 * (b3 % 0x10));
    HornerEqual(a2, a3 % 0x10, b2, b3 % 0x10);
  }

  lemma HornerEqual(x: byte, r: int, y: byte, q: int)
    requires x + 0x100 * r == y + 0x100 * q
    ensures x == y && r == q
  {
  }

  /** The low 28 bits and the top four bits of a four-byte word. */
  lemma WordParts(b0: byte, b1: byte, b2: byte, b3: byte)
    ensures Le32(b0, b1, b2, b3) % 0x1000_0000 == Le32(b0, b1, b2, b3 % 0x10)
    ensures Le32(b0, b1, b2, b3) / 0x1000_0000 == b3 / 0x10
  {
    var hi, lo := b3 / 0x10, b3 % 0x10;
    assert b3 == 0x10 * hi + lo;
    Division(Le32(b0, b1, b2, b3), 0x1000_0000, hi, Le32(b0, b1, b2, lo));
  }

  // ----- entries of the image -----

  /** The entry of cluster `c` in one copy of the table. */
  ghost function Entry(g: Bpb, img: Image, copy: nat, c: u32): nat
    requires g.WellFormed(|img|) && copy < g.fats && c <= g.MaxCluster()
  {
    EntryInside(g, |img|, copy, c);
    EntryIn(g, img[g.EntrySector(copy, c)], c)
  }

  /** The table as the chain code sees it: the first copy. */
  ghost function TableOf(g: Bpb, img: Image): (t: seq<nat>)
    requires g.WellFormed(|img|)
    ensures |t| == g.MaxCluster() + 1
    ensures forall c :: 0 <= c < |t| ==> t[c] == Entry(g, img, 0, c)
  {
    FirstCopy(g, |img|);
    seq(g.MaxCluster() + 1, c requires 0 <= c <= g.MaxCluster() => Entry(g, img, 0, c))
  }

  lemma FirstCopy(g: Bpb, sectors: nat)
    requires g.WellFormed(sectors)
    ensures 0 < g.fats && 0 < g.fatSize && g.MaxCluster() + 1 < TWO32
  {
  }

  /** Every copy of the table says the same about every data cluster. */
  ghost predicate Mirrored(g: Bpb, img: Image)
    requires g.WellFormed(|img|)
  {
    forall copy: nat, c: u32 :: copy < g.fats && g.IsData(c) ==> Entry(g, img, copy, c) == Entry(g, img, 0, c)
  }

  /** Outside the table area the images agree, and inside it on everything but the data entries. */
  ghost predicate FatFrame(g: Bpb, a: Image, b: Image) {
    && |a| == |b| >= g.FatEnd()
    && (forall s :: 0 <= s < |a| && !(g.FatStart() <= s < g.FatEnd()) ==> a[s] == b[s])
    && (forall copy: nat, k: nat :: copy < g.fats && k < g.fatSize ==> HiddenKept(g, a, b, copy, k))
  }

  ghost predicate HiddenKept(g: Bpb, a: Image, b: Image, copy: nat, k: nat) {
    && g.TableSector(copy, k) < |a| == |b|
    && SameHidden(g, k, a[g.TableSector(copy, k)], b[g.TableSector(copy, k)])
  }

  /** The image after the first `n` copies of entry `c` were written. */
  ghost function WithEntry(g: Bpb, img: Image, c: u32, v: nat, n: nat): (r: Image)
    requires g.WellFormed(|img|) && n <= g.fats && g.IsData(c)
    ensures |r| == |img|
    decreases n
  {
    if n == 0 then img
    else
      EntryInside(g, |img|, n - 1, c);
      PatchedAt(g, WithEntry(g, img, c, v, n - 1), g.EntrySector(n - 1, c), c, v)
  }

  ghost function PatchedAt(g: Bpb, m: Image, s: nat, c: u32, v: nat): (r: Image)
    requires s < |m|
    ensures |r| == |m|
  {
    m[s := PatchEntry(g, m[s], c, v)]
  }

  /** One patched sector changes one entry of one copy. */
  lemma PatchedSector(g: Bpb, m: Image, i: nat, c: u32, v: nat, copy: nat, d: u32, s: nat)
    requires g.WellFormed(|m|) && i < g.fats && copy < g.fats && c <= g.MaxCluster() && d <= g.MaxCluster()
    requires s == g.EntrySector(i, c) < |m|
    ensures Entry(g, PatchedAt(g, m, s, c, v), copy, d) ==
      if copy == i && d == c then v % g.Mask() else Entry(g, m, copy, d)
  {
    hide Bpb.WellFormed, Bpb.MaxCluster, Bpb.FatSector, PatchEntry, EntryIn, Bpb.EntryIndex, Bpb.EntrySector, Bpb.TableSector;
    EntryInside(g, |m|, i, c);
    EntryInside(g, |m|, copy, d);
    if s == g.EntrySector(copy, d) {
      TableSectorsDisjoint(g, i, copy, g.EntryIndex(c), g.EntryIndex(d));
      if d == c {
        PatchedEntry(g, m[s], c, v);
      } else {
        SameQuotient(g, c, d);
        PatchedNeighbour(g, m[s], c, v, d);
      }
    }
  }

  lemma SameQuotient(g: Bpb, c: u32, d: u32)
    requires g.EntryIndex(c) == g.EntryIndex(d) && c != d
    ensures c % g.EntriesPerSector() != d % g.EntriesPerSector()
  {
  }

  lemma {:induction false} WithEntryEntry(g: Bpb, img: Image, c: u32, v: nat, n: nat, copy: nat, d: u32)
    requires g.WellFormed(|img|) && n <= g.fats && g.IsData(c) && copy < g.fats && d <= g.MaxCluster()
    ensures Entry(g, WithEntry(g, img, c, v, n), copy, d) ==
      if copy < n && d == c then v % g.Mask() else Entry(g, img, copy, d)
    decreases n
  {
    hide Entry, Bpb.WellFormed, Bpb.MaxCluster, Bpb.EntrySector, PatchedAt;
    if n > 0 {
      WithEntryEntry(g, img, c, v, n - 1, copy, d);
      EntryInside(g, |img|, n - 1, c);
      PatchedSector(g, WithEntry(g, img, c, v, n - 1), n - 1, c, v, copy, d, g.EntrySector(n - 1, c));
    }
  }

  lemma SameHiddenTrans(g: Bpb, k: nat, a: Sector, b: Sector, c: Sector)
    requires SameHidden(g, k, a, b) && SameHidden(g, k, b, c)
    ensures SameHidden(g, k, a, c)
  {
    forall j | 0 <= j < SECTOR_SIZE ensures SameHiddenByte(g, k, j, a[j], c[j]) {
      assert SameHiddenByte(g, k, j, a[j], b[j]) && SameHiddenByte(g, k, j, b[j], c[j]);
    }
  }

  lemma FatFrameTrans(g: Bpb, a: Image, b: Image, c: Image)
    requires FatFrame(g, a, b) && FatFrame(g, b, c)
    ensures FatFrame(g, a, c)
  {
    hide SameHidden, Bpb.TableSector;
    forall copy: nat, k: nat | copy < g.fats && k < g.fatSize ensures HiddenKept(g, a, c, copy, k) {
      assert HiddenKept(g, a, b, copy, k) && HiddenKept(g, b, c, copy, k);
      var s := g.TableSector(copy, k);
      SameHiddenTrans(g, k, a[s], b[s], c[s]);
    }
  }

  lemma FatFrameSelf(g: Bpb, a: Image)
    requires |a| >= g.FatEnd()
    ensures FatFrame(g, a, a)
  {
    hide Bpb.FatEnd, Bpb.FatStart, Bpb.TableSector;
    forall copy: nat, k: nat | copy < g.fats && k < g.fatSize ensures HiddenKept(g, a, a, copy, k) {
      TableSectorInside(g, copy, k);
    }
  }

  lemma PatchedFrame(g: Bpb, m: Image, i: nat, c: u32, v: nat, s: nat)
    requires g.WellFormed(|m|) && i < g.fats && g.IsData(c) && s == g.EntrySector(i, c) < |m|
    ensures FatFrame(g, m, PatchedAt(g, m, s, c, v))
  {
    hide Bpb.WellFormed, Bpb.MaxCluster, Bpb.FatSector, PatchEntry, SameHidden, Bpb.EntryIndex, Bpb.EntrySector,
      Bpb.TableSector, Bpb.FatEnd, Bpb.FatStart;
    NoWrap(g, |m|);
    FatFrameSelf(g, m);
    EntryInside(g, |m|, i, c);
    PatchKeepsHidden(g, g.EntryIndex(c), m[s], c, v);
    forall copy: nat, k: nat | copy < g.fats && k < g.fatSize
      ensures HiddenKept(g, m, PatchedAt(g, m, s, c, v), copy, k)
    {
      assert HiddenKept(g, m, m, copy, k);
      if g.TableSector(copy, k) == s {
        TableSectorsDisjoint(g, i, copy, g.EntryIndex(c), k);
      }
    }
  }

  lemma {:induction false} WithEntryFrame(g: Bpb, img: Image, c: u32, v: nat, n: nat)
    requires g.WellFormed(|img|) && n <= g.fats && g.IsData(c)
    ensures FatFrame(g, img, WithEntry(g, img, c, v, n))
    decreases n
  {
    hide Bpb.WellFormed, Bpb.MaxCluster, Bpb.EntrySector, PatchedAt, FatFrame;
    NoWrap(g, |img|);
    if n == 0 {
      FatFrameSelf(g, img);
    } else {
      WithEntryFrame(g, img, c, v, n - 1);
      EntryInside(g, |img|, n - 1, c);
      var m := WithEntry(g, img, c, v, n - 1);
      PatchedFrame(g, m, n - 1, c, v, g.EntrySector(n - 1, c));
      FatFrameTrans(g, img, m, WithEntry(g, img, c, v, n));
    }
  }

  /** Writing every copy: the table changes at `c` alone, and the copies still agree. */
  lemma WithEntryTable(g: Bpb, img: Image, c: u32, v: nat)
    requires g.WellFormed(|img|) && g.IsData(c) && Mirrored(g, img)
    ensures var r := WithEntry(g, img, c, v, g.fats);
      && TableOf(g, r) == TableOf(g, img)[c := v % g.Mask()]
      && Mirrored(g, r)
  {
    hide Entry, Bpb.WellFormed, Bpb.MaxCluster, WithEntry;
    var r := WithEntry(g, img, c, v, g.fats);
    FirstCopy(g, |img|);
    forall copy: nat, d: u32 | copy < g.fats && d <= g.MaxCluster()
      ensures Entry(g, r, copy, d) == if d == c then v % g.Mask() else Entry(g, img, copy, d)
    {
      WithEntryEntry(g, img, c, v, g.fats, copy, d);
    }
  }

  /** Two images with the same frame and the same table are the same image. */
  lemma ImageDetermined(g: Bpb, a: Image, b: Image)
    requires g.WellFormed(|a|) && FatFrame(g, a, b)
    requires Mirrored(g, a) && Mirrored(g, b) && TableOf(g, a) == TableOf(g, b)
    ensures a == b
  {
    hide Bpb.WellFormed, Bpb.MaxCluster, SameHidden, Bpb.FatSector, EntryIn, Bpb.EntryIndex, Bpb.EntrySector, Bpb.TableSector;
    NoWrap(g, |a|);
    FirstCopy(g, |a|);
    forall s | 0 <= s < |a| ensures a[s] == b[s] {
      if g.FatStart() <= s < g.FatEnd() {
        var copy, k := TableSectorOf(g, s);
        assert HiddenKept(g, a, b, copy, k);
        forall c: u32 | g.IsData(c) && g.EntryIndex(c) == k
          ensures EntryIn(g, a[s], c) == EntryIn(g, b[s], c)
        {
          EntryInside(g, |a|, copy, c);
          assert Entry(g, a, copy, c) == Entry(g, a, 0, c) == TableOf(g, a)[c];
          assert Entry(g, b, copy, c) == Entry(g, b, 0, c) == TableOf(g, b)[c];
        }
        SectorDetermined(g, k, a[s], b[s]);
      }
    }
  }

  // ----- the table byte by byte -----

  /** Byte `i` of a copy of the table lies inside the image. */
  ghost predicate HasTableByte(g: Bpb, img: Image, copy: nat, i: nat) {
    0 <= g.lbaStart + g.reserved + copy * g.fatSize + i / 512 < |img|
  }

  ghost function TableByte(g: Bpb, img: Image, copy: nat, i: nat): byte
    requires HasTableByte(g, img, copy, i)
  {
    img[g.lbaStart + g.reserved + copy * g.fatSize + i / 512][i % 512]
  }

  /** The value that the bytes of a copy give for cluster `c`: the lowest byte first, and on FAT32 without the top four bits. */
  ghost predicate IsTableValue(g: Bpb, img: Image, copy: nat, c: nat, v: nat) {
    if g.kind == Fat16 then
      && HasTableByte(g, img, copy, 2 * c) && HasTableByte(g, img, copy, 2 * c + 1)
      && v == TableByte(g, img, copy, 2 * c) + 0x100 * TableByte(g, img, copy, 2 * c + 1)
    else
      && HasTableByte(g, img, copy, 4 * c) && HasTableByte(g, img, copy, 4 * c + 1)
      && HasTableByte(g, img, copy, 4 * c + 2) && HasTableByte(g, img, copy, 4 * c + 3)
      && v == TableByte(g, img, copy, 4 * c) + 0x100 * TableByte(g, img, copy, 4 * c + 1)
              + 0x1_0000 * TableByte(g, img, copy, 4 * c + 2) + 0x100_0000 * (TableByte(g, img, copy, 4 * c + 3) % 0x10)
  }

  /** The bytes of a copy after `v` was written for cluster `c`, in an image that was `a` before. */
  ghost predicate HoldsValue(g: Bpb, a: Image, b: Image, copy: nat, c: nat, v: nat) {
    if g.kind == Fat16 then
      && HasTableByte(g, b, copy, 2 * c) && HasTableByte(g, b, copy, 2 * c + 1)
      && TableByte(g, b, copy, 2 * c) == v % 0x100 && TableByte(g, b, copy, 2 * c + 1) == v / 0x100 % 0x100
    else
      && HasTableByte(g, b, copy, 4 * c) && HasTableByte(g, b, copy, 4 * c + 1)
      && HasTableByte(g, b, copy, 4 * c + 2) && HasTableByte(g, b, copy, 4 * c + 3) && HasTableByte(g, a, copy, 4 * c + 3)
      && TableByte(g, b, copy, 4 * c) == v % 0x100 && TableByte(g, b, copy, 4 * c + 1) == v / 0x100 % 0x100
      && TableByte(g, b, copy, 4 * c + 2) == v / 0x1_0000 % 0x100
      && TableByte(g, b, copy, 4 * c + 3) == TableByte(g, a, copy, 4 * c + 3) / 0x10 * 0x10 + v / 0x100_0000 % 0x10
  }

  /** An entry is the value of its own bytes. */
  lemma EntryBytes(g: Bpb, img: Image, copy: nat, c: u32)
    requires g.WellFormed(|img|) && copy < g.fats && c <= g.MaxCluster()
    ensures IsTableValue(g, img, copy, c, Entry(g, img, copy, c))
  {
    hide Bpb.WellFormed, Bpb.MaxCluster, Bpb.FatSector, Bpb.EntrySector, EntryIn, HasTableByte, TableByte;
    EntryInside(g, |img|, copy, c);
    var s := g.EntrySector(copy, c);
    if g.kind == Fat16 {
      TableByteAt(g, img, copy, 2 * c, s);
      TableByteAt(g, img, copy, 2 * c + 1, s);
      BytePlaces16(c);
      EntryIn16(g, img[s], c);
    } else {
      TableByteAt(g, img, copy, 4 * c, s);
      TableByteAt(g, img, copy, 4 * c + 1, s);
      TableByteAt(g, img, copy, 4 * c + 2, s);
      TableByteAt(g, img, copy, 4 * c + 3, s);
      BytePlaces32(c);
      EntryIn32(g, img[s], c);
    }
  }

  lemma TableByteAt(g: Bpb, img: Image, copy: nat, i: nat, s: nat)
    requires s < |img|
    ensures s == g.lbaStart + g.reserved + copy * g.fatSize + i / 512 ==>
      HasTableByte(g, img, copy, i) && TableByte(g, img, copy, i) == img[s][i % 512]
  {
  }

  lemma BytePlaces16(c: nat)
    ensures 2 * c / 512 == c / 256 == (2 * c + 1) / 512
    ensures 2 * c % 512 == 2 * (c % 256) && (2 * c + 1) % 512 == 2 * (c % 256) + 1
  {
  }

  lemma BytePlaces32(c: nat)
    ensures 4 * c / 512 == c / 128 == (4 * c + 1) / 512 == (4 * c + 2) / 512 == (4 * c + 3) / 512
    ensures 4 * c % 512 == 4 * (c % 128) && (4 * c + 1) % 512 == 4 * (c % 128) + 1
    ensures (4 * c + 2) % 512 == 4 * (c % 128) + 2 && (4 * c + 3) % 512 == 4 * (c % 128) + 3
  {
  }

  lemma EntryIn16(g: Bpb, s: Sector, c: u32)
    requires g.kind == Fat16
    ensures EntryIn(g, s, c) == (s[2 * (c % 256)] as int) + 0x100 * (s[2 * (c % 256) + 1] as int)
  {
    var i := 2 * (c % 256);
    HalfWordFits(s[i], s[i + 1]);
  }

  lemma EntryIn32(g: Bpb, s: Sector, c: u32)
    requires g.kind == Fat32
    ensures EntryIn(g, s, c) ==
      (s[4 * (c % 128)] as int) + 0x100 * (s[4 * (c % 128) + 1] as int) + 0x1_0000 * (s[4 * (c % 128) + 2] as int)
      + 0x100_0000 * ((s[4 * (c % 128) + 3] as int) % 0x10)
  {
    hide RawAt;
    var i := 4 * (c % 128);
    RawIs(s, i);
    WordParts(s[i], s[i + 1], s[i + 2], s[i + 3]);
    Spread(s[i], s[i + 1], s[i + 2], s[i + 3] % 0x10);
  }

  lemma RawIs(s: Sector, i: nat)
    requires i + 4 <= SECTOR_SIZE
    ensures RawAt(Fat32, s, i) == Le32(s[i], s[i + 1], s[i + 2], s[i + 3])
  {
  }

  lemma Spread(b0: int, b1: int, b2: int, b3: int)
    ensures Le32(b0, b1, b2, b3) == b0 + 0x100 * b1 + 0x1_0000 * b2 + 0x100_0000 * b3
  {
  }

  /** After a write every copy holds the bytes of the value. */
  lemma WithEntryBytes(g: Bpb, img: Image, c: u32, v: nat, copy: nat)
    requires g.WellFormed(|img|) && g.IsData(c) && copy < g.fats
    ensures HoldsValue(g, img, WithEntry(g, img, c, v, g.fats), copy, c, v)
  {
    hide Bpb.WellFormed, Bpb.MaxCluster, Bpb.FatSector, Bpb.EntrySector, EntryIn, WithEntry, Entry, FatFrame, SameHidden;
    var r := WithEntry(g, img, c, v, g.fats);
    EntryInside(g, |img|, copy, c);
    WithEntryEntry(g, img, c, v, g.fats, copy, c);
    WithEntryFrame(g, img, c, v, g.fats);
    EntryBytes(g, r, copy, c);
    if g.kind == Fat16 {
      BytesOfHalfWord(TableByte(g, r, copy, 2 * c), TableByte(g, r, copy, 2 * c + 1), v);
    } else {
      TopKept(g, img, r, copy, c);
      BytesOfWord(TableByte(g, r, copy, 4 * c), TableByte(g, r, copy, 4 * c + 1), TableByte(g, r, copy, 4 * c + 2),
                  TableByte(g, r, copy, 4 * c + 3), v);
    }
  }

  lemma TopKept(g: Bpb, a: Image, b: Image, copy: nat, c: u32)
    requires g.WellFormed(|a|) && FatFrame(g, a, b) && g.kind == Fat32 && g.IsData(c) && copy < g.fats
    requires HasTableByte(g, b, copy, 4 * c + 3)
    ensures HasTableByte(g, a, copy, 4 * c + 3)
    ensures TableByte(g, b, copy, 4 * c + 3) / 0x10 == TableByte(g, a, copy, 4 * c + 3) / 0x10
  {
    hide Bpb.WellFormed, Bpb.MaxCluster, Bpb.FatSector, Bpb.EntrySector, Bpb.FatEnd, SameHidden;
    EntryInside(g, |a|, copy, c);
    BytePlaces32(c);
    assert HiddenKept(g, a, b, copy, g.EntryIndex(c));
    var s := g.TableSector(copy, g.EntryIndex(c));
    TopOfHidden(g, c, a[s], b[s]);
  }

  lemma TopOfHidden(g: Bpb, c: u32, x: Sector, y: Sector)
    requires g.kind == Fat32 && g.IsData(c) && SameHidden(g, g.EntryIndex(c), x, y)
    ensures x[4 * (c % 128) + 3] / 0x10 == y[4 * (c % 128) + 3] / 0x10
  {
    hide Bpb.IsData;
    var k, j := g.EntryIndex(c), 4 * (c % 128) + 3;
    assert SameHiddenByte(g, k, j, x[j], y[j]);
    assert j / 4 == c % 128 && j % 4 == 3 && k * 128 + c % 128 == c;
  }

  lemma BytesOfHalfWord(b0: byte, b1: byte, v: nat)
    requires b0 + 0x100 * b1 == v % 0x1_0000
    ensures b0 == v % 0x100 && b1 == v / 0x100 % 0x100
  {
  }

  lemma BytesOfWord(b0: byte, b1: byte, b2: byte, b3: byte, v: nat)
    requires b0 + 0x100 * b1 + 0x1_0000 * b2 + 0x100_0000 * (b3 % 0x10) == v % 0x1000_0000
    ensures b0 == v % 0x100 && b1 == v / 0x100 % 0x100 && b2 == v / 0x1_0000 % 0x100 && b3 % 0x10 == v / 0x100_0000 % 0x10
  {
    var k := v / 0x1000_0000;
    var r3 := b3 % 0x10 + 0x10 * k;
    assert v == b0 + 0x100 * (b1 + 0x100 * (b2 + 0x100 * r3));
    Digit(v, b0, b1 + 0x100 * (b2 + 0x100 * r3));
    Digit(v / 0x100, b1, b2 + 0x100 * r3);
    Digit(v / 0x100 / 0x100, b2, r3);
    Shifts(v);
  }

  lemma Digit(x: nat, b: byte, r: nat)
    requires x == b + 0x100 * r
    ensures x % 0x100 == b && x / 0x100 == r
  {
  }

  lemma Shifts(v: nat)
    ensures v / 0x100 / 0x100 == v / 0x1_0000 && v / 0x100 / 0x100 / 0x100 == v / 0x100_0000
  {
  }

  /** The values that end a chain, by their bytes. */
  lemma EndMarkBytes(g: Bpb, b0: byte, b1: byte, b2: byte, b3: byte)
    ensures g.kind == Fat16 ==> (g.IsEoc(b0 + 0x100 * b1) <==> b1 == 0xFF && b0 >= 0xF8)
    ensures g.kind == Fat32 ==>
      (g.IsEoc(b0 + 0x100 * b1 + 0x1_0000 * b2 + 0x100_0000 * (b3 % 0x10)) <==>
         b3 % 0x10 == 0x0F && b2 == 0xFF && b1 == 0xFF && b0 >= 0xF8)
  {
  }
}
