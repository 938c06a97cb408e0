/** The 32 bytes of a short directory entry: name, attribute, times, first cluster, size. */
module DirEntry {
  import opened Words
  import opened Geometry

  type Entry = e: seq<byte> | |e| == 32 witness seq(32, _ => 0)

  const ATTR_VOLUME := 0x08
  const ATTR_DIRECTORY := 0x10
  const ATTR_ARCHIVE := 0x20
  const ATTR_LONG_NAME := 0x0F

  /**
   The times of an entry after `set_current_datetime`; the clock is not modelled, and when it fails
   the times stay, so they may be any.
   */
  datatype Stamp = Stamp(tenth: byte, createTime: u16, createDate: u16, accessDate: u16, writeTime: u16, writeDate: u16)

  const NO_TIME := Stamp(0, 0, 0, 0, 0, 0)

  function Word(lo: int, hi: int): int {
    lo + 0x100 * hi
  }

  function DosName(e: Entry): (n: seq<byte>)
    ensures |n| == 11
  {
    e[..11]
  }

  function Attribute(e: Entry): byte {
    e[11]
  }

  function FileSize(e: Entry): nat {
    Word(Word(e[28], e[29]), 0) + 0x1_0000 * Word(e[30], e[31])
  }

  /** `getfilefirstcluster`: FAT16 ignores the high half. */
  function FirstCluster(kind: FatKind, e: Entry): nat {
    Word(e[26], e[27]) + if kind == Fat32 then 0x1_0000 * Word(e[20], e[21]) else 0
  }

  function WordBytes(v: nat): (b: seq<byte>)
    ensures |b| == 2
  {
    [v % 0x100, v / 0x100 % 0x100]
  }

  /** Bytes 13 to 31, given new times, first cluster and size. */
  function Tail(kind: FatKind, first: u32, size: u32, now: Stamp): (b: seq<byte>)
    ensures |b| == 19
  {
    [now.tenth] + WordBytes(now.createTime) + WordBytes(now.createDate) + WordBytes(now.accessDate)
    + WordBytes(if kind == Fat32 then first / 0x1_0000 else 0)
    + WordBytes(now.writeTime) + WordBytes(now.writeDate)
    + WordBytes(first % 0x1_0000)
    + WordBytes(size % 0x1_0000) + WordBytes(size / 0x1_0000)
  }

  /** The entry with a new first cluster, size and times; the name, the attribute and the reserved byte stay. */
  function Updated(kind: FatKind, e: Entry, first: u32, size: u32, now: Stamp): Entry {
    e[..13] + Tail(kind, first, size, now)
  }

  /** A new file's entry. */
  function NewEntry(kind: FatKind, name: seq<byte>, first: u32, size: u32, now: Stamp): Entry
    requires |name| == 11
  {
    name + [ATTR_ARCHIVE as byte, 0] + Tail(kind, first, size, now)
  }

  lemma WordRoundTrip(v: nat)
    requires v < 0x1_0000
    ensures Word(WordBytes(v)[0], WordBytes(v)[1]) == v
  {
  }

  lemma TailFields(kind: FatKind, first: u32, size: u32, now: Stamp)
    ensures Tail(kind, first, size, now)[13..15] == WordBytes(first % 0x1_0000)
    ensures Tail(kind, first, size, now)[7..9] == WordBytes(if kind == Fat32 then first / 0x1_0000 else 0)
    ensures Tail(kind, first, size, now)[15..17] == WordBytes(size % 0x1_0000)
    ensures Tail(kind, first, size, now)[17..19] == WordBytes(size / 0x1_0000)
  {
  }

  /** What was stored is read back: on FAT16 the first cluster must fit sixteen bits, as every data cluster there does. */
  lemma TailReadBack(kind: FatKind, e: Entry, first: u32, size: u32, now: Stamp)
    requires e[13..] == Tail(kind, first, size, now) && (kind == Fat16 ==> first < 0x1_0000)
    ensures FirstCluster(kind, e) == first && FileSize(e) == size
  {
    hide Tail, WordBytes;
    var t := Tail(kind, first, size, now);
    TailFields(kind, first, size, now);
    Halves(first);
    Halves(size);
    FieldAt(e, t, 13, 26);
    FieldAt(e, t, 7, 20);
    FieldAt(e, t, 15, 28);
    FieldAt(e, t, 17, 30);
    WordRoundTrip(first % 0x1_0000);
    WordRoundTrip(if kind == Fat32 then first / 0x1_0000 else 0);
    WordRoundTrip(size % 0x1_0000);
    WordRoundTrip(size / 0x1_0000);
  }

  lemma Halves(v: u32)
    ensures v == v % 0x1_0000 + 0x1_0000 * (v / 0x1_0000)
    ensures 0 <= v / 0x1_0000 < 0x1_0000 && (v < 0x1_0000 ==> v % 0x1_0000 == v)
  {
  }

  lemma FieldAt(e: Entry, t: seq<byte>, i: nat, j: nat)
    requires |t| == 19 && e[13..] == t && j == i + 13 && i + 1 < 19
    ensures e[j] == t[i..i + 2][0] && e[j + 1] == t[i..i + 2][1]
  {
    assert e[13..][i] == e[j] && e[13..][i + 1] == e[j + 1];
  }

  lemma UpdatedReadBack(kind: FatKind, e: Entry, first: u32, size: u32, now: Stamp)
    requires kind == Fat16 ==> first < 0x1_0000
    ensures var u := Updated(kind, e, first, size, now);
      && FirstCluster(kind, u) == first && FileSize(u) == size
      && DosName(u) == DosName(e) && Attribute(u) == Attribute(e)
  {
    var u := Updated(kind, e, first, size, now);
    assert u[13..] == Tail(kind, first, size, now);
    TailReadBack(kind, u, first, size, now);
    assert u[..11] == e[..11];
  }

  lemma NewReadBack(kind: FatKind, name: seq<byte>, first: u32, size: u32, now: Stamp)
    requires |name| == 11 && (kind == Fat16 ==> first < 0x1_0000)
    ensures var u := NewEntry(kind, name, first, size, now);
      && FirstCluster(kind, u) == first && FileSize(u) == size
      && DosName(u) == name && Attribute(u) == ATTR_ARCHIVE
  {
    var u := NewEntry(kind, name, first, size, now);
    assert u[13..] == Tail(kind, first, size, now);
    TailReadBack(kind, u, first, size, now);
    assert u[..11] == name;
  }

  // ----- an entry byte by byte -----

  /** The size and the first cluster of an entry, by its bytes: the lowest byte first. */
  lemma EntryFields(kind: FatKind, e: Entry)
    ensures FileSize(e) == (e[28] as int) + 0x100 * (e[29] as int) + 0x1_0000 * (e[30] as int) + 0x100_0000 * (e[31] as int)
    ensures FirstCluster(Fat16, e) == (e[26] as int) + 0x100 * (e[27] as int)
    ensures FirstCluster(Fat32, e) ==
      (e[26] as int) + 0x100 * (e[27] as int) + 0x1_0000 * (e[20] as int) + 0x100_0000 * (e[21] as int)
    ensures DosName(e) == e[0..11] && Attribute(e) == e[11]
  {
  }

  /** Where a word is stored, the lowest byte first. */
  ghost predicate HoldsWord(e: Entry, i: nat, v: nat)
    requires i + 1 < 32
  {
    e[i] == v % 0x100 && e[i + 1] == v / 0x100 % 0x100
  }

  /** The bytes that every update of an entry stores: times, first cluster and size. */
  ghost predicate HoldsTail(kind: FatKind, e: Entry, first: nat, size: nat, now: Stamp) {
    && e[13] == now.tenth
    && HoldsWord(e, 14, now.createTime) && HoldsWord(e, 16, now.createDate) && HoldsWord(e, 18, now.accessDate)
    && HoldsWord(e, 20, if kind == Fat32 then first / 0x1_0000 else 0)
    && HoldsWord(e, 22, now.writeTime) && HoldsWord(e, 24, now.writeDate)
    && HoldsWord(e, 26, first)
    && HoldsWord(e, 28, size) && HoldsWord(e, 30, size / 0x1_0000)
  }

  lemma TailBytes(kind: FatKind, first: u32, size: u32, now: Stamp, e: Entry)
    requires e[13..] == Tail(kind, first, size, now)
    ensures HoldsTail(kind, e, first, size, now)
  {
    var t := Tail(kind, first, size, now);
    assert forall i :: 0 <= i < 19 ==> e[i + 13] == e[13..][i];
    assert t[0] == e[13] && t[1] == e[14] && t[2] == e[15] && t[3] == e[16] && t[4] == e[17] && t[5] == e[18] && t[6] == e[19];
    assert t[7] == e[20] && t[8] == e[21] && t[9] == e[22] && t[10] == e[23] && t[11] == e[24] && t[12] == e[25];
    assert t[13] == e[26] && t[14] == e[27] && t[15] == e[28] && t[16] == e[29] && t[17] == e[30] && t[18] == e[31];
    LowWord(first);
    LowWord(size);
  }

  lemma LowWord(v: nat)
    ensures v % 0x1_0000 % 0x100 == v % 0x100 && v % 0x1_0000 / 0x100 % 0x100 == v / 0x100 % 0x100
  {
  }

  /** Every byte of a new entry. */
  lemma NewBytes(kind: FatKind, name: seq<byte>, first: u32, size: u32, now: Stamp)
    requires |name| == 11
    ensures var e := NewEntry(kind, name, first, size, now);
      e[0..11] == name && e[11] == 0x20 && e[12] == 0 && HoldsTail(kind, e, first, size, now)
  {
    var e := NewEntry(kind, name, first, size, now);
    assert e[13..] == Tail(kind, first, size, now);
    TailBytes(kind, first, size, now, e);
    assert e[0..11] == name;
  }

  /** Every byte of an updated one: the first thirteen stay. */
  lemma UpdatedBytes(kind: FatKind, e: Entry, first: u32, size: u32, now: Stamp)
    ensures var u := Updated(kind, e, first, size, now);
      u[..13] == e[..13] && HoldsTail(kind, u, first, size, now)
  {
    var u := Updated(kind, e, first, size, now);
    assert u[13..] == Tail(kind, first, size, now);
    TailBytes(kind, first, size, now, u);
    assert u[..13] == e[..13];
  }
}
