/** Directories on a volume: writing the entries of a new file, and reading a directory entry by entry. */
module Directories {
  import opened Words
  import opened Geometry
  import TableImage
  import opened Allocator
  import opened FileBytes
  import opened Volumes
  import DirEntry
  import FatFiles
  import opened LongNames
  import Unicode

  const MAX_NAME := 1024
  const SLOTS_PER_SECTOR := 16

  // ----- short names -----

  const SPACE: byte := 0x20
  const DOT: byte := 0x2E

  function NonSpaces(s: seq<byte>): (r: seq<byte>)
    ensures |r| <= |s|
  {
    if s == [] then [] else NonSpaces(s[..|s| - 1]) + if s[|s| - 1] != SPACE then [s[|s| - 1]] else []
  }

  /** The name of a short entry as it is shown: the eight and the three bytes without their spaces. */
  function ShortName(n: seq<byte>): (r: seq<byte>)
    requires |n| == 11
    ensures |r| <= 12
  {
    NonSpaces(n[..8]) + if n[8] != SPACE then [DOT] + NonSpaces(n[8..11]) else []
  }

  /** `getshortfilename`: it succeeds exactly when the name and its final zero fit. */
  method GetShortName(n: seq<byte>, size: nat) returns (ok: bool, name: seq<byte>)
    requires |n| == 11
    ensures ok == (|ShortName(n)| < size)
    ensures ok ==> name == ShortName(n)
  {
    hide NonSpaces;
    name := [];
    ghost var first, last := n[..8], n[8..11];
    NonSpacesNone(first);
    NonSpacesNone(last);
    if size == 0 {
      return false, name;
    }
    for i := 0 to 8
      invariant name == NonSpaces(first[..i]) && |name| < size
    {
      NonSpacesNext(first, i);
      if n[i] != SPACE {
        if |name| + 1 >= size {
          return false, name;
        }
        name := name + [n[i]];
      }
    }
    assert first[..8] == first;
    ghost var base := name;
    if n[8] != SPACE {
      if |name| + 1 >= size {
        return false, name;
      }
      name := name + [DOT];
      for i := 8 to 11
        invariant name == base + [DOT] + NonSpaces(last[..i - 8]) && |name| < size
      {
        NonSpacesNext(last, i - 8);
        if n[i] != SPACE {
          if |name| + 1 >= size {
            return false, name;
          }
          name := name + [n[i]];
        }
      }
      assert last[..3] == last;
    }
    ok := true;
  }

  lemma NonSpacesNone(s: seq<byte>)
    ensures NonSpaces(s[..0]) == []
  {
  }

  lemma NonSpacesNext(s: seq<byte>, i: nat)
    requires i < |s|
    ensures NonSpaces(s[..i + 1]) == NonSpaces(s[..i]) + if s[i] != SPACE then [s[i]] else []
    ensures |NonSpaces(s[..i + 1])| <= |NonSpaces(s)|
  {
    assert s[..i + 1][..i] == s[..i];
    NonSpacesGrow(s, i + 1);
  }

  lemma {:induction false} NonSpacesGrow(s: seq<byte>, k: nat)
    requires k <= |s|
    ensures |NonSpaces(s[..k])| <= |NonSpaces(s)|
  {
    if k < |s| {
      NonSpacesGrow(s[..|s| - 1], k);
      assert s[..|s| - 1][..k] == s[..k];
    } else {
      assert s[..k] == s;
    }
  }

  /** What is copied is every byte but spaces, wherever they stand. */
  lemma {:induction false} NonSpacesIs(x: seq<byte>, y: seq<byte>, c: byte)
    ensures NonSpaces(x + y) == NonSpaces(x) + NonSpaces(y)
    ensures NonSpaces([c]) == if c == 0x20 then [] else [c]
  {
    assert [c][..0] == [] && NonSpaces([]) == [];
    if y == [] {
      assert x + y == x;
    } else {
      NonSpacesIs(x, y[..|y| - 1], c);
      assert (x + y)[..|x + y| - 1] == x + y[..|y| - 1];
    }
  }

  /** The bytes `strfilenamedos` can produce: upper-case letters, digits, some punctuation and the padding. */
  predicate IsDosByte(c: byte) {
    || 0x41 <= c <= 0x5A || 0x30 <= c <= 0x39 || c == SPACE
    || c in [0x5F as byte, 0x5E, 0x24, 0x7E, 0x21, 0x23, 0x25, 0x26, 0x2D, 0x7B, 0x7D, 0x28, 0x29, 0x40, 0x27, 0x60]
  }

  function DosByte(c: byte): (r: byte)
    ensures IsDosByte(r)
  {
    var u := if c >= 0x80 then 0x5F else if 0x61 <= c <= 0x7A then c - 0x20 else c;
    if IsDosByte(u) && u != SPACE then u else 0x5F
  }

  /** The eleven bytes, the next position and whether a dot was met, after the characters of `source`. */
  function DosFold(source: seq<byte>): (r: (seq<byte>, nat, bool))
    ensures |r.0| == 11 && forall i :: 0 <= i < 11 ==> IsDosByte(r.0[i])
  {
    if source == [] then (seq(11, _ => SPACE), 0, false)
    else
      var (d, pos, extension) := DosFold(source[..|source| - 1]);
      var c := source[|source| - 1];
      if c == DOT then (if extension then (d, pos, true) else (d, 8, true))
      else if pos < 11 then (d[pos := DosByte(c)], pos + 1, extension)
      else (d, pos, extension)
  }

  /** `strfilenamedos`: whatever the name, every byte is one a short entry may have. */
  method DosNameOf(source: seq<byte>) returns (d: seq<byte>)
    ensures d == DosFold(source).0
    ensures |d| == 11 && forall i :: 0 <= i < 11 ==> IsDosByte(d[i])
  {
    hide DosByte, IsDosByte;
    d := seq(11, _ => SPACE);
    var pos, extension := 0, false;
    assert source[..0] == [];
    for i := 0 to |source|
      invariant (d, pos, extension) == DosFold(source[..i])
    {
      assert source[..i + 1][..i] == source[..i];
      if source[i] == DOT {
        if !extension {
          extension := true;
          pos := 8;
        }
      } else if pos < 11 {
        d := d[pos := DosByte(source[i])];
        pos := pos + 1;
      }
    }
    assert source[..|source|] == source;
  }

  /** Bytes that a short name shows as they are. */
  ghost predicate IsPlain(s: seq<byte>) {
    forall i :: 0 <= i < |s| ==> IsDosByte(s[i]) && s[i] != SPACE && s[i] != DOT
  }

  function PadTo(s: seq<byte>, n: nat): (r: seq<byte>)
    requires |s| <= n
    ensures |r| == n
  {
    s + seq(n - |s|, _ => SPACE)
  }

  lemma PadGrows(s: seq<byte>, n: nat)
    requires 0 < |s| <= n
    ensures PadTo(s[..|s| - 1], n)[|s| - 1 := s[|s| - 1]] == PadTo(s, n)
  {
  }

  lemma {:induction false} DosFoldBase(base: seq<byte>)
    requires |base| <= 8 && IsPlain(base)
    ensures DosFold(base) == (PadTo(base, 11), |base|, false)
  {
    if base == [] {
      assert PadTo([], 11) == seq(11, _ => SPACE);
    } else {
      var n := |base| - 1;
      DosFoldBase(base[..n]);
      PadGrows(base, 11);
    }
  }

  lemma PlainByte(c: byte)
    requires IsDosByte(c) && c != SPACE
    ensures DosByte(c) == c
  {
  }

  lemma PadNothing(base: seq<byte>)
    requires |base| <= 8
    ensures PadTo(base, 8) + PadTo([], 3) == PadTo(base, 11)
  {
  }

  lemma {:induction false} DosFoldExtension(base: seq<byte>, ext: seq<byte>)
    requires |base| <= 8 && |ext| <= 3 && IsPlain(base) && IsPlain(ext)
    ensures DosFold(base + [DOT] + ext) == (PadTo(base, 8) + PadTo(ext, 3), 8 + |ext|, true)
  {
    hide PadTo, IsDosByte, DosByte;
    var s := base + [DOT] + ext;
    if ext == [] {
      PadNothing(base);
      DosFoldBase(base);
      assert s[..|s| - 1] == base;
    } else {
      var n := |ext| - 1;
      DosFoldExtension(base, ext[..n]);
      assert s[..|s| - 1] == base + [DOT] + ext[..n];
      PadGrows(ext, 3);
      PlainByte(ext[n]);
      assert (PadTo(base, 8) + PadTo(ext[..n], 3))[8 + n := ext[n]] == PadTo(base, 8) + PadTo(ext[..n], 3)[n := ext[n]];
    }
  }

  lemma {:induction false} NonSpacesPadded(s: seq<byte>, n: nat)
    requires |s| <= n && IsPlain(s)
    ensures NonSpaces(PadTo(s, n)) == s
    decreases n
  {
    if n > |s| {
      NonSpacesPadded(s, n - 1);
      assert PadTo(s, n)[..n - 1] == PadTo(s, n - 1);
    } else if n > 0 {
      NonSpacesPadded(s[..n - 1], n - 1);
      assert PadTo(s, n)[..n - 1] == PadTo(s[..n - 1], n - 1);
    }
  }

  /** The short-name round trip: a plain 8.3 name survives storing and showing. */
  lemma ShortNameRoundTrip(base: seq<byte>, ext: seq<byte>)
    requires |base| <= 8 && |ext| <= 3 && IsPlain(base) && IsPlain(ext)
    ensures ShortName(DosFold(base).0) == base
    ensures ext != [] ==> ShortName(DosFold(base + [DOT] + ext).0) == base + [DOT] + ext
  {
    hide NonSpaces, DosFold, PadTo;
    DosFoldBase(base);
    DosFoldExtension(base, ext);
    NonSpacesPadded(base, 8);
    NonSpacesPadded(ext, 3);
    PaddedParts(base, ext);
  }

  lemma PaddedParts(base: seq<byte>, ext: seq<byte>)
    requires |base| <= 8 && |ext| <= 3 && IsPlain(ext)
    ensures PadTo(base, 11)[..8] == PadTo(base, 8) && PadTo(base, 11)[8] == SPACE
    ensures var d := PadTo(base, 8) + PadTo(ext, 3);
      d[..8] == PadTo(base, 8) && d[8..11] == PadTo(ext, 3) && (ext != [] ==> d[8] != SPACE)
  {
  }

  // ----- what becomes of each character of a name -----

  /** A character in upper case, for the letters of ASCII. */
  ghost function UpperOf(c: byte): byte {
    if 0x61 <= c <= 0x7A then c - 0x20 else c
  }

  ghost function UpperAll(s: seq<byte>): (u: seq<byte>)
    ensures |u| == |s| && forall i :: 0 <= i < |s| ==> u[i] == UpperOf(s[i])
  {
    seq(|s|, i requires 0 <= i < |s| => UpperOf(s[i]))
  }

  /** A character that is stored as it is, once it is in upper case. */
  ghost predicate IsStored(c: byte) {
    || 0x41 <= c <= 0x5A || 0x30 <= c <= 0x39
    || c == 0x21 || 0x23 <= c <= 0x29 || c == 0x2D || c == 0x40 || 0x5E <= c <= 0x60 || c == 0x7B || 0x7D <= c <= 0x7E
  }

  /** Letters are stored in upper case, digits and the sixteen allowed marks as they are, and everything else as an underscore. */
  lemma DosByteIs(c: byte)
    ensures DosByte(c) == if IsStored(UpperOf(c)) then UpperOf(c) else 0x5F
  {
  }

  /** Names that differ only in the case of letters are folded alike. */
  lemma {:induction false} DosFoldCase(x: seq<byte>, y: seq<byte>)
    requires UpperAll(x) == UpperAll(y)
    ensures DosFold(x) == DosFold(y)
  {
    hide DosByte;
    assert |x| == |y|;
    if x != [] {
      var n := |x| - 1;
      forall i | 0 <= i < n ensures UpperAll(x[..n])[i] == UpperAll(y[..n])[i] {
        assert UpperAll(x)[i] == UpperAll(y)[i];
      }
      DosFoldCase(x[..n], y[..n]);
      assert UpperAll(x)[n] == UpperAll(y)[n];
      DosByteIs(x[n]);
      DosByteIs(y[n]);
    }
  }

  ghost predicate IsLettersAndDigits(s: seq<byte>) {
    forall i :: 0 <= i < |s| ==> 0x41 <= UpperOf(s[i]) <= 0x5A || 0x30 <= s[i] <= 0x39
  }

  /** A name of up to eight and three letters and digits is shown as itself in upper case. */
  lemma UpperNameShown(base: seq<byte>, ext: seq<byte>)
    requires |base| <= 8 && |ext| <= 3 && IsLettersAndDigits(base) && IsLettersAndDigits(ext)
    ensures ShortName(DosFold(base).0) == UpperAll(base)
    ensures ext != [] ==> ShortName(DosFold(base + [0x2E] + ext).0) == UpperAll(base) + [0x2E] + UpperAll(ext)
  {
    hide *;
    UpperTwice(base, ext);
    DosFoldCase(base, UpperAll(base));
    DosFoldCase(base + [0x2E] + ext, UpperAll(base) + [0x2E] + UpperAll(ext));
    UpperPlain(base);
    UpperPlain(ext);
    ShortNameRoundTrip(UpperAll(base), UpperAll(ext));
  }

  lemma UpperPlain(s: seq<byte>)
    requires IsLettersAndDigits(s)
    ensures |UpperAll(s)| == |s| && IsPlain(UpperAll(s))
  {
  }

  lemma UpperTwice(base: seq<byte>, ext: seq<byte>)
    ensures UpperAll(UpperAll(base)) == UpperAll(base)
    ensures UpperAll(base + [0x2E] + ext) == UpperAll(UpperAll(base) + [0x2E] + UpperAll(ext)) && DOT == 0x2E
    ensures ext != [] ==> UpperAll(ext) != []
  {
  }

  ghost predicate HasNoDot(s: seq<byte>) {
    forall i :: 0 <= i < |s| ==> s[i] != 0x2E
  }

  function NonDots(s: seq<byte>): (r: seq<byte>)
    ensures HasNoDot(r)
  {
    if s == [] then [] else NonDots(s[..|s| - 1]) + if s[|s| - 1] != 0x2E then [s[|s| - 1]] else []
  }

  /**
   The eleven bytes of any name, one by one: `base` is what stands before its first dot, and `rest`
   what stands after it. The part before the dot runs on into the extension; the part after the dot,
   without further dots, is written over that.
   */
  lemma DosNameBytes(base: seq<byte>, rest: seq<byte>, k: nat)
    requires HasNoDot(base) && k < 11
    ensures DosFold(base).0[k] == if k < |base| then DosByte(base[k]) else 0x20
    ensures DosFold(base + [0x2E] + rest).0[k] ==
      if k >= 8 && k - 8 < |NonDots(rest)| then DosByte(NonDots(rest)[k - 8])
      else if k < |base| then DosByte(base[k])
      else 0x20
  {
    hide DosFold, DosByte, NonDots;
    FoldedBase(base);
    FoldedRest(base, rest);
  }

  lemma {:induction false} FoldedBase(base: seq<byte>)
    requires HasNoDot(base)
    ensures DosFold(base).1 == (if |base| < 11 then |base| else 11) && !DosFold(base).2
    ensures forall k :: 0 <= k < 11 ==> DosFold(base).0[k] == if k < |base| then DosByte(base[k]) else 0x20
  {
    hide DosByte;
    if base != [] {
      FoldedBase(base[..|base| - 1]);
    }
  }

  /** The fold after the dot, with `e` read since. */
  ghost predicate IsFoldedRest(d: (seq<byte>, nat, bool), base: seq<byte>, e: seq<byte>) {
    && |d.0| == 11 && d.1 == (if 8 + |e| < 11 then 8 + |e| else 11) && d.2
    && forall k :: 0 <= k < 11 ==>
         d.0[k] == if k >= 8 && k - 8 < |e| then DosByte(e[k - 8]) else if k < |base| then DosByte(base[k]) else 0x20
  }

  lemma {:induction false} FoldedRest(base: seq<byte>, rest: seq<byte>)
    requires HasNoDot(base)
    ensures IsFoldedRest(DosFold(base + [0x2E] + rest), base, NonDots(rest))
  {
    hide DosFold, IsFoldedRest, DosByte;
    if rest == [] {
      FoldedDot(base);
    } else {
      var n := |rest| - 1;
      FoldedRest(base, rest[..n]);
      assert base + [0x2E] + rest == base + [0x2E] + rest[..n] + [rest[n]];
      FoldedNext(base + [0x2E] + rest[..n], rest[n], base, NonDots(rest[..n]));
    }
  }

  lemma FoldedDot(base: seq<byte>)
    requires HasNoDot(base)
    ensures IsFoldedRest(DosFold(base + [0x2E] + []), base, [])
  {
    hide DosByte;
    FoldedBase(base);
    assert (base + [0x2E] + [])[..|base|] == base;
  }

  lemma FoldedNext(name: seq<byte>, c: byte, base: seq<byte>, e: seq<byte>)
    requires IsFoldedRest(DosFold(name), base, e)
    ensures IsFoldedRest(DosFold(name + [c]), base, e + if c != 0x2E then [c] else [])
  {
    hide DosByte;
    assert (name + [c])[..|name|] == name;
  }

  // ----- writing the entries of a new file -----

  /** The slots one after the other. */
  function Concat(run: seq<DirEntry.Entry>): (b: seq<byte>)
    ensures |b| == ENTRY_BYTES * |run|
  {
    if run == [] then [] else Concat(run[..|run| - 1]) + run[|run| - 1]
  }

  lemma {:induction false} ConcatAt(run: seq<DirEntry.Entry>, k: nat)
    requires k < |run|
    ensures Concat(run)[32 * k..32 * k + 32] == run[k]
  {
    var n := |run| - 1;
    if k < n {
      ConcatAt(run[..n], k);
      assert Concat(run)[32 * k..32 * k + 32] == Concat(run[..n])[32 * k..32 * k + 32];
    } else {
      assert Concat(run)[32 * n..32 * n + 32] == run[n];
    }
  }

  lemma ConcatSnoc(run: seq<DirEntry.Entry>, e: DirEntry.Entry)
    ensures Concat(run + [e]) == Concat(run) + e
  {
    assert (run + [e])[..|run|] == run;
  }

  /** `write_lfn_entry`: the thirteen units are filled with 0xFFFF, then the part, then its terminator. */
  method WriteLfnEntry(buffer: array<byte>, offset: nat, order: byte, name: seq<u16>, checksum: byte) returns (ok: bool)
    requires buffer.Length == SECTOR_SIZE
    modifies buffer
    ensures ok == (offset + ENTRY_BYTES <= SECTOR_SIZE)
    ensures buffer[..] == if ok then Patched(old(buffer[..]), offset, Slot(order, Padded(name), checksum)) else old(buffer[..])
  {
    hide Slot, Padded;
    if offset + ENTRY_BYTES > SECTOR_SIZE {
      return false;
    }
    var units := FillUnits(name);
    FatFiles.CopyInto(buffer, offset, Slot(order, units, checksum));
    ok := true;
  }

  /** The thirteen units: 0xFFFF everywhere, then what fits of the part, then its terminator if there is room. */
  method FillUnits(name: seq<u16>) returns (u: seq<u16>)
    ensures u == Padded(name)
  {
    var units := new u16[13](_ => 0xFFFF);
    for i := 0 to if |name| < 13 then |name| else 13
      invariant forall j :: 0 <= j < 13 ==> units[j] == if j < i then name[j] else 0xFFFF
    {
      units[i] := name[i];
    }
    if |name| < 13 {
      units[|name|] := 0x0000;
    }
    u := units[..];
  }

  /** The units and the clock reading behind written entries, and the sector they make of `s`. */
  ghost predicate EntriesWritten(kind: FatKind, s: Sector, s': Sector, offset: nat, name: seq<byte>, dosName: seq<byte>,
                                 cluster: u32, size: u32, t: Unicode.Text, now: DirEntry.Stamp) {
    && |dosName| == 11 && t != [] && Unicode.IsReading(t, name, MAX_UNITS)
    && SlotCount(|Unicode.Utf16(t)|) <= MAX_SLOTS
    && offset + ENTRY_BYTES * (SlotCount(|Unicode.Utf16(t)|) + 1) <= SECTOR_SIZE
    && s' == Patched(s, offset, Concat(Run(Unicode.Utf16(t), ChecksumOf(dosName))
                                       + [DirEntry.NewEntry(kind, dosName, cluster, size, now)]))
  }

  /** A name that fits its sector at `offset`. */
  ghost predicate NameFits(u: Unicode.Text, name: seq<byte>, offset: nat) {
    u != [] && Unicode.IsReading(u, name, MAX_UNITS) && offset + ENTRY_BYTES * (SlotCount(|Unicode.Utf16(u)|) + 1) <= SECTOR_SIZE
  }

  /**
   `write_file_directory_entries`: it succeeds exactly when the sector is there and the name is
   acceptable UTF-8 of at most 255 units whose slots and short entry fit the sector, and then changes
   nothing but those slots.
   */
  method WriteEntries(vol: Volume, sector: u32, offset: nat, name: seq<byte>, dosName: seq<byte>, cluster: u32, size: u32)
    returns (ok: bool, ghost t: Unicode.Text, ghost now: DirEntry.Stamp)
    requires vol.Valid() && Unicode.NoZero(name) && |dosName| == 11
    requires !(vol.g.FatStart() <= sector < vol.g.FatEnd())
    modifies vol
    ensures vol.Valid() && |vol.image| == |old(vol.image)|
    ensures !ok ==> vol.image == old(vol.image)
    ensures ok ==>
      && sector < |vol.image| && vol.image == old(vol.image)[sector := vol.image[sector]]
      && EntriesWritten(vol.g.kind, old(vol.image)[sector], vol.image[sector], offset, name, dosName, cluster, size, t, now)
    ensures ok <==> sector < |old(vol.image)| && exists u: Unicode.Text :: NameFits(u, name, offset)
  {
    hide *;
    vol.TableFacts();
    var utf16Name := new u16[255](_ => 0);
    var n;
    n, t := Unicode.ToUtf16(name, utf16Name);
    now := DirEntry.NO_TIME;
    FitsMeans(name, offset, n, t, utf16Name.Length);
    if n == 0 {
      return false, t, now;
    }
    var units := utf16Name[..n];
    var count := SlotCount(n);
    if count == 0 || count > MAX_SLOTS || offset + (count + 1) * ENTRY_BYTES > SECTOR_SIZE {
      return false, t, now;
    }
    var read, s := vol.ReadSector(sector);
    if !read {
      return false, t, now;
    }
    var buffer := new byte[512](i requires 0 <= i < 512 => s[i]);
    assert buffer[..] == s;
    var checksum := Checksum(dosName);
    WriteRun(buffer, offset, units, checksum);
    var clock := FatFiles.CurrentDatetime();
    now := clock;
    var entry := DirEntry.NewEntry(vol.g.kind, dosName, cluster, size, clock);
    ghost var run := Run(units, checksum);
    FatFiles.CopyInto(buffer, offset + count * ENTRY_BYTES, entry);
    ConcatSnoc(run, entry);
    PatchedTwice(s, offset, Concat(run), entry);
    EntriesAre(vol.g.kind, s, buffer[..], offset, name, dosName, cluster, size, t, now);
    TableElsewhere(vol.g, vol.image, sector, buffer[..]);
    ok := vol.WriteSector(sector, buffer[..]);
    vol.ValidIs();
  }

  lemma EntriesAre(kind: FatKind, s: Sector, s': Sector, offset: nat, name: seq<byte>, dosName: seq<byte>,
                   cluster: u32, size: u32, t: Unicode.Text, now: DirEntry.Stamp)
    requires |dosName| == 11 && t != [] && Unicode.IsReading(t, name, MAX_UNITS)
    requires SlotCount(|Unicode.Utf16(t)|) <= MAX_SLOTS
    requires offset + (SlotCount(|Unicode.Utf16(t)|) + 1) * ENTRY_BYTES <= SECTOR_SIZE
    requires s' == Patched(s, offset, Concat(Run(Unicode.Utf16(t), ChecksumOf(dosName)))
                                      + DirEntry.NewEntry(kind, dosName, cluster, size, now))
    ensures EntriesWritten(kind, s, s', offset, name, dosName, cluster, size, t, now)
  {
    hide Run, Slot, ChecksumOf, Unicode.IsReading, Unicode.Utf16, Concat;
    ConcatSnoc(Run(Unicode.Utf16(t), ChecksumOf(dosName)), DirEntry.NewEntry(kind, dosName, cluster, size, now));
  }

  lemma FitsMeans(name: seq<byte>, offset: nat, n: nat, t: Unicode.Text, max: nat)
    requires max == 255 && n <= max
    requires n > 0 ==> t != [] && Unicode.IsReading(t, name, max) && |Unicode.Utf16(t)| == n
    requires forall u: Unicode.Text :: u != [] && Unicode.IsReading(u, name, max) ==> n > 0 && u == t
    ensures MAX_UNITS == 255 && SECTOR_SIZE == 512 && ENTRY_BYTES == 32 && MAX_SLOTS == 20
    ensures n > 0 ==> 0 < SlotCount(n) <= MAX_SLOTS
    ensures (exists u: Unicode.Text :: NameFits(u, name, offset)) <==>
      n > 0 && offset + (SlotCount(n) + 1) * ENTRY_BYTES <= SECTOR_SIZE
  {
    hide Unicode.IsReading, Unicode.Utf16;
    if n > 0 && offset + (SlotCount(n) + 1) * ENTRY_BYTES <= SECTOR_SIZE {
      assert NameFits(t, name, offset);
    }
  }

  /** The loop of `write_file_directory_entries`: the last part of the name first. */
  method WriteRun(buffer: array<byte>, offset: nat, units: seq<u16>, checksum: byte)
    requires buffer.Length == SECTOR_SIZE && 0 < |units| && SlotCount(|units|) <= MAX_SLOTS
    requires offset + SlotCount(|units|) * ENTRY_BYTES <= SECTOR_SIZE
    modifies buffer
    ensures buffer[..] == Patched(old(buffer[..]), offset, Concat(Run(units, checksum)))
  {
    hide *;
    RunFacts(units, checksum);
    var count := SlotCount(|units|);
    ghost var s, run := buffer[..], Run(units, checksum);
    ConcatNone();
    assert run[..0] == [];
    PatchedNothing(s, offset);
    for i := 0 to count
      invariant buffer[..] == Patched(s, offset, Concat(run[..i]))
    {
      var order := count - i;
      if i == 0 {
        order := order + LAST_SLOT;
      }
      var characterOffset := (count - 1 - i) * 13;
      RunAt(units, checksum, i);
      var remaining := |units| - characterOffset;
      var length := if remaining > 13 then 13 else remaining;
      var written := WriteLfnEntry(buffer, offset + i * ENTRY_BYTES, order, units[characterOffset..characterOffset + length], checksum);
      assert run[..i + 1] == run[..i] + [run[i]];
      ConcatSnoc(run[..i], run[i]);
      PatchedTwice(s, offset, Concat(run[..i]), run[i]);
    }
    assert run[..count] == run;
  }

  lemma RunFacts(units: seq<u16>, checksum: byte)
    requires 0 < |units| && SlotCount(|units|) <= MAX_SLOTS
    ensures SECTOR_SIZE == 512 && ENTRY_BYTES == 32 && MAX_SLOTS == 20 && LAST_SLOT == 0x40 && UNITS_PER_SLOT == 13
    ensures |Run(units, checksum)| == SlotCount(|units|)
  {
    hide Run;
  }

  lemma ConcatNone()
    ensures Concat([]) == []
  {
  }

  lemma RunAt(units: seq<u16>, checksum: byte, i: nat)
    requires SlotCount(|units|) <= MAX_SLOTS && i < SlotCount(|units|)
    ensures var count := SlotCount(|units|);
      && 0 <= (count - 1 - i) * 13 < |units|
      && Run(units, checksum)[i] == Slot(OrderByte(count, i), Padded(PartOf(units, count - i)), checksum)
      && PartOf(units, count - i) ==
         units[(count - 1 - i) * 13..(count - 1 - i) * 13 + if |units| - (count - 1 - i) * 13 > 13 then 13 else |units| - (count - 1 - i) * 13]
      && OrderByte(count, i) == count - i + (if i == 0 then LAST_SLOT else 0)
  {
    hide Slot, Padded;
  }

  // ----- a directory on the volume -----

  /** A directory: the fixed root of FAT16, or a chain of clusters. */
  ghost predicate IsDirectory(g: Bpb, img: Image, root: bool, p: seq<nat>) {
    && g.WellFormed(|img|)
    && if root then g.kind == Fat16 && g.RootDirSectorCount() > 0
       else p != [] && IsFile(TableImage.TableOf(g, img), g.Eoc(), p)
  }

  ghost function SectorCount(g: Bpb, root: bool, p: seq<nat>): nat {
    Times(0, |p|, g.spc);
    if root then g.RootDirSectorCount() else |p| * g.spc
  }

  /** Sector `j` of the directory. */
  ghost function DirSector(g: Bpb, img: Image, root: bool, p: seq<nat>, j: nat): (s: nat)
    requires IsDirectory(g, img, root, p) && j < SectorCount(g, root, p)
    ensures s < |img|
  {
    if root then RootInside(g, |img|, j); g.RootDirSector() + j
    else FileOnData(g, img, p); SectorAt(g, |img|, p, j)
  }

  lemma RootInside(g: Bpb, sectors: nat, j: nat)
    requires g.WellFormed(sectors) && j < g.RootDirSectorCount()
    ensures g.RootDirSector() + j < sectors && g.RootDirSector() + j < TWO32
  {
    NoWrap(g, sectors);
  }

  /** Slot `i` of the directory, sixteen to a sector. */
  ghost function SlotAt(g: Bpb, img: Image, root: bool, p: seq<nat>, i: nat): DirEntry.Entry
    requires IsDirectory(g, img, root, p) && i / SLOTS_PER_SECTOR < SectorCount(g, root, p)
  {
    FatFiles.EntryAt(img[DirSector(g, img, root, p, i / SLOTS_PER_SECTOR)], ENTRY_BYTES * (i % SLOTS_PER_SECTOR))
  }

  ghost function Slots(g: Bpb, img: Image, root: bool, p: seq<nat>): (s: seq<DirEntry.Entry>)
    requires IsDirectory(g, img, root, p)
    ensures |s| == SLOTS_PER_SECTOR * SectorCount(g, root, p)
  {
    seq(SLOTS_PER_SECTOR * SectorCount(g, root, p),
        i requires 0 <= i < SLOTS_PER_SECTOR * SectorCount(g, root, p) => SlotAt(g, img, root, p, i))
  }

  // ----- what an entry is shown as -----

  datatype Option<T> = None | Some(value: T)

  datatype Dirent = Dirent(entry: DirEntry.Entry, sector: nat, offset: nat, firstCluster: nat, size: nat,
                           name: seq<byte>, shortName: seq<byte>, isDirectory: bool)

  /** A C string: the bytes before the first zero. */
  function UpToZero(s: seq<byte>): seq<byte> {
    if s == [] || s[0] == 0 then [] else [s[0]] + UpToZero(s[1..])
  }

  ghost predicate IsGoodName(t: Unicode.Text, units: seq<u16>) {
    t != [] && Unicode.IsNaming(t, units) && |Unicode.Utf8(t)| < MAX_NAME
  }

  ghost predicate IsReadable(e: DirEntry.Entry, raw: seq<DirEntry.Entry>) {
    Readable(raw, ChecksumOf(DirEntry.DosName(e)))
  }

  /** The collected slots give a long name: they belong to the entry, and their units name a text. */
  ghost predicate HasLongName(e: DirEntry.Entry, raw: seq<DirEntry.Entry>)
    requires IsReadable(e, raw)
  {
    ValidRun(raw, ChecksumOf(DirEntry.DosName(e))) && NameUnits(raw).0 && exists t :: IsGoodName(t, NameUnits(raw).1)
  }

  ghost function LongNameOf(raw: seq<DirEntry.Entry>): seq<byte>
    requires AllModelled(raw) && exists t :: IsGoodName(t, NameUnits(raw).1)
  {
    var t :| IsGoodName(t, NameUnits(raw).1);
    Unicode.Utf8(t)
  }

  ghost function DirentOf(kind: FatKind, e: DirEntry.Entry, raw: seq<DirEntry.Entry>, sector: nat, offset: nat): Dirent
    requires IsReadable(e, raw)
  {
    var short := UpToZero(ShortName(DirEntry.DosName(e)));
    Dirent(e, sector, offset, DirEntry.FirstCluster(kind, e), DirEntry.FileSize(e),
           if HasLongName(e, raw) then LongNameOf(raw) else short, short,
           DirEntry.Attribute(e) / DirEntry.ATTR_DIRECTORY % 2 == 1)
  }

  /** `fat_dir_validate_lfn`. */
  method ValidateLfn(raw: seq<DirEntry.Entry>, e: DirEntry.Entry) returns (ok: bool)
    ensures ok == ValidRun(raw, ChecksumOf(DirEntry.DosName(e)))
  {
    if |raw| == 0 || |raw| > MAX_SLOTS {
      return false;
    }
    var checksum := Checksum(DirEntry.DosName(e));
    for i := 0 to |raw|
      invariant forall j :: 0 <= j < i ==> ValidSlot(raw[j], checksum)
    {
      var s := raw[i];
      if DirEntry.Attribute(s) != DirEntry.ATTR_LONG_NAME || s[12] != 0 || s[26] != 0 || s[27] != 0 || s[13] != checksum {
        assert !ValidSlot(raw[i], checksum);
        return false;
      }
    }
    return raw[0][0] / LAST_SLOT % 2 == 1 && raw[0][0] % 0x20 == |raw|;
  }

  /** `fat_dir_make_dirent`. */
  method MakeDirent(kind: FatKind, e: DirEntry.Entry, raw: seq<DirEntry.Entry>, sector: nat, offset: nat) returns (d: Dirent)
    requires IsReadable(e, raw)
    ensures d == DirentOf(kind, e, raw, sector, offset)
  {
    hide ValidRun, NameUnits, Unicode.IsNaming, Unicode.Utf8, ShortName, ChecksumOf, AllModelled, DirEntry.FirstCluster, DirEntry.FileSize;
    var ok, short := GetShortName(DirEntry.DosName(e), 13);
    var name := UpToZero(short);
    var valid := ValidateLfn(raw, e);
    if valid {
      var buffer := new byte[1024](_ => 0);
      var named;
      ghost var t;
      named, t := GetLfnName(raw, buffer);
      if named {
        assert IsGoodName(t, NameUnits(raw).1);
        name := UpToZeroOf(buffer[..], t);
      }
    }
    d := Dirent(e, sector, offset, DirEntry.FirstCluster(kind, e), DirEntry.FileSize(e), name, UpToZero(short),
                DirEntry.Attribute(e) / DirEntry.ATTR_DIRECTORY % 2 == 1);
  }

  /** The bytes of a buffer up to its first zero. */
  function UpToZeroOf(s: seq<byte>, ghost t: Unicode.Text): (r: seq<byte>)
    requires |Unicode.Utf8(t)| < |s| && s[..|Unicode.Utf8(t)|] == Unicode.Utf8(t) && s[|Unicode.Utf8(t)|] == 0
    ensures r == Unicode.Utf8(t)
  {
    NameHasNoZero(t);
    CutAtZero(s, |Unicode.Utf8(t)|);
    UpToZero(s)
  }

  lemma {:induction false} CutAtZero(s: seq<byte>, n: nat)
    requires n < |s| && s[n] == 0 && forall i :: 0 <= i < n ==> s[i] != 0
    ensures UpToZero(s) == s[..n]
  {
    if n > 0 {
      CutAtZero(s[1..], n - 1);
      assert s[..n] == [s[0]] + s[1..][..n - 1];
    }
  }

  lemma {:induction false} NameHasNoZero(t: Unicode.Text)
    ensures forall i :: 0 <= i < |Unicode.Utf8(t)| ==> Unicode.Utf8(t)[i] != 0
  {
    if t != [] {
      NameHasNoZero(t[..|t| - 1]);
      CharHasNoZero(t[|t| - 1]);
    }
  }

  lemma CharHasNoZero(cp: int)
    requires 0 < cp <= 0x10_FFFF
    ensures forall i :: 0 <= i < |Unicode.Utf8Of(cp)| ==> Unicode.Utf8Of(cp)[i] != 0
  {
  }
}
