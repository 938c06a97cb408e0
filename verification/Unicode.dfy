/** The UTF-8 and UTF-16 conversions that carry long file names. C's masks and shifts are written as `%` and `/`. */
module Unicode {
  import opened Words

  // ----- the standards -----

  /** A Unicode scalar value other than zero, which ends C strings. */
  predicate IsScalar(cp: int) {
    0 < cp <= 0x10_FFFF && !(0xD800 <= cp <= 0xDFFF)
  }

  /** What the UTF-16 reader of this library accepts: it also lets single low surrogates pass, and stops at 0xFFFF. */
  predicate IsCode(cp: int) {
    0 < cp <= 0x10_FFFF && cp != 0xFFFF && !(0xD800 <= cp <= 0xDBFF)
  }

  /** RFC 3629, section 3. */
  function Utf8Of(cp: int): (s: seq<byte>)
    requires 0 < cp <= 0x10_FFFF
    ensures 1 <= |s| <= 4
  {
    if cp < 0x80 then [cp]
    else if cp < 0x800 then [0xC0 + cp / 0x40, 0x80 + cp % 0x40]
    else if cp < 0x1_0000 then [0xE0 + cp / 0x1000, 0x80 + cp / 0x40 % 0x40, 0x80 + cp % 0x40]
    else [0xF0 + cp / 0x4_0000, 0x80 + cp / 0x1000 % 0x40, 0x80 + cp / 0x40 % 0x40, 0x80 + cp % 0x40]
  }

  /** RFC 2781, section 2.1. */
  function Utf16Of(cp: int): (s: seq<u16>)
    requires 0 < cp <= 0x10_FFFF
    ensures 1 <= |s| <= 2
  {
    if cp < 0x1_0000 then [cp]
    else [0xD800 + (cp - 0x1_0000) / 0x400, 0xDC00 + (cp - 0x1_0000) % 0x400]
  }

  type Text = t: seq<int> | forall i :: 0 <= i < |t| ==> 0 < t[i] <= 0x10_FFFF

  function Utf8(t: Text): seq<byte> {
    if t == [] then [] else Utf8(t[..|t| - 1]) + Utf8Of(t[|t| - 1])
  }

  function Utf16(t: Text): seq<u16> {
    if t == [] then [] else Utf16(t[..|t| - 1]) + Utf16Of(t[|t| - 1])
  }

  ghost predicate Scalars(t: Text) {
    forall i :: 0 <= i < |t| ==> IsScalar(t[i])
  }

  ghost predicate Codes(t: Text) {
    forall i :: 0 <= i < |t| ==> IsCode(t[i])
  }

  lemma Utf8Snoc(t: Text, cp: int)
    requires 0 < cp <= 0x10_FFFF
    ensures Utf8(t + [cp]) == Utf8(t) + Utf8Of(cp)
  {
    assert (t + [cp])[..|t|] == t;
  }

  lemma Utf16Snoc(t: Text, cp: int)
    requires 0 < cp <= 0x10_FFFF
    ensures Utf16(t + [cp]) == Utf16(t) + Utf16Of(cp)
  {
    assert (t + [cp])[..|t|] == t;
  }

  lemma {:induction false} Utf8Split(t: Text, k: nat)
    requires k <= |t|
    ensures Utf8(t) == Utf8(t[..k]) + Utf8(t[k..])
  {
    hide Utf8Of;
    if k == |t| {
      assert t[..k] == t && t[k..] == [];
    } else {
      var n := |t| - 1;
      Utf8Split(t[..n], k);
      assert t[..n][..k] == t[..k] && t[..n][k..] == t[k..][..n - k];
      assert t[k..][|t[k..]| - 1] == t[n];
    }
  }

  lemma {:induction false} Utf16Split(t: Text, k: nat)
    requires k <= |t|
    ensures Utf16(t) == Utf16(t[..k]) + Utf16(t[k..])
  {
    hide Utf16Of;
    if k == |t| {
      assert t[..k] == t && t[k..] == [];
    } else {
      var n := |t| - 1;
      Utf16Split(t[..n], k);
      assert t[..n][..k] == t[..k] && t[..n][k..] == t[k..][..n - k];
      assert t[k..][|t[k..]| - 1] == t[n];
    }
  }

  lemma Utf8Single(cp: int)
    requires 0 < cp <= 0x10_FFFF
    ensures Utf8([cp]) == Utf8Of(cp)
  {
    assert Utf8([]) == [] && [cp][..0] == [];
  }

  lemma Utf16Single(cp: int)
    requires 0 < cp <= 0x10_FFFF
    ensures Utf16([cp]) == Utf16Of(cp)
  {
    assert Utf16([]) == [] && [cp][..0] == [];
  }

  /** The first character comes first. */
  lemma Utf8First(t: Text)
    requires |t| > 0
    ensures Utf8(t) == Utf8Of(t[0]) + Utf8(t[1..])
  {
    hide Utf8, Utf8Of;
    Utf8Split(t, 1);
    assert t[..1] == [t[0]];
    Utf8Single(t[0]);
  }

  lemma Utf16First(t: Text)
    requires |t| > 0
    ensures Utf16(t) == Utf16Of(t[0]) + Utf16(t[1..])
  {
    hide Utf16, Utf16Of;
    Utf16Split(t, 1);
    assert t[..1] == [t[0]];
    Utf16Single(t[0]);
  }

  // ----- the values of bytes and units -----

  /** The bits in a byte above its mark, which is 0x80 in a tail byte. */
  ghost function Above(c: byte, mark: int): int {
    c - mark
  }

  /** The bytes of a character: a first byte whose range tells how many follow, and the bits of the value, the highest first. */
  lemma Utf8Values(cp: int)
    requires 0 < cp <= 0x10_FFFF
    ensures var s := Utf8Of(cp);
      if cp < 0x80 then s == [cp]
      else if cp < 0x800 then
        |s| == 2 && 0xC0 <= s[0] < 0xE0 && 0x80 <= s[1] < 0xC0
        && cp == Above(s[0], 0xC0) * 0x40 + Above(s[1], 0x80)
      else if cp < 0x1_0000 then
        |s| == 3 && 0xE0 <= s[0] < 0xF0 && 0x80 <= s[1] < 0xC0 && 0x80 <= s[2] < 0xC0
        && cp == Above(s[0], 0xE0) * 0x1000 + Above(s[1], 0x80) * 0x40 + Above(s[2], 0x80)
      else
        |s| == 4 && 0xF0 <= s[0] < 0xF8 && 0x80 <= s[1] < 0xC0 && 0x80 <= s[2] < 0xC0 && 0x80 <= s[3] < 0xC0
        && cp == Above(s[0], 0xF0) * 0x4_0000 + Above(s[1], 0x80) * 0x1000 + Above(s[2], 0x80) * 0x40 + Above(s[3], 0x80)
  {
    if 0x800 <= cp < 0x1_0000 {
      ThreeParts(cp);
    } else if 0x1_0000 <= cp {
      FourParts(cp);
    }
  }

  lemma ThreeParts(cp: nat)
    ensures cp == cp / 0x1000 * 0x1000 + cp / 0x40 % 0x40 * 0x40 + cp % 0x40
  {
    LastSix(cp, 0x40);
    LastSix(cp / 0x40, 0x40);
  }

  lemma FourParts(cp: nat)
    ensures cp == cp / 0x4_0000 * 0x4_0000 + cp / 0x1000 % 0x40 * 0x1000 + cp / 0x40 % 0x40 * 0x40 + cp % 0x40
  {
    ThreeParts(cp);
    LastSix(cp / 0x1000, 0x40);
    assert cp / 0x1000 / 0x40 == cp / 0x4_0000;
  }

  lemma LastSix(x: nat, d: nat)
    requires d > 0
    ensures x == x / d * d + x % d
  {
  }

  /** The units of a character: its value, or a high and a low surrogate with ten bits of it each, the high ones first. */
  lemma Utf16Values(cp: int)
    requires 0 < cp <= 0x10_FFFF
    ensures var w := Utf16Of(cp);
      if cp < 0x1_0000 then w == [cp]
      else
        |w| == 2 && 0xD800 <= w[0] < 0xDC00 <= w[1] < 0xE000
        && cp == 0x1_0000 + ((w[0] as int) - 0xD800) * 0x400 + ((w[1] as int) - 0xDC00)
  {
  }

  // ----- reading one UTF-8 character -----

  /** A C string read past its end gives zero. */
  function At(s: seq<byte>, i: nat): byte {
    if i < |s| then s[i] else 0
  }

  predicate IsTail(c: byte) {
    0x80 <= c < 0xC0
  }

  /** One character of `utf8_to_utf16`: its code point and its length in bytes; length zero means the bytes are refused. */
  function Decode(s: seq<byte>, i: nat): (r: (int, nat))
    requires i < |s|
  {
    var c, c1, c2, c3 := s[i], At(s, i + 1), At(s, i + 2), At(s, i + 3);
    if c < 0x80 then (c, 1)
    else if 0xC0 <= c < 0xE0 then
      if !IsTail(c1) then (0, 0) else
      var cp := c % 0x20 * 0x40 + c1 % 0x40;
      if cp < 0x80 then (0, 0) else (cp, 2)
    else if 0xE0 <= c < 0xF0 then
      if !IsTail(c1) || !IsTail(c2) then (0, 0) else
      var cp := c % 0x10 * 0x1000 + c1 % 0x40 * 0x40 + c2 % 0x40;
      if cp < 0x800 || 0xD800 <= cp <= 0xDFFF then (0, 0) else (cp, 3)
    else if 0xF0 <= c < 0xF8 then
      if !IsTail(c1) || !IsTail(c2) || !IsTail(c3) then (0, 0) else
      var cp := c % 8 * 0x4_0000 + c1 % 0x40 * 0x1000 + c2 % 0x40 * 0x40 + c3 % 0x40;
      if cp < 0x1_0000 || cp > 0x10_FFFF then (0, 0) else (cp, 4)
    else (0, 0)
  }

  ghost predicate NoZero(s: seq<byte>) {
    forall i :: 0 <= i < |s| ==> s[i] != 0
  }

  /** What is accepted is the encoding of a scalar value. */
  lemma DecodeSound(s: seq<byte>, i: nat)
    requires i < |s| && NoZero(s) && Decode(s, i).1 > 0
    ensures IsScalar(Decode(s, i).0) && i + Decode(s, i).1 <= |s|
    ensures 0 < Decode(s, i).0 <= 0x10_FFFF && !(0xD800 <= Decode(s, i).0 < 0xE000)
    ensures s[i..i + Decode(s, i).1] == Utf8Of(Decode(s, i).0)
  {
    hide Utf8Of, IsScalar;
    DecodeInside(s, i);
    var n := Decode(s, i).1;
    var d := s[i..i + n];
    if n == 1 {
      assert d == [s[i]];
      Sound1(s[i]);
    } else if n == 2 {
      assert d == [s[i], s[i + 1]];
      Sound2(s[i], s[i + 1]);
    } else if n == 3 {
      assert d == [s[i], s[i + 1], s[i + 2]];
      Sound3(s[i], s[i + 1], s[i + 2]);
    } else {
      assert d == [s[i], s[i + 1], s[i + 2], s[i + 3]];
      Sound4(s[i], s[i + 1], s[i + 2], s[i + 3]);
    }
  }

  lemma DecodeInside(s: seq<byte>, i: nat)
    requires i < |s| && NoZero(s) && Decode(s, i).1 > 0
    ensures IsScalar(Decode(s, i).0) && i + Decode(s, i).1 <= |s| && Decode(s, i).1 <= 4
  {
  }

  lemma Sound1(c: byte)
    requires 0 < c < 0x80
    ensures Utf8Of(c) == [c]
  {
  }

  lemma Sound2(c: byte, c1: byte)
    requires 0xC0 <= c < 0xE0 && IsTail(c1) && c % 0x20 * 0x40 + c1 % 0x40 >= 0x80
    ensures Utf8Of(c % 0x20 * 0x40 + c1 % 0x40) == [c, c1]
  {
  }

  lemma Sound3(c: byte, c1: byte, c2: byte)
    requires 0xE0 <= c < 0xF0 && IsTail(c1) && IsTail(c2)
    requires c % 0x10 * 0x1000 + c1 % 0x40 * 0x40 + c2 % 0x40 >= 0x800
    ensures Utf8Of(c % 0x10 * 0x1000 + c1 % 0x40 * 0x40 + c2 % 0x40) == [c, c1, c2]
  {
    var cp := c % 0x10 * 0x1000 + c1 % 0x40 * 0x40 + c2 % 0x40;
    assert cp / 0x40 == c % 0x10 * 0x40 + c1 % 0x40 && cp % 0x40 == c2 - 0x80;
    assert cp / 0x1000 == c - 0xE0 && cp / 0x40 % 0x40 == c1 - 0x80;
  }

  lemma Sound4(c: byte, c1: byte, c2: byte, c3: byte)
    requires 0xF0 <= c < 0xF8 && IsTail(c1) && IsTail(c2) && IsTail(c3)
    requires 0x1_0000 <= c % 8 * 0x4_0000 + c1 % 0x40 * 0x1000 + c2 % 0x40 * 0x40 + c3 % 0x40 <= 0x10_FFFF
    ensures Utf8Of(c % 8 * 0x4_0000 + c1 % 0x40 * 0x1000 + c2 % 0x40 * 0x40 + c3 % 0x40) == [c, c1, c2, c3]
  {
    var cp := c % 8 * 0x4_0000 + c1 % 0x40 * 0x1000 + c2 % 0x40 * 0x40 + c3 % 0x40;
    assert cp / 0x40 == c % 8 * 0x1000 + c1 % 0x40 * 0x40 + c2 % 0x40 && cp % 0x40 == c3 - 0x80;
    assert cp / 0x1000 == c % 8 * 0x40 + c1 % 0x40 && cp / 0x40 % 0x40 == c2 - 0x80;
    assert cp / 0x4_0000 == c - 0xF0 && cp / 0x1000 % 0x40 == c1 - 0x80;
  }

  /** The encoding of a scalar value is accepted, and read as that value. */
  lemma DecodeComplete(s: seq<byte>, i: nat, cp: int)
    requires 0 < cp <= 0x10_FFFF && !(0xD800 <= cp < 0xE000)
    requires i + |Utf8Of(cp)| <= |s| && s[i..i + |Utf8Of(cp)|] == Utf8Of(cp)
    ensures i < |s| && Decode(s, i) == (cp, |Utf8Of(cp)|)
  {
    var d := s[i..i + |Utf8Of(cp)|];
    assert d[0] == s[i];
    if cp < 0x80 {
    } else if cp < 0x800 {
      assert d[1] == s[i + 1];
      Complete2(cp, s, i);
    } else if cp < 0x1_0000 {
      assert d[1] == s[i + 1] && d[2] == s[i + 2];
      Complete3(cp, s, i);
    } else {
      assert d[1] == s[i + 1] && d[2] == s[i + 2] && d[3] == s[i + 3];
      Complete4(cp, s, i);
    }
  }

  lemma Complete2(cp: int, s: seq<byte>, i: nat)
    requires 0x80 <= cp < 0x800 && i + 1 < |s|
    requires s[i] == 0xC0 + cp / 0x40 && s[i + 1] == 0x80 + cp % 0x40
    ensures Decode(s, i) == (cp, 2)
  {
    assert s[i] % 0x20 == cp / 0x40 && s[i + 1] % 0x40 == cp % 0x40;
  }

  lemma Complete3(cp: int, s: seq<byte>, i: nat)
    requires 0x800 <= cp < 0x1_0000 && IsScalar(cp) && i + 2 < |s|
    requires s[i] == 0xE0 + cp / 0x1000 && s[i + 1] == 0x80 + cp / 0x40 % 0x40 && s[i + 2] == 0x80 + cp % 0x40
    ensures Decode(s, i) == (cp, 3)
  {
    assert s[i] % 0x10 == cp / 0x1000 && s[i + 1] % 0x40 == cp / 0x40 % 0x40 && s[i + 2] % 0x40 == cp % 0x40;
    assert cp / 0x40 / 0x40 == cp / 0x1000;
    assert cp == cp / 0x1000 * 0x1000 + cp / 0x40 % 0x40 * 0x40 + cp % 0x40;
  }

  lemma Complete4(cp: int, s: seq<byte>, i: nat)
    requires 0x1_0000 <= cp <= 0x10_FFFF && i + 3 < |s|
    requires s[i] == 0xF0 + cp / 0x4_0000 && s[i + 1] == 0x80 + cp / 0x1000 % 0x40
    requires s[i + 2] == 0x80 + cp / 0x40 % 0x40 && s[i + 3] == 0x80 + cp % 0x40
    ensures Decode(s, i) == (cp, 4)
  {
    Digits4(cp);
    TailDigit(cp / 0x1000);
    TailDigit(cp / 0x40);
    TailDigit(cp);
    assert s[i] % 8 == cp / 0x4_0000;
  }

  lemma TailDigit(x: nat)
    ensures IsTail(0x80 + x % 0x40) && (0x80 + x % 0x40) % 0x40 == x % 0x40
  {
  }

  lemma Digits4(cp: nat)
    requires cp <= 0x10_FFFF
    ensures cp == cp / 0x4_0000 * 0x4_0000 + cp / 0x1000 % 0x40 * 0x1000 + cp / 0x40 % 0x40 * 0x40 + cp % 0x40
  {
    assert cp / 0x40 / 0x40 == cp / 0x1000 && cp / 0x1000 / 0x40 == cp / 0x4_0000;
  }

  // ----- utf8_to_utf16 -----

  /** A text that the conversion may find in `src`, with at most `max` units. */
  ghost predicate IsReading(u: Text, src: seq<byte>, max: nat) {
    Scalars(u) && Utf8(u) == src && |Utf16(u)| <= max
  }

  /** `t` is read so far, from the first `i` bytes; every reading starts with it. */
  ghost predicate ReadSoFar(src: seq<byte>, i: nat, t: Text, max: nat) {
    && i <= |src| && Scalars(t) && Utf8(t) == src[..i]
    && forall u: Text :: IsReading(u, src, max) ==> t <= u
  }

  lemma ReadNext(src: seq<byte>, i: nat, t: Text, max: nat)
    requires i < |src| && NoZero(src) && ReadSoFar(src, i, t, max)
    ensures var (cp, n) := Decode(src, i);
      && (n == 0 ==> forall u: Text :: !IsReading(u, src, max))
      && (n > 0 ==> i + n <= |src| && IsScalar(cp) && ReadSoFar(src, i + n, t + [cp], max))
      && (n > 0 && |Utf16(t)| + |Utf16Of(cp)| > max ==> forall u: Text :: !IsReading(u, src, max))
  {
    hide Decode, Utf8Of, Utf16Of, Utf8, Utf16;
    var (cp, n) := Decode(src, i);
    if n > 0 {
      DecodeSound(src, i);
      Utf8Snoc(t, cp);
      assert src[..i + n] == src[..i] + src[i..i + n];
    }
    forall u: Text | IsReading(u, src, max)
      ensures n > 0 && t + [cp] <= u && |Utf16(t)| + |Utf16Of(cp)| <= max
    {
      ReadingNext(src, i, t, max, u);
    }
  }

  lemma ReadingNext(src: seq<byte>, i: nat, t: Text, max: nat, u: Text)
    requires i < |src| && ReadSoFar(src, i, t, max) && IsReading(u, src, max)
    ensures |t| < |u| && t + [u[|t|]] <= u && Decode(src, i) == (u[|t|], |Utf8Of(u[|t|])|)
    ensures |Utf16(t)| + |Utf16Of(u[|t|])| <= max
  {
    hide Decode, Utf8Of, Utf16Of, Utf8, Utf16;
    assert t <= u;
    assert Utf8(t) != Utf8(u) by {
      assert |src[..i]| == i;
    }
    ProperPrefix(t, u);
    var k := |t|;
    assert u[..k] == t;
    Utf8Split(u, k);
    Utf8First(u[k..]);
    SuffixStarts(src, i, Utf8(t), Utf8Of(u[k]), Utf8(u[k..][1..]));
    DecodeComplete(src, i, u[k]);
    Utf16Split(u, k + 1);
    assert u[..k + 1] == t + [u[k]];
    Utf16Snoc(t, u[k]);
  }

  lemma ProperPrefix(t: Text, u: Text)
    requires t <= u && t != u
    ensures |t| < |u|
  {
  }

  lemma SuffixStarts(src: seq<byte>, i: nat, x: seq<byte>, y: seq<byte>, z: seq<byte>)
    requires i <= |src| && x == src[..i] && src == x + (y + z)
    ensures i + |y| <= |src| && src[i..i + |y|] == y
  {
    assert src[i..] == y + z;
  }

  lemma ReadAll(src: seq<byte>, t: Text, max: nat)
    requires ReadSoFar(src, |src|, t, max)
    ensures forall u: Text :: IsReading(u, src, max) ==> u == t
  {
    hide Utf8Of, Utf16, Utf8;
    forall u: Text | IsReading(u, src, max) ensures u == t {
      assert t <= u;
      if |t| < |u| {
        var k := |t|;
        assert u[..k] == t && src[..|src|] == src;
        Utf8Split(u, k);
        Utf8First(u[k..]);
      }
    }
  }

  /**
   `utf8_to_utf16`: it succeeds exactly on the UTF-8 encodings of non-empty texts of scalar values
   whose UTF-16 form fits the buffer, and then stores that form. `t` is the text.
   */
  method ToUtf16(src: seq<byte>, dst: array<u16>) returns (n: nat, ghost t: Text)
    requires NoZero(src)
    modifies dst
    ensures n <= dst.Length
    ensures n > 0 ==> t != [] && IsReading(t, src, dst.Length) && dst[..n] == Utf16(t)
    ensures forall u: Text :: u != [] && IsReading(u, src, dst.Length) ==> n > 0 && u == t
  {
    hide *;
    t := [];
    TextStart(src, dst.Length);
    if dst.Length == 0 {
      NoRoom(src);
      return 0, t;
    }
    var i, out := 0, 0;
    while i < |src|
      invariant i <= |src| && out <= dst.Length
      invariant ReadSoFar(src, i, t, dst.Length) && dst[..out] == Utf16(t)
    {
      ReadNext(src, i, t, dst.Length);
      var (cp, len) := Decode(src, i);
      if len == 0 {
        return 0, t;
      }
      UnitsOf(cp);
      Utf16Snoc(t, cp);
      if cp <= 0xFFFF {
        if out >= dst.Length {
          return 0, t;
        }
        dst[out] := cp;
        out := out + 1;
      } else {
        var v := cp - 0x1_0000;
        if out + 2 > dst.Length {
          return 0, t;
        }
        dst[out] := 0xD800 + v / 0x400;
        dst[out + 1] := 0xDC00 + v % 0x400;
        out := out + 2;
      }
      t := t + [cp];
      i := i + len;
    }
    ReadAll(src, t, dst.Length);
    ReadingOfRead(src, t, dst.Length);
    n := out;
  }

  lemma TextStart(src: seq<byte>, max: nat)
    ensures ReadSoFar(src, 0, [], max) && Utf16([]) == []
  {
  }

  lemma NoRoom(src: seq<byte>)
    ensures forall u: Text :: u != [] ==> !IsReading(u, src, 0)
  {
    forall u: Text | u != [] ensures !IsReading(u, src, 0) {
      Utf16First(u);
    }
  }

  lemma UnitsOf(cp: int)
    requires IsScalar(cp)
    ensures 0 < cp <= 0x10_FFFF
    ensures cp <= 0xFFFF ==> Utf16Of(cp) == [cp]
    ensures cp > 0xFFFF ==>
      var v := cp - 0x1_0000;
      0 <= v / 0x400 < 0x400 && 0 <= v % 0x400 < 0x400 && Utf16Of(cp) == [0xD800 + v / 0x400, 0xDC00 + v % 0x400]
  {
  }

  lemma ReadingOfRead(src: seq<byte>, t: Text, max: nat)
    requires ReadSoFar(src, |src|, t, max) && |Utf16(t)| <= max
    ensures IsReading(t, src, max)
    ensures |Utf16(t)| > 0 ==> t != []
    ensures |Utf16(t)| == 0 ==> t == []
  {
    if t != [] {
      Utf16First(t);
    }
    assert src[..|src|] == src;
  }

  // ----- utf16_to_utf8 -----

  predicate EndsName(w: u16) {
    w == 0 || w == 0xFFFF
  }

  /** The number of units before the first terminator, or all of them. */
  function Terminated(src: seq<u16>): (k: nat)
    ensures k <= |src| && (k < |src| ==> EndsName(src[k]))
    ensures forall i :: 0 <= i < k ==> !EndsName(src[i])
  {
    if src == [] || EndsName(src[0]) then 0 else 1 + Terminated(src[1..])
  }

  /** One character of `utf16_to_utf8` at a unit that is no terminator; length zero means the units are refused. */
  function DecodeUnits(src: seq<u16>, i: nat): (r: (int, nat))
    requires i < |src|
  {
    if 0xD800 <= src[i] <= 0xDBFF then
      if i + 1 >= |src| || src[i + 1] < 0xDC00 || src[i + 1] > 0xDFFF then (0, 0)
      else var high: int, low: int := src[i], src[i + 1]; (0x1_0000 + (high - 0xD800) * 0x400 + (low - 0xDC00), 2)
    else (src[i], 1)
  }

  lemma UnitsSound(src: seq<u16>, i: nat)
    requires i < |src| && !EndsName(src[i]) && DecodeUnits(src, i).1 > 0
    ensures var (cp, n) := DecodeUnits(src, i);
      IsCode(cp) && i + n <= |src| && n <= 2 && src[i..i + n] == Utf16Of(cp)
      && forall k :: i <= k < i + n ==> !EndsName(src[k])
  {
    var (cp, n) := DecodeUnits(src, i);
    if n == 2 {
      assert src[i..i + 2] == [src[i], src[i + 1]];
      var v := cp - 0x1_0000;
      assert v / 0x400 == src[i] - 0xD800 && v % 0x400 == src[i + 1] - 0xDC00;
    } else {
      assert src[i..i + 1] == [src[i]];
    }
  }

  lemma UnitsComplete(src: seq<u16>, i: nat, cp: int)
    requires IsCode(cp) && i + |Utf16Of(cp)| <= |src| && src[i..i + |Utf16Of(cp)|] == Utf16Of(cp)
    ensures i < |src| && !EndsName(src[i]) && DecodeUnits(src, i) == (cp, |Utf16Of(cp)|)
  {
    var d := src[i..i + |Utf16Of(cp)|];
    assert d[0] == src[i];
    if cp >= 0x1_0000 {
      assert d[1] == src[i + 1];
      var v := cp - 0x1_0000;
      assert v == v / 0x400 * 0x400 + v % 0x400 && 0 <= v / 0x400 < 0x400;
    }
  }

  /** A text that the name before the terminator may stand for. */
  ghost predicate IsNaming(u: Text, src: seq<u16>) {
    Codes(u) && Utf16(u) == src[..Terminated(src)]
  }

  ghost predicate NamedSoFar(src: seq<u16>, i: nat, t: Text) {
    && i <= Terminated(src) && Codes(t) && Utf16(t) == src[..i]
    && forall u: Text :: IsNaming(u, src) ==> t <= u && |Utf8(t)| <= |Utf8(u)|
  }

  lemma NameNext(src: seq<u16>, i: nat, t: Text, size: nat)
    requires i < |src| && !EndsName(src[i]) && NamedSoFar(src, i, t)
    ensures var (cp, n) := DecodeUnits(src, i);
      && (n == 0 ==> forall u: Text :: !IsNaming(u, src))
      && (n > 0 ==> i + n <= |src| && IsCode(cp) && NamedSoFar(src, i + n, t + [cp]))
      && (n > 0 && |Utf8(t)| + |Utf8Of(cp)| >= size ==> forall u: Text :: IsNaming(u, src) ==> |Utf8(u)| >= size)
  {
    hide DecodeUnits, Utf8Of, Utf16Of, Utf8, Utf16, EndsName, Terminated;
    InsideName(src, i);
    var (cp, n) := DecodeUnits(src, i);
    if n > 0 {
      UnitsSound(src, i);
      Utf16Snoc(t, cp);
      assert src[..i + n] == src[..i] + src[i..i + n];
      StaysInName(src, i, n);
    }
    forall u: Text | IsNaming(u, src)
      ensures n > 0 && t + [cp] <= u && |Utf8(t + [cp])| <= |Utf8(u)| && |Utf8(t + [cp])| == |Utf8(t)| + |Utf8Of(cp)|
    {
      NamingNext(src, i, t, u);
    }
  }

  lemma InsideName(src: seq<u16>, i: nat)
    requires i < |src| && i <= Terminated(src) && !EndsName(src[i])
    ensures i < Terminated(src) <= |src|
  {
  }

  lemma StaysInName(src: seq<u16>, i: nat, n: nat)
    requires i <= Terminated(src) && i + n <= |src| && forall k :: i <= k < i + n ==> !EndsName(src[k])
    ensures i + n <= Terminated(src)
  {
  }

  lemma NamingNext(src: seq<u16>, i: nat, t: Text, u: Text)
    requires i < Terminated(src) <= |src| && NamedSoFar(src, i, t) && IsNaming(u, src)
    ensures |t| < |u| && t + [u[|t|]] <= u && DecodeUnits(src, i) == (u[|t|], |Utf16Of(u[|t|])|)
    ensures |Utf8(t + [u[|t|]])| == |Utf8(t)| + |Utf8Of(u[|t|])| <= |Utf8(u)|
  {
    hide DecodeUnits, Utf8Of, Utf16Of, Utf8, Utf16, EndsName, Terminated;
    assert t <= u;
    assert Utf16(t) != Utf16(u) by {
      assert |src[..i]| == i;
    }
    ProperPrefix(t, u);
    var k := |t|;
    assert u[..k] == t;
    Utf16Split(u, k);
    Utf16First(u[k..]);
    UnitsStart(src, Terminated(src), i, Utf16(t), Utf16Of(u[k]), Utf16(u[k..][1..]));
    UnitsComplete(src, i, u[k]);
    Utf8Split(u, k + 1);
    assert u[..k + 1] == t + [u[k]];
    Utf8Snoc(t, u[k]);
  }

  lemma UnitsStart(src: seq<u16>, m: nat, i: nat, x: seq<u16>, y: seq<u16>, z: seq<u16>)
    requires i <= m <= |src| && x == src[..i] && src[..m] == x + (y + z)
    ensures i + |y| <= |src| && src[i..i + |y|] == y
  {
    assert src[i..m] == src[..m][i..] == y + z;
    assert src[i..i + |y|] == src[i..m][..|y|];
  }

  lemma NameAll(src: seq<u16>, t: Text)
    requires NamedSoFar(src, Terminated(src), t)
    ensures IsNaming(t, src) && forall u: Text :: IsNaming(u, src) ==> u == t
  {
    hide Utf8Of, Utf16Of, Utf8, Utf16, EndsName, Terminated;
    forall u: Text | IsNaming(u, src) ensures u == t {
      assert t <= u;
      if |t| < |u| {
        var k := |t|;
        assert u[..k] == t;
        Utf16Split(u, k);
        Utf16First(u[k..]);
      }
    }
  }

  /** The bytes written for one character, as the code computes them. */
  method PutUtf8(cp: int, output: array<byte>, pos: nat) returns (ok: bool, pos': nat)
    requires 0 < cp <= 0x10_FFFF && pos < output.Length
    modifies output
    ensures ok == (pos + |Utf8Of(cp)| < output.Length)
    ensures ok ==> pos' == pos + |Utf8Of(cp)| && output[..pos'] == old(output[..pos]) + Utf8Of(cp)
  {
    pos' := pos;
    ghost var was := output[..pos];
    if cp > 0xFFFF {
      if pos + 4 >= output.Length {
        return false, pos;
      }
      output[pos] := 0xF0 + cp / 0x4_0000;
      output[pos + 1] := 0x80 + cp / 0x1000 % 0x40;
      output[pos + 2] := 0x80 + cp / 0x40 % 0x40;
      output[pos + 3] := 0x80 + cp % 0x40;
      pos' := pos + 4;
    } else if cp < 0x80 {
      if pos + 1 >= output.Length {
        return false, pos;
      }
      output[pos] := cp;
      pos' := pos + 1;
    } else if cp < 0x800 {
      if pos + 2 >= output.Length {
        return false, pos;
      }
      output[pos] := 0xC0 + cp / 0x40;
      output[pos + 1] := 0x80 + cp % 0x40;
      pos' := pos + 2;
    } else {
      if pos + 3 >= output.Length {
        return false, pos;
      }
      output[pos] := 0xE0 + cp / 0x1000;
      output[pos + 1] := 0x80 + cp / 0x40 % 0x40;
      output[pos + 2] := 0x80 + cp % 0x40;
      pos' := pos + 3;
    }
    ok := true;
    assert output[..pos'] == was + Utf8Of(cp);
  }

  /**
   `utf16_to_utf8`: it succeeds exactly when the units before the terminator are the UTF-16 form of
   a non-empty text whose UTF-8 form fits with its final zero, and then stores that form.
   */
  method ToUtf8(src: seq<u16>, output: array<byte>) returns (ok: bool, ghost t: Text)
    modifies output
    ensures ok ==> t != [] && IsNaming(t, src) && |Utf8(t)| < output.Length
    ensures ok ==> output[..|Utf8(t)|] == Utf8(t) && output[|Utf8(t)|] == 0
    ensures forall u: Text :: u != [] && IsNaming(u, src) && |Utf8(u)| < output.Length ==> ok && u == t
  {
    hide *;
    t := [];
    NameStart(src);
    if output.Length == 0 {
      return false, t;
    }
    var i, pos := 0, 0;
    while i < |src|
      invariant 0 <= i <= |src| && 0 <= pos < output.Length
      invariant NamedSoFar(src, i, t) && output[..pos] == Utf8(t)
    {
      if EndsName(src[i]) {
        break;
      }
      NameNext(src, i, t, output.Length);
      var (cp, n) := DecodeUnits(src, i);
      if n == 0 {
        return false, t;
      }
      CodeInRange(cp);
      Utf8Snoc(t, cp);
      var ok1, pos1 := PutUtf8(cp, output, pos);
      if !ok1 {
        return false, t;
      }
      pos := pos1;
      t := t + [cp];
      i := i + n;
    }
    NameEnds(src, i, t);
    NameAll(src, t);
    output[pos] := 0;
    ok := pos != 0;
  }

  lemma NameStart(src: seq<u16>)
    ensures NamedSoFar(src, 0, []) && Utf8([]) == []
  {
    assert src[..0] == [];
  }

  lemma CodeInRange(cp: int)
    requires IsCode(cp)
    ensures 0 < cp <= 0x10_FFFF
  {
  }

  lemma NameEnds(src: seq<u16>, i: nat, t: Text)
    requires i <= |src| && NamedSoFar(src, i, t) && (i < |src| ==> EndsName(src[i]))
    ensures i == Terminated(src)
    ensures |Utf8(t)| == 0 <==> t == []
  {
    if t != [] {
      Utf8First(t);
    }
  }

  // ----- round trip -----

  /**
   The two conversions undo each other: the units stored for accepted bytes name the very text
   that encodes to those bytes, unless the text holds U+FFFF. With the contracts of `ToUtf16` and
   `ToUtf8` the bytes come back whenever there is room for them and their final zero.
   */
  lemma NamingOfReading(t: Text, src: seq<byte>, max: nat, units: seq<u16>)
    requires t != [] && IsReading(t, src, max) && units == Utf16(t)
    ensures IsNaming(t, units) <==> 0xFFFF !in t
    ensures Utf8(t) == src
  {
    if 0xFFFF !in t {
      assert Codes(t);
      NoTerminators(t);
      assert Terminated(units) == |units|;
      assert units[..|units|] == units;
    } else {
      var i :| 0 <= i < |t| && t[i] == 0xFFFF;
      assert !IsCode(t[i]);
    }
  }

  lemma {:induction false} NoTerminators(t: Text)
    requires Codes(t)
    ensures forall i :: 0 <= i < |Utf16(t)| ==> !EndsName(Utf16(t)[i])
  {
    if t != [] {
      var n := |t| - 1;
      NoTerminators(t[..n]);
      assert IsCode(t[n]);
    }
  }

  /** Units name at most one text. */
  lemma NamingUnique(t: Text, u: Text, w: seq<u16>)
    requires IsNaming(t, w) && IsNaming(u, w)
    ensures t == u
  {
    hide Utf16;
    Utf16Injective(t, u);
  }

  /** A high surrogate that no low one follows is not accepted; a low one on its own is. */
  lemma {:induction false} LoneSurrogates(w: seq<u16>, k: nat, u: Text)
    requires k < |w| && 0xD800 <= w[k] < 0xDC00 && (k + 1 < |w| ==> !(0xDC00 <= w[k + 1] < 0xE000))
    ensures !(Codes(u) && Utf16(u) == w)
    decreases |u|
  {
    hide Utf16;
    if Codes(u) && Utf16(u) == w {
      NoUnits();
      Utf16First(u);
      Utf16Values(u[0]);
      var n := |Utf16Of(u[0])|;
      assert w[..n] == Utf16Of(u[0]) && w[n..] == Utf16(u[1..]);
      assert n == 2 ==> w[0] == Utf16Of(u[0])[0] && w[1] == Utf16Of(u[0])[1];
      assert n == 1 ==> w[0] == Utf16Of(u[0])[0];
      if k >= n {
        LoneSurrogates(w[n..], k - n, u[1..]);
      }
    }
  }

  lemma LowAlone(w: u16)
    requires 0xDC00 <= w < 0xE000
    ensures IsNaming([w], [w])
  {
    Utf16Single(w);
    assert Terminated([w][1..]) == 0 && [w][..1] == [w];
  }

  /** Different texts have different UTF-16 forms. */
  lemma {:induction false} Utf16Injective(t: Text, u: Text)
    requires Codes(t) && Codes(u) && Utf16(t) == Utf16(u)
    ensures t == u
  {
    hide Utf16, Utf16Of, DecodeUnits;
    NoUnits();
    if t != [] {
      FirstCode(t);
    }
    if u != [] {
      FirstCode(u);
    }
    if t != [] {
      SameTail(Utf16Of(t[0]), Utf16(t[1..]), Utf16(u[1..]));
      Utf16Injective(t[1..], u[1..]);
      assert t == [t[0]] + t[1..] && u == [u[0]] + u[1..];
    }
  }

  lemma SameTail<T>(x: seq<T>, y: seq<T>, z: seq<T>)
    requires x + y == x + z
    ensures y == z
  {
    assert (x + y)[|x|..] == y && (x + z)[|x|..] == z;
  }

  lemma NoUnits()
    ensures Utf16([]) == []
  {
  }

  lemma FirstCode(t: Text)
    requires Codes(t) && t != []
    ensures |Utf16(t)| > 0 && DecodeUnits(Utf16(t), 0) == (t[0], |Utf16Of(t[0])|)
    ensures Utf16(t) == Utf16Of(t[0]) + Utf16(t[1..])
  {
    hide Utf16, Utf16Of, DecodeUnits;
    Utf16First(t);
    var w := Utf16(t);
    assert w[0..|Utf16Of(t[0])|] == Utf16Of(t[0]);
    UnitsComplete(w, 0, t[0]);
  }

  /** Bytes have at most one reading. */
  lemma ReadingUnique(t: Text, u: Text, src: seq<byte>, max: nat)
    requires IsReading(t, src, max) && IsReading(u, src, max)
    ensures t == u
  {
    hide Utf8, Utf16;
    Utf8Injective(t, u);
  }

  /** Different texts have different UTF-8 forms. */
  lemma {:induction false} Utf8Injective(t: Text, u: Text)
    requires Scalars(t) && Scalars(u) && Utf8(t) == Utf8(u)
    ensures t == u
  {
    hide Utf8, Utf8Of, Decode;
    NoBytes();
    if t != [] {
      FirstScalar(t);
    }
    if u != [] {
      FirstScalar(u);
    }
    if t != [] {
      SameTail(Utf8Of(t[0]), Utf8(t[1..]), Utf8(u[1..]));
      Utf8Injective(t[1..], u[1..]);
      assert t == [t[0]] + t[1..] && u == [u[0]] + u[1..];
    }
  }

  lemma NoBytes()
    ensures Utf8([]) == []
  {
  }

  lemma FirstScalar(t: Text)
    requires Scalars(t) && t != []
    ensures |Utf8(t)| > 0 && Decode(Utf8(t), 0) == (t[0], |Utf8Of(t[0])|)
    ensures Utf8(t) == Utf8Of(t[0]) + Utf8(t[1..])
  {
    hide Utf8, Utf8Of, Decode;
    Utf8First(t);
    var s := Utf8(t);
    assert s[0..|Utf8Of(t[0])|] == Utf8Of(t[0]);
    DecodeComplete(s, 0, t[0]);
  }
}
