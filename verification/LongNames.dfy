/** Long file names on disk: 13-unit slots before the short entry, tied to it by a checksum. */
module LongNames {
  import opened Words
  import Bits
  import opened DirEntry
  import Unicode

  const UNITS_PER_SLOT := 13
  const LAST_SLOT := 0x40
  const MAX_SLOTS := 20
  const MAX_UNITS := 255

  // ----- one slot -----

  /** Unit `i` of a slot that holds `part`: the name, then a zero, then 0xFFFF. */
  function PaddedUnit(part: seq<u16>, i: nat): u16 {
    if i < |part| then part[i] else if i == |part| then 0 else 0xFFFF
  }

  function Padded(part: seq<u16>): (u: seq<u16>)
    ensures |u| == 13
  {
    seq(13, i requires 0 <= i < 13 => PaddedUnit(part, i))
  }

  /** The bytes of the units `i` to `j` of a slot. */
  function UnitBytes(u: seq<u16>, i: nat, j: nat): (b: seq<byte>)
    requires i <= j <= |u|
    ensures |b| == 2 * (j - i)
    decreases j - i
  {
    if i == j then [] else WordBytes(u[i]) + UnitBytes(u, i + 1, j)
  }

  /** The slot with thirteen units `u`. */
  function Slot(order: byte, u: seq<u16>, checksum: byte): Entry
    requires |u| == 13
  {
    SlotFront(order, u) + SlotMiddle(u, checksum) + SlotBack(u)
  }

  function SlotFront(order: byte, u: seq<u16>): (b: seq<byte>)
    requires |u| == 13
    ensures |b| == 11
  {
    [order] + UnitBytes(u, 0, 5)
  }

  function SlotMiddle(u: seq<u16>, checksum: byte): (b: seq<byte>)
    requires |u| == 13
    ensures |b| == 15
  {
    [ATTR_LONG_NAME as byte, 0, checksum] + UnitBytes(u, 5, 11)
  }

  function SlotBack(u: seq<u16>): (b: seq<byte>)
    requires |u| == 13
    ensures |b| == 6
  {
    [0, 0] + UnitBytes(u, 11, 13)
  }

  /** Where unit `i` lies in a slot. */
  function UnitOffset(i: nat): nat {
    if i < 5 then 1 + 2 * i else if i < 11 then 4 + 2 * i else 6 + 2 * i
  }

  function UnitAt(e: Entry, i: nat): u16
    requires i < 13
  {
    UnitFits(e[UnitOffset(i)], e[UnitOffset(i) + 1]);
    Word(e[UnitOffset(i)], e[UnitOffset(i) + 1])
  }

  lemma UnitFits(lo: byte, hi: byte)
    ensures 0 <= Word(lo, hi) < 0x1_0000
  {
  }

  function SlotUnits(e: Entry): (u: seq<u16>)
    ensures |u| == 13
  {
    seq(13, i requires 0 <= i < 13 => UnitAt(e, i))
  }

  lemma {:induction false} UnitBytesAt(u: seq<u16>, i: nat, j: nat, k: nat)
    requires i <= k < j <= |u|
    ensures UnitBytes(u, i, j)[2 * (k - i)..2 * (k - i) + 2] == WordBytes(u[k])
    decreases j - i
  {
    if k > i {
      UnitBytesAt(u, i + 1, j, k);
      var a, b := WordBytes(u[i]), UnitBytes(u, i + 1, j);
      var m := 2 * (k - i - 1);
      assert (a + b)[m + 2..m + 4] == b[m..m + 2];
    }
  }

  /** The fields of a slot are what was stored. */
  lemma SlotFields(order: byte, u: seq<u16>, checksum: byte)
    requires |u| == 13
    ensures var e := Slot(order, u, checksum);
      && SlotUnits(e) == u && e[0] == order && Attribute(e) == ATTR_LONG_NAME && e[12] == 0 && e[13] == checksum
      && e[26] == 0 && e[27] == 0
  {
    hide Slot, UnitAt;
    var e := Slot(order, u, checksum);
    SlotHeader(order, u, checksum);
    forall i | 0 <= i < 13 ensures UnitAt(e, i) == u[i] {
      SlotUnitAt(order, u, checksum, i);
    }
  }

  lemma SlotHeader(order: byte, u: seq<u16>, checksum: byte)
    requires |u| == 13
    ensures var e := Slot(order, u, checksum);
      e[0] == order && Attribute(e) == ATTR_LONG_NAME && e[12] == 0 && e[13] == checksum && e[26] == 0 && e[27] == 0
  {
    hide UnitBytes;
  }

  lemma SlotUnitAt(order: byte, u: seq<u16>, checksum: byte, i: nat)
    requires |u| == 13 && i < 13
    ensures UnitAt(Slot(order, u, checksum), i) == u[i]
  {
    hide UnitBytes, WordBytes;
    var e := Slot(order, u, checksum);
    var o := UnitOffset(i);
    WordRoundTrip(u[i]);
    assert e[o] == WordBytes(u[i])[0] && e[o + 1] == WordBytes(u[i])[1] by {
      if i < 5 {
        UnitBytesAt(u, 0, 5, i);
        var b := UnitBytes(u, 0, 5);
        assert b[2 * i..2 * i + 2][0] == b[2 * i] && b[2 * i..2 * i + 2][1] == b[2 * i + 1];
      } else if i < 11 {
        UnitBytesAt(u, 5, 11, i);
        var b := UnitBytes(u, 5, 11);
        assert b[2 * (i - 5)..2 * (i - 5) + 2][0] == b[2 * (i - 5)] && b[2 * (i - 5)..2 * (i - 5) + 2][1] == b[2 * (i - 5) + 1];
      } else {
        UnitBytesAt(u, 11, 13, i);
        var b := UnitBytes(u, 11, 13);
        assert b[2 * (i - 11)..2 * (i - 11) + 2][0] == b[2 * (i - 11)] && b[2 * (i - 11)..2 * (i - 11) + 2][1] == b[2 * (i - 11) + 1];
      }
    }
  }

  // ----- the checksum -----

  /** One round of `lfn_checksum`: rotate right, add, keep eight bits. */
  function ChecksumStep(sum: byte, c: byte): byte {
    ((if sum % 2 == 1 then 0x80 else 0) + sum / 2 + c) % 0x100
  }

  function ChecksumOf(name: seq<byte>): byte {
    if name == [] then 0 else ChecksumStep(ChecksumOf(name[..|name| - 1]), name[|name| - 1])
  }

  /** `lfn_checksum`: for every byte the sum so far is rotated right by one bit, and the byte is added. */
  method Checksum(name: seq<byte>) returns (sum: byte)
    requires |name| == 11
    ensures sum == ChecksumOf(name) && sum == RotatedSum(name)
  {
    sum := 0;
    for i := 0 to 11
      invariant sum == ChecksumOf(name[..i])
    {
      assert name[..i + 1][..i] == name[..i];
      sum := ChecksumStep(sum, name[i]);
    }
    assert name[..11] == name;
    ChecksumRotates(name);
  }

  /** Eight bits rotated right by one: the lowest becomes the highest. */
  function Rotated(x: u64): nat {
    Bits.AndOne(x);
    Bits.Or(Bits.Shr(x, 1), Bits.Shl(Bits.And(x, 1), 7))
  }

  function RotatedSum(name: seq<byte>): nat {
    if name == [] then 0
    else
      var sum := RotatedSum(name[..|name| - 1]);
      (Rotated(sum % 0x100) + name[|name| - 1]) % 0x100
  }

  /** Bit `i` of a number. */
  function BitOf(x: nat, i: nat): nat {
    x / Bits.Pow2(i) % 2
  }

  /** With a zero byte the lowest bit becomes the highest and every other one moves down; a byte is added modulo 256. */
  lemma StepRotates(sum: byte, c: byte)
    ensures ChecksumStep(sum, 0) == Rotated(sum) < 0x100
    ensures BitOf(ChecksumStep(sum, 0), 7) == BitOf(sum, 0)
    ensures forall i :: 1 <= i < 8 ==> BitOf(ChecksumStep(sum, 0), i - 1) == BitOf(sum, i)
    ensures ChecksumStep(sum, c) == (ChecksumStep(sum, 0) + c) % 0x100
  {
    hide *;
    StepIs(sum, c);
    StepIs(sum, 0);
    RotatedIs(sum);
    forall i | 1 <= i < 8 ensures BitOf(ChecksumStep(sum, 0), i - 1) == BitOf(sum, i) {
      BitMoves(sum, i);
    }
    LowestMoves(sum);
  }

  lemma StepIs(sum: byte, c: byte)
    ensures 0 <= sum / 2 + 0x80 * (sum % 2) < 0x100
    ensures ChecksumStep(sum, c) == (sum / 2 + 0x80 * (sum % 2) + c) % 0x100
    ensures ChecksumStep(sum, 0) == sum / 2 + 0x80 * (sum % 2)
  {
  }

  lemma RotatedIs(sum: byte)
    ensures Rotated(sum) == sum / 2 + 0x80 * (sum % 2)
  {
    hide Bits.Or, Bits.And, Bits.Pow2;
    Powers();
    Bits.AndOne(sum);
    OrHighBit(sum / 2, 7, sum % 2);
    Small(sum % 2);
  }

  lemma Small(b: nat)
    requires b <= 1
    ensures b * 0x80 % TWO64 == b * 0x80
  {
  }

  lemma Powers()
    ensures Bits.Pow2(0) == 1 && Bits.Pow2(1) == 2 && Bits.Pow2(2) == 4 && Bits.Pow2(3) == 8 && Bits.Pow2(4) == 0x10
    ensures Bits.Pow2(5) == 0x20 && Bits.Pow2(6) == 0x40 && Bits.Pow2(7) == 0x80
  {
    Bits.Pow2Values();
    Bits.Pow2Is(1, 2, 2, 4);
    Bits.Pow2Is(1, 4, 2, 16);
    Bits.Pow2Is(2, 4, 4, 16);
    Bits.Pow2Is(3, 4, 8, 16);
  }

  /** Setting a bit above all others adds it. */
  lemma {:induction false} OrHighBit(x: nat, k: nat, b: nat)
    requires x < Bits.Pow2(k) && b <= 1
    ensures Bits.Or(x, b * Bits.Pow2(k)) == x + b * Bits.Pow2(k)
    decreases k
  {
    if b == 0 {
      Bits.OrZero(x);
    } else if k > 0 {
      OrHighBit(x / 2, k - 1, b);
      assert Bits.Pow2(k) / 2 == Bits.Pow2(k - 1) && Bits.Pow2(k) % 2 == 0;
    }
  }

  lemma BitMoves(sum: byte, i: nat)
    requires 1 <= i < 8
    ensures BitOf(ChecksumStep(sum, 0), i - 1) == BitOf(sum, i)
  {
    hide ChecksumStep;
    StepIs(sum, 0);
    var d, m := Bits.Pow2(i - 1), Bits.Pow2(7 - i);
    PowersJoin(i);
    LowBits(sum / 2, sum % 2, d, m);
    Halved(sum, d);
  }

  lemma PowersJoin(i: nat)
    requires 1 <= i < 8
    ensures Bits.Pow2(i) == 2 * Bits.Pow2(i - 1) && 0x80 == 2 * Bits.Pow2(i - 1) * Bits.Pow2(7 - i)
  {
    hide Bits.Pow2;
    Powers();
    Bits.Pow2Add(i, 7 - i);
    Bits.Pow2Add(1, i - 1);
  }

  lemma LowBits(h: nat, l: nat, d: nat, m: nat)
    requires d > 0 && 0x80 == 2 * d * m
    ensures (h + 0x80 * l) / d % 2 == h / d % 2
  {
    var q, r := h / d, h % d;
    assert h == q * d + r;
    assert h + 0x80 * l == (q + 2 * (m * l)) * d + r by {
      assert 0x80 * l == 2 * (m * l) * d;
    }
    Division(h + 0x80 * l, d, q + 2 * (m * l), r);
  }

  lemma Halved(x: nat, d: nat)
    requires d > 0
    ensures x / 2 / d == x / (2 * d)
  {
    var q, r := x / 2 / d, x / 2 % d;
    assert x / 2 == q * d + r;
    assert x == q * (2 * d) + (2 * r + x % 2);
    Division(x, 2 * d, q, 2 * r + x % 2);
  }

  lemma LowestMoves(sum: byte)
    ensures BitOf(ChecksumStep(sum, 0), 7) == BitOf(sum, 0)
  {
    hide ChecksumStep, Bits.Pow2;
    Powers();
    StepIs(sum, 0);
  }

  /** The sum after `n` steps with a zero byte. */
  function Turned(sum: byte, n: nat): byte {
    if n == 0 then sum else ChecksumStep(Turned(sum, n - 1), 0)
  }

  /** Eight steps turn the sum once around. */
  lemma EightSteps(sum: byte)
    ensures Turned(sum, 8) == sum
  {
    hide *;
    FourSteps(sum);
    FourSteps(Turned(sum, 4));
    TurnedAdd(sum, 4, 4);
    HalvesBack(sum, Turned(sum, 4));
  }

  lemma {:induction false} TurnedAdd(sum: byte, m: nat, n: nat)
    ensures Turned(Turned(sum, m), n) == Turned(sum, m + n)
  {
    hide ChecksumStep;
    if n > 0 {
      TurnedAdd(sum, m, n - 1);
    }
  }

  lemma TurnTwice(sum: byte)
    ensures Turned(sum, 2) == sum / 4 + 0x40 * (sum % 4)
  {
    hide ChecksumStep;
    StepIs(sum, 0);
    StepIs(Turned(sum, 1), 0);
    assert Turned(sum, 1) == ChecksumStep(Turned(sum, 0), 0);
  }

  /** Four steps exchange the halves. */
  lemma FourSteps(sum: byte)
    ensures Turned(sum, 4) == sum / 0x10 + 0x10 * (sum % 0x10)
  {
    hide *;
    TurnTwice(sum);
    TurnTwice(Turned(sum, 2));
    TurnedAdd(sum, 2, 2);
    Quarters(sum, Turned(sum, 2));
  }

  lemma Quarters(x: byte, y: byte)
    requires y == x / 4 + 0x40 * (x % 4)
    ensures y / 4 + 0x40 * (y % 4) == x / 0x10 + 0x10 * (x % 0x10)
  {
    var h, c, d := x / 0x10, x / 4 % 4, x % 4;
    assert x == 0x10 * h + 4 * c + d;
    assert y == 4 * (0x10 * d + h) + c;
  }

  lemma HalvesBack(x: byte, y: byte)
    requires y == x / 0x10 + 0x10 * (x % 0x10)
    ensures y / 0x10 + 0x10 * (y % 0x10) == x
  {
    var h, l := x / 0x10, x % 0x10;
    assert x == 0x10 * h + l && y == 0x10 * l + h;
  }

  lemma {:induction false} ChecksumRotates(name: seq<byte>)
    ensures ChecksumOf(name) == RotatedSum(name)
  {
    hide Rotated, ChecksumStep, BitOf;
    if name != [] {
      ChecksumRotates(name[..|name| - 1]);
      StepRotates(ChecksumOf(name[..|name| - 1]), name[|name| - 1]);
    }
  }

  lemma SumStep(name: seq<byte>, k: nat, sum: byte, next: byte)
    requires k < |name| && (if k == 0 then sum == 0 else ChecksumOf(name[..k]) == sum)
    ensures next == (sum / 2 + 0x80 * (sum % 2) + name[k]) % 0x100 ==> ChecksumOf(name[..k + 1]) == next
  {
    hide ChecksumStep;
    assert name[..k + 1][..k] == name[..k];
    StepIs(sum, name[k]);
  }

  /** The checksum of the short name `README.TXT`. */
  lemma ChecksumKnown()
    ensures ChecksumOf([0x52, 0x45, 0x41, 0x44, 0x4D, 0x45, 0x20, 0x20, 0x54, 0x58, 0x54]) == 115
  {
    hide *;
    var name: seq<byte> := [0x52, 0x45, 0x41, 0x44, 0x4D, 0x45, 0x20, 0x20, 0x54, 0x58, 0x54];
    SumStep(name, 0, 0, 82);
    SumStep(name, 1, 82, 110);
    SumStep(name, 2, 110, 120);
    SumStep(name, 3, 120, 128);
    SumStep(name, 4, 128, 141);
    SumStep(name, 5, 141, 11);
    SumStep(name, 6, 11, 165);
    SumStep(name, 7, 165, 242);
    SumStep(name, 8, 242, 205);
    SumStep(name, 9, 205, 62);
    SumStep(name, 10, 62, 115);
    assert name[..11] == name;
  }

  // ----- a run of slots -----

  function SlotCount(n: nat): nat {
    (n + 12) / 13
  }

  /** The part of the name in slot number `k` (counting from 1): the last part comes first on disk. */
  function PartOf(units: seq<u16>, k: nat): seq<u16>
    requires 1 <= k <= SlotCount(|units|)
  {
    units[13 * (k - 1)..if 13 * k <= |units| then 13 * k else |units|]
  }

  function OrderByte(count: nat, i: nat): byte
    requires i < count <= MAX_SLOTS
  {
    (count - i) + if i == 0 then LAST_SLOT else 0
  }

  /** The slots of a name in disk order. */
  function Run(units: seq<u16>, checksum: byte): (r: seq<Entry>)
    requires SlotCount(|units|) <= MAX_SLOTS
    ensures |r| == SlotCount(|units|)
  {
    var count := SlotCount(|units|);
    seq(count, i requires 0 <= i < count => Slot(OrderByte(count, i), Padded(PartOf(units, count - i)), checksum))
  }

  // ----- get_lfn_name -----

  /** What `get_lfn_name` has collected: 255 units and the highest slot number marked as last. */
  datatype Collected = Collected(chars: seq<u16>, maxOrder: nat)

  predicate BadSlot(e: Entry) {
    Attribute(e) != ATTR_LONG_NAME || e[0] % 0x20 == 0 || e[0] % 0x20 > MAX_SLOTS
  }

  /** Slot number 20 would not fit the 255 units; such slots are not modelled. */
  predicate Modelled(e: Entry) {
    e[0] % 0x20 != MAX_SLOTS
  }

  predicate AllModelled(raw: seq<Entry>) {
    forall i :: 0 <= i < |raw| ==> Modelled(raw[i])
  }

  /** Nothing is said of slots numbered 20 that pass the test; those that fail it are never looked at. */
  predicate Readable(raw: seq<Entry>, checksum: byte) {
    ValidRun(raw, checksum) ==> AllModelled(raw)
  }

  function Collect(c: Collected, e: Entry): Collected
    requires |c.chars| == MAX_UNITS && !BadSlot(e) && Modelled(e)
  {
    var order := e[0] % 0x20;
    var base := 13 * (order - 1);
    Collected(c.chars[..base] + SlotUnits(e) + c.chars[base + 13..],
              if e[0] / LAST_SLOT % 2 == 1 then order else c.maxOrder)
  }

  function CollectAll(raw: seq<Entry>): (c: Collected)
    requires forall i :: 0 <= i < |raw| ==> !BadSlot(raw[i]) && Modelled(raw[i])
    ensures |c.chars| == MAX_UNITS && c.maxOrder <= 19
  {
    if raw == [] then Collected(seq(MAX_UNITS, _ => 0xFFFF), 0) else Collect(CollectAll(raw[..|raw| - 1]), raw[|raw| - 1])
  }

  /** The units that `get_lfn_name` passes on, if it does. */
  function NameUnits(raw: seq<Entry>): (bool, seq<u16>)
    requires AllModelled(raw)
  {
    if exists i :: 0 <= i < |raw| && BadSlot(raw[i]) then (false, []) else
    var c := CollectAll(raw);
    if c.maxOrder == 0 || c.maxOrder > |raw| then (false, [])
    else (true, c.chars[..if 13 * c.maxOrder > MAX_UNITS then MAX_UNITS else 13 * c.maxOrder])
  }

  /** `get_lfn_name`. */
  method GetLfnName(raw: seq<Entry>, output: array<byte>) returns (ok: bool, ghost t: Unicode.Text)
    requires AllModelled(raw)
    modifies output
    ensures ok ==> NameUnits(raw).0 && t != [] && Unicode.IsNaming(t, NameUnits(raw).1) && |Unicode.Utf8(t)| < output.Length
    ensures ok ==> output[..|Unicode.Utf8(t)|] == Unicode.Utf8(t) && output[|Unicode.Utf8(t)|] == 0
    ensures NameUnits(raw).0 ==>
      forall u: Unicode.Text :: u != [] && Unicode.IsNaming(u, NameUnits(raw).1) && |Unicode.Utf8(u)| < output.Length ==> ok && u == t
  {
    hide Unicode.Utf8, Unicode.Utf16, Unicode.IsNaming, SlotUnits;
    t := [];
    var c := Collected(seq(MAX_UNITS, _ => 0xFFFF), 0);
    assert raw[..0] == [];
    for i := 0 to |raw|
      invariant forall j :: 0 <= j < i ==> !BadSlot(raw[j])
      invariant c == CollectAll(raw[..i])
    {
      if BadSlot(raw[i]) {
        return false, t;
      }
      assert raw[..i + 1][..i] == raw[..i];
      c := Collect(c, raw[i]);
    }
    assert raw[..|raw|] == raw;
    if c.maxOrder == 0 || c.maxOrder > |raw| {
      return false, t;
    }
    var count := 13 * c.maxOrder;
    if count > MAX_UNITS {
      count := MAX_UNITS;
    }
    ok, t := Unicode.ToUtf8(c.chars[..count], output);
  }

  // ----- a stored name is read back -----

  /** Unit `j` of the slots of a name, numbered through all slots. */
  function StoredUnit(units: seq<u16>, j: nat): u16 {
    PaddedUnit(units, j)
  }

  lemma PartUnit(units: seq<u16>, k: nat, i: nat)
    requires 1 <= k <= SlotCount(|units|) && i < 13
    ensures PaddedUnit(PartOf(units, k), i) == StoredUnit(units, 13 * (k - 1) + i)
  {
  }

  lemma RunSlot(units: seq<u16>, checksum: byte, i: nat)
    requires SlotCount(|units|) <= MAX_SLOTS && i < SlotCount(|units|)
    ensures var e, count := Run(units, checksum)[i], SlotCount(|units|);
      && e[0] == OrderByte(count, i) && Attribute(e) == ATTR_LONG_NAME && e[12] == 0 && e[13] == checksum
      && e[26] == 0 && e[27] == 0
      && SlotUnits(e) == Padded(PartOf(units, count - i))
  {
    hide Slot, SlotUnits, Padded, PartOf, OrderByte;
    var count := SlotCount(|units|);
    SlotFields(OrderByte(count, i), Padded(PartOf(units, count - i)), checksum);
  }

  lemma OrderParts(count: nat, i: nat)
    requires i < count <= 19
    ensures OrderByte(count, i) % 0x20 == count - i && OrderByte(count, i) / LAST_SLOT % 2 == (if i == 0 then 1 else 0)
    ensures 0 < OrderByte(count, i) < 0x60
  {
  }

  ghost predicate AllCollectable(raw: seq<Entry>) {
    forall i :: 0 <= i < |raw| ==> !BadSlot(raw[i]) && Modelled(raw[i])
  }

  lemma RunModelled(units: seq<u16>, checksum: byte)
    requires SlotCount(|units|) <= 19
    ensures AllCollectable(Run(units, checksum))
  {
    hide Run, Slot, SlotUnits, OrderByte;
    forall i | 0 <= i < SlotCount(|units|)
      ensures !BadSlot(Run(units, checksum)[i]) && Modelled(Run(units, checksum)[i])
    {
      RunSlot(units, checksum, i);
      OrderParts(SlotCount(|units|), i);
    }
  }

  lemma CollectSnoc(raw: seq<Entry>, m: nat)
    requires 0 < m <= |raw| && AllCollectable(raw)
    ensures AllCollectable(raw[..m]) && AllCollectable(raw[..m - 1])
    ensures CollectAll(raw[..m]) == Collect(CollectAll(raw[..m - 1]), raw[m - 1])
  {
    assert raw[..m][..m - 1] == raw[..m - 1];
  }

  /** Whatever was collected before, after `m` slots of the run the last `m` parts of the name are in place. */
  ghost predicate CollectedParts(units: seq<u16>, m: nat, c: Collected) {
    var count := SlotCount(|units|);
    && m <= count && |c.chars| == MAX_UNITS && count <= 19
    && (m > 0 ==> c.maxOrder == count)
    && forall j :: 13 * (count - m) <= j < 13 * count ==> c.chars[j] == StoredUnit(units, j)
  }

  lemma {:induction false} CollectRun(before: seq<Entry>, units: seq<u16>, checksum: byte, m: nat)
    requires AllCollectable(before) && SlotCount(|units|) <= 19 && m <= SlotCount(|units|)
    ensures AllCollectable(before + Run(units, checksum)[..m])
    ensures CollectedParts(units, m, CollectAll(before + Run(units, checksum)[..m]))
  {
    hide Run, Slot, SlotUnits, Padded, PartOf, OrderByte, StoredUnit, BadSlot, Modelled, Collect, CollectAll;
    var run := Run(units, checksum);
    RunModelled(units, checksum);
    if m == 0 {
      assert before + run[..0] == before;
    } else {
      CollectRun(before, units, checksum, m - 1);
      assert before + run[..m] == (before + run)[..|before| + m] && before + run[..m - 1] == (before + run)[..|before| + m - 1];
      CollectSnoc(before + run, |before| + m);
      CollectNext(units, checksum, m - 1, CollectAll(before + run[..m - 1]));
    }
  }

  lemma CollectNext(units: seq<u16>, checksum: byte, m: nat, c: Collected)
    requires SlotCount(|units|) <= 19 && m < SlotCount(|units|) && CollectedParts(units, m, c)
    requires AllCollectable(Run(units, checksum))
    ensures CollectedParts(units, m + 1, Collect(c, Run(units, checksum)[m]))
  {
    hide Run, Slot, SlotUnits, Padded, PartOf, OrderByte, StoredUnit;
    var k := SlotCount(|units|) - m;
    RunSlot(units, checksum, m);
    OrderParts(SlotCount(|units|), m);
    PaddedIs(units, k);
    CollectSlot(c, Run(units, checksum)[m], units, k);
  }

  lemma PaddedIs(units: seq<u16>, k: nat)
    requires 1 <= k <= SlotCount(|units|)
    ensures forall i :: 0 <= i < 13 ==> Padded(PartOf(units, k))[i] == StoredUnit(units, 13 * (k - 1) + i)
  {
    forall i | 0 <= i < 13 ensures Padded(PartOf(units, k))[i] == StoredUnit(units, 13 * (k - 1) + i) {
      PartUnit(units, k, i);
    }
  }

  lemma CollectSlot(c: Collected, e: Entry, units: seq<u16>, k: nat)
    requires |c.chars| == MAX_UNITS && !BadSlot(e) && Modelled(e) && 1 <= k <= 19 && e[0] % 0x20 == k
    requires forall i :: 0 <= i < 13 ==> SlotUnits(e)[i] == StoredUnit(units, 13 * (k - 1) + i)
    ensures var d := Collect(c, e);
      && (forall j :: 13 * (k - 1) <= j < 13 * k ==> d.chars[j] == StoredUnit(units, j))
      && (forall j :: 0 <= j < MAX_UNITS && !(13 * (k - 1) <= j < 13 * k) ==> d.chars[j] == c.chars[j])
  {
    hide SlotUnits, StoredUnit;
    var d := Collect(c, e);
    forall j | 13 * (k - 1) <= j < 13 * k ensures d.chars[j] == StoredUnit(units, j) {
      assert d.chars[j] == SlotUnits(e)[j - 13 * (k - 1)];
    }
  }

  /** The units passed on are those stored, whatever modelled slots stand before the run. */
  lemma RunNameUnits(before: seq<Entry>, units: seq<u16>, checksum: byte)
    requires AllCollectable(before) && 0 < |units| && SlotCount(|units|) <= 19
    ensures var raw := before + Run(units, checksum);
      && AllCollectable(raw) && NameUnits(raw).0
      && |NameUnits(raw).1| == 13 * SlotCount(|units|)
      && forall j :: 0 <= j < 13 * SlotCount(|units|) ==> NameUnits(raw).1[j] == PaddedUnit(units, j)
  {
    hide Run, CollectAll, PaddedUnit, BadSlot, Modelled;
    var run, count := Run(units, checksum), SlotCount(|units|);
    var raw := before + run;
    CollectRun(before, units, checksum, count);
    assert run[..count] == run;
    var w := NameUnits(raw).1;
    forall j | 0 <= j < 13 * count ensures w[j] == PaddedUnit(units, j) {
      assert CollectAll(raw).chars[j] == StoredUnit(units, j);
    }
  }

  lemma TerminatedAt(w: seq<u16>, n: nat)
    requires n <= |w| && (n < |w| ==> Unicode.EndsName(w[n])) && forall i :: 0 <= i < n ==> !Unicode.EndsName(w[i])
    ensures Unicode.Terminated(w) == n
  {
  }

  /** A text up to its first U+FFFF, which ends a name on disk. */
  function BeforeMark(t: Unicode.Text): (b: Unicode.Text)
    ensures b <= t && 0xFFFF !in b
    ensures |b| < |t| ==> t[|b|] == 0xFFFF
  {
    if t == [] || t[0] == 0xFFFF then [] else [t[0]] + BeforeMark(t[1..])
  }

  lemma MarkSplits(t: Unicode.Text)
    ensures BeforeMark(t) == t <==> 0xFFFF !in t
    ensures Unicode.Scalars(t) ==> Unicode.Codes(BeforeMark(t))
    ensures BeforeMark(t) != t ==>
      var n, units := |Unicode.Utf16(BeforeMark(t))|, Unicode.Utf16(t);
      && n < |units| && units[n] == 0xFFFF && units[..n] == Unicode.Utf16(BeforeMark(t))
      && |Unicode.Utf8(BeforeMark(t))| < |Unicode.Utf8(t)|
  {
    hide Unicode.Utf16, Unicode.Utf8, BeforeMark;
    var b := BeforeMark(t);
    if b != t {
      var k := |b|;
      assert t[..k] == b && t[k] == 0xFFFF && t[k..][0] == t[k];
      Unicode.Utf16Split(t, k);
      Unicode.Utf16First(t[k..]);
      Unicode.Utf8Split(t, k);
      Unicode.Utf8First(t[k..]);
    }
  }

  /** Stored units name the text up to its first U+FFFF, and nothing else. */
  lemma StoredNaming(t: Unicode.Text, w: seq<u16>)
    requires Unicode.Scalars(t) && |Unicode.Utf16(t)| <= |w|
    requires forall j :: 0 <= j < |w| ==> w[j] == PaddedUnit(Unicode.Utf16(t), j)
    ensures Unicode.IsNaming(BeforeMark(t), w)
    ensures forall u: Unicode.Text :: Unicode.IsNaming(u, w) ==> u == BeforeMark(t)
  {
    hide Unicode.Utf16, Unicode.Utf8, BeforeMark, Unicode.Terminated, Unicode.IsNaming;
    var b, units := BeforeMark(t), Unicode.Utf16(t);
    MarkSplits(t);
    Unicode.NoTerminators(b);
    var n := |Unicode.Utf16(b)|;
    forall i | 0 <= i < n ensures !Unicode.EndsName(w[i]) {
      assert w[i] == units[i] == Unicode.Utf16(b)[i];
    }
    TerminatedAt(w, n);
    assert w[..n] == units[..n];
    assert units[..n] == Unicode.Utf16(b);
    NamingIs(b, w);
    forall u: Unicode.Text | Unicode.IsNaming(u, w) ensures u == b {
      Unicode.NamingUnique(b, u, w);
    }
  }

  lemma NamingIs(b: Unicode.Text, w: seq<u16>)
    requires Unicode.Codes(b) && Unicode.Utf16(b) == w[..Unicode.Terminated(w)]
    ensures Unicode.IsNaming(b, w)
  {
  }

  lemma {:induction false} Utf8Length(t: Unicode.Text)
    ensures |Unicode.Utf8(t)| <= 3 * |Unicode.Utf16(t)|
  {
    if t != [] {
      Utf8Length(t[..|t| - 1]);
    }
  }

  /**
   The long-name round trip: the slots written for a name give that very name back, whatever its
   length up to nineteen slots, multiples of thirteen units included.
   */
  lemma LongNameRoundTrip(t: Unicode.Text, name: seq<byte>, checksum: byte)
    requires t != [] && Unicode.IsReading(t, name, MAX_UNITS) && 0xFFFF !in t
    requires SlotCount(|Unicode.Utf16(t)|) <= 19
    ensures var raw := Run(Unicode.Utf16(t), checksum);
      && |raw| > 0 && AllCollectable(raw)
      && NameUnits(raw).0 && Unicode.IsNaming(t, NameUnits(raw).1)
    ensures Unicode.Utf8(t) == name && |name| <= 3 * MAX_UNITS
  {
    hide Run, NameUnits, Unicode.IsNaming, Unicode.Utf16, PaddedUnit, Unicode.Utf8;
    var raw := Run(Unicode.Utf16(t), checksum);
    assert [] + raw == raw;
    TextUnits(t, name);
    RunNameUnits([], Unicode.Utf16(t), checksum);
    StoredNaming(t, NameUnits(raw).1);
    MarkSplits(t);
  }

  lemma TextUnits(t: Unicode.Text, name: seq<byte>)
    requires t != [] && Unicode.IsReading(t, name, MAX_UNITS)
    ensures Unicode.Scalars(t) && 0 < |Unicode.Utf16(t)| <= 13 * SlotCount(|Unicode.Utf16(t)|) && Unicode.Utf8(t) == name
    ensures SlotCount(|Unicode.Utf16(t)|) > 0 && |name| <= 3 * MAX_UNITS
  {
    hide Unicode.Utf16, Unicode.Utf8;
    Unicode.Utf16First(t);
    Utf8Length(t);
  }

  predicate ValidSlot(s: Entry, checksum: byte) {
    Attribute(s) == ATTR_LONG_NAME && s[12] == 0 && s[26] == 0 && s[27] == 0 && s[13] == checksum
  }

  /** What `fat_dir_validate_lfn` checks of the collected slots, against the checksum of the short entry after them. */
  predicate ValidRun(raw: seq<Entry>, checksum: byte) {
    && 0 < |raw| <= MAX_SLOTS
    && (forall i :: 0 <= i < |raw| ==> ValidSlot(raw[i], checksum))
    && raw[0][0] / LAST_SLOT % 2 == 1 && raw[0][0] % 0x20 == |raw|
  }

  lemma RunIsValid(units: seq<u16>, checksum: byte)
    requires 0 < |units| && SlotCount(|units|) <= 19
    ensures ValidRun(Run(units, checksum), checksum)
  {
    hide Run, ValidRun;
    assert [] + Run(units, checksum) == Run(units, checksum);
    JoinedValid([], units, checksum);
  }

  // ----- slots left over before a run -----

  /**
   Slots `before` a run of `n` pass for its beginning: there are none, or the first of them counts all
   slots and each carries the checksum of the entry.
   */
  predicate PassesFor(before: seq<Entry>, n: nat, checksum: byte) {
    before == [] ||
    (&& |before| + n <= MAX_SLOTS && (forall i :: 0 <= i < |before| ==> ValidSlot(before[i], checksum))
     && before[0][0] / LAST_SLOT % 2 == 1 && before[0][0] % 0x20 == |before| + n)
  }

  /** Moreover they do not spoil it: each has a number. */
  predicate Joins(before: seq<Entry>, n: nat, checksum: byte) {
    PassesFor(before, n, checksum) && forall i :: 0 <= i < |before| ==> !BadSlot(before[i])
  }

  /** What the test says of slots before a run. */
  lemma JoinedValid(before: seq<Entry>, units: seq<u16>, checksum: byte)
    requires 0 < |units| && SlotCount(|units|) <= 19
    ensures ValidRun(before + Run(units, checksum), checksum) <==> PassesFor(before, SlotCount(|units|), checksum)
  {
    hide Run, ValidSlot;
    var run := Run(units, checksum);
    var raw := before + run;
    RunSlots(units, checksum);
    assert forall i :: |before| <= i < |raw| ==> raw[i] == run[i - |before|];
    if before == [] {
      assert raw == run;
    } else {
      assert raw[0] == before[0];
      assert forall i :: 0 <= i < |before| ==> raw[i] == before[i];
    }
  }

  lemma RunSlots(units: seq<u16>, checksum: byte)
    requires 0 < |units| && SlotCount(|units|) <= 19
    ensures var run := Run(units, checksum);
      && |run| == SlotCount(|units|) > 0
      && (forall i :: 0 <= i < |run| ==> ValidSlot(run[i], checksum))
      && (forall i :: 0 <= i < |run| ==> run[i][0] / LAST_SLOT % 2 == (if i == 0 then 1 else 0))
      && run[0][0] % 0x20 == |run|
  {
    hide Run, Slot, SlotUnits, OrderByte, Padded, PartOf;
    var run := Run(units, checksum);
    forall i | 0 <= i < |run|
      ensures ValidSlot(run[i], checksum) && run[i][0] / LAST_SLOT % 2 == (if i == 0 then 1 else 0)
      ensures i == 0 ==> run[0][0] % 0x20 == |run|
    {
      RunSlot(units, checksum, i);
      OrderParts(SlotCount(|units|), i);
    }
  }

  /** The end of a run does not pass the test without its beginning. */
  lemma TailNotValid(units: seq<u16>, checksum: byte, d: nat)
    requires 0 < |units| && SlotCount(|units|) <= 19 && 0 < d <= SlotCount(|units|)
    ensures !ValidRun(Run(units, checksum)[d..], checksum)
  {
    hide Run, ValidSlot;
    RunSlots(units, checksum);
    var run := Run(units, checksum);
    if d < |run| {
      assert run[d..][0] == run[d];
    }
  }

  /** One leftover slot joins a run of `n` exactly when it counts one more slot and has the checksum of the entry. */
  lemma LeftoverSlot(units: seq<u16>, order: nat, own: byte, n: nat, checksum: byte)
    requires |units| == 13 && 1 <= order <= 19
    ensures Joins([Slot(LAST_SLOT + order, units, own)], n, checksum) <==> order == n + 1 && own == checksum
  {
    hide Slot, SlotUnits;
    SlotFields(LAST_SLOT + order, units, own);
  }

  // ----- slots byte by byte -----

  /** Unit `j` of a slot is `v`: five units stand at byte 1, six at byte 14, two at byte 28, each with its lower byte first. */
  ghost predicate HoldsUnit(e: Entry, j: nat, v: u16)
    requires j < 13
  {
    var o := if j < 5 then 1 + 2 * j else if j < 11 then 14 + 2 * (j - 5) else 28 + 2 * (j - 11);
    e[o] == v % 0x100 && e[o + 1] == v / 0x100
  }

  lemma SlotHolds(order: byte, u: seq<u16>, checksum: byte, j: nat)
    requires |u| == 13 && j < 13
    ensures HoldsUnit(Slot(order, u, checksum), j, u[j])
  {
    hide Slot;
    SlotUnitAt(order, u, checksum, j);
    var e := Slot(order, u, checksum);
    LowFirst(e[UnitOffset(j)], e[UnitOffset(j) + 1], u[j]);
  }

  lemma LowFirst(lo: byte, hi: byte, v: u16)
    requires Word(lo, hi) == v
    ensures lo == v % 0x100 && hi == v / 0x100
  {
  }

  /**
   Every byte of the slots of a name. The name fills them from the last slot on disk to the first; after
   it comes a zero, then 0xFFFF. The slots are numbered downwards, and the first one is marked with 0x40.
   */
  lemma RunBytes(units: seq<u16>, checksum: byte, i: nat, j: nat)
    requires SlotCount(|units|) <= 19 && i < SlotCount(|units|) && j < 13
    ensures 13 * (SlotCount(|units|) - 1) < |units| <= 13 * SlotCount(|units|)
    ensures var n, e := SlotCount(|units|), Run(units, checksum)[i];
      && e[0] == n - i + (if i == 0 then 0x40 else 0)
      && e[11] == 0x0F && e[12] == 0 && e[13] == checksum && e[26] == 0 && e[27] == 0
      && var k := 13 * (n - 1 - i) + j;
         HoldsUnit(e, j, if k < |units| then units[k] else if k == |units| then 0 else 0xFFFF)
  {
    hide Slot, HoldsUnit, SlotUnits, Padded;
    var n := SlotCount(|units|);
    RunSlot(units, checksum, i);
    SlotHolds(OrderByte(n, i), Padded(PartOf(units, n - i)), checksum, j);
    PaddedIs(units, n - i);
  }

  /** The test on collected slots, by their bytes. */
  lemma ValidBytes(raw: seq<Entry>, checksum: byte)
    ensures ValidRun(raw, checksum) <==>
      && 0 < |raw| <= 20 && raw[0][0] / 0x40 % 2 == 1 && raw[0][0] % 0x20 == |raw|
      && forall i :: 0 <= i < |raw| ==>
           raw[i][11] == 0x0F && raw[i][12] == 0 && raw[i][13] == checksum && raw[i][26] == 0 && raw[i][27] == 0
  {
    assert forall i :: 0 <= i < |raw| ==>
      (ValidSlot(raw[i], checksum) <==>
         raw[i][11] == 0x0F && raw[i][12] == 0 && raw[i][13] == checksum && raw[i][26] == 0 && raw[i][27] == 0);
  }

  /** Slot `i` is the last one with number `k`. */
  ghost predicate IsLastNumbered(raw: seq<Entry>, k: nat, i: nat) {
    i < |raw| && raw[i][0] % 0x20 == k && forall m :: i < m < |raw| ==> raw[m][0] % 0x20 != k
  }

  /** Whatever the slots and their order: each unit is taken from the last slot with its number. */
  lemma {:induction false} CollectedUnit(raw: seq<Entry>, i: nat, j: nat)
    requires AllCollectable(raw) && j < 255
    ensures IsLastNumbered(raw, j / 13 + 1, i) ==> HoldsUnit(raw[i], j % 13, CollectAll(raw).chars[j])
    ensures (forall m :: 0 <= m < |raw| ==> raw[m][0] % 0x20 != j / 13 + 1) ==> CollectAll(raw).chars[j] == 0xFFFF
  {
    hide HoldsUnit, SlotUnits, BadSlot, Modelled;
    if raw != [] {
      var n := |raw| - 1;
      CollectedUnit(raw[..n], i, j);
      CollectSnoc(raw, |raw|);
      assert raw[..|raw|] == raw;
      CollectedSlot(CollectAll(raw[..n]), raw[n], j);
      assert i < n && IsLastNumbered(raw, j / 13 + 1, i) ==> IsLastNumbered(raw[..n], j / 13 + 1, i);
    }
  }

  lemma CollectedSlot(c: Collected, e: Entry, j: nat)
    requires |c.chars| == MAX_UNITS && !BadSlot(e) && Modelled(e) && j < 255
    ensures |Collect(c, e).chars| == 255
    ensures if e[0] % 0x20 == j / 13 + 1 then HoldsUnit(e, j % 13, Collect(c, e).chars[j])
            else Collect(c, e).chars[j] == c.chars[j]
  {
    hide SlotUnits;
    var k := e[0] % 0x20;
    var base := 13 * (k - 1);
    if k == j / 13 + 1 {
      assert j == base + j % 13;
      assert Collect(c, e).chars[j] == SlotUnits(e)[j % 13];
      UnitHolds(e, j % 13);
    } else {
      assert !(base <= j < base + 13);
    }
  }

  lemma UnitHolds(e: Entry, j: nat)
    requires j < 13
    ensures HoldsUnit(e, j, SlotUnits(e)[j])
  {
    LowFirst(e[UnitOffset(j)], e[UnitOffset(j) + 1], UnitAt(e, j));
  }

  /** Slots numbered as every system writes them: n, n - 1, up to 1, with the first one alone marked as last. */
  ghost predicate IsNumbered(raw: seq<Entry>) {
    && 0 < |raw| <= 19
    && forall i :: 0 <= i < |raw| ==> raw[i][0] == |raw| - i + (if i == 0 then 0x40 else 0) && raw[i][11] == 0x0F
  }

  /** From any such slots, whoever wrote them, all units are passed on in their order. */
  lemma NumberedUnits(raw: seq<Entry>, k: nat)
    requires IsNumbered(raw) && k < 13 * |raw|
    ensures AllModelled(raw) && NameUnits(raw).0 && |NameUnits(raw).1| == 13 * |raw|
    ensures HoldsUnit(raw[|raw| - 1 - k / 13], k % 13, NameUnits(raw).1[k])
  {
    hide CollectAll, HoldsUnit, BadSlot, Modelled;
    NumberedGood(raw);
    NumberedMax(raw, |raw|);
    assert raw[..|raw|] == raw;
    var i := |raw| - 1 - k / 13;
    assert IsLastNumbered(raw, k / 13 + 1, i) by {
      NumberedPlace(raw, i);
    }
    CollectedUnit(raw, i, k);
  }

  lemma NumberedGood(raw: seq<Entry>)
    requires IsNumbered(raw)
    ensures AllCollectable(raw) && AllModelled(raw) && forall i :: 0 <= i < |raw| ==> !BadSlot(raw[i])
    ensures forall i :: 0 <= i < |raw| ==> raw[i][0] % 0x20 == |raw| - i && raw[i][0] / 0x40 % 2 == (if i == 0 then 1 else 0)
  {
  }

  lemma NumberedPlace(raw: seq<Entry>, i: nat)
    requires IsNumbered(raw) && i < |raw|
    ensures IsLastNumbered(raw, |raw| - i, i)
  {
    hide BadSlot, Modelled;
    NumberedGood(raw);
  }

  lemma {:induction false} NumberedMax(raw: seq<Entry>, m: nat)
    requires IsNumbered(raw) && m <= |raw| && AllCollectable(raw)
    ensures AllCollectable(raw[..m]) && CollectAll(raw[..m]).maxOrder == if m == 0 then 0 else |raw|
  {
    hide BadSlot, Modelled, SlotUnits;
    NumberedGood(raw);
    if m > 0 {
      NumberedMax(raw, m - 1);
      CollectSnoc(raw, m);
    }
  }
}
