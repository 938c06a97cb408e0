/** What reading a directory entry by entry returns: a scan over 32-byte slots that collects long-name slots on its way. */
module Listing {
  import opened DirEntry
  import opened LongNames

  const DELETED := 0xE5

  /** The slot that ends a directory. */
  predicate IsEnd(s: Entry) {
    s[0] == 0
  }

  predicate IsDeleted(s: Entry) {
    s[0] == DELETED
  }

  predicate IsLongSlot(s: Entry) {
    Attribute(s) == ATTR_LONG_NAME
  }

  predicate IsVolume(s: Entry) {
    Attribute(s) / ATTR_VOLUME % 2 == 1
  }

  /** A slot that a listing shows. */
  predicate IsShown(s: Entry) {
    !IsEnd(s) && !IsDeleted(s) && !IsLongSlot(s) && !IsVolume(s)
  }

  /** The long-name slots collected after slot `s`, given those before: a twenty-first slot drops them all. */
  function After(raw: seq<Entry>, s: Entry): seq<Entry> {
    if IsDeleted(s) || !IsLongSlot(s) then [] else if |raw| < MAX_SLOTS then raw + [s] else []
  }

  /** The long-name slots collected when slot `i` is reached from the start. */
  function Pending(slots: seq<Entry>, i: nat): (raw: seq<Entry>)
    requires i <= |slots|
    ensures |raw| <= MAX_SLOTS
  {
    if i == 0 then [] else After(Pending(slots, i - 1), slots[i - 1])
  }

  datatype Found = End | Shown(index: nat, raw: seq<Entry>)

  /** One call of `fat_readdir`: from slot `i`, with `raw` collected so far. */
  function Scan(slots: seq<Entry>, i: nat, raw: seq<Entry>): Found
    decreases |slots| - i
  {
    if i >= |slots| || IsEnd(slots[i]) then End
    else if IsShown(slots[i]) then Shown(i, raw)
    else Scan(slots, i + 1, After(raw, slots[i]))
  }

  /** The shown slots from `i` on, up to the end marker, in disk order. */
  function ShownFrom(slots: seq<Entry>, i: nat): seq<nat>
    decreases |slots| - i
  {
    if i >= |slots| || IsEnd(slots[i]) then []
    else (if IsShown(slots[i]) then [i] else []) + ShownFrom(slots, i + 1)
  }

  /** The state of an open directory between calls: before slot `next` with `raw` collected, or at the end for good. */
  datatype Cursor = Before(next: nat, raw: seq<Entry>) | Finished

  function Call(slots: seq<Entry>, c: Cursor): (Found, Cursor) {
    match c
    case Finished => (End, Finished)
    case Before(i, raw) =>
      var f := Scan(slots, i, raw);
      (f, if f == End then Finished else Before(f.index + 1, []))
  }

  /** The cursor after `n` calls on a freshly opened directory. */
  function AfterCalls(slots: seq<Entry>, n: nat): Cursor {
    if n == 0 then Before(0, []) else Call(slots, AfterCalls(slots, n - 1)).1
  }

  /** What call number `n` returns, counting from zero. */
  function Result(slots: seq<Entry>, n: nat): Found {
    Call(slots, AfterCalls(slots, n)).0
  }

  // ----- the listing is exact -----

  lemma {:induction false} ScanFindsNext(slots: seq<Entry>, i: nat)
    requires i <= |slots|
    ensures ShownFrom(slots, i) == [] ==> Scan(slots, i, Pending(slots, i)) == End
    ensures ShownFrom(slots, i) != [] ==>
      var k := ShownFrom(slots, i)[0];
      && i <= k < |slots| && Scan(slots, i, Pending(slots, i)) == Shown(k, Pending(slots, k))
      && ShownFrom(slots, k + 1) == ShownFrom(slots, i)[1..] && Pending(slots, k + 1) == []
    decreases |slots| - i
  {
    if i < |slots| && !IsEnd(slots[i]) && !IsShown(slots[i]) {
      ScanFindsNext(slots, i + 1);
    }
  }

  /** Where the cursor is after `n` calls. */
  lemma {:induction false} CursorAfter(slots: seq<Entry>, n: nat)
    ensures var c, all := AfterCalls(slots, n), ShownFrom(slots, 0);
      if n <= |all| then
        c.Before? && c.next <= |slots| && ShownFrom(slots, c.next) == all[n..] && c.raw == Pending(slots, c.next)
      else c.Finished?
  {
    if n > 0 {
      CursorAfter(slots, n - 1);
      var c, all := AfterCalls(slots, n - 1), ShownFrom(slots, 0);
      if n - 1 <= |all| {
        ScanFindsNext(slots, c.next);
        assert n - 1 < |all| ==> all[n - 1..][1..] == all[n..];
      }
    }
  }

  /**
   Repeated calls return the shown slots, each exactly once and in disk order, each with the
   long-name slots that stand directly before it; after them they return nothing, for ever.
   */
  lemma ListingIsExact(slots: seq<Entry>, n: nat)
    ensures var all := ShownFrom(slots, 0);
      if n < |all| then all[n] < |slots| && Result(slots, n) == Shown(all[n], Pending(slots, all[n]))
      else Result(slots, n) == End
  {
    CursorAfter(slots, n);
    var c, all := AfterCalls(slots, n), ShownFrom(slots, 0);
    if n <= |all| {
      ScanFindsNext(slots, c.next);
    }
  }

  /** A slot that a listing from `i` shows at `k`: no end marker in between. */
  ghost predicate Reached(slots: seq<Entry>, i: nat, k: nat) {
    i <= k < |slots| && IsShown(slots[k]) && forall j :: i <= j < k ==> !IsEnd(slots[j])
  }

  /** A scan meets no end marker before slot `first`. */
  ghost predicate NoEndBefore(slots: seq<Entry>, first: nat) {
    forall i :: 0 <= i < first && i < |slots| ==> !IsEnd(slots[i])
  }

  lemma {:induction false} ShownFromSound(slots: seq<Entry>, i: nat, b: nat)
    requires b < |ShownFrom(slots, i)|
    ensures Reached(slots, i, ShownFrom(slots, i)[b])
    ensures forall a :: 0 <= a < b ==> ShownFrom(slots, i)[a] < ShownFrom(slots, i)[b]
    decreases |slots| - i
  {
    var rest := ShownFrom(slots, i + 1);
    if !IsShown(slots[i]) {
      ShownFromSound(slots, i + 1, b);
    } else if b > 0 {
      ShownFromSound(slots, i + 1, b - 1);
      forall a | 0 <= a < b ensures ShownFrom(slots, i)[a] < ShownFrom(slots, i)[b] {
        assert ShownFrom(slots, i)[b] == rest[b - 1];
        if a > 0 {
          assert ShownFrom(slots, i)[a] == rest[a - 1];
        }
      }
    }
  }

  lemma {:induction false} ShownFromComplete(slots: seq<Entry>, i: nat, k: nat)
    requires Reached(slots, i, k)
    ensures k in ShownFrom(slots, i)
    decreases |slots| - i
  {
    if i < k {
      ShownFromComplete(slots, i + 1, k);
    }
  }

  /** `ShownFrom` is what its name says: strictly increasing, and exactly the shown slots with no end marker before them. */
  lemma ShownFromIsExact(slots: seq<Entry>)
    ensures forall k :: k in ShownFrom(slots, 0) <==> Reached(slots, 0, k)
    ensures forall a, b :: 0 <= a < b < |ShownFrom(slots, 0)| ==> ShownFrom(slots, 0)[a] < ShownFrom(slots, 0)[b]
  {
    var all := ShownFrom(slots, 0);
    forall b | 0 <= b < |all| ensures Reached(slots, 0, all[b]) && forall a :: 0 <= a < b ==> all[a] < all[b] {
      ShownFromSound(slots, 0, b);
    }
    forall k: nat | Reached(slots, 0, k) ensures k in all {
      ShownFromComplete(slots, 0, k);
    }
  }

  /**
   The same by the first byte and the attribute of each slot: in use (not 0x00, not 0xE5), no long-name
   slot (not 0x0F) and no volume label (bit 3), and every slot before is not 0x00.
   */
  lemma ShownBytes(slots: seq<Entry>, k: nat)
    ensures k in ShownFrom(slots, 0) <==>
      && k < |slots|
      && slots[k][0] != 0x00 && slots[k][0] != 0xE5 && slots[k][11] != 0x0F && slots[k][11] / 8 % 2 == 0
      && forall j :: 0 <= j < k ==> slots[j][0] != 0x00
  {
    ShownFromIsExact(slots);
  }

  // ----- a written run is listed -----

  /** A slot that is collected while there is room. */
  predicate IsCollected(s: Entry) {
    IsLongSlot(s) && !IsDeleted(s)
  }

  /** Collected slots join those before them, as long as there is room for all. */
  lemma {:induction false} PendingRun(slots: seq<Entry>, j: nat, run: seq<Entry>, m: nat)
    requires j + |run| <= |slots| && slots[j..j + |run|] == run && m <= |run|
    requires |Pending(slots, j)| + m <= MAX_SLOTS
    requires forall i :: 0 <= i < |run| ==> IsCollected(run[i])
    ensures Pending(slots, j + m) == Pending(slots, j) + run[..m]
  {
    if m > 0 {
      PendingRun(slots, j, run, m - 1);
      assert slots[j + m - 1] == slots[j..j + |run|][m - 1] == run[m - 1];
      assert run[..m] == run[..m - 1] + [run[m - 1]];
    }
  }

  /** One slot too many drops everything before it, and itself; the rest of the run starts anew. */
  lemma {:induction false} PendingOverflow(slots: seq<Entry>, j: nat, run: seq<Entry>, m: nat)
    requires j + |run| <= |slots| && slots[j..j + |run|] == run && m <= |run| <= MAX_SLOTS
    requires |Pending(slots, j)| + m > MAX_SLOTS
    requires forall i :: 0 <= i < |run| ==> IsCollected(run[i])
    ensures MAX_SLOTS == 20 && 0 < 21 - |Pending(slots, j)| <= m
    ensures Pending(slots, j + m) == run[21 - |Pending(slots, j)|..m]
  {
    var u := Pending(slots, j);
    var d := MAX_SLOTS + 1 - |u|;
    assert slots[j + m - 1] == slots[j..j + |run|][m - 1] == run[m - 1];
    if m == d {
      PendingRun(slots, j, run, m - 1);
    } else {
      PendingOverflow(slots, j, run, m - 1);
      assert run[d..m] == run[d..m - 1] + [run[m - 1]];
    }
  }

  /** No long-name slot before `j` means nothing is collected at `j`. */
  lemma NothingPending(slots: seq<Entry>, j: nat)
    requires j <= |slots| && (j == 0 || !IsLongSlot(slots[j - 1]) || IsDeleted(slots[j - 1]))
    ensures Pending(slots, j) == []
  {
  }
}
