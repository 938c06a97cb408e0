/**
 The file allocation table as a linked list in an array: entry `c` of a table names the cluster
 after `c`, or is zero when `c` is free, or is an end mark. Entries 0 and 1 are reserved.
 */
module Chains {

  type Table = seq<nat>

  predicate IsData(t: Table, c: int) {
    2 <= c < |t|
  }

  ghost predicate Distinct(p: seq<nat>) {
    forall i, j :: 0 <= i < j < |p| ==> p[i] != p[j]
  }

  /** Each cluster of `p` names the next. */
  ghost predicate IsPath(t: Table, p: seq<nat>) {
    && |p| > 0
    && (forall i :: 0 <= i < |p| ==> IsData(t, p[i]))
    && (forall i :: 0 <= i < |p| - 1 ==> t[p[i]] == p[i + 1])
  }

  /** `p` is the chain that starts at `h`: a path of data clusters that ends in an end mark. */
  ghost predicate IsChain(t: Table, eoc: nat, h: nat, p: seq<nat>) {
    IsPath(t, p) && p[0] == h && t[p[|p| - 1]] >= eoc
  }

  // ----- chains are unique, acyclic and short -----

  lemma {:induction false} PathsAgree(t: Table, p: seq<nat>, q: seq<nat>, i: nat)
    requires IsPath(t, p) && IsPath(t, q) && p[0] == q[0] && i < |p| && i < |q|
    ensures p[i] == q[i]
  {
    if i > 0 {
      PathsAgree(t, p, q, i - 1);
    }
  }

  lemma ChainNotLonger(t: Table, eoc: nat, h: nat, p: seq<nat>, q: seq<nat>)
    requires |t| <= eoc && IsChain(t, eoc, h, p) && IsPath(t, q) && q[0] == h
    ensures |q| <= |p|
  {
    if |q| > |p| {
      PathsAgree(t, p, q, |p| - 1);
      PathStep(t, q, |p| - 1);
    }
  }

  lemma PathStep(t: Table, p: seq<nat>, i: nat)
    requires IsPath(t, p) && i < |p| - 1
    ensures t[p[i]] == p[i + 1] < |t|
  {
  }

  lemma ChainUnique(t: Table, eoc: nat, h: nat, p: seq<nat>, q: seq<nat>)
    requires |t| <= eoc && IsChain(t, eoc, h, p) && IsChain(t, eoc, h, q)
    ensures p == q
  {
    ChainNotLonger(t, eoc, h, p, q);
    ChainNotLonger(t, eoc, h, q, p);
    forall i | 0 <= i < |p| ensures p[i] == q[i] {
      PathsAgree(t, p, q, i);
    }
  }

  lemma ChainSuffix(t: Table, eoc: nat, h: nat, p: seq<nat>, i: nat)
    requires IsChain(t, eoc, h, p) && i < |p|
    ensures IsChain(t, eoc, p[i], p[i..])
  {
    var q := p[i..];
    forall k | 0 <= k < |q| - 1 ensures t[q[k]] == q[k + 1] {
      assert t[p[i + k]] == p[i + k + 1];
    }
  }

  /** A chain never revisits a cluster. */
  lemma ChainDistinct(t: Table, eoc: nat, h: nat, p: seq<nat>)
    requires |t| <= eoc && IsChain(t, eoc, h, p)
    ensures Distinct(p)
  {
    forall i, j | 0 <= i < j < |p| ensures p[i] != p[j] {
      if p[i] == p[j] {
        ChainSuffix(t, eoc, h, p, i);
        ChainSuffix(t, eoc, h, p, j);
        ChainUnique(t, eoc, p[i], p[i..], p[j..]);
      }
    }
  }

  /** The pigeonhole principle: distinct numbers from an interval are no more than its length. */
  lemma {:induction false} DistinctCount(p: seq<nat>, lo: nat, hi: nat)
    requires lo <= hi && Distinct(p) && forall i :: 0 <= i < |p| ==> lo <= p[i] < hi
    ensures |p| <= hi - lo
    decreases hi
  {
    if |p| == 0 {
      return;
    }
    var first := p[0];
    if hi - 1 in p {
      var k :| 0 <= k < |p| && p[k] == hi - 1;
      DistinctCount(p[..k] + p[k + 1..], lo, hi - 1);
    } else {
      DistinctCount(p, lo, hi - 1);
    }
  }

  /** A path without repetition has fewer clusters than the table's last index. */
  lemma PathBound(t: Table, p: seq<nat>)
    requires IsPath(t, p) && Distinct(p)
    ensures |p| <= |t| - 2
  {
    assert IsData(t, p[0]);
    DistinctCount(p, 2, |t|);
  }

  lemma ChainBound(t: Table, eoc: nat, h: nat, p: seq<nat>)
    requires |t| <= eoc && IsChain(t, eoc, h, p)
    ensures |p| <= |t| - 2
  {
    ChainDistinct(t, eoc, h, p);
    PathBound(t, p);
  }

  // ----- the clusters that freeing a head visits -----

  /** A path from `h` that visits no cluster twice. */
  ghost predicate IsTrace(t: Table, h: nat, p: seq<nat>) {
    IsPath(t, p) && p[0] == h && Distinct(p)
  }

  /** The path cannot go on: its last entry names no data cluster, or one already visited. */
  ghost predicate IsStuck(t: Table, p: seq<nat>)
    requires IsPath(t, p)
  {
    var next := t[p[|p| - 1]];
    !IsData(t, next) || next in p
  }

  /** What `freechain` answers at the end of its walk. */
  ghost predicate EndsWell(t: Table, eoc: nat, p: seq<nat>)
    requires IsPath(t, p)
  {
    var next := t[p[|p| - 1]];
    next == 0 || next >= eoc || next in p
  }

  lemma TraceExtends(t: Table, h: nat, p: seq<nat>)
    requires IsTrace(t, h, p) && !IsStuck(t, p)
    ensures IsTrace(t, h, p + [t[p[|p| - 1]]])
  {
  }

  ghost function TraceFrom(t: Table, p: seq<nat>): (r: seq<nat>)
    requires |p| > 0 && IsTrace(t, p[0], p)
    ensures p <= r && IsTrace(t, p[0], r) && IsStuck(t, r)
    decreases |t| - |p|
  {
    if IsStuck(t, p) then p
    else
      TraceExtends(t, p[0], p);
      PathBound(t, p);
      TraceFrom(t, p + [t[p[|p| - 1]]])
  }

  lemma TraceStart(t: Table, h: nat)
    requires IsData(t, h)
    ensures IsTrace(t, h, [h])
  {
  }

  /** The clusters met by following entries from `h` until nothing new is met, in order. */
  ghost function TraceOf(t: Table, h: nat): (r: seq<nat>)
    requires IsData(t, h)
    ensures IsTrace(t, h, r) && IsStuck(t, r)
  {
    TraceStart(t, h);
    TraceFrom(t, [h])
  }

  /** There is only one such walk. */
  lemma TraceUnique(t: Table, h: nat, p: seq<nat>)
    requires IsData(t, h) && IsTrace(t, h, p) && IsStuck(t, p)
    ensures p == TraceOf(t, h)
  {
    var q := TraceOf(t, h);
    TraceNotLonger(t, h, p, q);
    TraceNotLonger(t, h, q, p);
    forall i | 0 <= i < |p| ensures p[i] == q[i] {
      PathsAgree(t, p, q, i);
    }
  }

  lemma TraceNotLonger(t: Table, h: nat, p: seq<nat>, q: seq<nat>)
    requires IsTrace(t, h, p) && IsStuck(t, p) && IsTrace(t, h, q)
    ensures |q| <= |p|
  {
    if |q| > |p| {
      assert p == q[..|p|] by {
        forall i | 0 <= i < |p| ensures p[i] == q[i] {
          PathsAgree(t, p, q, i);
        }
      }
      PrefixLacksNext(q, |p|);
    }
  }

  lemma PrefixLacksNext(q: seq<nat>, n: nat)
    requires n < |q| && Distinct(q)
    ensures q[n] !in q[..n]
  {
  }

  /** On a chain the walk is the chain, and it ends well. */
  lemma ChainTrace(t: Table, eoc: nat, h: nat, p: seq<nat>)
    requires |t| <= eoc && IsChain(t, eoc, h, p)
    ensures IsData(t, h) && TraceOf(t, h) == p && EndsWell(t, eoc, p)
  {
    ChainDistinct(t, eoc, h, p);
    assert IsData(t, p[0]);
    TraceUnique(t, h, p);
  }

  // ----- freeing -----

  /** The table with the clusters of `p` free. */
  function Zeroed(t: Table, p: seq<nat>): (t': Table)
    ensures |t'| == |t|
  {
    seq(|t|, i requires 0 <= i < |t| => if i in p then 0 else t[i])
  }

  lemma ZeroedSnoc(t: Table, p: seq<nat>, c: nat)
    requires c < |t|
    ensures Zeroed(t, p)[c := 0] == Zeroed(t, p + [c])
  {
  }

  lemma ZeroedNone(t: Table)
    ensures Zeroed(t, []) == t
  {
  }

  // ----- free clusters -----

  /** The free clusters from `c` on, lowest first. */
  function FreeFrom(t: Table, c: nat): (f: seq<nat>)
    ensures |f| <= if c < |t| then |t| - c else 0
    decreases |t| - c
  {
    if c >= |t| then [] else (if t[c] == 0 then [c] else []) + FreeFrom(t, c + 1)
  }

  function Free(t: Table): seq<nat> {
    FreeFrom(t, 2)
  }

  lemma {:induction false} FreeFromSound(t: Table, c: nat, i: nat)
    requires i < |FreeFrom(t, c)|
    ensures c <= FreeFrom(t, c)[i] < |t| && t[FreeFrom(t, c)[i]] == 0
    ensures forall j :: 0 <= j < i ==> FreeFrom(t, c)[j] < FreeFrom(t, c)[i]
    decreases |t| - c
  {
    if t[c] != 0 {
      FreeFromSound(t, c + 1, i);
    } else if i > 0 {
      FreeFromSound(t, c + 1, i - 1);
      assert forall j :: 1 <= j < i ==> FreeFrom(t, c)[j] == FreeFrom(t, c + 1)[j - 1];
    }
  }

  lemma {:induction false} FreeFromComplete(t: Table, c: nat, x: nat)
    requires c <= x < |t| && t[x] == 0
    ensures x in FreeFrom(t, c)
    decreases |t| - c
  {
    if x > c {
      FreeFromComplete(t, c + 1, x);
    }
  }

  /** `Free` lists exactly the zero entries of the data clusters, in strictly increasing order. */
  lemma FreeIsExact(t: Table)
    ensures forall x :: x in Free(t) <==> IsData(t, x) && t[x] == 0
    ensures forall i, j :: 0 <= i < j < |Free(t)| ==> Free(t)[i] < Free(t)[j]
    ensures Distinct(Free(t))
  {
    forall i | 0 <= i < |Free(t)|
      ensures IsData(t, Free(t)[i]) && t[Free(t)[i]] == 0
      ensures forall j :: 0 <= j < i ==> Free(t)[j] < Free(t)[i]
    {
      FreeFromSound(t, 2, i);
    }
    forall x | IsData(t, x) && t[x] == 0 ensures x in Free(t) {
      FreeFromComplete(t, 2, x);
    }
  }

  // ----- counting free clusters -----

  lemma {:induction false} FreeFromSet(t: Table, c: nat, x: nat, v: nat)
    requires x < |t| && t[x] == 0 && v != 0
    ensures |FreeFrom(t, c)| == |FreeFrom(t[x := v], c)| + if c <= x then 1 else 0
    decreases |t| - c
  {
    if c < |t| {
      FreeFromSet(t, c + 1, x, v);
    }
  }

  lemma {:induction false} FreeFromSame(t: Table, u: Table, c: nat)
    requires |t| == |u| && forall x :: c <= x < |t| ==> (t[x] == 0 <==> u[x] == 0)
    ensures FreeFrom(t, c) == FreeFrom(u, c)
    decreases |t| - c
  {
    if c < |t| {
      FreeFromSame(t, u, c + 1);
    }
  }

  /** `q` is what the free clusters of `t` lose on the way to `u`. */
  ghost predicate Takes(t: Table, u: Table, q: seq<nat>) {
    && |u| == |t|
    && Distinct(q)
    && (forall c :: c in q ==> IsData(t, c) && t[c] == 0 && u[c] != 0)
    && (forall c :: IsData(t, c) && c !in q ==> (t[c] == 0 <==> u[c] == 0))
  }

  lemma InButLast(q: seq<nat>, c: nat)
    requires |q| > 0
    ensures c in q <==> c in q[..|q| - 1] || c == q[|q| - 1]
  {
    assert q == q[..|q| - 1] + [q[|q| - 1]];
  }

  lemma {:induction false} FreeCount(t: Table, u: Table, q: seq<nat>)
    requires Takes(t, u, q)
    ensures |Free(t)| == |Free(u)| + |q|
    decreases |q|
  {
    if |q| == 0 {
      FreeFromSame(t, u, 2);
    } else {
      var n := |q| - 1;
      var x, r := q[n], q[..n];
      assert IsData(t, x) && t[x] == 0;
      var w := u[x := 0];
      assert Takes(t, w, r) by {
        forall c | c in r ensures IsData(t, c) && t[c] == 0 && w[c] != 0 {
          assert c in q && c != x;
        }
        forall c | IsData(t, c) && c !in r ensures t[c] == 0 <==> w[c] == 0 {
          InButLast(q, c);
        }
      }
      FreeCount(t, w, r);
      assert w[x := u[x]] == u;
      FreeFromSet(w, 2, x, u[x]);
    }
  }
}
