/**
 What allocating, freeing and resizing a chain do to the table, stated without following the code:
 the methods of `Volume` are proved to have these effects.
 */
module Allocator {
  import opened Chains

  /** An owned chain; the empty one is the head 0 of an empty file. */
  ghost predicate IsFile(t: Table, eoc: nat, p: seq<nat>) {
    p == [] || IsChain(t, eoc, p[0], p)
  }

  function Head(p: seq<nat>): nat {
    if p == [] then 0 else p[0]
  }

  /** `u` is `t` with the free clusters `q` linked in order, and linked after the last cluster of `p`. */
  ghost predicate Grown(t: Table, u: Table, eoc: nat, p: seq<nat>, q: seq<nat>) {
    && |u| == |t| && |q| > 0 && Distinct(q)
    && (forall i :: 0 <= i < |q| ==> IsData(t, q[i]) && t[q[i]] == 0)
    && (forall c :: 0 <= c < |t| && c !in q && (p == [] || c != p[|p| - 1]) ==> u[c] == t[c])
    && (forall i :: 0 <= i < |q| - 1 ==> u[q[i]] == q[i + 1])
    && u[q[|q| - 1]] == eoc
    && (p != [] ==> IsData(t, p[|p| - 1]) && u[p[|p| - 1]] == q[0])
  }

  /** `allocchain`: the `n` lowest free clusters, or nothing. */
  ghost predicate Allocated(t: Table, u: Table, eoc: nat, n: nat, h: nat) {
    if 1 <= n <= |Free(t)| then h == Free(t)[0] && Grown(t, u, eoc, [], Free(t)[..n])
    else h == 0 && u == t
  }

  /** The table after the chain `p` was cut after `n` clusters. */
  function Cut(t: Table, eoc: nat, p: seq<nat>, n: nat): Table
    requires 1 <= n <= |p| && p[n - 1] < |t|
  {
    Zeroed(t, p[n..])[p[n - 1] := eoc]
  }

  /** `resizechain` on the chain `p`: the new chain `q`, and whether it had the wanted length `n`. */
  ghost predicate Resized(t: Table, u: Table, eoc: nat, p: seq<nat>, n: nat, q: seq<nat>, ok: bool) {
    if n == 0 then ok && q == [] && u == Zeroed(t, p)
    else if n == |p| then ok && q == p && u == t
    else if n < |p| then ok && q == p[..n] && p[n - 1] < |t| && u == Cut(t, eoc, p, n)
    else if n - |p| <= |Free(t)| then
      ok && q == p + Free(t)[..n - |p|] && Grown(t, u, eoc, p, Free(t)[..n - |p|])
    else !ok && q == p && u == t
  }

  // ----- chains under these effects -----

  /** Clusters of chains are not free. */
  lemma ChainNotFree(t: Table, eoc: nat, p: seq<nat>)
    requires eoc > 0 && IsFile(t, eoc, p)
    ensures forall c :: c in p ==> IsData(t, c) && t[c] != 0
  {
    forall c | c in p ensures IsData(t, c) && t[c] != 0 {
      var i :| 0 <= i < |p| && p[i] == c;
      assert i < |p| - 1 ==> t[p[i]] == p[i + 1] && IsData(t, p[i + 1]);
    }
  }

  /** A file whose clusters kept their entries is still a file. */
  lemma FileKept(t: Table, u: Table, eoc: nat, p: seq<nat>)
    requires IsFile(t, eoc, p) && |u| == |t| && forall c :: c in p ==> c < |t| && u[c] == t[c]
    ensures IsFile(u, eoc, p)
  {
    if p != [] {
      forall i | 0 <= i < |p| - 1 ensures u[p[i]] == p[i + 1] {
        assert p[i] in p;
      }
      assert p[|p| - 1] in p;
    }
  }

  lemma GrownChain(t: Table, u: Table, eoc: nat, p: seq<nat>, q: seq<nat>)
    requires |t| <= eoc && eoc > 0 && IsFile(t, eoc, p) && Grown(t, u, eoc, p, q)
    ensures IsChain(u, eoc, (p + q)[0], p + q)
  {
    ChainNotFree(t, eoc, p);
    if p != [] {
      ChainDistinct(t, eoc, p[0], p);
    }
    var r, n := p + q, |p|;
    forall i | 0 <= i < |r| ensures IsData(u, r[i]) {
      assert r[i] in p || r[i] in q;
    }
    forall i | 0 <= i < |r| - 1 ensures u[r[i]] == r[i + 1] {
      if i < n - 1 {
        assert p[i] in p && p[i] != p[n - 1];
        assert t[p[i]] == p[i + 1];
      } else if i >= n {
        assert u[q[i - n]] == q[i - n + 1];
      }
    }
  }

  lemma CutChain(t: Table, eoc: nat, p: seq<nat>, n: nat)
    requires |t| <= eoc && eoc > 0 && 1 <= n <= |p| && IsFile(t, eoc, p)
    ensures p[n - 1] < |t| && IsChain(Cut(t, eoc, p, n), eoc, p[0], p[..n])
  {
    ChainDistinct(t, eoc, p[0], p);
    var u := Cut(t, eoc, p, n);
    forall i | 0 <= i < n - 1 ensures u[p[i]] == p[i + 1] {
      assert p[i] !in p[n..];
      assert p[i] != p[n - 1];
    }
  }

  /** Freeing what was just allocated gives the old table back. */
  lemma ZeroedUndoesGrown(t: Table, u: Table, eoc: nat, q: seq<nat>)
    requires Grown(t, u, eoc, [], q)
    ensures Zeroed(u, q) == t
  {
  }

  lemma FreePrefix(t: Table, n: nat)
    requires n <= |Free(t)|
    ensures Distinct(Free(t)[..n])
    ensures forall c :: c in Free(t)[..n] ==> IsData(t, c) && t[c] == 0
  {
    FreeIsExact(t);
  }

  // ----- what resizing keeps -----

  /** The entries a resize of `p` may touch: those of `p` and the free ones. */
  ghost predicate Touches(t: Table, u: Table, p: seq<nat>) {
    |u| == |t| && forall c :: 0 <= c < |t| && c !in p && (c < 2 || t[c] != 0) ==> u[c] == t[c]
  }

  /** The new chain consists of old clusters of the file and of clusters that were free. */
  ghost predicate FromOwnOrFree(t: Table, p: seq<nat>, q: seq<nat>) {
    forall c :: c in q ==> c in p || (IsData(t, c) && t[c] == 0)
  }

  lemma ResizedTouches(t: Table, u: Table, eoc: nat, p: seq<nat>, n: nat, q: seq<nat>, ok: bool)
    requires |t| <= eoc && eoc > 0 && IsFile(t, eoc, p) && Resized(t, u, eoc, p, n, q, ok)
    ensures Touches(t, u, p) && FromOwnOrFree(t, p, q)
  {
    if n > |p| && n - |p| <= |Free(t)| {
      FreePrefix(t, n - |p|);
      if p != [] {
        assert p[|p| - 1] in p;
      }
    } else if 0 < n < |p| {
      assert p[n - 1] in p;
    }
  }

  /** The resized file is a file, with the wanted length when the call succeeds; it keeps its first clusters in order. */
  lemma ResizedFile(t: Table, u: Table, eoc: nat, p: seq<nat>, n: nat, q: seq<nat>, ok: bool)
    requires |t| <= eoc && eoc > 0 && IsFile(t, eoc, p) && Resized(t, u, eoc, p, n, q, ok)
    ensures IsFile(u, eoc, q)
    ensures ok ==> |q| == n
    ensures !ok ==> u == t && q == p
    ensures ok <==> n <= |p| + |Free(t)|
    ensures q <= p || p <= q
  {
    if n != 0 && n < |p| {
      CutChain(t, eoc, p, n);
    } else if n > |p| && n - |p| <= |Free(t)| {
      GrownChain(t, u, eoc, p, Free(t)[..n - |p|]);
    }
  }

  /** Clusters are conserved: what leaves the free list joins the file, and back. */
  lemma ResizedConserves(t: Table, u: Table, eoc: nat, p: seq<nat>, n: nat, q: seq<nat>, ok: bool)
    requires |t| <= eoc && eoc > 0 && IsFile(t, eoc, p) && Resized(t, u, eoc, p, n, q, ok)
    ensures |Free(t)| + |p| == |Free(u)| + |q|
  {
    ChainNotFree(t, eoc, p);
    if n < |p| {
      ChainDistinct(t, eoc, p[0], p);
      CutTakes(t, u, eoc, p, n);
      FreeCount(u, t, p[n..]);
    } else if n > |p| && n - |p| <= |Free(t)| {
      var x := Free(t)[..n - |p|];
      FreePrefix(t, n - |p|);
      GrownTakes(t, u, eoc, p, x);
      FreeCount(t, u, x);
    } else if n == 0 {
      ZeroedNone(t);
      assert p == [];
    }
  }

  lemma CutTakes(t: Table, u: Table, eoc: nat, p: seq<nat>, n: nat)
    requires eoc > 0 && n < |p| && Distinct(p) && forall c :: c in p ==> IsData(t, c) && t[c] != 0
    requires if n == 0 then u == Zeroed(t, p) else p[n - 1] < |t| && u == Cut(t, eoc, p, n)
    ensures Takes(u, t, p[n..])
  {
    assert p[0..] == p;
    if n > 0 {
      assert p[n - 1] !in p[n..];
      assert p[n - 1] in p;
    }
    forall c | c in p[n..] ensures IsData(u, c) && u[c] == 0 && t[c] != 0 {
      assert c in p;
    }
  }

  lemma GrownTakes(t: Table, u: Table, eoc: nat, p: seq<nat>, q: seq<nat>)
    requires eoc > 0 && Grown(t, u, eoc, p, q) && forall c :: c in p ==> IsData(t, c) && t[c] != 0
    ensures Takes(t, u, q)
  {
    forall c | c in q ensures u[c] != 0 {
      var i :| 0 <= i < |q| && q[i] == c;
      if i < |q| - 1 {
        assert u[q[i]] == q[i + 1];
        assert q[i + 1] in q;
      }
    }
    if p != [] {
      assert p[|p| - 1] in p;
      assert q[0] in q;
    }
  }
}
