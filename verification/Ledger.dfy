/**
 Runs of the allocator: any number of files share one table, and every file is grown, shrunk,
 emptied or refused, in any order.
 */
module Ledger {
  import opened Chains
  import opened Allocator

  /** The table and the chain of each file; the empty chain is an empty file. */
  datatype State = State(table: Table, files: seq<seq<nat>>)

  datatype Operation =
    | Allocate(file: nat, count: nat)  // allocchain for an empty file
    | Release(file: nat)               // freechain of a file's head
    | Resize(file: nat, count: nat)    // resizechain

  /** The effect of one operation, in terms of the effects the methods of `Volume` are proved to have. */
  ghost predicate Step(eoc: nat, s: State, op: Operation, s': State) {
    && op.file < |s.files| == |s'.files|
    && (forall i :: 0 <= i < |s.files| && i != op.file ==> s'.files[i] == s.files[i])
    && var p, q := s.files[op.file], s'.files[op.file];
       match op
       case Allocate(_, n) =>
         && p == [] && Allocated(s.table, s'.table, eoc, n, Head(q))
         && q == if 1 <= n <= |Free(s.table)| then Free(s.table)[..n] else []
       case Release(_) =>
         q == [] && (p == [] ==> s'.table == s.table)
         && (p != [] ==> IsData(s.table, p[0]) && s'.table == Zeroed(s.table, TraceOf(s.table, p[0])))
       case Resize(_, n) =>
         exists ok :: Resized(s.table, s'.table, eoc, p, n, q, ok)
  }

  ghost predicate DisjointSeqs(p: seq<nat>, q: seq<nat>) {
    forall c :: c in p ==> c !in q
  }

  /** Every file's chain is in range, acyclic and ends in an end mark; no two files share a cluster. */
  ghost predicate Invariant(eoc: nat, s: State) {
    && 0 < eoc && |s.table| <= eoc
    && (forall i :: 0 <= i < |s.files| ==> IsFile(s.table, eoc, s.files[i]))
    && (forall i, j :: 0 <= i < j < |s.files| ==> DisjointSeqs(s.files[i], s.files[j]))
  }

  /** A run: consecutive states are related by the operations. */
  ghost predicate IsRun(eoc: nat, states: seq<State>, ops: seq<Operation>) {
    && |states| == |ops| + 1
    && forall i :: 0 <= i < |ops| ==> Step(eoc, states[i], ops[i], states[i + 1])
  }

  function SumOfLengths(files: seq<seq<nat>>): nat {
    if files == [] then 0 else |files[0]| + SumOfLengths(files[1..])
  }

  /** What a run never changes: all clusters, free or owned. */
  ghost function Clusters(s: State): nat {
    |Free(s.table)| + SumOfLengths(s.files)
  }

  ghost predicate Owned(s: State, c: nat) {
    exists i :: 0 <= i < |s.files| && c in s.files[i]
  }

  // ----- one step -----

  /** Allocation and release are resizes from and to the empty chain. */
  lemma StepIsResize(eoc: nat, s: State, op: Operation, s': State) returns (n: nat, ok: bool)
    requires Invariant(eoc, s) && Step(eoc, s, op, s')
    ensures Resized(s.table, s'.table, eoc, s.files[op.file], n, s'.files[op.file], ok)
  {
    var p, q := s.files[op.file], s'.files[op.file];
    match op
    case Allocate(_, count) =>
      n, ok := count, count <= |Free(s.table)|;
      ZeroedNone(s.table);
      assert [] + Free(s.table)[..if ok then n else 0] == Free(s.table)[..if ok then n else 0];
    case Release(_) =>
      n, ok := 0, true;
      if p == [] {
        ZeroedNone(s.table);
      } else {
        ChainTrace(s.table, eoc, p[0], p);
      }
    case Resize(_, count) =>
      n := count;
      ok :| Resized(s.table, s'.table, eoc, p, count, q, ok);
  }

  lemma OthersKept(t: Table, u: Table, eoc: nat, p: seq<nat>, q: seq<nat>, other: seq<nat>)
    requires 0 < eoc && IsFile(t, eoc, other) && (DisjointSeqs(other, p) || DisjointSeqs(p, other))
    requires Touches(t, u, p) && FromOwnOrFree(t, p, q)
    ensures IsFile(u, eoc, other) && DisjointSeqs(other, q) && DisjointSeqs(q, other)
  {
    ChainNotFree(t, eoc, other);
    FileKept(t, u, eoc, other);
  }

  lemma {:induction false} SumUpdate(files: seq<seq<nat>>, i: nat, q: seq<nat>)
    requires i < |files|
    ensures SumOfLengths(files[i := q]) == SumOfLengths(files) - |files[i]| + |q|
  {
    if i == 0 {
      assert files[i := q][1..] == files[1..];
    } else {
      SumUpdate(files[1..], i - 1, q);
      assert files[i := q][1..] == files[1..][i - 1 := q];
    }
  }

  lemma StepFrame(eoc: nat, s: State, op: Operation, s': State)
    requires Step(eoc, s, op, s')
    ensures op.file < |s.files| == |s'.files|
    ensures forall i :: 0 <= i < |s.files| && i != op.file ==> s'.files[i] == s.files[i]
  {
  }

  /** Every operation keeps the invariant. */
  lemma StepKeepsInvariant(eoc: nat, s: State, op: Operation, s': State)
    requires Invariant(eoc, s) && Step(eoc, s, op, s')
    ensures Invariant(eoc, s')
  {
    StepFrame(eoc, s, op, s');
    var n, ok := StepIsResize(eoc, s, op, s');
    hide Step, Resized, IsFile, Free, Touches, FromOwnOrFree, DisjointSeqs;
    var f, p, q := op.file, s.files[op.file], s'.files[op.file];
    ResizedFile(s.table, s'.table, eoc, p, n, q, ok);
    ResizedTouches(s.table, s'.table, eoc, p, n, q, ok);
    forall i | 0 <= i < |s.files| && i != f
      ensures IsFile(s'.table, eoc, s'.files[i])
      ensures DisjointSeqs(s'.files[i], q) && DisjointSeqs(q, s'.files[i])
    {
      assert if i < f then DisjointSeqs(s.files[i], p) else DisjointSeqs(p, s.files[i]);
      OthersKept(s.table, s'.table, eoc, p, q, s.files[i]);
    }
  }

  /** Every operation conserves clusters. */
  lemma StepConserves(eoc: nat, s: State, op: Operation, s': State)
    requires Invariant(eoc, s) && Step(eoc, s, op, s')
    ensures Clusters(s') == Clusters(s)
  {
    var n, ok := StepIsResize(eoc, s, op, s');
    ResizedConserves(s.table, s'.table, eoc, s.files[op.file], n, s'.files[op.file], ok);
    SumUpdate(s.files, op.file, s'.files[op.file]);
    assert s'.files == s.files[op.file := s'.files[op.file]];
  }

  /** No operation changes an entry that is neither free nor owned: bad or foreign clusters, and the two reserved entries. */
  lemma StepKeepsForeign(eoc: nat, s: State, op: Operation, s': State, c: nat)
    requires Invariant(eoc, s) && Step(eoc, s, op, s')
    requires c < |s.table| && (c < 2 || s.table[c] != 0) && !Owned(s, c)
    ensures |s'.table| == |s.table| && s'.table[c] == s.table[c] && !Owned(s', c)
  {
    var n, ok := StepIsResize(eoc, s, op, s');
    ResizedTouches(s.table, s'.table, eoc, s.files[op.file], n, s'.files[op.file], ok);
    assert c !in s.files[op.file];
    if c < 2 {
      StepKeepsInvariant(eoc, s, op, s');
      ReservedNotOwned(eoc, s', c);
    }
  }

  lemma ReservedNotOwned(eoc: nat, s: State, c: nat)
    requires Invariant(eoc, s) && c < 2
    ensures !Owned(s, c)
  {
    forall i | 0 <= i < |s.files| ensures c !in s.files[i] {
      ChainNotFree(s.table, eoc, s.files[i]);
    }
  }

  // ----- all runs -----

  /** Safety over whole runs: at every state of every run the chains are well formed and disjoint. */
  lemma {:induction false} RunKeepsInvariant(eoc: nat, states: seq<State>, ops: seq<Operation>, k: nat)
    requires IsRun(eoc, states, ops) && Invariant(eoc, states[0]) && k < |states|
    ensures Invariant(eoc, states[k])
  {
    if k > 0 {
      RunKeepsInvariant(eoc, states, ops, k - 1);
      StepKeepsInvariant(eoc, states[k - 1], ops[k - 1], states[k]);
    }
  }

  /** Conservation over whole runs: the free clusters and the owned clusters always add up to the same number. */
  lemma {:induction false} RunConserves(eoc: nat, states: seq<State>, ops: seq<Operation>, k: nat)
    requires IsRun(eoc, states, ops) && Invariant(eoc, states[0]) && k < |states|
    ensures Clusters(states[k]) == Clusters(states[0])
  {
    if k > 0 {
      RunConserves(eoc, states, ops, k - 1);
      RunKeepsInvariant(eoc, states, ops, k - 1);
      StepConserves(eoc, states[k - 1], ops[k - 1], states[k]);
    }
  }

  /** Framing over whole runs: an entry that starts neither free nor owned never changes. */
  lemma {:induction false} RunKeepsForeign(eoc: nat, states: seq<State>, ops: seq<Operation>, k: nat, c: nat)
    requires IsRun(eoc, states, ops) && Invariant(eoc, states[0]) && k < |states|
    requires c < |states[0].table| && (c < 2 || states[0].table[c] != 0) && !Owned(states[0], c)
    ensures |states[k].table| == |states[0].table|
    ensures states[k].table[c] == states[0].table[c] && !Owned(states[k], c)
  {
    if k > 0 {
      RunKeepsForeign(eoc, states, ops, k - 1, c);
      RunKeepsInvariant(eoc, states, ops, k - 1);
      StepKeepsForeign(eoc, states[k - 1], ops[k - 1], states[k], c);
    }
  }

  /** A run that starts and ends with every file empty gives back the very table it started with. */
  lemma RunThatEmptiesAll(eoc: nat, states: seq<State>, ops: seq<Operation>)
    requires IsRun(eoc, states, ops) && Invariant(eoc, states[0])
    requires forall i :: 0 <= i < |states[0].files| ==> states[0].files[i] == []
    requires forall i :: 0 <= i < |states[|ops|].files| ==> states[|ops|].files[i] == []
    ensures states[|ops|].table == states[0].table
  {
    var t, u := states[0].table, states[|ops|].table;
    RunSize(eoc, states, ops, |ops|);
    forall c | 0 <= c < |t| && (c < 2 || t[c] != 0) ensures u[c] == t[c] {
      RunKeepsForeign(eoc, states, ops, |ops|, c);
    }
    RunConserves(eoc, states, ops, |ops|);
    SumOfEmpty(states[0].files);
    SumOfEmpty(states[|ops|].files);
    FreeAmong(t, u, 2);
  }

  lemma {:induction false} RunSize(eoc: nat, states: seq<State>, ops: seq<Operation>, k: nat)
    requires IsRun(eoc, states, ops) && Invariant(eoc, states[0]) && k < |states|
    ensures |states[k].table| == |states[0].table|
  {
    if k > 0 {
      RunSize(eoc, states, ops, k - 1);
      RunKeepsInvariant(eoc, states, ops, k - 1);
      var n, ok := StepIsResize(eoc, states[k - 1], ops[k - 1], states[k]);
    }
  }

  /** Free clusters that stay among the old ones and are as many are the old ones. */
  lemma {:induction false} FreeAmong(t: Table, u: Table, c: nat)
    requires |u| == |t| && forall x :: c <= x < |t| && t[x] != 0 ==> u[x] != 0
    ensures |FreeFrom(u, c)| <= |FreeFrom(t, c)|
    ensures |FreeFrom(u, c)| == |FreeFrom(t, c)| ==> forall x :: c <= x < |t| ==> (t[x] == 0 <==> u[x] == 0)
    decreases |t| - c
  {
    if c < |t| {
      FreeAmong(t, u, c + 1);
    }
  }

  lemma {:induction false} SumOfEmpty(files: seq<seq<nat>>)
    requires forall i :: 0 <= i < |files| ==> files[i] == []
    ensures SumOfLengths(files) == 0
  {
    if files != [] {
      SumOfEmpty(files[1..]);
    }
  }
}
