/**
 Runs of calls on one open file: any number of seeks, reads and writes, in any order, each with the
 outcome that the methods of `FatFile` are proved to have.
 */
module FileRuns {
  import opened Words
  import opened FileBytes
  import FatFiles

  /** What a handle shows of its file; the access flags of the handle stay the same over a run. */
  datatype State = State(contents: seq<byte>, position: nat, eof: bool, error: bool)

  datatype Operation =
    | Write(data: seq<byte>, elem: nat, count: nat, avail: nat)  // `avail` clusters to be had at that moment
    | Read(elem: nat, count: nat, before: seq<byte>, after: seq<byte>)
    | Seek(offset: int, whence: int)
    | Rewind

  ghost predicate Step(cs: nat, readable: bool, writable: bool, s: State, op: Operation, s': State) {
    match op
    case Write(data, elem, count, avail) =>
      && |data| == elem * count && s'.eof == s.eof
      && exists n :: FatFiles.WriteOutcome(cs, avail, writable, data, elem, count, s.contents, s.position, s.error,
                                           s'.contents, s'.position, s'.error, n)
    case Read(elem, count, d, d') =>
      && |d| == elem * count && s'.contents == s.contents
      && exists n :: FatFiles.ReadOutcome(readable, elem, count, s.contents, s.position, s.eof, s.error, d,
                                          s'.position, s'.eof, s'.error, d', n)
    case Seek(offset, whence) =>
      && s'.contents == s.contents
      && exists r :: FatFiles.SeekOutcome(offset, whence, |s.contents|, s.position, s.eof, s.error,
                                          s'.position, s'.eof, s'.error, r)
    case Rewind => s'.contents == s.contents && s'.position == 0 && !s'.eof && !s'.error
  }

  ghost predicate IsRun(cs: nat, readable: bool, writable: bool, states: seq<State>, ops: seq<Operation>) {
    && |states| == |ops| + 1
    && forall i :: 0 <= i < |ops| ==> Step(cs, readable, writable, states[i], ops[i], states[i + 1])
  }

  /** The step is a complete write that covers byte `i`. */
  ghost predicate Covers(s: State, op: Operation, s': State, i: nat) {
    op.Write? && s.position <= i < s.position + |op.data| && s'.position == s.position + |op.data|
  }

  /** What byte `i` should be after `k` steps: the last complete write that covers it decides; else the first contents, else zero. */
  ghost function LastWritten(states: seq<State>, ops: seq<Operation>, k: nat, i: nat): byte
    requires k <= |ops| && |states| == |ops| + 1
  {
    if k == 0 then (if i < |states[0].contents| then states[0].contents[i] else 0)
    else if Covers(states[k - 1], ops[k - 1], states[k], i) then ops[k - 1].data[i - states[k - 1].position]
    else LastWritten(states, ops, k - 1, i)
  }

  /** One step: a covered byte is written, any other byte stays, and what is new is zero. */
  lemma StepBytes(cs: nat, readable: bool, writable: bool, s: State, op: Operation, s': State, i: nat)
    requires Step(cs, readable, writable, s, op, s') && i < |s'.contents|
    ensures |s.contents| <= |s'.contents|
    ensures s'.contents[i] ==
      if Covers(s, op, s', i) then op.data[i - s.position] else if i < |s.contents| then s.contents[i] else 0
  {
    if op.Write? {
      WriteBytes(cs, readable, writable, s, op.data, op.elem, op.count, op.avail, s', i);
    }
  }

  lemma WriteBytes(cs: nat, readable: bool, writable: bool, s: State, data: seq<byte>, elem: nat, count: nat,
                   avail: nat, s': State, i: nat)
    requires Step(cs, readable, writable, s, Write(data, elem, count, avail), s') && i < |s'.contents|
    ensures |s.contents| <= |s'.contents|
    ensures s'.contents[i] ==
      if s.position <= i < s.position + |data| && s'.position == s.position + |data| then data[i - s.position]
      else if i < |s.contents| then s.contents[i] else 0
  {
    hide Written, ZeroExtended, Ceil;
    NoElements(elem, count);
    if |data| > 0 && s'.position == s.position + |data| {
      assert s'.contents == Written(s.contents, s.position, data);
      WrittenBytes(s.contents, s.position, data, i);
      WrittenLength(s.contents, s.position, data);
    } else {
      ExtendedBytes(s.contents, s.position);
    }
  }

  lemma NoElements(elem: nat, count: nat)
    ensures elem * count == 0 <==> elem == 0 || count == 0
  {
    if elem > 0 && count > 0 {
      Times(1, elem, count);
    }
  }

  lemma WrittenLength(c: seq<byte>, pos: nat, data: seq<byte>)
    ensures |c| <= |Written(c, pos, data)|
  {
  }

  lemma ExtendedBytes(c: seq<byte>, pos: nat)
    ensures |c| <= |ZeroExtended(c, pos)|
    ensures forall i :: 0 <= i < |ZeroExtended(c, pos)| ==> ZeroExtended(c, pos)[i] == if i < |c| then c[i] else 0
  {
  }

  /**
   Every run refines a byte sequence: each byte of the contents is the one last written there, the
   first contents where nothing was written, and zero in holes; and the file never shrinks.
   */
  lemma {:induction false} RunBytes(cs: nat, readable: bool, writable: bool, states: seq<State>,
                                    ops: seq<Operation>, k: nat, i: nat)
    requires IsRun(cs, readable, writable, states, ops) && k <= |ops| && i < |states[k].contents|
    ensures |states[0].contents| <= |states[k].contents|
    ensures states[k].contents[i] == LastWritten(states, ops, k, i)
  {
    hide Step;
    if k > 0 {
      assert Step(cs, readable, writable, states[k - 1], ops[k - 1], states[k]);
      StepBytes(cs, readable, writable, states[k - 1], ops[k - 1], states[k], i);
      if i < |states[k - 1].contents| {
        RunBytes(cs, readable, writable, states, ops, k - 1, i);
      } else {
        NeverWritten(cs, readable, writable, states, ops, k - 1, i);
      }
    }
  }

  /** A byte past the end was never covered. */
  lemma {:induction false} NeverWritten(cs: nat, readable: bool, writable: bool, states: seq<State>,
                                        ops: seq<Operation>, k: nat, i: nat)
    requires IsRun(cs, readable, writable, states, ops) && k <= |ops| && i >= |states[k].contents|
    ensures |states[0].contents| <= |states[k].contents|
    ensures LastWritten(states, ops, k, i) == 0
  {
    hide Step;
    if k > 0 {
      assert Step(cs, readable, writable, states[k - 1], ops[k - 1], states[k]);
      StepLength(cs, readable, writable, states[k - 1], ops[k - 1], states[k], i);
      NeverWritten(cs, readable, writable, states, ops, k - 1, i);
    }
  }

  lemma StepLength(cs: nat, readable: bool, writable: bool, s: State, op: Operation, s': State, i: nat)
    requires Step(cs, readable, writable, s, op, s') && i >= |s'.contents|
    ensures |s.contents| <= |s'.contents| && !Covers(s, op, s', i)
  {
    hide Ceil;
    if op.Write? {
      NoElements(op.elem, op.count);
      ExtendedBytes(s.contents, s.position);
      WrittenLength(s.contents, s.position, op.data);
      WrittenCovers(s.contents, s.position, op.data);
    }
  }

  lemma WrittenCovers(c: seq<byte>, pos: nat, data: seq<byte>)
    ensures pos + |data| <= |Written(c, pos, data)|
  {
  }

  /** A read in a run returns, for each byte it transfers, the byte last written there. */
  lemma RunReads(cs: nat, readable: bool, writable: bool, states: seq<State>, ops: seq<Operation>, k: nat, j: nat)
    requires IsRun(cs, readable, writable, states, ops) && k < |ops| && ops[k].Read?
    requires states[k].position + j < states[k + 1].position
    ensures states[k].position + j < |states[k].contents| && j < |ops[k].after|
    ensures ops[k].after[j] == LastWritten(states, ops, k, states[k].position + j)
  {
    hide LastWritten;
    assert Step(cs, readable, writable, states[k], ops[k], states[k + 1]);
    RunBytes(cs, readable, writable, states, ops, k, states[k].position + j);
  }
}
