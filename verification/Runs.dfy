/**
 Calls of the methods make the runs that `FileRuns`, `VolumeRuns` and `Ledger` speak of: sequences of
 requests are carried out, and the states in between are a run.
 */
module Runs {
  import opened Words
  import opened Geometry
  import TableImage
  import Chains
  import opened Allocator
  import opened FileBytes
  import opened Volumes
  import DirEntry
  import opened FatFiles
  import FileRuns
  import VolumeRuns
  import Ledger

  // ----- one open file -----

  datatype Request =
    | Write(data: seq<byte>, elem: nat, count: nat)
    | Read(elem: nat, count: nat)
    | Seek(offset: int, whence: int)
    | Rewind

  /** Requests as a caller can make them: no object is larger than half the address space, offsets are signed words. */
  predicate IsPossible(q: Request) {
    match q
    case Write(data, elem, count) => |data| == elem * count && |data| + 0x2_0000 <= TWO63
    case Seek(offset, _) => -TWO63 <= offset < TWO63
    case _ => true
  }

  ghost predicate Asks(q: Request, op: FileRuns.Operation) {
    match q
    case Write(data, elem, count) => op.Write? && op.data == data && op.elem == elem && op.count == count
    case Read(elem, count) => op.Read? && op.elem == elem && op.count == count
    case Seek(offset, whence) => op == FileRuns.Seek(offset, whence)
    case Rewind => op == FileRuns.Rewind
  }

  ghost function StateOf(f: FatFile): FileRuns.State
    requires f.Valid()
    reads f, f.vol
  {
    FileRuns.State(f.Contents(), f.position, f.eof, f.error)
  }

  /** One request is one step; the chain stays as long as the size needs. */
  method Perform(f: FatFile, q: Request) returns (ghost op: FileRuns.Operation)
    requires f.Valid() && f.position < TWO63 && IsPossible(q)
    modifies f, f.vol
    ensures f.Valid() && f.position < TWO63 && (old(f.Tight()) ==> f.Tight()) && (old(f.IsRecorded()) ==> f.IsRecorded())
    ensures FileRuns.Step(f.vol.g.ClusterBytes(), f.readable, f.writable, old(StateOf(f)), op, StateOf(f)) && Asks(q, op)
    ensures Kept(f.vol.g, f.dirSector, f.dirOffset, old(f.vol.image), old(f.chain), f.vol.image, f.chain)
    ensures HeadKept(old(f.vol.image), f.vol.image, f.dirSector, f.dirOffset)
  {
    hide *;
    f.HandleFacts();
    f.ValidMeans();
    f.RecordedIs();
    f.OwnEntryKept();
    KeptSelf(f.vol.g, f.dirSector, f.dirOffset, f.vol.image, f.chain);
    ghost var s, cs := StateOf(f), f.vol.g.ClusterBytes();
    StateIs(f);
    PossibleMeans(q);
    match q
    case Write(data, elem, count) =>
      ghost var avail := f.Available();
      WrapsMeans(cs, f.writable, |data|, f.position);
      var n := f.Write(data, elem, count);
      op := FileRuns.Write(data, elem, count, avail);
      StateIs(f);
      WriteStep(cs, f.readable, f.writable, s, data, elem, count, avail, StateOf(f), n);
    case Read(elem, count) =>
      Product(elem, count);
      var dest := new byte[elem * count];
      ghost var before := dest[..];
      var n := f.Read(dest, elem, count);
      op := FileRuns.Read(elem, count, before, dest[..]);
      StateIs(f);
      f.ValidMeans();
      f.RecordedIs();
      ReadStep(cs, f.readable, f.writable, s, elem, count, before, dest[..], StateOf(f), n);
    case Seek(offset, whence) =>
      var r := f.Seek(offset, whence);
      op := FileRuns.Seek(offset, whence);
      StateIs(f);
      f.ValidMeans();
      f.RecordedIs();
      SeekStep(cs, f.readable, f.writable, s, offset, whence, StateOf(f), r);
    case Rewind =>
      f.Rewind();
      op := FileRuns.Rewind;
      StateIs(f);
      f.ValidMeans();
      f.RecordedIs();
      RewindStep(cs, f.readable, f.writable, s, StateOf(f));
  }

  lemma StateIs(f: FatFile)
    requires f.Valid()
    ensures StateOf(f) == FileRuns.State(f.Contents(), f.position, f.eof, f.error)
  {
  }

  lemma PossibleMeans(q: Request)
    requires IsPossible(q)
    ensures q.Write? ==> |q.data| == q.elem * q.count && |q.data| + 0x2_0000 <= TWO63
    ensures q.Seek? ==> -TWO63 <= q.offset < TWO63
  {
  }

  lemma Product(x: nat, y: nat)
    ensures 0 <= x * y
  {
    Times(0, x, y);
  }

  lemma WriteStep(cs: nat, readable: bool, writable: bool, s: FileRuns.State, data: seq<byte>, elem: nat, count: nat,
                  avail: nat, s': FileRuns.State, n: nat)
    requires |data| == elem * count && s'.eof == s.eof
    requires WriteOutcome(cs, avail, writable, data, elem, count, s.contents, s.position, s.error,
                          s'.contents, s'.position, s'.error, n)
    ensures FileRuns.Step(cs, readable, writable, s, FileRuns.Write(data, elem, count, avail), s')
    ensures Asks(Write(data, elem, count), FileRuns.Write(data, elem, count, avail))
  {
    hide WriteOutcome;
  }

  lemma ReadStep(cs: nat, readable: bool, writable: bool, s: FileRuns.State, elem: nat, count: nat, d: seq<byte>,
                 d': seq<byte>, s': FileRuns.State, n: nat)
    requires |d| == elem * count && s'.contents == s.contents
    requires ReadOutcome(readable, elem, count, s.contents, s.position, s.eof, s.error, d, s'.position, s'.eof, s'.error, d', n)
    ensures FileRuns.Step(cs, readable, writable, s, FileRuns.Read(elem, count, d, d'), s')
    ensures Asks(Read(elem, count), FileRuns.Read(elem, count, d, d'))
  {
    hide ReadOutcome;
  }

  lemma SeekStep(cs: nat, readable: bool, writable: bool, s: FileRuns.State, offset: int, whence: int,
                 s': FileRuns.State, r: int)
    requires s'.contents == s.contents
    requires SeekOutcome(offset, whence, |s.contents|, s.position, s.eof, s.error, s'.position, s'.eof, s'.error, r)
    ensures FileRuns.Step(cs, readable, writable, s, FileRuns.Seek(offset, whence), s')
    ensures Asks(Seek(offset, whence), FileRuns.Seek(offset, whence))
  {
    hide SeekOutcome;
  }

  lemma RewindStep(cs: nat, readable: bool, writable: bool, s: FileRuns.State, s': FileRuns.State)
    requires s'.contents == s.contents && s'.position == 0 && !s'.eof && !s'.error
    ensures FileRuns.Step(cs, readable, writable, s, FileRuns.Rewind, s') && Asks(Rewind, FileRuns.Rewind)
  {
  }

  /** A sequence of requests is a run. */
  method PerformAll(f: FatFile, requests: seq<Request>) returns (ghost states: seq<FileRuns.State>, ghost ops: seq<FileRuns.Operation>)
    requires f.Valid() && f.position < TWO63 && forall i :: 0 <= i < |requests| ==> IsPossible(requests[i])
    modifies f, f.vol
    ensures f.Valid() && f.position < TWO63 && (old(f.Tight()) ==> f.Tight()) && (old(f.IsRecorded()) ==> f.IsRecorded())
    ensures FileRuns.IsRun(f.vol.g.ClusterBytes(), f.readable, f.writable, states, ops) && |ops| == |requests|
    ensures forall i :: 0 <= i < |ops| ==> Asks(requests[i], ops[i])
    ensures states[0] == old(StateOf(f)) && states[|ops|] == StateOf(f)
    ensures Kept(f.vol.g, f.dirSector, f.dirOffset, old(f.vol.image), old(f.chain), f.vol.image, f.chain)
    ensures HeadKept(old(f.vol.image), f.vol.image, f.dirSector, f.dirOffset)
  {
    hide *;
    f.HandleFacts();
    f.OwnEntryKept();
    ghost var g, d, off, a, p := f.vol.g, f.dirSector, f.dirOffset, f.vol.image, f.chain;
    KeptSelf(g, d, off, a, p);
    states, ops := [StateOf(f)], [];
    FileRunStart(g.ClusterBytes(), f.readable, f.writable, StateOf(f));
    for i := 0 to |requests|
      invariant f.Valid() && f.position < TWO63 && (old(f.Tight()) ==> f.Tight()) && (old(f.IsRecorded()) ==> f.IsRecorded())
      invariant FileRuns.IsRun(g.ClusterBytes(), f.readable, f.writable, states, ops) && |ops| == i && |states| == i + 1
      invariant forall j :: 0 <= j < i ==> Asks(requests[j], ops[j])
      invariant states[0] == old(StateOf(f)) && states[i] == StateOf(f)
      invariant Kept(g, d, off, a, p, f.vol.image, f.chain) && HeadKept(a, f.vol.image, d, off)
    {
      ghost var b, r := f.vol.image, f.chain;
      ghost var op := Perform(f, requests[i]);
      KeptTrans(g, d, off, a, p, b, r, f.vol.image, f.chain);
      HeadTrans(a, b, f.vol.image, d, off);
      FileRunNext(g.ClusterBytes(), f.readable, f.writable, states, ops, op, StateOf(f));
      states, ops := states + [StateOf(f)], ops + [op];
    }
  }

  /**
   Opening the entry of a good handle again: once the entry matches, which every run keeps, the new
   handle has the same contents, provided that the size fits the 32 bits of the entry.
   */
  method Reopen(f: FatFile, readable: bool, writable: bool, append: bool) returns (h: FatFile)
    requires f.Valid() && f.IsRecorded() && f.size < TWO32
    ensures fresh(h) && h.vol == f.vol && h.Valid() && h.IsRecorded() && h.chain == f.chain
    ensures h.Contents() == f.Contents() && h.position == (if append then |f.Contents()| else 0)
    ensures h.readable == readable && h.writable == writable && !h.eof && !h.error
  {
    hide *;
    f.ValidMeans();
    f.HandleFacts();
    f.RecordedIs();
    RecordedPlace(f);
    ReopenSame(f.vol.g, f.vol.image, f.chain, f.firstCluster, f.size, f.dirSector, f.dirOffset);
    h := new FatFile(f.vol, f.dirSector, f.dirOffset, readable, writable, append, f.chain);
    h.ValidMeans();
  }

  lemma RecordedPlace(f: FatFile)
    requires f.IsRecorded()
    ensures f.dirSector < |f.vol.image| && f.dirOffset + ENTRY_BYTES <= SECTOR_SIZE
  {
  }

  lemma HeadTrans(a: Image, b: Image, c: Image, d: nat, off: nat)
    requires HeadKept(a, b, d, off) && HeadKept(b, c, d, off)
    ensures HeadKept(a, c, d, off)
  {
  }

  lemma FileRunStart(cs: nat, readable: bool, writable: bool, s: FileRuns.State)
    ensures FileRuns.IsRun(cs, readable, writable, [s], [])
  {
  }

  lemma FileRunNext(cs: nat, readable: bool, writable: bool, states: seq<FileRuns.State>, ops: seq<FileRuns.Operation>,
                    op: FileRuns.Operation, s: FileRuns.State)
    requires FileRuns.IsRun(cs, readable, writable, states, ops) && FileRuns.Step(cs, readable, writable, states[|ops|], op, s)
    ensures FileRuns.IsRun(cs, readable, writable, states + [s], ops + [op])
  {
    hide FileRuns.Step;
  }

  // ----- many open files -----

  ghost function FileOf(f: FatFile): VolumeRuns.File
    reads f
  {
    VolumeRuns.File(f.chain, f.size, f.dirSector, f.dirOffset)
  }

  ghost function FilesOf(fs: seq<FatFile>): (r: seq<VolumeRuns.File>)
    reads fs
    ensures |r| == |fs| && forall i :: 0 <= i < |fs| ==> r[i] == FileOf(fs[i])
  {
    if fs == [] then [] else FilesOf(fs[..|fs| - 1]) + [FileOf(fs[|fs| - 1])]
  }

  ghost function VolumeState(vol: Volume, fs: seq<FatFile>): VolumeRuns.State
    reads vol, fs
  {
    VolumeRuns.State(vol.image, FilesOf(fs))
  }

  /** Different handles on one volume, each good. */
  ghost predicate AllOpen(vol: Volume, fs: seq<FatFile>)
    reads vol, fs
  {
    && (forall i :: 0 <= i < |fs| ==> fs[i].vol == vol)
    && (forall i, j :: 0 <= i < j < |fs| ==> fs[i] != fs[j])
    && (forall i :: 0 <= i < |fs| ==> fs[i].Valid() && fs[i].position < TWO63)
    && VolumeRuns.Invariant(vol.g, VolumeState(vol, fs))
  }

  /**
   A request to one of many open files is a step of that file, as if it were alone, and leaves the
   contents, position and flags of all others as they were; and it is a step of the volume.
   */
  method PerformOn(vol: Volume, fs: seq<FatFile>, k: nat, q: Request) returns (ghost op: FileRuns.Operation)
    requires AllOpen(vol, fs) && k < |fs| && IsPossible(q)
    modifies vol, fs
    ensures AllOpen(vol, fs)
    ensures VolumeRuns.Step(vol.g, old(VolumeState(vol, fs)), k, VolumeState(vol, fs))
    ensures Asks(q, op)
    ensures FileRuns.Step(vol.g.ClusterBytes(), fs[k].readable, fs[k].writable, old(StateOf(fs[k])), op, StateOf(fs[k]))
    ensures forall i :: 0 <= i < |fs| && i != k ==> StateOf(fs[i]) == old(StateOf(fs[i]))
    ensures forall i :: 0 <= i < |fs| && old(fs[i].IsRecorded()) ==> fs[i].IsRecorded()
  {
    hide *;
    var f := fs[k];
    ghost var s := VolumeState(vol, fs);
    OpenMeans(vol, fs);
    OthersDiffer(vol, fs, k);
    StatesAre(vol, fs);
    EntriesAre(vol, fs);
    op := Perform(f, q);
    f.ValidMeans();
    StateOfFiles(vol, fs);
    StepIs(vol.g, s, k, VolumeState(vol, fs), f);
    VolumeRuns.StepKeepsInvariant(vol.g, s, k, VolumeState(vol, fs));
    VolumeRuns.InvariantMeans(vol.g, VolumeState(vol, fs));
    forall i | 0 <= i < |fs| && i != k ensures fs[i].Valid() {
      StillValid(vol, fs[i]);
    }
    OpenIs(vol, fs);
    StatesAre(vol, fs);
    EntriesAre(vol, fs);
    forall i | 0 <= i < |fs| && i != k
      ensures StateOf(fs[i]) == old(StateOf(fs[i])) && (old(fs[i].IsRecorded()) ==> fs[i].IsRecorded())
    {
      VolumeRuns.StepKeepsOthers(vol.g, s, k, VolumeState(vol, fs), i);
    }
  }

  /** What a handle shows, from the state of the volume. */
  lemma StatesAre(vol: Volume, fs: seq<FatFile>)
    requires AllOpen(vol, fs)
    ensures forall i :: 0 <= i < |fs| ==>
      && fs[i].Valid() && VolumeRuns.IsOpen(vol.g, vol.image, FileOf(fs[i]))
      && StateOf(fs[i]) == FileRuns.State(VolumeRuns.ContentOf(vol.g, vol.image, FileOf(fs[i])), fs[i].position,
                                          fs[i].eof, fs[i].error)
  {
    hide VolumeRuns.Invariant, IsHandle, Content;
    forall i | 0 <= i < |fs|
      ensures VolumeRuns.IsOpen(vol.g, vol.image, FileOf(fs[i]))
      ensures StateOf(fs[i]) == FileRuns.State(VolumeRuns.ContentOf(vol.g, vol.image, FileOf(fs[i])), fs[i].position,
                                               fs[i].eof, fs[i].error)
    {
      fs[i].ValidMeans();
    }
  }

  lemma OpenMeans(vol: Volume, fs: seq<FatFile>)
    requires AllOpen(vol, fs)
    ensures forall i :: 0 <= i < |fs| ==>
      fs[i].vol == vol && fs[i].Valid() && fs[i].position < TWO63 && fs[i].firstCluster == Head(fs[i].chain)
    ensures forall i, j :: 0 <= i < j < |fs| ==> fs[i] != fs[j]
    ensures VolumeRuns.Invariant(vol.g, VolumeState(vol, fs))
    ensures VolumeState(vol, fs).image == vol.image && |VolumeState(vol, fs).files| == |fs|
    ensures forall i :: 0 <= i < |fs| ==> VolumeState(vol, fs).files[i] == FileOf(fs[i])
    ensures forall i :: 0 <= i < |fs| ==>
      FileOf(fs[i]) == VolumeRuns.File(fs[i].chain, fs[i].size, fs[i].dirSector, fs[i].dirOffset)
  {
    hide VolumeRuns.Invariant;
    forall i | 0 <= i < |fs| ensures fs[i].firstCluster == Head(fs[i].chain) {
      fs[i].ValidMeans();
    }
  }

  lemma OthersDiffer(vol: Volume, fs: seq<FatFile>, k: nat)
    requires AllOpen(vol, fs) && k < |fs|
    ensures forall i :: 0 <= i < |fs| && i != k ==> fs[i] != fs[k]
  {
    hide VolumeRuns.Invariant;
  }

  /** Whether an entry matches is seen from the entry itself. */
  lemma EntriesAre(vol: Volume, fs: seq<FatFile>)
    requires AllOpen(vol, fs)
    ensures forall i :: 0 <= i < |fs| ==>
      && fs[i].dirSector < |vol.image| && fs[i].dirOffset + ENTRY_BYTES <= SECTOR_SIZE
      && (fs[i].IsRecorded() <==>
          && DirEntry.FirstCluster(vol.g.kind, EntryAt(vol.image[fs[i].dirSector], fs[i].dirOffset)) == fs[i].firstCluster
          && DirEntry.FileSize(EntryAt(vol.image[fs[i].dirSector], fs[i].dirOffset)) == fs[i].size % TWO32)
  {
    hide VolumeRuns.Invariant, EntryAt, DirEntry.FirstCluster, DirEntry.FileSize;
    forall i | 0 <= i < |fs| ensures fs[i].dirSector < |vol.image| && fs[i].dirOffset + ENTRY_BYTES <= SECTOR_SIZE {
      fs[i].OwnEntryKept();
    }
  }

  lemma StateOfFiles(vol: Volume, fs: seq<FatFile>)
    ensures VolumeState(vol, fs).image == vol.image && |VolumeState(vol, fs).files| == |fs|
    ensures forall i :: 0 <= i < |fs| ==> VolumeState(vol, fs).files[i] == FileOf(fs[i])
    ensures forall i :: 0 <= i < |fs| ==>
      FileOf(fs[i]) == VolumeRuns.File(fs[i].chain, fs[i].size, fs[i].dirSector, fs[i].dirOffset)
  {
  }

  lemma StepIs(g: Bpb, s: VolumeRuns.State, k: nat, s': VolumeRuns.State, f: FatFile)
    requires k < |s.files| == |s'.files| && f.Valid() && f.vol.g == g && f.vol.image == s'.image
    requires forall i :: 0 <= i < |s.files| && i != k ==> s'.files[i] == s.files[i]
    requires s.files[k].sector == f.dirSector && s.files[k].offset == f.dirOffset
    requires s'.files[k] == VolumeRuns.File(f.chain, f.size, f.dirSector, f.dirOffset)
    requires Kept(g, f.dirSector, f.dirOffset, s.image, s.files[k].chain, s'.image, f.chain)
    ensures VolumeRuns.Step(g, s, k, s')
  {
    hide Kept, IsHandle;
    f.ValidMeans();
  }

  lemma StillValid(vol: Volume, f: FatFile)
    requires f.vol == vol && f.firstCluster == Head(f.chain)
    requires VolumeRuns.IsOpen(vol.g, vol.image, VolumeRuns.File(f.chain, f.size, f.dirSector, f.dirOffset))
    ensures f.Valid()
  {
    hide IsHandle;
  }

  lemma OpenIs(vol: Volume, fs: seq<FatFile>)
    requires forall i :: 0 <= i < |fs| ==> fs[i].vol == vol && fs[i].Valid() && fs[i].position < TWO63
    requires forall i, j :: 0 <= i < j < |fs| ==> fs[i] != fs[j]
    requires VolumeRuns.Invariant(vol.g, VolumeState(vol, fs))
    ensures AllOpen(vol, fs)
  {
    hide VolumeRuns.Invariant, FatFile.Valid;
  }

  /** The requests to file `k`, in their order. */
  function Own(requests: seq<(nat, Request)>, k: nat): seq<Request> {
    if requests == [] then []
    else Own(requests[..|requests| - 1], k) + if requests[|requests| - 1].0 == k then [requests[|requests| - 1].1] else []
  }

  /** The run of one file: the states it went through and the calls in between. */
  datatype FileRun = FileRun(states: seq<FileRuns.State>, ops: seq<FileRuns.Operation>)

  /** A run from `s` to `s'` that carries out the requests. */
  ghost predicate CarriesOut(cs: nat, readable: bool, writable: bool, s: FileRuns.State, requests: seq<Request>, run: FileRun,
                             s': FileRuns.State) {
    && FileRuns.IsRun(cs, readable, writable, run.states, run.ops)
    && run.states[0] == s && run.states[|run.ops|] == s'
    && |run.ops| == |requests| && forall i :: 0 <= i < |requests| ==> Asks(requests[i], run.ops[i])
  }

  /** What all handles show. */
  ghost function StatesOf(fs: seq<FatFile>): (r: seq<FileRuns.State>)
    requires forall i :: 0 <= i < |fs| ==> fs[i].Valid()
    reads fs, set f | f in fs :: f.vol
    ensures |r| == |fs| && forall i :: 0 <= i < |fs| ==> r[i] == StateOf(fs[i])
  {
    if fs == [] then [] else StatesOf(fs[..|fs| - 1]) + [StateOf(fs[|fs| - 1])]
  }

  /**
   A sequence of requests to many open files is a run of the volume; and the requests to each file,
   however they are interleaved with others, make a run of that file.
   */
  method PerformAllOn(vol: Volume, fs: seq<FatFile>, requests: seq<(nat, Request)>)
    returns (ghost states: seq<VolumeRuns.State>, ghost ops: seq<nat>, ghost runs: seq<FileRun>)
    requires AllOpen(vol, fs)
    requires forall i :: 0 <= i < |requests| ==> requests[i].0 < |fs| && IsPossible(requests[i].1)
    modifies vol, fs
    ensures AllOpen(vol, fs) && |ops| == |requests| && forall i :: 0 <= i < |ops| ==> ops[i] == requests[i].0
    ensures VolumeRuns.IsRun(vol.g, states, ops)
    ensures states[0] == old(VolumeState(vol, fs)) && states[|ops|] == VolumeState(vol, fs)
    ensures |runs| == |fs|
    ensures forall k :: 0 <= k < |fs| ==>
      CarriesOut(vol.g.ClusterBytes(), fs[k].readable, fs[k].writable, old(StateOf(fs[k])), Own(requests, k), runs[k], StateOf(fs[k]))
    ensures forall i :: 0 <= i < |fs| && old(fs[i].IsRecorded()) ==> fs[i].IsRecorded()
  {
    hide *;
    states, ops := [VolumeState(vol, fs)], [];
    VolumeRunStart(vol.g, VolumeState(vol, fs));
    OpenMeans(vol, fs);
    ghost var start, cs := StatesOf(fs), vol.g.ClusterBytes();
    runs := seq(|fs|, k requires 0 <= k < |start| => FileRun([start[k]], []));
    OwnNone(requests);
    forall k | 0 <= k < |fs|
      ensures CarriesOut(cs, fs[k].readable, fs[k].writable, start[k], Own(requests[..0], k), runs[k], StateOf(fs[k]))
    {
      CarriedNothing(cs, fs[k].readable, fs[k].writable, start[k]);
    }
    for i := 0 to |requests|
      invariant AllOpen(vol, fs) && |ops| == i && forall j :: 0 <= j < i ==> ops[j] == requests[j].0
      invariant VolumeRuns.IsRun(vol.g, states, ops) && |states| == i + 1
      invariant states[0] == old(VolumeState(vol, fs)) && states[i] == VolumeState(vol, fs)
      invariant |runs| == |fs| && forall k :: 0 <= k < |fs| ==> fs[k].Valid()
      invariant forall k :: 0 <= k < |fs| && old(fs[k].IsRecorded()) ==> fs[k].IsRecorded()
      invariant forall k :: 0 <= k < |fs| ==>
        CarriesOut(cs, fs[k].readable, fs[k].writable, start[k], Own(requests[..i], k), runs[k], StateOf(fs[k]))
    {
      ghost var k, was := requests[i].0, StatesOf(fs);
      ghost var op := PerformOn(vol, fs, requests[i].0, requests[i].1);
      OpenMeans(vol, fs);
      VolumeRunNext(vol.g, states, ops, requests[i].0, VolumeState(vol, fs));
      states, ops := states + [VolumeState(vol, fs)], ops + [requests[i].0];
      CarriedNext(cs, fs[k].readable, fs[k].writable, start[k], Own(requests[..i], k), runs[k], was[k], requests[i].1, op,
                  StateOf(fs[k]));
      OwnNext(requests, i);
      runs := runs[k := FileRun(runs[k].states + [StateOf(fs[k])], runs[k].ops + [op])];
    }
    assert requests[..|requests|] == requests;
  }

  lemma OwnNone(requests: seq<(nat, Request)>)
    ensures forall k: nat :: Own(requests[..0], k) == []
  {
  }

  lemma OwnNext(requests: seq<(nat, Request)>, i: nat)
    requires i < |requests|
    ensures Own(requests[..i + 1], requests[i].0) == Own(requests[..i], requests[i].0) + [requests[i].1]
    ensures forall k: nat :: k != requests[i].0 ==> Own(requests[..i + 1], k) == Own(requests[..i], k)
  {
    assert requests[..i + 1][..i] == requests[..i];
  }

  lemma CarriedNothing(cs: nat, readable: bool, writable: bool, s: FileRuns.State)
    ensures CarriesOut(cs, readable, writable, s, [], FileRun([s], []), s)
  {
  }

  lemma CarriedNext(cs: nat, readable: bool, writable: bool, s: FileRuns.State, requests: seq<Request>, run: FileRun,
                    s': FileRuns.State, q: Request, op: FileRuns.Operation, s'': FileRuns.State)
    requires CarriesOut(cs, readable, writable, s, requests, run, s') && Asks(q, op)
    requires FileRuns.Step(cs, readable, writable, s', op, s'')
    ensures CarriesOut(cs, readable, writable, s, requests + [q], FileRun(run.states + [s''], run.ops + [op]), s'')
  {
    hide FileRuns.Step, Asks;
  }

  lemma VolumeRunStart(g: Bpb, s: VolumeRuns.State)
    ensures VolumeRuns.IsRun(g, [s], [])
  {
  }

  lemma VolumeRunNext(g: Bpb, states: seq<VolumeRuns.State>, ops: seq<nat>, k: nat, s: VolumeRuns.State)
    requires VolumeRuns.IsRun(g, states, ops) && VolumeRuns.Step(g, states[|ops|], k, s)
    ensures VolumeRuns.IsRun(g, states + [s], ops + [k])
  {
    hide VolumeRuns.Step;
  }

  // ----- many chains -----

  ghost predicate AreHeads(heads: seq<u32>, files: seq<seq<nat>>) {
    |heads| == |files| && forall i :: 0 <= i < |heads| ==> heads[i] == Head(files[i])
  }

  ghost function TableState(vol: Volume, files: seq<seq<nat>>): Ledger.State
    requires vol.Valid()
    reads vol
  {
    Ledger.State(vol.Table(), files)
  }

  /** Giving one of many files `count` clusters is a step: an allocation, a release or a resize. */
  method SetClusters(vol: Volume, heads: seq<u32>, k: nat, count: u32, ghost files: seq<seq<nat>>)
    returns (heads': seq<u32>, ghost files': seq<seq<nat>>, ghost op: Ledger.Operation)
    requires vol.Valid() && AreHeads(heads, files) && k < |heads|
    requires Ledger.Invariant(vol.g.Eoc(), TableState(vol, files))
    modifies vol
    ensures vol.Valid() && AreHeads(heads', files') && |heads'| == |heads| && op.file == k
    ensures Ledger.Step(vol.g.Eoc(), old(TableState(vol, files)), op, TableState(vol, files'))
    ensures Ledger.Invariant(vol.g.Eoc(), TableState(vol, files'))
  {
    hide *;
    vol.TableFacts();
    ghost var t, eoc := vol.Table(), vol.g.Eoc();
    HeadsMean(vol, heads, files, k);
    if heads[k] == 0 {
      var first := vol.AllocChain(count);
      ghost var q := NewChain(t, vol.Table(), eoc, count, first);
      heads', files', op := heads[k := first], files[k := q], Ledger.Allocate(k, count);
      AllocateStep(t, vol.Table(), eoc, files, k, count, q);
    } else if count == 0 {
      var ok := vol.FreeChain(heads[k]);
      heads', files', op := heads[k := 0], files[k := []], Ledger.Release(k);
      ReleaseStep(t, vol.Table(), eoc, files, k, ok);
    } else {
      var ok, first;
      ghost var q;
      ok, first, q := vol.ResizeChain(heads[k], count);
      heads', files', op := heads[k := first], files[k := q], Ledger.Resize(k, count);
      ResizeStep(t, vol.Table(), eoc, files, k, count, q, ok);
    }
    StateOfTable(vol, files');
    Ledger.StepKeepsInvariant(eoc, Ledger.State(t, files), op, TableState(vol, files'));
    HeadsAre(heads, files, k, heads'[k], files'[k]);
  }

  lemma StateOfTable(vol: Volume, files: seq<seq<nat>>)
    requires vol.Valid()
    ensures TableState(vol, files) == Ledger.State(vol.Table(), files)
  {
  }

  lemma HeadsMean(vol: Volume, heads: seq<u32>, files: seq<seq<nat>>, k: nat)
    requires vol.Valid() && AreHeads(heads, files) && k < |heads|
    requires Ledger.Invariant(vol.g.Eoc(), TableState(vol, files))
    ensures |heads| == |files| && heads[k] == Head(files[k]) && IsFile(vol.Table(), vol.g.Eoc(), files[k])
    ensures heads[k] == 0 <==> files[k] == []
    ensures heads[k] != 0 ==> vol.g.IsData(heads[k]) && files[k][0] == heads[k]
    ensures TableState(vol, files) == Ledger.State(vol.Table(), files)
    ensures Head([]) == 0
  {
    vol.TableFacts();
    hide TableImage.TableOf, Bpb.MaxCluster, Bpb.Eoc, Bpb.IsData, Volume.Valid, Volume.Table;
    if files[k] != [] {
      assert Chains.IsData(vol.Table(), files[k][0]);
    }
  }

  lemma HeadsAre(heads: seq<u32>, files: seq<seq<nat>>, k: nat, h: u32, q: seq<nat>)
    requires AreHeads(heads, files) && k < |heads| && Head(q) == h
    ensures |files| == |heads| && AreHeads(heads[k := h], files[k := q])
  {
  }

  lemma NewChain(t: Chains.Table, u: Chains.Table, eoc: nat, n: nat, first: nat) returns (q: seq<nat>)
    requires Allocated(t, u, eoc, n, first)
    ensures Head(q) == first
    ensures q == if 1 <= n <= |Chains.Free(t)| then Chains.Free(t)[..n] else []
  {
    q := if 1 <= n <= |Chains.Free(t)| then Chains.Free(t)[..n] else [];
  }

  lemma AllocateStep(t: Chains.Table, u: Chains.Table, eoc: nat, files: seq<seq<nat>>, k: nat, n: nat, q: seq<nat>)
    requires k < |files| && files[k] == [] && Allocated(t, u, eoc, n, Head(q))
    requires q == if 1 <= n <= |Chains.Free(t)| then Chains.Free(t)[..n] else []
    ensures Ledger.Step(eoc, Ledger.State(t, files), Ledger.Allocate(k, n), Ledger.State(u, files[k := q]))
  {
    hide Allocated, Chains.Free;
  }

  lemma ReleaseStep(t: Chains.Table, u: Chains.Table, eoc: nat, files: seq<seq<nat>>, k: nat, ok: bool)
    requires k < |files| && files[k] != [] && Chains.IsData(t, files[k][0]) && TableFreed(t, u, eoc, files[k][0], ok)
    ensures Ledger.Step(eoc, Ledger.State(t, files), Ledger.Release(k), Ledger.State(u, files[k := []]))
  {
    hide Chains.TraceOf, Chains.Zeroed, Chains.EndsWell;
  }

  lemma ResizeStep(t: Chains.Table, u: Chains.Table, eoc: nat, files: seq<seq<nat>>, k: nat, n: nat, q: seq<nat>, ok: bool)
    requires k < |files| && Resized(t, u, eoc, files[k], n, q, ok)
    ensures Ledger.Step(eoc, Ledger.State(t, files), Ledger.Resize(k, n), Ledger.State(u, files[k := q]))
  {
    hide Resized;
    var s, s' := Ledger.State(t, files), Ledger.State(u, files[k := q]);
    assert Resized(s.table, s'.table, eoc, s.files[k], n, s'.files[k], ok);
  }

  /** A sequence of such requests is a run of the ledger. */
  method SetAllClusters(vol: Volume, heads: seq<u32>, requests: seq<(nat, u32)>, ghost files: seq<seq<nat>>)
    returns (heads': seq<u32>, ghost states: seq<Ledger.State>, ghost ops: seq<Ledger.Operation>)
    requires vol.Valid() && AreHeads(heads, files) && forall i :: 0 <= i < |requests| ==> requests[i].0 < |heads|
    requires Ledger.Invariant(vol.g.Eoc(), TableState(vol, files))
    modifies vol
    ensures vol.Valid() && |ops| == |requests| && Ledger.IsRun(vol.g.Eoc(), states, ops)
    ensures states[0] == old(TableState(vol, files)) && states[|ops|].table == vol.Table()
    ensures AreHeads(heads', states[|ops|].files)
  {
    hide *;
    ghost var now := files;
    heads', states, ops := heads, [TableState(vol, files)], [];
    LedgerRunStart(vol.g.Eoc(), TableState(vol, files));
    for i := 0 to |requests|
      invariant vol.Valid() && AreHeads(heads', now) && |heads'| == |heads|
      invariant Ledger.Invariant(vol.g.Eoc(), TableState(vol, now))
      invariant |ops| == i && |states| == i + 1 && Ledger.IsRun(vol.g.Eoc(), states, ops)
      invariant states[0] == old(TableState(vol, files)) && states[i] == TableState(vol, now)
    {
      ghost var op;
      heads', now, op := SetClusters(vol, heads', requests[i].0, requests[i].1, now);
      LedgerRunNext(vol.g.Eoc(), states, ops, op, TableState(vol, now));
      states, ops := states + [TableState(vol, now)], ops + [op];
    }
    StateOfTable(vol, now);
  }

  lemma LedgerRunStart(eoc: nat, s: Ledger.State)
    ensures Ledger.IsRun(eoc, [s], [])
  {
  }

  lemma LedgerRunNext(eoc: nat, states: seq<Ledger.State>, ops: seq<Ledger.Operation>, op: Ledger.Operation, s: Ledger.State)
    requires Ledger.IsRun(eoc, states, ops) && Ledger.Step(eoc, states[|ops|], op, s)
    ensures Ledger.IsRun(eoc, states + [s], ops + [op])
  {
    hide Ledger.Step;
  }
}
