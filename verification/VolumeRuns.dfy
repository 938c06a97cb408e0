/**
 Runs of operations on any number of open files of one volume. An operation is whatever the methods
 of `FatFile` are proved to be: it leaves the handle good and keeps what `FileBytes.Kept` says.
 */
module VolumeRuns {
  import opened Words
  import opened Geometry
  import TableImage
  import Chains
  import opened Allocator
  import opened FileBytes
  import FatFiles
  import Ledger

  /** An open file: its chain and size, and where its directory entry is. */
  datatype File = File(chain: seq<nat>, size: nat, sector: nat, offset: nat)

  datatype State = State(image: Image, files: seq<File>)

  ghost predicate IsOpen(g: Bpb, img: Image, f: File) {
    IsHandle(g, img, f.chain, Head(f.chain), f.size, f.sector, f.offset)
  }

  /** Two files share no cluster, neither's entry lies in the other's clusters, and the entries do not overlap. */
  ghost predicate Apart(g: Bpb, img: Image, f: File, h: File)
    requires g.WellFormed(|img|)
  {
    && Ledger.DisjointSeqs(f.chain, h.chain)
    && Foreign(g, img, f.chain, h.sector) && Foreign(g, img, h.chain, f.sector)
    && (f.sector == h.sector ==> f.offset + ENTRY_BYTES <= h.offset || h.offset + ENTRY_BYTES <= f.offset)
  }

  ghost predicate Invariant(g: Bpb, s: State) {
    && g.WellFormed(|s.image|)
    && (forall i :: 0 <= i < |s.files| ==> IsOpen(g, s.image, s.files[i]))
    && (forall i, j :: 0 <= i < |s.files| && 0 <= j < |s.files| && i != j ==> Apart(g, s.image, s.files[i], s.files[j]))
  }

  /** An operation on file `k`. */
  ghost predicate Step(g: Bpb, s: State, k: nat, s': State) {
    && k < |s.files| == |s'.files|
    && (forall i :: 0 <= i < |s.files| && i != k ==> s'.files[i] == s.files[i])
    && var f, f' := s.files[k], s'.files[k];
       && f'.sector == f.sector && f'.offset == f.offset
       && Kept(g, f.sector, f.offset, s.image, f.chain, s'.image, f'.chain)
       && IsOpen(g, s'.image, f')
  }

  ghost predicate IsRun(g: Bpb, states: seq<State>, ops: seq<nat>) {
    && |states| == |ops| + 1
    && forall i :: 0 <= i < |ops| ==> Step(g, states[i], ops[i], states[i + 1])
  }

  ghost function ContentOf(g: Bpb, img: Image, f: File): seq<byte>
    requires IsOpen(g, img, f)
  {
    Content(g, img, f.chain, f.size)
  }

  function Lengths(files: seq<File>): nat {
    if files == [] then 0 else |files[0].chain| + Lengths(files[1..])
  }

  /** All clusters that are free or belong to an open file. */
  ghost function Clusters(g: Bpb, s: State): nat
    requires g.WellFormed(|s.image|)
  {
    |Chains.Free(TableImage.TableOf(g, s.image))| + Lengths(s.files)
  }

  // ----- one operation -----

  lemma OpenMeans(g: Bpb, img: Image, f: File)
    requires IsOpen(g, img, f)
    ensures g.WellFormed(|img|) && TableImage.Mirrored(g, img) && IsFile(TableImage.TableOf(g, img), g.Eoc(), f.chain)
    ensures Foreign(g, img, f.chain, f.sector) && f.offset + ENTRY_BYTES <= SECTOR_SIZE
  {
    hide Bpb.WellFormed, TableImage.TableOf, TableImage.Mirrored, IsFile, Foreign;
  }

  /** Another file stays open, with its contents and its directory entry, and stays apart from the one that changed. */
  lemma OtherStays(g: Bpb, a: Image, b: Image, f: File, f': File, h: File)
    requires IsOpen(g, a, f) && IsOpen(g, b, f') && IsOpen(g, a, h) && g.WellFormed(|a|) && Apart(g, a, f, h)
    requires f'.sector == f.sector && f'.offset == f.offset
    requires Kept(g, f.sector, f.offset, a, f.chain, b, f'.chain)
    ensures IsOpen(g, b, h) && ContentOf(g, b, h) == ContentOf(g, a, h)
    ensures g.WellFormed(|b|) && Apart(g, b, f', h) && Apart(g, b, h, f')
    ensures h.sector < |b| == |a| && h.offset + ENTRY_BYTES <= SECTOR_SIZE
    ensures FatFiles.EntryAt(b[h.sector], h.offset) == FatFiles.EntryAt(a[h.sector], h.offset)
  {
    hide Bpb.WellFormed, TableImage.TableOf, TableImage.Mirrored, IsFile, Foreign, Kept, FatFiles.EntryAt, Bytes;
    OpenMeans(g, a, f);
    OpenMeans(g, b, f');
    OpenMeans(g, a, h);
    FatFiles.OtherFileKept(g, f.sector, f.offset, a, f.chain, b, f'.chain, h.chain, Head(h.chain), h.size, h.sector, h.offset);
    OpenMeans(g, b, h);
    KeptForeign(g, f.sector, f.offset, a, f.chain, b, f'.chain, h.sector);
    FatFiles.ForeignOfTwo(g, a, b, f'.chain, h.chain, f.sector);
    EntryStays(g, a, b, f, f', h);
  }

  lemma EntryStays(g: Bpb, a: Image, b: Image, f: File, f': File, h: File)
    requires Kept(g, f.sector, f.offset, a, f.chain, b, f'.chain) && Foreign(g, a, f.chain, h.sector)
    requires f.sector == h.sector ==> f.offset + ENTRY_BYTES <= h.offset || h.offset + ENTRY_BYTES <= f.offset
    requires h.offset + ENTRY_BYTES <= SECTOR_SIZE
    ensures h.sector < |a| == |b|
    ensures FatFiles.EntryAt(b[h.sector], h.offset) == FatFiles.EntryAt(a[h.sector], h.offset)
  {
    hide Bpb.WellFormed, TableImage.TableOf, TableKept;
    ForeignInside(g, a, f.chain, h.sector);
    assert SectorKept(h.sector == f.sector, f.offset, a[h.sector], b[h.sector]);
  }

  /** Two files that an operation does not concern stay apart. */
  lemma PairStays(g: Bpb, a: Image, b: Image, f: File, f': File, h: File, k: File)
    requires g.WellFormed(|a|) && Kept(g, f.sector, f.offset, a, f.chain, b, f'.chain)
    requires Apart(g, a, f, h) && Apart(g, a, f, k) && Apart(g, a, h, k)
    ensures g.WellFormed(|b|) && Apart(g, b, h, k)
  {
    hide Bpb.WellFormed, TableImage.TableOf, Foreign, Kept;
    KeptForeign(g, f.sector, f.offset, a, f.chain, b, f'.chain, h.sector);
    KeptForeign(g, f.sector, f.offset, a, f.chain, b, f'.chain, k.sector);
    FatFiles.ForeignOfTwo(g, a, b, f'.chain, h.chain, k.sector);
    FatFiles.ForeignOfTwo(g, a, b, f'.chain, k.chain, h.sector);
  }

  lemma StepMeans(g: Bpb, s: State, k: nat, s': State)
    requires Step(g, s, k, s')
    ensures k < |s.files| == |s'.files|
    ensures forall i :: 0 <= i < |s.files| && i != k ==> s'.files[i] == s.files[i]
    ensures s'.files[k].sector == s.files[k].sector && s'.files[k].offset == s.files[k].offset
    ensures Kept(g, s.files[k].sector, s.files[k].offset, s.image, s.files[k].chain, s'.image, s'.files[k].chain)
    ensures IsOpen(g, s'.image, s'.files[k])
  {
    hide Kept, IsOpen;
  }

  /** Every operation keeps all files open and apart. */
  lemma StepKeepsInvariant(g: Bpb, s: State, k: nat, s': State)
    requires Invariant(g, s) && Step(g, s, k, s')
    ensures Invariant(g, s')
  {
    hide Step, IsOpen, Apart, Kept, Bpb.WellFormed;
    StepMeans(g, s, k, s');
    OpenMeans(g, s'.image, s'.files[k]);
    forall i | 0 <= i < |s.files| && i != k
      ensures IsOpen(g, s'.image, s'.files[i])
      ensures Apart(g, s'.image, s'.files[i], s'.files[k]) && Apart(g, s'.image, s'.files[k], s'.files[i])
    {
      OtherStays(g, s.image, s'.image, s.files[k], s'.files[k], s.files[i]);
    }
    forall i, j | 0 <= i < |s.files| && 0 <= j < |s.files| && i != j && i != k && j != k
      ensures Apart(g, s'.image, s'.files[i], s'.files[j])
    {
      PairStays(g, s.image, s'.image, s.files[k], s'.files[k], s.files[i], s.files[j]);
    }
  }

  /** No operation on one file changes a byte of another, or its directory entry. */
  lemma StepKeepsOthers(g: Bpb, s: State, k: nat, s': State, j: nat)
    requires Invariant(g, s) && Step(g, s, k, s') && j < |s.files| && j != k
    ensures IsOpen(g, s.image, s.files[j]) && IsOpen(g, s'.image, s.files[j]) && s'.files[j] == s.files[j]
    ensures ContentOf(g, s'.image, s.files[j]) == ContentOf(g, s.image, s.files[j])
    ensures s.files[j].sector < |s'.image| == |s.image| && s.files[j].offset + ENTRY_BYTES <= SECTOR_SIZE
    ensures FatFiles.EntryAt(s'.image[s.files[j].sector], s.files[j].offset)
         == FatFiles.EntryAt(s.image[s.files[j].sector], s.files[j].offset)
  {
    hide Step, IsOpen, Apart, Kept, Bpb.WellFormed, ContentOf, FatFiles.EntryAt;
    StepMeans(g, s, k, s');
    OtherStays(g, s.image, s'.image, s.files[k], s'.files[k], s.files[j]);
  }

  lemma {:induction false} LengthsUpdate(files: seq<File>, i: nat, f: File)
    requires i < |files|
    ensures Lengths(files[i := f]) == Lengths(files) - |files[i].chain| + |f.chain|
  {
    if i == 0 {
      assert files[i := f][1..] == files[1..];
    } else {
      LengthsUpdate(files[1..], i - 1, f);
      assert files[i := f][1..] == files[1..][i - 1 := f];
    }
  }

  /** Every operation conserves clusters. */
  lemma StepConserves(g: Bpb, s: State, k: nat, s': State)
    requires Invariant(g, s) && Step(g, s, k, s')
    ensures g.WellFormed(|s'.image|) && Clusters(g, s') == Clusters(g, s)
  {
    hide Step, IsOpen, Apart, Kept, Bpb.WellFormed, Lengths;
    StepMeans(g, s, k, s');
    LengthsUpdate(s.files, k, s'.files[k]);
    assert s'.files == s.files[k := s'.files[k]];
    FatFiles.AvailKept(g, s.files[k].sector, s.files[k].offset, s.image, s.files[k].chain, s'.image, s'.files[k].chain);
  }

  // ----- all runs -----

  /** At every state of every run all files are open and apart, and clusters are conserved. */
  lemma {:induction false} RunKeepsInvariant(g: Bpb, states: seq<State>, ops: seq<nat>, n: nat)
    requires IsRun(g, states, ops) && Invariant(g, states[0]) && n < |states|
    ensures Invariant(g, states[n]) && |states[n].files| == |states[0].files|
    ensures Clusters(g, states[n]) == Clusters(g, states[0])
  {
    hide Step, Invariant;
    InvariantMeans(g, states[0]);
    if n > 0 {
      RunKeepsInvariant(g, states, ops, n - 1);
      StepMeans(g, states[n - 1], ops[n - 1], states[n]);
      StepKeepsInvariant(g, states[n - 1], ops[n - 1], states[n]);
      StepConserves(g, states[n - 1], ops[n - 1], states[n]);
      InvariantMeans(g, states[n - 1]);
    }
  }

  lemma InvariantMeans(g: Bpb, s: State)
    requires Invariant(g, s)
    ensures g.WellFormed(|s.image|)
    ensures forall i :: 0 <= i < |s.files| ==> IsOpen(g, s.image, s.files[i])
  {
    hide IsOpen, Apart, Bpb.WellFormed;
  }

  /** Over every run a file that no operation of the run concerns keeps every byte. */
  lemma {:induction false} RunKeepsOthers(g: Bpb, states: seq<State>, ops: seq<nat>, n: nat, j: nat)
    requires IsRun(g, states, ops) && Invariant(g, states[0]) && n < |states| && j < |states[0].files|
    requires forall i :: 0 <= i < n ==> ops[i] != j
    ensures j < |states[n].files| && states[n].files[j] == states[0].files[j]
    ensures IsOpen(g, states[0].image, states[0].files[j]) && IsOpen(g, states[n].image, states[0].files[j])
    ensures ContentOf(g, states[n].image, states[0].files[j]) == ContentOf(g, states[0].image, states[0].files[j])
  {
    hide Step, Invariant, IsOpen, ContentOf;
    InvariantMeans(g, states[0]);
    if n > 0 {
      RunKeepsOthers(g, states, ops, n - 1, j);
      RunKeepsInvariant(g, states, ops, n - 1);
      StepKeepsOthers(g, states[n - 1], ops[n - 1], states[n], j);
      StepMeans(g, states[n - 1], ops[n - 1], states[n]);
    }
  }
}
