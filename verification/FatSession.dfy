/**
 Whole runs on one open file: every run of reads, writes, seeks, truncations and
 synchronisations that meets no disk error does to the contents, and gives back, what the
 same operations on a string of bytes and a position would. Whatever happens, other files
 are left alone.
 */
module FatSession {
  import opened FatLayout
  import opened FatVolume
  import opened FatChains
  import opened FatFile
  import opened FatContent
  import opened FatFileState
  import opened FatFileIo

  datatype Op = DoRead(count: nat) | DoWrite(data: seq<Byte>) | DoSeek(pos: nat) | DoTruncate | DoSync

  datatype Out = Gave(data: seq<Byte>) | Took(count: nat) | Done

  /** A file as its user thinks of it; whether the volume is full: no cluster is free, or none is counted; whether it
      is marked as changed since it was synchronised, and whether the disk itself says what the file is. */
  datatype Abstract = Abstract(text: seq<Byte>, pos: nat, full: bool, dirty: bool, settled: bool)

  /** Only a full volume cuts a write or a seek past the end short, or, for a write, the largest size of a file on
      a FAT volume. */
  predicate Answers(g: Geometry, a: Abstract, op: Op, out: Out, b: Abstract) {
    a.pos <= |a.text| && b.pos <= |b.text| &&
    match op
    case DoRead(count) =>
      var n := if count < |a.text| - a.pos then count else |a.text| - a.pos;
      && out == Gave(a.text[a.pos..a.pos + n]) && b.text == a.text && b.pos == a.pos + n
      && b.dirty == a.dirty
    case DoWrite(data) =>
      && out.Took? && out.count <= |data| && b.text == Splice(a.text, a.pos, data[..out.count])
      && b.pos == a.pos + out.count && b.dirty
      && (out.count < |data| ==> b.full || (!g.kind.ExFat? && b.pos == 0xFFFF_FFFF))
    case DoSeek(pos) =>
      && out.Done? && a.text <= b.text && |b.text| == (if b.pos < |a.text| then |a.text| else b.pos)
      && b.pos <= pos && (b.pos < pos ==> |a.text| <= b.pos && b.full)
      && b.dirty == (a.dirty || |a.text| < |b.text|)
    case DoTruncate =>
      out.Done? && b.text == a.text[..a.pos] && b.pos == a.pos && b.dirty == (a.dirty || a.pos < |a.text|)
    case DoSync => out.Done? && b.text == a.text && b.pos == a.pos && !b.dirty && (a.dirty ==> b.settled)
  }

  /** `mid[k]` is the file before operation `k`, and after all of them the last one. */
  predicate Explains(g: Geometry, mid: seq<Abstract>, ops: seq<Op>, outs: seq<Out>) {
    && |mid| == |ops| + 1 && |outs| == |ops|
    && forall k :: 0 <= k < |ops| ==> Answers(g, mid[k], ops[k], outs[k], mid[k + 1])
  }

  lemma ExplainsMore(g: Geometry, mid: seq<Abstract>, ops: seq<Op>, outs: seq<Out>, op: Op, out: Out, b: Abstract)
    requires Explains(g, mid, ops, outs) && Answers(g, mid[|mid| - 1], op, out, b)
    ensures Explains(g, mid + [b], ops + [op], outs + [out])
  {
  }

  /** Positions a FAT file can be asked for and lengths the interface can pass. */
  predicate Askable(g: Geometry, op: Op) {
    && (op.DoWrite? ==> |op.data| < 0x1_0000_0000)
    && (op.DoSeek? && !g.kind.ExFat? ==> op.pos < 0x1_0000_0000)
  }

  ghost function Now(f: OpenFile): Abstract
    requires f.Inv()
    reads f, f.o, f.o.fs
  {
    var g, disk := f.o.fs.g, f.o.fs.disk;
    Abstract(f.Text(), f.fptr, f.o.fs.freeClst == 0 || f.o.fs.Free() == {}, f.modified,
        Settled(g, disk, f.o.obj, f.o.chain) && TextIn(g, disk, f.o.obj, f.o.chain) == f.Text())
  }

  /** An operation was answered as its meaning on the contents demands, or it failed for a reason: a disk access that
      failed, or damage to the table. Other files are left alone either way. */
  twostate predicate Answered(f: OpenFile, op: Op, res: FResult, out: Out)
    requires old(f.Inv())
    reads f, f.o, f.o.fs
  {
    && (res.Ok? ==>
          && f.err.Ok? && f.Inv() && f.Logged() && Answers(f.o.fs.g, old(Now(f)), op, out, Now(f))
          && OthersSafe(f.o.fs.g, old(f.o.fs.View()), f.o.fs.View(), old(Reach(f.o.fs.g, f.o.fs.View(), f.o.chain)))
          && Reach(f.o.fs.g, f.o.fs.View(), f.o.chain) == old(Reach(f.o.fs.g, f.o.fs.View(), f.o.chain)))
    && Spared(f.o.fs, old(f.o.fs.View()), old(Reach(f.o.fs.g, f.o.fs.View(), f.o.chain)))
    && f.o.fs.faults >= old(f.o.fs.faults)
    && (res.Ok? || (res.DiskErr? && f.o.fs.faults > old(f.o.fs.faults))
        || (res.IntErr? && Damaged(f.o.fs.g, old(f.o.fs.View()))))
  }

  method Get(f: OpenFile, count: nat) returns (res: FResult, out: Out)
    requires f.canRead && f.err.Ok? && f.Inv() && f.Logged()
    modifies f, f.o, f.o.fs
    ensures Answered(f, DoRead(count), res, out)
  {
    hide Volume.Valid, ViewOf, InvIn, TextIn, OthersSafe, FatOf, FreeOf, ClustersFor, Spared, Damaged;
    ghost var own := Reach(f.o.fs.g, f.o.fs.View(), f.o.chain);
    SafeSelf(f.o.fs.g, f.o.fs.View(), own);
    PointerInFile(f.o.fs.g, f.o.fs.View(), f.o.obj, f.o.chain, f.fptr, f.clust, f.sect);
    var data;
    res, data := f.FRead(count);
    SparedNow(f.o.fs, f.o.fs.View(), own);
    out := Gave(data);
  }

  method Put(f: OpenFile, data: seq<Byte>) returns (res: FResult, out: Out)
    requires f.canWrite && f.err.Ok? && f.Inv() && f.Logged() && |data| < 0x1_0000_0000
    modifies f, f.o, f.o.fs
    ensures Answered(f, DoWrite(data), res, out)
  {
    hide Volume.Valid, ViewOf, InvIn, TextIn, OthersSafe, FatOf, FreeOf, ClustersFor, Spared, Damaged, Splice;
    PointerInFile(f.o.fs.g, f.o.fs.View(), f.o.obj, f.o.chain, f.fptr, f.clust, f.sect);
    var n;
    res, n := f.FWrite(data);
    if res.Ok? { PointerInFile(f.o.fs.g, f.o.fs.View(), f.o.obj, f.o.chain, f.fptr, f.clust, f.sect); }
    out := Took(n);
  }

  method Move(f: OpenFile, pos: nat) returns (res: FResult, out: Out)
    requires f.canWrite && f.err.Ok? && f.Inv() && f.Logged() && (!f.o.fs.g.kind.ExFat? ==> pos < 0x1_0000_0000)
    modifies f, f.o, f.o.fs
    ensures Answered(f, DoSeek(pos), res, out)
  {
    hide Volume.Valid, ViewOf, InvIn, TextIn, OthersSafe, FatOf, FreeOf, ClustersFor, Spared, Damaged;
    PointerInFile(f.o.fs.g, f.o.fs.View(), f.o.obj, f.o.chain, f.fptr, f.clust, f.sect);
    res := f.FLseek(pos);
    out := Done;
  }

  method Cut(f: OpenFile) returns (res: FResult, out: Out)
    requires f.canWrite && f.err.Ok? && f.Inv() && f.Logged()
    modifies f, f.o, f.o.fs
    ensures Answered(f, DoTruncate, res, out)
  {
    hide Volume.Valid, ViewOf, InvIn, TextIn, OthersSafe, FatOf, FreeOf, ClustersFor, Spared, Damaged, Owned;
    ghost var g, v, chain, size := f.o.fs.g, f.o.fs.View(), f.o.chain, f.o.obj.objsize;
    ghost var own := Reach(g, v, chain);
    SafeSelf(g, v, own);
    PointerInFile(g, v, f.o.obj, chain, f.fptr, f.clust, f.sect);
    res := f.FTruncate();
    if res.Ok? {
      SafeMore(g, v, f.o.fs.View(), Owned(chain), own);
      if f.fptr < size { OwnedParts(chain, ClustersFor(g, f.fptr)); }
    }
    SparedMore(f.o.fs, v, v, Owned(chain), own);
    out := Done;
  }

  method Settle(f: OpenFile) returns (res: FResult, out: Out)
    requires f.err.Ok? && f.Inv() && f.Logged()
    modifies f, f.o, f.o.fs
    ensures Answered(f, DoSync, res, out)
  {
    hide Volume.Valid, ViewOf, InvIn, TextIn, OthersSafe, FatOf, FreeOf, ClustersFor, Spared, Damaged, Settled;
    ghost var g, v, own := f.o.fs.g, f.o.fs.View(), Reach(f.o.fs.g, f.o.fs.View(), f.o.chain);
    PointerInFile(g, v, f.o.obj, f.o.chain, f.fptr, f.clust, f.sect);
    res := f.FSync();
    SafeMore(g, v, f.o.fs.View(), Owned(f.o.chain), own);
    SparedNow(f.o.fs, v, own);
    out := Done;
  }

  /** One operation, against its meaning on the contents. */
  method Do(f: OpenFile, op: Op) returns (res: FResult, out: Out)
    requires f.canRead && f.canWrite && f.err.Ok? && f.Inv() && f.Logged() && Askable(f.o.fs.g, op)
    modifies f, f.o, f.o.fs
    ensures Answered(f, op, res, out)
  {
    hide Volume.Valid, ViewOf, InvIn, Answered;
    match op
    case DoRead(count) => res, out := Get(f, count);
    case DoWrite(data) => res, out := Put(f, data);
    case DoSeek(pos) => res, out := Move(f, pos);
    case DoTruncate => res, out := Cut(f);
    case DoSync => res, out := Settle(f);
  }

  /** Every run, on a file open for reading and writing: up to a first error all answers are those of the contents
      seen as a string, and there is none unless a disk access fails or the table was damaged before. Files in other
      clusters are left alone either way. */
  method Run(f: OpenFile, ops: seq<Op>) returns (res: FResult, outs: seq<Out>, ghost mid: seq<Abstract>)
    requires f.canRead && f.canWrite && f.err.Ok? && f.Inv() && f.Logged()
    requires forall k :: 0 <= k < |ops| ==> Askable(f.o.fs.g, ops[k])
    modifies f, f.o, f.o.fs
    ensures |outs| <= |ops| && Explains(f.o.fs.g, mid, ops[..|outs|], outs) && mid[0] == old(Now(f))
    ensures if res.Ok? then |outs| == |ops| && f.err.Ok? && f.Inv() && f.Logged() && mid[|ops|] == Now(f)
            else |outs| < |ops|
    ensures res.Ok? || f.o.fs.faults > old(f.o.fs.faults) || Damaged(f.o.fs.g, old(f.o.fs.View()))
    ensures Spared(f.o.fs, old(f.o.fs.View()), old(Reach(f.o.fs.g, f.o.fs.View(), f.o.chain)))
  {
    hide Volume.Valid, ViewOf, InvIn, TextIn, OthersSafe, Reach, Answers, Spared, Damaged;
    ghost var g, v, own := f.o.fs.g, f.o.fs.View(), Reach(f.o.fs.g, f.o.fs.View(), f.o.chain);
    SafeSelf(g, v, own);
    outs, mid, res := [], [Now(f)], Ok;
    for i := 0 to |ops|
      invariant f.o.fs.faults >= old(f.o.fs.faults)
      invariant f.err.Ok? && f.Inv() && f.Logged() && res.Ok?
      invariant Explains(g, mid, ops[..i], outs) && mid[0] == old(Now(f)) && mid[i] == Now(f)
      invariant OthersSafe(g, v, f.o.fs.View(), own) && Reach(g, f.o.fs.View(), f.o.chain) == own
    {
      ghost var was := (f.o.obj, f.o.chain, f.fptr, f.clust, f.sect);
      ghost var u, reach := f.o.fs.View(), Reach(g, f.o.fs.View(), f.o.chain);
      var out;
      res, out := Do(f, ops[i]);
      SparedMore(f.o.fs, v, u, reach, own);
      if !res.Ok? {
        if res.IntErr? { DamagedFile(g, v, u, was.0, was.1, was.2, was.3, was.4, own); }
        return;
      }
      SafeMore(g, u, f.o.fs.View(), reach, own);
      SafeTwice(g, v, u, f.o.fs.View(), own);
      ExplainsMore(g, mid, ops[..i], outs, ops[i], out, Now(f));
      assert ops[..i + 1] == ops[..i] + [ops[i]];
      outs, mid := outs + [out], mid + [Now(f)];
    }
    SparedNow(f.o.fs, v, own);
  }
}
