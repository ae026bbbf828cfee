/**
 An open file: reading, writing, seeking, truncating and synchronising, in the configuration
 where file data goes through the volume's one window.
 */
module FatFileIo {
  import opened FatLayout
  import opened FatChains
  import opened FatVolume
  import opened FatFile
  import opened FatContent
  import opened FatFileState

  class OpenFile {
    const o: FileObject
    const canRead: bool
    const canWrite: bool
    var fptr: nat
    var clust: nat
    var sect: nat
    var modified: bool
    var err: FResult

    ghost predicate Inv()
      reads this, o, o.fs
    {
      o.fs.Valid() && InvIn(o.fs.g, o.fs.View(), o.obj, o.chain, fptr, clust, sect)
    }

    /** What a synchronisation has to write out is marked by the flag. */
    ghost predicate Logged()
      reads this, o
    {
      modified || (o.obj.nFrag == 0 && o.obj.stat != 3)
    }

    /** After an aborted operation nothing is promised about the file until it is closed. */
    ghost predicate Valid()
      reads this, o, o.fs
    {
      err.Ok? ==> Inv() && Logged()
    }

    /** The contents of the file. */
    ghost function Text(): (c: seq<Byte>)
      requires Inv()
      reads this, o, o.fs
      ensures |c| == o.obj.objsize
    {
      TextIn(o.fs.g, o.fs.View(), o.obj, o.chain)
    }

    /** Opens a file that its directory entry describes by `o`. */
    constructor (o: FileObject, canRead: bool, canWrite: bool)
      requires o.Kept() && Sized(o.fs.g, o.obj, o.chain) && o.obj.nFrag == 0 && o.obj.stat != 3
      requires Secure(o.fs.g, o.fs.View(), o.chain)
      requires !o.fs.g.kind.ExFat? ==> o.obj.objsize < 0x1_0000_0000
      ensures Inv() && Logged() && err.Ok? && fptr == 0
      ensures this.o == o && this.canRead == canRead && this.canWrite == canWrite
    {
      this.o := o;
      this.canRead := canRead;
      this.canWrite := canWrite;
      this.fptr, this.clust, this.sect := 0, 0, 0;
      this.modified := false;
      this.err := Ok;
    }

    // ----- reading -----

    /** The cluster step of a read: on a cluster boundary the link of the current cluster is followed. */
    method NextForRead() returns (res: FResult)
      requires Inv() && fptr < o.obj.objsize && fptr % SS == 0 && Off(o.fs.g, fptr / SS) == 0
      modifies this`clust, this`err, o.fs`disk, o.fs`win, o.fs`winsect, o.fs`wflag, o.fs`failures, o.fs`faults
      ensures o.fs.faults >= old(o.fs.faults) && (res.DiskErr? ==> o.fs.faults > old(o.fs.faults))
      ensures o.fs.Valid() && o.fs.View() == old(o.fs.View()) && (res.Ok? ==> err == old(err))
      ensures res.Ok? ==> AtCluster(o.fs.g, o.chain, fptr, clust) && AtEdge(o.obj, o.chain, clust)
      ensures !res.Ok? ==> err == res
      ensures res.Ok? || res.DiskErr?
    {
      hide Volume.Valid, ViewOf, FatOf, FreeOf, LinkValue, Secure, Addr, Spells, Allocated, ClustersFor, Nth, Off,
           Start;
      ghost var g, v, chain := o.fs.g, o.fs.View(), o.chain;
      LaidOut(g, v, o.obj, chain);
      IdxZero(g);
      IdxInChain(g, o.obj, chain, fptr);
      var clst: nat := o.obj.sclust;
      if fptr > 0 {
        SizedNext(g, o.obj, chain, fptr);
        NotLastIfMore(g, v, o.obj, chain, Idx(g, fptr - 1), clust);
        LinkFollows(g, o.fs.Fat(), o.obj, chain, Idx(g, fptr - 1));
        clst := o.GetFat(clust);
      }
      if clst < 2 || clst == UNKNOWN {
        res := if clst < 2 then IntErr else DiskErr;
        err := res;
        return;
      }
      clust := clst;
      res := Ok;
    }

    /** Reads up to `btr` bytes from the file pointer on: exactly the bytes of the file there, fewer only at
        its end. */
    method FRead(btr: nat) returns (res: FResult, data: seq<Byte>)
      requires Valid()
      modifies this`clust, this`sect, this`fptr, this`err, o.fs`disk, o.fs`win, o.fs`winsect, o.fs`wflag, o.fs`failures,
               o.fs`faults
      ensures o.fs.faults >= old(o.fs.faults) && (res.DiskErr? && old(err).Ok? ==> o.fs.faults > old(o.fs.faults))
      ensures Valid()
      ensures old(err).Ok? && canRead ==> (res.Ok? <==> err.Ok?)
      ensures old(err).Ok? ==> o.fs.Valid() && o.fs.View() == old(o.fs.View())
      ensures res.Ok? ==> old(err).Ok? && canRead && err.Ok?
      ensures res.Ok? ==>
                var n := if btr < |old(Text())| - old(fptr) then btr else |old(Text())| - old(fptr);
                data == old(Text())[old(fptr)..old(fptr) + n] && fptr == old(fptr) + n && Text() == old(Text())
      ensures !old(err).Ok? ==> res == old(err)
      ensures old(err).Ok? && !canRead ==> res.Denied? && err.Ok? && fptr == old(fptr)
      ensures old(err).Ok? && canRead ==> res.Ok? || res.DiskErr?
    {
      hide Volume.Valid, ViewOf, InvIn, TextIn, Nth, Off, Start;
      data := [];
      if !err.Ok? { return err, data; }
      if !canRead { return Denied, data; }
      assert fptr <= o.obj.objsize by { PointerInFile(o.fs.g, o.fs.View(), o.obj, o.chain, fptr, clust, sect); }
      var left := if o.obj.objsize - fptr < btr then o.obj.objsize - fptr else btr;
      ghost var v, text, p0, n := o.fs.View(), Text(), fptr, left;
      while left > 0
        invariant o.fs.faults >= old(o.fs.faults)
        invariant err.Ok? && Inv() && o.fs.View() == v && Text() == text
        invariant 0 <= left <= n && p0 + n <= |text| && fptr == p0 + (n - left) && data == text[p0..fptr]
      {
        var d;
        res, d := ReadChunk(left);
        if !res.Ok? { return; }
        data := data + d;
        left := left - |d|;
      }
      res := Ok;
    }

    /** One round of the read loop: whole sectors of one cluster straight into the caller's buffer, or the
        rest of one sector out of the window. */
    method ReadChunk(btr: nat) returns (res: FResult, d: seq<Byte>)
      requires Inv() && err.Ok? && 0 < btr <= o.obj.objsize - fptr
      modifies this`clust, this`sect, this`fptr, this`err, o.fs`disk, o.fs`win, o.fs`winsect, o.fs`wflag, o.fs`failures,
               o.fs`faults
      ensures o.fs.faults >= old(o.fs.faults) && (res.DiskErr? ==> o.fs.faults > old(o.fs.faults))
      ensures o.fs.Valid() && o.fs.View() == old(o.fs.View()) && (res.Ok? ==> err.Ok? && Inv())
      ensures res.Ok? ==> 0 < |d| <= btr && fptr == old(fptr) + |d| && d == old(Text())[old(fptr)..old(fptr) + |d|]
      ensures !res.Ok? ==> err == res
      ensures res.Ok? || res.DiskErr?
    {
      hide Volume.Valid, ViewOf, FatOf, FreeOf, SoundIn, Addr, Sized, Nth, Off, Start, Room;
      var g := o.fs.g;
      ghost var v, chain := o.fs.View(), o.chain;
      LaidOut(g, v, o.obj, chain);
      d := [];
      var k := fptr / SS;
      var csect := Off(g, k);
      OffSmall(g, k);
      if fptr % SS == 0 && csect == 0 {
        res := NextForRead();
        if !res.Ok? { return; }
      } else {
        IdxInside(g, fptr);
      }
      if fptr % SS == 0 {
        if SS <= btr {
          res, d := ReadWhole(btr);
          return;
        }
        ClusterSectorOk(g, v, chain, k);
        sect := ClusterSector(g, clust) + csect;
      }
      var n := if SS - fptr % SS < btr then SS - fptr % SS else btr;
      RoomAtLeast(g, fptr, 0);
      res, d := ReadPart(n);
    }

    /** Whole sectors of the current cluster. */
    method ReadWhole(btr: nat) returns (res: FResult, d: seq<Byte>)
      requires o.fs.Valid() && SoundIn(o.fs.g, o.fs.View(), o.obj, o.chain) && Sized(o.fs.g, o.obj, o.chain) && err.Ok?
      requires AtCluster(o.fs.g, o.chain, fptr, clust) && AtEdge(o.obj, o.chain, clust)
      requires fptr % SS == 0 && SS <= btr <= o.obj.objsize - fptr
      modifies this`fptr, this`err, o.fs`faults
      ensures o.fs.faults >= old(o.fs.faults) && (res.DiskErr? ==> o.fs.faults > old(o.fs.faults))
      ensures o.fs.Valid() && o.fs.View() == old(o.fs.View()) && (res.Ok? ==> err.Ok? && Inv())
      ensures res.Ok? ==> 0 < |d| <= btr && fptr == old(fptr) + |d| && d == Text()[old(fptr)..old(fptr) + |d|]
      ensures !res.Ok? ==> err == res
      ensures res.Ok? || res.DiskErr?
    {
      hide Volume.Valid, ViewOf, FatOf, FreeOf, SoundIn, Addr, Sized, Nth, Off, Start, Room;
      var g := o.fs.g;
      LaidOut(g, o.fs.View(), o.obj, o.chain);
      var csect := Off(g, fptr / SS);
      OffSmall(g, fptr / SS);
      ClusterSectorOk(g, o.fs.View(), o.chain, fptr / SS);
      var cc := btr / SS;
      if g.csize < csect + cc { cc := g.csize - csect; }
      RoomAtLeast(g, fptr, cc);
      res, d := ReadDirect(ClusterSector(g, clust) + csect, cc);
    }

    method ReadDirect(s: nat, cc: nat) returns (res: FResult, d: seq<Byte>)
      requires Ready(SS * cc) && err.Ok? && fptr % SS == 0 && 1 <= cc && s == Addr(o.fs.g, o.chain, fptr / SS)
      modifies this`fptr, this`err, o.fs`faults
      ensures o.fs.faults >= old(o.fs.faults) && (res.DiskErr? ==> o.fs.faults > old(o.fs.faults))
      ensures o.fs.Valid() && o.fs.View() == old(o.fs.View())
      ensures res.Ok? ==> err.Ok? && Inv()
      ensures res.Ok? ==> |d| == SS * cc && fptr == old(fptr) + |d| && d == Text()[old(fptr)..old(fptr) + |d|]
      ensures !res.Ok? ==> err == res
      ensures res.Ok? || res.DiskErr?
    {
      hide Volume.Valid, ViewOf, FatOf, FreeOf, SoundIn, Addr, Sized, Nth, Off, Start;
      ghost var g, v, chain := o.fs.g, o.fs.View(), o.chain;
      LaidOut(g, v, o.obj, chain);
      RunIsData(g, v, chain, fptr / SS, cc);
      d := [];
      var ok, rows := o.fs.ReadThrough(s, cc);
      if !ok {
        res := DiskErr;
        err := res;
        return;
      }
      d := Flatten(rows);
      RunContent(g, v, o.obj, chain, fptr / SS, rows);
      assert SS * (fptr / SS) == fptr;
      AdvancedRows(g, chain, fptr, clust, sect, SS * cc);
      fptr := fptr + SS * cc;
      res := Ok;
    }

    method ReadPart(n: nat) returns (res: FResult, d: seq<Byte>)
      requires Ready(n) && err.Ok? && 1 <= n <= SS - fptr % SS && sect == Addr(o.fs.g, o.chain, fptr / SS)
      modifies this`fptr, this`err, o.fs`disk, o.fs`win, o.fs`winsect, o.fs`wflag, o.fs`failures, o.fs`faults
      ensures o.fs.faults >= old(o.fs.faults) && (res.DiskErr? ==> o.fs.faults > old(o.fs.faults))
      ensures o.fs.Valid() && o.fs.View() == old(o.fs.View()) && (res.Ok? ==> err.Ok? && Inv())
      ensures res.Ok? ==> |d| == n && fptr == old(fptr) + n && d == Text()[old(fptr)..old(fptr) + n]
      ensures !res.Ok? ==> err == res
      ensures res.Ok? || res.DiskErr?
    {
      hide Volume.Valid, ViewOf, FatOf, FreeOf, SoundIn, Addr, Sized, Nth, Off, Start;
      ghost var g, v, chain := o.fs.g, o.fs.View(), o.chain;
      LaidOut(g, v, o.obj, chain);
      ClusterSectorOk(g, v, chain, fptr / SS);
      d := [];
      res := o.fs.MoveWindow(sect);
      if !res.Ok? {
        err := res;
        return;
      }
      d := o.fs.win[fptr % SS..fptr % SS + n];
      o.fs.WindowIsView();
      PartContent(g, v, o.obj, chain, fptr, n);
      PartStep(fptr, n);
      Advanced(g, chain, fptr, clust, sect, n);
      fptr := fptr + n;
    }

    // ----- writing -----

    /** Follows the chain from cluster `cl`, which holds byte `p - 1`, to the one of byte `p`, stretching
        it where it ends. */
    method Follow(p: nat, cl: nat) returns (clst: nat)
      requires o.fs.Valid() && SoundIn(o.fs.g, o.fs.View(), o.obj, o.chain) && Sized(o.fs.g, o.obj, o.chain)
      requires 0 < p <= o.obj.objsize && p % SS == 0 && Off(o.fs.g, p / SS) == 0
      requires AtCluster(o.fs.g, o.chain, p - 1, cl) && AtEdge(o.obj, o.chain, cl)
      modifies o`obj, o`chain, o.fs
      ensures o.fs.faults >= old(o.fs.faults) && (clst == UNKNOWN ==> o.fs.faults > old(o.fs.faults))
      ensures o.fs.Valid()
      ensures OthersIntact(o.fs.g, old(o.fs.View()), o.fs.View(), old(Reach(o.fs.g, o.fs.View(), o.chain)))
      ensures clst == 0 || clst == 1 || clst == UNKNOWN || o.fs.g.IsCluster(clst)
      ensures clst == 0 ==> o.fs.View() == old(o.fs.View()) && o.obj == old(o.obj) && o.chain == old(o.chain)
      ensures clst == 0 ==> p == o.obj.objsize && (o.fs.freeClst == 0 || o.fs.Free() == {})
      ensures p < old(o.obj).objsize && clst != UNKNOWN ==> o.obj == old(o.obj) && o.chain == old(o.chain)
      ensures o.fs.g.IsCluster(clst) ==> StagedIn(o.fs.g, o.fs.View(), o.obj, o.chain, p, clst)
      ensures o.fs.g.IsCluster(clst) ==> old(o.chain) <= o.chain && o.obj.objsize == old(o.obj).objsize
      ensures o.fs.g.IsCluster(clst) ==> Reach(o.fs.g, o.fs.View(), o.chain) == old(Reach(o.fs.g, o.fs.View(), o.chain))
      ensures old(o.FreeKnown()) && clst != 1 && clst != UNKNOWN ==> o.FreeKnown()
      ensures clst == 1 ==> Damaged(o.fs.g, old(o.fs.View()))
    {
      hide Volume.Valid, ViewOf, FatOf, FreeOf, Secure, Spells, Allocated, ClustersFor, OthersIntact, FreeIs, Idx, Nth,
           Off, Start, Damaged;
      ghost var g, v, chain, obj := o.fs.g, o.fs.View(), o.chain, o.obj;
      SizedNext(g, obj, chain, p);
      ghost var i: nat := Idx(g, p - 1);
      EdgeIndex(g, v, obj, chain, i, cl);
      SoundKept(o);
      ChainInRange(g, o.fs.Fat(), obj, chain);
      clst := o.CreateChain(cl, i);
      if clst == 1 { DamagedIf(g, v); }
      if 2 <= clst && clst != UNKNOWN {
        if i + 1 < |chain| {
          NotLastIfMore(g, v, obj, chain, i, cl);
        } else {
          StagedGrown(g, v, obj, chain, o.fs.View(), o.obj, p, clst);
          ReachGrown(g, v, o.fs.View(), chain, clst);
        }
      }
    }

    /** Starts the chain of an empty file. */
    method StartChain() returns (clst: nat)
      requires o.fs.Valid() && SoundIn(o.fs.g, o.fs.View(), o.obj, o.chain) && Sized(o.fs.g, o.obj, o.chain)
      requires o.obj.sclust == 0
      modifies o`obj, o`chain, o.fs
      ensures o.fs.faults >= old(o.fs.faults) && (clst == UNKNOWN ==> o.fs.faults > old(o.fs.faults))
      ensures o.fs.Valid()
      ensures OthersIntact(o.fs.g, old(o.fs.View()), o.fs.View(), old(Reach(o.fs.g, o.fs.View(), o.chain)))
      ensures clst == 0 || clst == 1 || clst == UNKNOWN || o.fs.g.IsCluster(clst)
      ensures clst == 0 ==> o.fs.View() == old(o.fs.View()) && o.obj == old(o.obj) && o.chain == old(o.chain)
      ensures clst == 0 ==> o.fs.freeClst == 0 || o.fs.Free() == {}
      ensures o.fs.g.IsCluster(clst) ==> StagedIn(o.fs.g, o.fs.View(), o.obj, o.chain, 0, clst)
      ensures o.fs.g.IsCluster(clst) ==> old(o.chain) <= o.chain && o.obj.objsize == old(o.obj).objsize
      ensures o.fs.g.IsCluster(clst) ==> Reach(o.fs.g, o.fs.View(), o.chain) == old(Reach(o.fs.g, o.fs.View(), o.chain))
      ensures old(o.FreeKnown()) && clst != 1 && clst != UNKNOWN ==> o.FreeKnown()
      ensures clst == 1 ==> Damaged(o.fs.g, old(o.fs.View()))
    {
      hide Volume.Valid, ViewOf, FatOf, FreeOf, Secure, Spells, Allocated, ClustersFor, OthersIntact, FreeIs, Idx, Nth,
           Off, Start, Damaged;
      ghost var g, v, obj := o.fs.g, o.fs.View(), o.obj;
      NoChain(g, v, obj, o.chain);
      EmptyFile(g, obj);
      SoundKept(o);
      clst := o.CreateChain(0, 0);
      if clst == 1 { DamagedIf(g, v); }
      if 2 <= clst && clst != UNKNOWN {
        SpellsRecord(g, o.fs.Fat(), o.obj, o.obj.(sclust := clst), o.chain);
        o.obj := o.obj.(sclust := clst);
        StagedGrown(g, v, obj, [], o.fs.View(), o.obj, 0, clst);
        ReachGrown(g, v, o.fs.View(), [], clst);
      }
    }

    /** The cluster step of a write: on a cluster boundary the chain is followed or stretched. */
    method NextForWrite() returns (res: FResult, full: bool)
      requires Inv() && err.Ok? && fptr % SS == 0 && Off(o.fs.g, fptr / SS) == 0
      modifies this`clust, this`err, o`obj, o`chain, o.fs
      ensures o.fs.faults >= old(o.fs.faults) && (res.DiskErr? ==> o.fs.faults > old(o.fs.faults))
      ensures !res.Ok? ==> err == res
      ensures res.Ok? ==> err.Ok?
      ensures o.fs.Valid()
      ensures OthersIntact(o.fs.g, old(o.fs.View()), o.fs.View(), old(Reach(o.fs.g, o.fs.View(), o.chain)))
      ensures res.Ok? && full ==>
                Inv() && o.fs.View() == old(o.fs.View()) && o.obj == old(o.obj) && o.chain == old(o.chain)
      ensures res.Ok? && full ==> o.fs.freeClst == 0 || o.fs.Free() == {}
      ensures res.Ok? && !full ==> StagedIn(o.fs.g, o.fs.View(), o.obj, o.chain, fptr, clust)
      ensures res.Ok? && !full ==> old(o.chain) <= o.chain && o.obj.objsize == old(o.obj).objsize
      ensures res.Ok? ==> Reach(o.fs.g, o.fs.View(), o.chain) == old(Reach(o.fs.g, o.fs.View(), o.chain))
      ensures res.Ok? && old(o.FreeKnown()) ==> o.FreeKnown()
      ensures !res.Denied? && (res.IntErr? ==> Damaged(o.fs.g, old(o.fs.View())))
    {
      hide Volume.Valid, ViewOf, FatOf, FreeOf, Secure, SoundIn, ClustersFor, OthersIntact, FreeIs, Idx, StagedIn, Nth,
           Off, Start, Damaged;
      ghost var g, v, chain, obj := o.fs.g, o.fs.View(), o.chain, o.obj;
      full := false;
      var clst := o.obj.sclust;
      if fptr > 0 {
        clst := Follow(fptr, clust);
      } else if clst == 0 {
        clst := StartChain();
      } else {
        OthersIntactSelf(g, v, Reach(g, v, chain));
        AtStart(g, v, obj, chain);
      }
      if clst == 0 {
        res, full := Ok, true;
        return;
      }
      if clst == 1 || clst == UNKNOWN {
        res := if clst == 1 then IntErr else DiskErr;
        err := res;
        return;
      }
      clust := clst;
      res := Ok;
    }

    /** What a write still needs once the current cluster is known. */
    ghost predicate Staged(text: seq<Byte>, n: nat)
      reads this, o, o.fs
    {
      && o.fs.Valid() && StagedIn(o.fs.g, o.fs.View(), o.obj, o.chain, fptr, clust) && fptr <= o.obj.objsize
      && 1 <= n <= Room(o.fs.g, fptr) && (!o.fs.g.kind.ExFat? ==> fptr + n < 0x1_0000_0000)
      && Reads(o.fs.g, o.fs.View(), o.chain, o.obj.objsize, text)
    }

    /** What has become of it when `d` is written. */
    twostate predicate Wrote(text: seq<Byte>, d: seq<Byte>)
      requires old(o.fs.Valid())
      reads this, o, o.fs
    {
      && err.Ok? && Inv() && fptr == old(fptr) + |d| && o.chain == old(o.chain)
      && old(fptr) <= |text| && Text() == Splice(text, old(fptr), d)
      && o.fs.Free() == old(o.fs.Free()) && o.fs.freeClst == old(o.fs.freeClst)
      && OthersSafe(o.fs.g, old(o.fs.View()), o.fs.View(), Owned(o.chain))
    }

    /** Whole sectors of the current cluster, straight from the caller's buffer. */
    method WriteDirect(s: nat, d: seq<Byte>, ghost text: seq<Byte>) returns (res: FResult)
      requires Staged(text, |d|) && err.Ok? && fptr % SS == 0 && |d| % SS == 0 && s == Addr(o.fs.g, o.chain, fptr / SS)
      modifies this`fptr, this`err, o`obj, o.fs`disk, o.fs`win, o.fs`wflag, o.fs`failures, o.fs`faults
      ensures o.fs.faults >= old(o.fs.faults) && (res.DiskErr? ==> o.fs.faults > old(o.fs.faults))
      ensures res.Ok? ==> Wrote(text, d)
      ensures !res.Ok? ==> err == res && Spared(o.fs, old(o.fs.View()), Owned(o.chain))
      ensures res.Ok? || res.DiskErr?
    {
      hide Volume.Valid, ViewOf, FatOf, FreeOf, SoundIn, Addr, Sized, TextIn, OthersSafe, Rows, Room, Nth, Off, Spared,
           Splice, Reads, SizedAt, AtEdge, Owned;
      ghost var g, v, chain, obj, p := o.fs.g, o.fs.View(), o.chain, o.obj, fptr;
      LaidOut(g, v, obj, chain);
      var rows := Sectors(d);
      RowsFit(g, p, rows, d);
      RunIsData(g, v, chain, fptr / SS, |rows|);
      var ok := o.fs.WriteThrough(s, rows);
      if !ok {
        FailedRows(o.fs, v, chain, p / SS, |rows|);
        res := DiskErr;
        err := res;
        return;
      }
      fptr := fptr + |d|;
      if fptr > o.obj.objsize { o.obj := o.obj.(objsize := fptr); }
      WroteRows(g, v, o.fs.View(), obj, chain, p, clust, text, rows, d, sect);
      TextReads(g, o.fs.View(), o.obj, chain, Splice(text, p, d));
      res := Ok;
    }

    /** The rest of one sector, or part of it, through the window. */
    method WritePart(d: seq<Byte>, blank: bool, ghost text: seq<Byte>) returns (res: FResult)
      requires Staged(text, |d|) && err.Ok? && |d| <= SS - fptr % SS && sect == Addr(o.fs.g, o.chain, fptr / SS)
      requires blank ==> fptr % SS == 0 && o.obj.objsize <= fptr
      modifies this`fptr, this`err, o`obj, o.fs`disk, o.fs`win, o.fs`winsect, o.fs`wflag, o.fs`failures, o.fs`faults
      ensures o.fs.faults >= old(o.fs.faults) && (res.DiskErr? ==> o.fs.faults > old(o.fs.faults))
      ensures res.Ok? ==> Wrote(text, d)
      ensures !res.Ok? ==> err == res && Spared(o.fs, old(o.fs.View()), Owned(o.chain))
      ensures res.Ok? || res.DiskErr?
      ensures blank && !old(o.fs.wflag) ==> res.Ok?
    {
      hide Volume.Valid, ViewOf, FatOf, FreeOf, SoundIn, Addr, Sized, TextIn, OthersSafe, Nth, Off, Start, Spared;
      ghost var g, v, chain, obj, p := o.fs.g, o.fs.View(), o.chain, o.obj, fptr;
      LaidOut(g, v, obj, chain);
      ClusterSectorOk(g, v, chain, fptr / SS);
      res := o.fs.PatchSector(sect, fptr % SS, d, blank);
      if !res.Ok? {
        SafeSelf(g, v, Owned(chain));
        SparedNow(o.fs, v, Owned(chain));
        err := res;
        return;
      }
      fptr := fptr + |d|;
      if fptr > o.obj.objsize { o.obj := o.obj.(objsize := fptr); }
      WrotePart(g, v, o.fs.View(), obj, chain, p, clust, text, d, sect, blank);
      TextReads(g, o.fs.View(), o.obj, chain, Splice(text, p, d));
    }

    /** Writes the window back if it shows the current sector. */
    method SyncIfShown() returns (res: FResult)
      requires o.fs.Valid() && err.Ok?
      modifies this`err, o.fs`disk, o.fs`wflag, o.fs`failures, o.fs`faults
      ensures o.fs.faults >= old(o.fs.faults) && (res.DiskErr? ==> o.fs.faults > old(o.fs.faults))
      ensures o.fs.Valid() && o.fs.View() == old(o.fs.View()) && err == res && (res.Ok? || res.DiskErr?)
      ensures Spared(o.fs, old(o.fs.View()), Owned(o.chain))
      ensures if o.fs.winsect == sect then (res.Ok? ==> !o.fs.wflag) && (!old(o.fs.wflag) ==> res.Ok?)
              else res.Ok? && o.fs.wflag == old(o.fs.wflag) && o.fs.disk == old(o.fs.disk)
    {
      hide Volume.Valid, ViewOf, OthersSafe, Spared, Owned;
      res := Ok;
      if o.fs.winsect == sect {
        res := o.fs.SyncWindow();
        err := res;
      }
      SafeSelf(o.fs.g, o.fs.View(), Owned(o.chain));
      SparedNow(o.fs, o.fs.View(), Owned(o.chain));
    }

    /** Whole sectors of the current cluster, as many as there is data and room for. */
    method WriteWhole(data: seq<Byte>, ghost text: seq<Byte>) returns (res: FResult, n: nat)
      requires Staged(text, 1) && err.Ok? && SS <= |data| && (!o.fs.g.kind.ExFat? ==> fptr + |data| < 0x1_0000_0000)
      requires fptr % SS == 0
      modifies this`fptr, this`err, o`obj, o.fs`disk, o.fs`win, o.fs`wflag, o.fs`failures, o.fs`faults
      ensures o.fs.faults >= old(o.fs.faults) && (res.DiskErr? ==> o.fs.faults > old(o.fs.faults))
      ensures res.Ok? ==> 1 <= n <= |data| && Wrote(text, data[..n])
      ensures !res.Ok? ==> err == res && Spared(o.fs, old(o.fs.View()), Owned(o.chain))
      ensures res.Ok? || res.DiskErr?
    {
      hide Volume.Valid, ViewOf, SoundIn, Addr, Sized, TextIn, OthersSafe, Room, Nth, Off, Start, Reads, SizedAt,
           AtEdge, Inv, Spared, Owned;
      var g := o.fs.g;
      LaidOut(g, o.fs.View(), o.obj, o.chain);
      var csect := Off(g, fptr / SS);
      OffSmall(g, fptr / SS);
      ClusterSectorOk(g, o.fs.View(), o.chain, fptr / SS);
      var cc := |data| / SS;
      if g.csize < csect + cc { cc := g.csize - csect; }
      RoomAtLeast(g, fptr, cc);
      n := SS * cc;
      res := WriteDirect(ClusterSector(g, clust) + csect, data[..n], text);
    }

    /** The rest of a round of the write loop, in the current cluster. */
    method WriteHere(data: seq<Byte>, ghost text: seq<Byte>) returns (res: FResult, n: nat)
      requires Staged(text, 1) && err.Ok? && 1 <= |data| && (!o.fs.g.kind.ExFat? ==> fptr + |data| < 0x1_0000_0000)
      requires fptr % SS != 0 ==> sect == Addr(o.fs.g, o.chain, fptr / SS)
      modifies this`fptr, this`sect, this`err, o`obj, o.fs`disk, o.fs`win, o.fs`winsect, o.fs`wflag, o.fs`failures,
               o.fs`faults
      ensures o.fs.faults >= old(o.fs.faults) && (res.DiskErr? ==> o.fs.faults > old(o.fs.faults))
      ensures res.Ok? ==> 1 <= n <= |data| && Wrote(text, data[..n])
      ensures !res.Ok? ==> err == res && Spared(o.fs, old(o.fs.View()), Owned(o.chain))
      ensures res.Ok? || res.DiskErr?
      ensures old(fptr) % SS == 0 && old(o.obj.objsize) <= old(fptr) && |data| < SS && !old(o.fs.wflag) ==> res.Ok?
    {
      hide Volume.Valid, ViewOf, SoundIn, Addr, Sized, TextIn, OthersSafe, Room, Nth, Off, Start, Reads, SizedAt,
           AtEdge, Inv, Spared, Owned;
      var g := o.fs.g;
      n := 0;
      var blank := false;
      LaidOut(g, o.fs.View(), o.obj, o.chain);
      if fptr % SS == 0 {
        res := SyncIfShown();
        if !res.Ok? { return; }
        if SS <= |data| {
          res, n := WriteWhole(data, text);
          return;
        }
        ClusterSectorOk(g, o.fs.View(), o.chain, fptr / SS);
        blank := o.obj.objsize <= fptr;
        sect := ClusterSector(g, clust) + Off(g, fptr / SS);
      }
      n := if SS - fptr % SS < |data| then SS - fptr % SS else |data|;
      RoomAtLeast(g, fptr, 0);
      res := WritePart(data[..n], blank, text);
    }

    /** The first half of a round of the write loop: makes the current cluster the one of the file pointer. */
    method Stage(ghost text: seq<Byte>) returns (res: FResult, full: bool)
      requires Inv() && err.Ok? && text == Text()
      modifies this`clust, this`err, o`obj, o`chain, o.fs
      ensures o.fs.faults >= old(o.fs.faults) && (res.DiskErr? ==> o.fs.faults > old(o.fs.faults))
      ensures !res.Ok? ==> err == res && Spared(o.fs, old(o.fs.View()), old(Reach(o.fs.g, o.fs.View(), o.chain)))
      ensures res.Ok? ==>
                && err.Ok? && o.fs.Valid()
                && OthersSafe(o.fs.g, old(o.fs.View()), o.fs.View(), old(Reach(o.fs.g, o.fs.View(), o.chain)))
      ensures res.Ok? && full ==> Inv() && Text() == text && (o.fs.freeClst == 0 || o.fs.Free() == {})
      ensures res.Ok? && !full ==> StagedIn(o.fs.g, o.fs.View(), o.obj, o.chain, fptr, clust) && fptr <= o.obj.objsize
      ensures res.Ok? && !full ==> Reads(o.fs.g, o.fs.View(), o.chain, o.obj.objsize, text)
      ensures res.Ok? && fptr % SS != 0 ==>
                Nth(o.fs.g, fptr / SS) < |o.chain| && sect == Addr(o.fs.g, o.chain, fptr / SS)
      ensures res.Ok? ==> Reach(o.fs.g, o.fs.View(), o.chain) == old(Reach(o.fs.g, o.fs.View(), o.chain))
      ensures res.Ok? && old(o.FreeKnown()) ==> o.FreeKnown()
      ensures !res.Denied? && (res.IntErr? ==> Damaged(o.fs.g, old(o.fs.View())))
    {
      hide Volume.Valid, ViewOf, SoundIn, Addr, Sized, TextIn, OthersSafe, Reach, Nth, Off, Start, Reads, SizedAt,
           AtEdge, OthersIntact, FreeIs, Spared, Damaged;
      ghost var g, v, chain, obj := o.fs.g, o.fs.View(), o.chain, o.obj;
      ReadsText(g, v, obj, chain);
      full := false;
      if fptr % SS == 0 && Off(o.fs.g, fptr / SS) == 0 {
        res, full := NextForWrite();
        IntactSafe(g, v, o.fs.View(), old(Reach(o.fs.g, o.fs.View(), o.chain)),
            old(Reach(o.fs.g, o.fs.View(), o.chain)));
        SparedNow(o.fs, v, old(Reach(o.fs.g, o.fs.View(), o.chain)));
        if !res.Ok? { return; }
        if !full {
          ReadsOn(g, v, o.fs.View(), o.obj, chain, o.chain, obj.objsize, text,
              old(Reach(o.fs.g, o.fs.View(), o.chain)));
        }
      } else {
        StagedInside(g, v, obj, chain, fptr, clust, sect);
        SafeSelf(g, v, Reach(g, v, chain));
        res := Ok;
      }
    }

    /** One round of the write loop. */
    method WriteChunk(data: seq<Byte>) returns (res: FResult, n: nat, full: bool)
      requires Inv() && err.Ok? && 1 <= |data| && (!o.fs.g.kind.ExFat? ==> fptr + |data| < 0x1_0000_0000)
      modifies this`clust, this`fptr, this`sect, this`err, o`obj, o`chain, o.fs
      ensures o.fs.faults >= old(o.fs.faults) && (res.DiskErr? ==> o.fs.faults > old(o.fs.faults))
      ensures !res.Ok? ==> err == res && Spared(o.fs, old(o.fs.View()), old(Reach(o.fs.g, o.fs.View(), o.chain)))
      ensures res.Ok? ==> err.Ok? && Inv() && n <= |data| && fptr == old(fptr) + n
      ensures res.Ok? ==> old(fptr) <= |old(Text())| && Text() == Splice(old(Text()), old(fptr), data[..n])
      ensures res.Ok? ==> if full then n == 0 && (o.fs.freeClst == 0 || o.fs.Free() == {}) else n > 0
      ensures res.Ok? ==> OthersSafe(o.fs.g, old(o.fs.View()), o.fs.View(), old(Reach(o.fs.g, o.fs.View(), o.chain)))
      ensures res.Ok? ==> Reach(o.fs.g, o.fs.View(), o.chain) == old(Reach(o.fs.g, o.fs.View(), o.chain))
      ensures res.Ok? && old(o.FreeKnown()) ==> o.FreeKnown()
      ensures !res.Denied? && (res.IntErr? ==> Damaged(o.fs.g, old(o.fs.View())))
    {
      hide Volume.Valid, ViewOf, SoundIn, InvIn, Addr, Sized, TextIn, OthersSafe, Nth, Off, Start, Reads, StagedIn,
           FreeIs, Owned, Room, Spared, Damaged;
      ghost var g, v, text := o.fs.g, o.fs.View(), Text();
      PointerInFile(g, v, o.obj, o.chain, fptr, clust, sect);
      n := 0;
      res, full := Stage(text);
      if !res.Ok? || full { return; }
      ghost var u, own := o.fs.View(), Reach(g, o.fs.View(), o.chain);
      RoomAtLeast(g, fptr, 0);
      res, n := WriteHere(data, text);
      if !res.Ok? {
        SparedMore(o.fs, v, u, Owned(o.chain), old(Reach(o.fs.g, o.fs.View(), o.chain)));
      } else {
        SafeMore(g, u, o.fs.View(), Owned(o.chain), old(Reach(o.fs.g, o.fs.View(), o.chain)));
        SafeTwice(g, v, u, o.fs.View(), old(Reach(o.fs.g, o.fs.View(), o.chain)));
      }
    }

    /** Writes `data` at the file pointer: what was written is a prefix of it, and the contents are the old
        ones with that prefix laid over them. It is shorter than `data` only if the volume is full or a FAT
        file would pass 4 GiB - 1. No other file changes. */
    method FWrite(data: seq<Byte>) returns (res: FResult, bw: nat)
      requires Valid() && |data| < 0x1_0000_0000
      modifies this`clust, this`fptr, this`sect, this`err, this`modified, o`obj, o`chain, o.fs
      ensures o.fs.faults >= old(o.fs.faults) && (res.DiskErr? && old(err).Ok? ==> o.fs.faults > old(o.fs.faults))
      ensures Valid()
      ensures old(err).Ok? && canWrite ==> (res.Ok? <==> err.Ok?)
      ensures res.Ok? ==> old(err).Ok? && canWrite && err.Ok? && modified && bw <= |data| && fptr == old(fptr) + bw
      ensures res.Ok? ==> old(fptr) <= |old(Text())| && Text() == Splice(old(Text()), old(fptr), data[..bw])
      ensures res.Ok? && bw < |data| ==>
                o.fs.freeClst == 0 || o.fs.Free() == {} || (!o.fs.g.kind.ExFat? && fptr == 0xFFFF_FFFF)
      ensures res.Ok? ==> OthersSafe(o.fs.g, old(o.fs.View()), o.fs.View(), old(Reach(o.fs.g, o.fs.View(), o.chain)))
      ensures res.Ok? ==> Reach(o.fs.g, o.fs.View(), o.chain) == old(Reach(o.fs.g, o.fs.View(), o.chain))
      ensures res.Ok? && old(o.FreeKnown()) ==> o.FreeKnown()
      ensures old(err).Ok? ==> Spared(o.fs, old(o.fs.View()), old(Reach(o.fs.g, o.fs.View(), o.chain)))
      ensures !old(err).Ok? ==> res == old(err)
      ensures old(err).Ok? && !canWrite ==> res.Denied? && err.Ok? && fptr == old(fptr) && Text() == old(Text())
      ensures old(err).Ok? && canWrite ==> !res.Denied? && (res.IntErr? ==> Damaged(o.fs.g, old(o.fs.View())))
    {
      hide Volume.Valid, ViewOf, InvIn, TextIn, OthersSafe, Reach, FreeIs, Splice, Spared, Damaged;
      bw := 0;
      if !err.Ok? { return err, bw; }
      SafeSelf(o.fs.g, o.fs.View(), Reach(o.fs.g, o.fs.View(), o.chain));
      SparedNow(o.fs, o.fs.View(), Reach(o.fs.g, o.fs.View(), o.chain));
      if !canWrite { return Denied, bw; }
      var n := |data|;
      PointerInFile(o.fs.g, o.fs.View(), o.obj, o.chain, fptr, clust, sect);
      if !o.fs.g.kind.ExFat? && (fptr + n) % 0x1_0000_0000 < fptr { n := 0xFFFF_FFFF - fptr; }
      ghost var g, v, text, p, own := o.fs.g, o.fs.View(), Text(), fptr, Reach(o.fs.g, o.fs.View(), o.chain);
      SpliceNothing(text, p);
      var full := false;
      while bw < n && !full
        invariant o.fs.faults >= old(o.fs.faults)
        invariant err.Ok? && Inv() && fptr == p + bw && bw <= n <= |data| && Text() == Splice(text, p, data[..bw])
        invariant OthersSafe(g, v, o.fs.View(), own) && Reach(g, o.fs.View(), o.chain) == own
        invariant full ==> o.fs.freeClst == 0 || o.fs.Free() == {}
        invariant old(o.FreeKnown()) ==> o.FreeKnown()
        decreases n - bw, !full
      {
        ghost var u, reach := o.fs.View(), Reach(g, o.fs.View(), o.chain);
        ghost var was := (o.obj, o.chain, clust, sect);
        var w: nat;
        res, w, full := WriteChunk(data[bw..n]);
        if !res.Ok? {
          SparedMore(o.fs, v, u, reach, own);
          if res.IntErr? { DamagedFile(g, v, u, was.0, was.1, p + bw, was.2, was.3, own); }
          return;
        }
        SpliceMore(text, p, data, bw, n, w);
        SafeMore(g, u, o.fs.View(), reach, own);
        SafeTwice(g, v, u, o.fs.View(), own);
        bw := bw + w;
      }
      SparedNow(o.fs, v, own);
      modified := true;
      res := Ok;
    }

    // ----- synchronising -----

    /** Writes out the links of the last fragment. Even when that fails half way, the file is as it was. */
    method FillLast() returns (res: FResult)
      requires Inv() && o.fs.g.kind.ExFat?
      modifies o`obj, o.fs`disk, o.fs`win, o.fs`winsect, o.fs`wflag, o.fs`failures, o.fs`faults
      ensures o.fs.faults >= old(o.fs.faults) && (res.DiskErr? ==> o.fs.faults > old(o.fs.faults))
      ensures Inv() && Text() == old(Text()) && o.fs.Free() == old(o.fs.Free())
      ensures OthersSafe(o.fs.g, old(o.fs.View()), o.fs.View(), Owned(o.chain))
      ensures o.obj == old(o.obj).(nFrag := o.obj.nFrag) && o.obj.nFrag <= old(o.obj).nFrag
      ensures res.Ok? <==> o.obj.nFrag == 0
      ensures res.Ok? || res.DiskErr?
    {
      hide Volume.Valid, ViewOf, InvIn, TextIn, OthersSafe, Spells, FatOf, FreeOf, TableOnly, Stored, Inside;
      ghost var g, v, obj := o.fs.g, o.fs.View(), o.obj;
      InvEnds(g, v, obj, o.chain, fptr, clust, sect);
      StoredValues(g, 0);
      res := o.FillLastFrag(clust, 0xFFFF_FFFF);
      Filled(g, v, o.fs.View(), obj, o.obj, o.chain, fptr, clust, sect);
    }

    /** ... and of the first one. */
    method FillBoth() returns (res: FResult)
      requires Inv() && o.fs.g.kind.ExFat?
      modifies o`obj, o.fs`disk, o.fs`win, o.fs`winsect, o.fs`wflag, o.fs`failures, o.fs`faults
      ensures o.fs.faults >= old(o.fs.faults) && (res.DiskErr? ==> o.fs.faults > old(o.fs.faults))
      ensures Inv() && Text() == old(Text()) && o.fs.Free() == old(o.fs.Free()) && o.obj.objsize == old(o.obj).objsize
      ensures OthersSafe(o.fs.g, old(o.fs.View()), o.fs.View(), Owned(o.chain))
      ensures res.Ok? ==> o.obj.nFrag == 0 && o.obj.stat != 3
      ensures !res.Ok? ==> old(o.obj).nFrag > 0 || old(o.obj).stat == 3
      ensures res.Ok? || res.DiskErr?
    {
      hide Volume.Valid, ViewOf, InvIn, TextIn, OthersSafe, Spells, FatOf, FreeOf, TableOnly, Inside;
      ghost var g, v, obj := o.fs.g, o.fs.View(), o.obj;
      InvEnds(g, v, obj, o.chain, fptr, clust, sect);
      InvKept(o, fptr, clust, sect);
      res := o.FillFirstFrag();
      FilledFirst(g, v, o.fs.View(), obj, o.obj, o.chain, fptr, clust, sect);
      if res.Ok? {
        ghost var u := o.fs.View();
        res := FillLast();
        SafeTwice(g, v, u, o.fs.View(), Owned(o.chain));
      }
    }

    /** Brings everything about a changed file to the disk, directory entry apart. Afterwards the table on
        the disk itself spells the chain, unless the chain is contiguous and recorded as such. The flag is also
        cleared if the window could not be written; without it nothing is done and success reported. */
    method FSync() returns (res: FResult)
      requires Inv() && err.Ok? && Logged()
      modifies this`modified, o`obj, o.fs`disk, o.fs`win, o.fs`winsect, o.fs`wflag, o.fs`failures, o.fs`faults
      ensures o.fs.faults >= old(o.fs.faults) && (res.DiskErr? ==> o.fs.faults > old(o.fs.faults))
      ensures Inv() && Text() == old(Text()) && o.fs.Free() == old(o.fs.Free())
      ensures OthersSafe(o.fs.g, old(o.fs.View()), o.fs.View(), Owned(o.chain))
      ensures Logged() && (res.Ok? ==> !modified) && (!res.Ok? && !modified ==> o.fs.wflag)
      ensures !res.Ok? && modified ==> o.fs.g.kind.ExFat? && (old(o.obj).nFrag > 0 || old(o.obj).stat == 3)
      ensures !old(modified) ==>
                res.Ok? && o.obj == old(o.obj) && o.fs.disk == old(o.fs.disk) && o.fs.wflag == old(o.fs.wflag)
      ensures res.Ok? && old(modified) ==> !o.fs.wflag && Settled(o.fs.g, o.fs.disk, o.obj, o.chain)
      ensures res.Ok? && old(modified) ==> TextIn(o.fs.g, o.fs.disk, o.obj, o.chain) == Text()
      ensures res.Ok? || res.DiskErr?
    {
      hide Volume.Valid, ViewOf, InvIn, TextIn, OthersSafe, Spells, FatOf, FreeOf, TableOnly, Inside, SoundIn, Sized;
      ghost var g, v := o.fs.g, o.fs.View();
      SafeSelf(g, v, Owned(o.chain));
      FragmentOnTable(g, v, o.obj, o.chain, fptr, clust, sect);
      res := Ok;
      if modified {
        if o.fs.g.kind.ExFat? { res := FillBoth(); }
        if !res.Ok? { return; }
        res := o.fs.SyncWindow();
        modified := false;
        if res.Ok? {
          o.fs.CleanDisk();
          SettledNow(g, o.fs.View(), o.fs.disk, o.obj, o.chain, fptr, clust, sect);
        }
      }
    }

    // ----- truncating -----

    /** Cuts the file at the file pointer: its contents become the bytes before it, and exactly the
        clusters that held none of them become free. */
    method FTruncate() returns (res: FResult)
      requires Valid()
      modifies this`err, this`modified, o`obj, o`chain, o.fs`disk, o.fs`win, o.fs`winsect, o.fs`wflag, o.fs`failures,
               o.fs`faults, o.fs`freeClst, o.fs`fsiFlag
      ensures o.fs.faults >= old(o.fs.faults) && (res.DiskErr? && old(err).Ok? ==> o.fs.faults > old(o.fs.faults))
      ensures Valid()
      ensures old(err).Ok? && canWrite ==> (res.Ok? <==> err.Ok?)
      ensures res.Ok? ==> old(err).Ok? && canWrite && fptr <= |old(Text())| && Text() == old(Text())[..fptr]
      ensures res.Ok? && fptr < |old(Text())| ==>
                var n := ClustersFor(o.fs.g, fptr);
                && n <= |old(o.chain)| && o.chain == old(o.chain)[..n]
                && o.fs.Free() == old(o.fs.Free()) + Owned(old(o.chain)[n..])
      ensures res.Ok? && fptr == |old(Text())| ==> o.chain == old(o.chain) && o.fs.View() == old(o.fs.View())
      ensures res.Ok? ==> OthersSafe(o.fs.g, old(o.fs.View()), o.fs.View(), Owned(old(o.chain)))
      ensures res.Ok? ==> modified == (old(modified) || fptr < |old(Text())|)
      ensures res.Ok? && old(o.FreeKnown()) ==> o.FreeKnown()
      ensures old(err).Ok? ==> Spared(o.fs, old(o.fs.View()), Owned(old(o.chain)))
      ensures !old(err).Ok? ==> res == old(err)
      ensures old(err).Ok? && !canWrite ==> res.Denied? && err.Ok? && Text() == old(Text())
      ensures old(err).Ok? && canWrite ==> res.Ok? || res.DiskErr?
    {
      hide Volume.Valid, ViewOf, InvIn, TextIn, OthersSafe, FreeIs, OthersIntact, Owned, FatOf, FreeOf, Sized, SoundIn,
           ClustersFor, Spells, LinkValue, Allocated, Spared;
      if !err.Ok? { return err; }
      ghost var g, v, chain, obj := o.fs.g, o.fs.View(), o.chain, o.obj;
      SafeSelf(g, v, Owned(chain));
      SparedNow(o.fs, v, Owned(chain));
      if !canWrite { return Denied; }
      PointerInFile(g, v, obj, chain, fptr, clust, sect);
      WholeText(Text());
      res := Ok;
      if fptr < o.obj.objsize {
        CutIndex(g, v, obj, chain, fptr, clust, sect);
        InvKept(o, fptr, clust, sect);
        ghost var n := ClustersFor(g, fptr);
        if fptr == 0 {
          res := o.RemoveChain(o.obj.sclust, 0, n, true);
          if res.Ok? { SpellsRecord(g, o.fs.Fat(), o.obj, o.obj.(sclust := 0), o.chain); }
          o.obj := o.obj.(sclust := 0);
        } else {
          res := CutAfter(n);
        }
        ghost var kept := o.obj;
        o.obj := o.obj.(objsize := fptr);
        modified := true;
        IntactSafe(g, v, o.fs.View(), Owned(chain), Owned(chain));
        SparedNow(o.fs, v, Owned(chain));
        if !res.Ok? {
          err := res;
          return;
        }
        SpellsRecord(g, o.fs.Fat(), kept, o.obj, o.chain);
        CutText(g, v, o.fs.View(), obj, o.obj, chain, fptr, clust, sect);
      }
    }

    /** Removes what follows the current cluster. */
    method CutAfter(ghost n: nat) returns (res: FResult)
      requires Inv() && 0 < fptr < o.obj.objsize && n == ClustersFor(o.fs.g, fptr)
      modifies o`obj, o`chain, o.fs`disk, o.fs`win, o.fs`winsect, o.fs`wflag, o.fs`failures, o.fs`faults, o.fs`freeClst,
               o.fs`fsiFlag
      ensures o.fs.faults >= old(o.fs.faults) && (res.DiskErr? ==> o.fs.faults > old(o.fs.faults))
      ensures o.fs.Valid() && n <= |old(o.chain)| && o.obj == old(o.obj).(stat := o.obj.stat)
      ensures res.Ok? ==>
                o.Kept() && o.chain == old(o.chain)[..n] && o.fs.Free() == old(o.fs.Free()) + Owned(old(o.chain)[n..])
      ensures OthersIntact(o.fs.g, old(o.fs.View()), o.fs.View(), Owned(old(o.chain)))
      ensures res.Ok? ==> (o.obj.stat == 3 ==> old(o.obj).stat == 3)
      ensures res.Ok? && old(o.FreeKnown()) ==> o.FreeKnown()
      ensures res.Ok? || res.DiskErr?
    {
      hide Volume.Valid, ViewOf, InvIn, OthersIntact, FreeIs, FatOf, FreeOf, Sized, SoundIn, ClustersFor, Spells,
           LinkValue, Allocated, IsEnd;
      ghost var g, v, chain, obj := o.fs.g, o.fs.View(), o.chain, o.obj;
      CutIndex(g, v, obj, chain, fptr, clust, sect);
      InvKept(o, fptr, clust, sect);
      CutLink(g, v, obj, chain, fptr, clust, sect);
      OthersIntactSelf(g, v, Owned(chain));
      assert n == |chain| ==> chain[..n] == chain && chain[n..] == [];
      var ncl := o.GetFat(clust);
      res := Ok;
      if ncl == UNKNOWN { res := DiskErr; }
      if ncl == 1 { res := IntErr; }
      if res.Ok? && ncl < o.fs.g.nFatent {
        res := o.RemoveChain(ncl, clust, n, true);
      }
    }

    // ----- seeking -----

    /** Moves the file pointer, growing a writable file as far as that is needed and the volume allows. What
        the file held stays as its beginning. Only a full volume stops a seek early. */
    method FLseek(target: nat) returns (res: FResult)
      requires Valid()
      modifies this`clust, this`fptr, this`sect, this`err, this`modified, o`obj, o`chain, o.fs
      ensures o.fs.faults >= old(o.fs.faults) && (res.DiskErr? && old(err).Ok? ==> o.fs.faults > old(o.fs.faults))
      ensures Valid()
      ensures res.Ok? ==> old(err).Ok? && err.Ok? && old(Text()) <= Text()
      ensures res.Ok? ==> |Text()| == if fptr < |old(Text())| then |old(Text())| else fptr
      ensures res.Ok? ==> var ofs := old(SeekTarget(target));
                && fptr <= ofs
                && (fptr < ofs ==> canWrite && |old(Text())| <= fptr && (o.fs.freeClst == 0 || o.fs.Free() == {}))
      ensures res.Ok? && o.fs.g.kind.ExFat? && old(SeekTarget(target)) <= |old(Text())| ==> o.obj.nFrag == 0
      ensures res.Ok? ==> OthersSafe(o.fs.g, old(o.fs.View()), o.fs.View(), old(Reach(o.fs.g, o.fs.View(), o.chain)))
      ensures res.Ok? ==> Reach(o.fs.g, o.fs.View(), o.chain) == old(Reach(o.fs.g, o.fs.View(), o.chain))
      ensures res.Ok? ==> modified == (old(modified) || |old(Text())| < |Text()|)
      ensures res.Ok? && old(o.FreeKnown()) ==> o.FreeKnown()
      ensures old(err).Ok? ==> Spared(o.fs, old(o.fs.View()), old(Reach(o.fs.g, o.fs.View(), o.chain)))
      ensures !old(err).Ok? ==> res == old(err)
      ensures old(err).Ok? ==> !res.Denied? && (res.IntErr? ==> Damaged(o.fs.g, old(o.fs.View())))
    {
      hide Volume.Valid, ViewOf, InvIn, TextIn, OthersSafe, FreeIs, Owned, FatOf, FreeOf, Spared, Damaged;
      if !err.Ok? { return err; }
      ghost var g, v, own := o.fs.g, o.fs.View(), Reach(o.fs.g, o.fs.View(), o.chain);
      PointerInFile(g, v, o.obj, o.chain, fptr, clust, sect);
      InvEnds(g, v, o.obj, o.chain, fptr, clust, sect);
      FragmentOnTable(g, v, o.obj, o.chain, fptr, clust, sect);
      SafeSelf(g, v, own);
      if o.fs.g.kind.ExFat? {
        res := FillLast();
        SafeMore(g, v, o.fs.View(), Owned(o.chain), own);
        SparedNow(o.fs, v, own);
        if !res.Ok? { return; }
      }
      var ofs := SeekTarget(target);
      ghost var u, was := o.fs.View(), (o.obj, o.chain, fptr, clust, sect);
      res := SeekTo(ofs);
      if res.Ok? {
        SafeTwice(g, v, u, o.fs.View(), own);
        SparedNow(o.fs, v, own);
      } else {
        SparedMore(o.fs, v, u, own, own);
        if res.IntErr? { DamagedFile(g, v, u, was.0, was.1, was.2, was.3, was.4, own); }
      }
    }

    /** The position asked for, clipped to what a FAT file or a read-only file can have. */
    function SeekTarget(target: nat): (ofs: nat)
      reads this, o
    {
      var ofs: nat := if !o.fs.g.kind.ExFat? && 0x1_0000_0000 <= target then 0xFFFF_FFFF else target;
      if o.obj.objsize < ofs && !canWrite then o.obj.objsize else ofs
    }

    ghost predicate Tracked()
      reads this, o
    {
      Logged() || o.obj.objsize <= fptr
    }

    ghost predicate Seeking(v: Image, text: seq<Byte>, own: set<nat>)
      reads this, o, o.fs
    {
      err.Ok? && o.fs.Valid() && SeekIn(o.fs.g, v, o.fs.View(), o.obj, o.chain, fptr, clust, text, own)
    }

    method SeekTo(ofs: nat) returns (res: FResult)
      requires Inv() && err.Ok? && Logged() && o.obj.nFrag == 0 && (canWrite || ofs <= o.obj.objsize)
      requires !o.fs.g.kind.ExFat? ==> ofs < 0x1_0000_0000
      modifies this`clust, this`fptr, this`sect, this`err, this`modified, o`obj, o`chain, o.fs
      ensures o.fs.faults >= old(o.fs.faults) && (res.DiskErr? ==> o.fs.faults > old(o.fs.faults))
      ensures !res.Ok? ==> err == res && Spared(o.fs, old(o.fs.View()), old(Reach(o.fs.g, o.fs.View(), o.chain)))
      ensures res.Ok? ==> err.Ok? && Inv() && Logged() && old(Text()) <= Text()
      ensures res.Ok? ==> |Text()| == if fptr < |old(Text())| then |old(Text())| else fptr
      ensures res.Ok? ==>
                && fptr <= ofs
                && (fptr < ofs ==> canWrite && |old(Text())| <= fptr && (o.fs.freeClst == 0 || o.fs.Free() == {}))
      ensures res.Ok? && ofs <= |old(Text())| ==> o.obj.nFrag == 0
      ensures res.Ok? ==> OthersSafe(o.fs.g, old(o.fs.View()), o.fs.View(), old(Reach(o.fs.g, o.fs.View(), o.chain)))
      ensures res.Ok? ==> Reach(o.fs.g, o.fs.View(), o.chain) == old(Reach(o.fs.g, o.fs.View(), o.chain))
      ensures res.Ok? ==> modified == (old(modified) || |old(Text())| < |Text()|)
      ensures res.Ok? && old(o.FreeKnown()) ==> o.FreeKnown()
      ensures !res.Denied? && (res.IntErr? ==> Damaged(o.fs.g, old(o.fs.View())))
    {
      hide Volume.Valid, ViewOf, InvIn, TextIn, OthersSafe, FreeIs, Reach, FatOf, FreeOf, SeekIn, Spared, Damaged;
      ghost var g, v, text, own := o.fs.g, o.fs.View(), Text(), Reach(o.fs.g, o.fs.View(), o.chain);
      ghost var size := o.obj.objsize;
      res := Ok;
      if ofs == 0 {
        SafeSelf(g, v, own);
        Rewound(g, v, o.obj, o.chain, fptr, clust, sect);
        fptr := 0;
        return;
      }
      var left: nat, none: bool;
      res, left, none := SeekFrom(ofs, text, own);
      if !res.Ok? || none { return; }
      var bcs := SS * o.fs.g.csize;
      while left > bcs
        invariant o.fs.faults >= old(o.fs.faults)
        invariant Seeking(v, text, own) && Tracked() && 0 < left && fptr + left == ofs && res.Ok?
        invariant ofs <= size ==> o.obj.nFrag == 0 && o.obj.objsize == size
        invariant size <= o.obj.objsize && modified == (old(modified) || size < o.obj.objsize)
        invariant old(o.FreeKnown()) ==> o.FreeKnown()
        decreases left
      {
        SeekSizes(g, v, o.fs.View(), o.obj, o.chain, fptr, clust, text, own);
        var full: bool;
        res, full := SeekStep(left, ofs, v, text, own);
        if !res.Ok? || full { return; }
        left := left - bcs;
      }
      SeekEnd(left, v, text, own);
    }

    /** Where the walk along the chain begins: at the current cluster if the goal is not before it. */
    method SeekFrom(ofs: nat, ghost text: seq<Byte>, ghost own: set<nat>) returns (res: FResult, left: nat, none: bool)
      requires Inv() && err.Ok? && Logged() && 0 < ofs && o.obj.nFrag == 0 && (canWrite || ofs <= o.obj.objsize)
      requires !o.fs.g.kind.ExFat? ==> ofs < 0x1_0000_0000
      requires text == Text() && own == Reach(o.fs.g, o.fs.View(), o.chain)
      modifies this`clust, this`fptr, this`err, o`obj, o`chain, o.fs
      ensures o.fs.faults >= old(o.fs.faults) && (res.DiskErr? ==> o.fs.faults > old(o.fs.faults))
      ensures !res.Ok? ==> err == res && Spared(o.fs, old(o.fs.View()), own)
      ensures res.Ok? && !none ==> Seeking(old(o.fs.View()), text, own) && 0 < left && fptr + left == ofs
      ensures res.Ok? ==> if none then Logged() else Tracked()
      ensures res.Ok? && !none && ofs <= |text| ==> o.obj == old(o.obj)
      ensures res.Ok? && none ==>
                err.Ok? && Inv() && Text() == text && fptr == 0 && |text| == 0 && canWrite && o.obj.nFrag == 0
      ensures res.Ok? && none ==>
                o.fs.View() == old(o.fs.View()) && o.chain == old(o.chain) && (o.fs.freeClst == 0 || o.fs.Free() == {})
      ensures res.Ok? && none ==> OthersSafe(o.fs.g, old(o.fs.View()), o.fs.View(), own)
      ensures res.Ok? ==> o.obj.objsize == old(o.obj).objsize
      ensures res.Ok? && old(o.FreeKnown()) ==> o.FreeKnown()
      ensures !res.Denied? && (res.IntErr? ==> Damaged(o.fs.g, old(o.fs.View())))
    {
      hide Volume.Valid, ViewOf, InvIn, TextIn, OthersSafe, OthersIntact, FreeIs, Reach, FatOf, FreeOf, SeekIn,
           StagedIn, SoundIn, Sized, Nth, Off, FirstOf, Idx, Spared, Damaged;
      ghost var g, v, chain, obj := o.fs.g, o.fs.View(), o.chain, o.obj;
      InvParts(g, v, obj, chain, fptr, clust, sect);
      SafeSelf(g, v, own);
      Rewound(g, v, obj, chain, fptr, clust, sect);
      ReadsText(g, v, obj, chain);
      var ifptr := fptr;
      fptr := 0;
      left, none, res := ofs, false, Ok;
      if ifptr > 0 && Idx(o.fs.g, ifptr - 1) <= Idx(o.fs.g, ofs - 1) {
        SeekResume(g, v, obj, chain, ifptr, clust, sect, ofs);
        fptr := FirstOf(o.fs.g, ifptr - 1);
        SeekBegin(g, v, v, obj, chain, fptr, clust, text, own);
        left := ofs - fptr;
        return;
      }
      var clst := o.obj.sclust;
      if clst == 0 {
        NoChain(g, v, obj, chain);
        EmptyFile(g, obj);
        clst := StartChain();
        if clst == 1 || clst == UNKNOWN {
          IntactSafe(g, v, o.fs.View(), own, own);
          SparedNow(o.fs, v, own);
          res := if clst == 1 then IntErr else DiskErr;
          err := res;
          return;
        }
        if clst == 0 {
          none := true;
        } else {
          SeekStarted(g, v, o.fs.View(), o.obj, chain, o.chain, clst, text, own);
        }
      } else {
        AtStart(g, v, obj, chain);
        IdxZero(g);
        SeekBegin(g, v, v, obj, chain, 0, clst, text, own);
      }
      clust := clst;
    }

    /** One step along the chain, which is stretched where it ends if the file is writable. */
    method SeekStep(left: nat, ghost ofs: nat, ghost v: Image, ghost text: seq<Byte>, ghost own: set<nat>)
        returns (res: FResult, full: bool)
      requires Seeking(v, text, own) && Tracked() && SS * o.fs.g.csize < left && fptr + left == ofs
      requires (canWrite || (ofs <= o.obj.objsize && o.obj.nFrag == 0)) && (!o.fs.g.kind.ExFat? ==> ofs < 0x1_0000_0000)
      modifies this`clust, this`fptr, this`err, this`modified, o`obj, o`chain, o.fs
      ensures o.fs.faults >= old(o.fs.faults) && (res.DiskErr? ==> o.fs.faults > old(o.fs.faults))
      ensures !res.Ok? ==> err == res && Spared(o.fs, v, own)
      ensures res.Ok? ==> fptr == old(fptr) + SS * o.fs.g.csize
      ensures res.Ok? && !full ==> Seeking(v, text, own)
      ensures res.Ok? ==> if full then Logged() else Tracked()
      ensures res.Ok? && full ==>
                err.Ok? && Inv() && text <= Text() && |Text()| == (if fptr < |text| then |text| else fptr)
      ensures res.Ok? && full ==> canWrite && |text| <= fptr && (o.fs.freeClst == 0 || o.fs.Free() == {})
      ensures res.Ok? && full ==> OthersSafe(o.fs.g, v, o.fs.View(), own) && Reach(o.fs.g, o.fs.View(), o.chain) == own
      ensures res.Ok? && ofs <= |text| && old(o.obj).nFrag == 0 ==> o.obj == old(o.obj)
      ensures res.Ok? ==>
                && old(o.obj).objsize <= o.obj.objsize
                && modified == (old(modified) || old(o.obj).objsize < o.obj.objsize)
      ensures res.Ok? && old(o.FreeKnown()) ==> o.FreeKnown()
      ensures !res.Denied? && (res.IntErr? ==> Fits(o.fs.g, v) && Damaged(o.fs.g, v))
    {
      hide Volume.Valid, ViewOf, InvIn, TextIn, OthersSafe, OthersIntact, FreeIs, Reach, FatOf, FreeOf, SeekIn,
           StagedIn, SoundIn, Sized, Nth, Off, AtCluster, AtEdge, Reads, Idx, LinkValue, Spared, Damaged;
      ghost var g, w, obj, chain, p := o.fs.g, o.fs.View(), o.obj, o.chain, fptr;
      SeekNext(g, v, w, obj, chain, p, clust, text, own);
      fptr := fptr + SS * o.fs.g.csize;
      full, res := false, Ok;
      var clst: nat;
      if canWrite {
        if fptr > o.obj.objsize {
          o.obj := o.obj.(objsize := fptr);
          modified := true;
        }
        clst := Follow(fptr, clust);
        if clst == 0 {
          SeekFull(g, v, w, o.obj, chain, fptr, clust, text, own, sect);
          full := true;
          return;
        }
      } else {
        SeekReadNext(g, v, w, obj, chain, p, clust, text, own);
        OthersIntactSelf(g, w, Reach(g, w, chain));
        clst := o.GetFat(clust);
      }
      if clst == UNKNOWN || clst <= 1 || o.fs.g.nFatent <= clst {
        SparedSeek(o.fs, v, w, obj, chain, p, clust, text, own);
        if canWrite && clst == 1 { DamagedSeek(g, v, w, obj, chain, p, clust, text, own); }
        res := if clst == UNKNOWN then DiskErr else IntErr;
        err := res;
        return;
      }
      clust := clst;
      if canWrite {
        SeekFollowed(g, v, w, o.fs.View(), chain, o.obj, o.chain, fptr, clst, text, own);
      } else {
        SeekBegin(g, v, o.fs.View(), o.obj, o.chain, fptr, clst, text, own);
      }
    }

    /** The last step: inside the cluster reached. */
    method SeekEnd(left: nat, ghost v: Image, ghost text: seq<Byte>, ghost own: set<nat>)
      requires Seeking(v, text, own) && Tracked() && 0 < left <= SS * o.fs.g.csize
      requires !o.fs.g.kind.ExFat? ==> fptr + left < 0x1_0000_0000
      modifies this`fptr, this`sect, this`modified, o`obj
      ensures Logged() && err.Ok? && Inv() && text <= Text() && fptr == old(fptr) + left
      ensures |Text()| == if fptr < |text| then |text| else fptr
      ensures fptr <= |text| && old(o.obj).objsize == |text| ==> o.obj == old(o.obj)
      ensures old(o.obj).objsize <= o.obj.objsize
      ensures modified == (old(modified) || old(o.obj).objsize < o.obj.objsize)
      ensures OthersSafe(o.fs.g, v, o.fs.View(), own) && Reach(o.fs.g, o.fs.View(), o.chain) == own
    {
      hide Volume.Valid, ViewOf, InvIn, TextIn, OthersSafe, Reach, FatOf, FreeOf, SeekIn, ClusterSector;
      ghost var g, obj, p := o.fs.g, o.obj, fptr;
      SeekSector(g, v, o.fs.View(), obj, o.chain, fptr, clust, text, own);
      var nsect: nat := 0;
      fptr := fptr + left;
      if left % SS != 0 { nsect := ClusterSector(o.fs.g, clust) + left / SS; }
      if fptr > o.obj.objsize {
        o.obj := o.obj.(objsize := fptr);
        modified := true;
      }
      if fptr % SS != 0 && nsect != sect { sect := nsect; }
      SeekDone(g, v, o.fs.View(), obj, o.chain, p, clust, text, own, left, sect, nsect);
    }

    /** In order to take `n` bytes of the current cluster. */
    ghost predicate Ready(n: nat)
      reads this, o, o.fs
    {
      && o.fs.Valid() && SoundIn(o.fs.g, o.fs.View(), o.obj, o.chain) && Sized(o.fs.g, o.obj, o.chain)
      && AtCluster(o.fs.g, o.chain, fptr, clust) && AtEdge(o.obj, o.chain, clust)
      && n <= Room(o.fs.g, fptr) && fptr + n <= o.obj.objsize
    }
  }
  /** Synchronising a changed file twice. If the first try succeeds, the second changes nothing and the file stays
      settled. If it fails for the window, as it does unless there were fragments to write, the second try reports
      success although the window still holds what the disk does not. */
  method SyncTwice(f: OpenFile) returns (first: FResult, second: FResult)
    requires f.Inv() && f.err.Ok? && f.Logged() && f.modified
    modifies f, f.o, f.o.fs
    ensures f.Inv() && f.Text() == old(f.Text())
    ensures first.Ok? ==> second.Ok?
    ensures !first.Ok? ==>
              (f.o.fs.g.kind.ExFat? && (old(f.o.obj).nFrag > 0 || old(f.o.obj).stat == 3))
                  || (second.Ok? && f.o.fs.wflag)
    ensures second.Ok? ==>
              || (!first.Ok? && f.o.fs.wflag)
              || (&& Settled(f.o.fs.g, f.o.fs.disk, f.o.obj, f.o.chain)
                  && TextIn(f.o.fs.g, f.o.fs.disk, f.o.obj, f.o.chain) == f.Text())
  {
    hide Volume.Valid, ViewOf, InvIn, TextIn, OthersSafe, Settled;
    first := f.FSync();
    second := f.FSync();
  }
}
