/**
 An object on the volume: its allocation record, its cluster chain, and the operations that
 follow, stretch and cut that chain.
 */
module FatFile {
  import opened FatLayout
  import opened FatChains
  import opened FatVolume

  ghost function Owned(chain: seq<nat>): set<nat> {
    set c | c in chain
  }

  lemma OwnedStep(chain: seq<nat>, i: nat, j: nat)
    requires i <= j < |chain|
    ensures chain[j] in Owned(chain[i..]) && Owned(chain[i..j + 1]) == Owned(chain[i..j]) + {chain[j]}
  {
    assert chain[i..][j - i] == chain[j];
    assert chain[i..j + 1] == chain[i..j] + [chain[j]];
  }

  lemma OwnedParts(chain: seq<nat>, i: nat)
    requires i <= |chain|
    ensures Owned(chain[..i]) <= Owned(chain) && Owned(chain) + Owned(chain[i..]) == Owned(chain)
    ensures Owned(chain[..i]) + Owned(chain[i..]) == Owned(chain)
  {
    assert chain == chain[..i] + chain[i..];
  }

  class FileObject {
    const fs: Volume
    var obj: ObjId
    ghost var chain: seq<nat>    // the clusters of the object, in order

    /** The record and the table together say what the chain is, and its clusters are allocated. */
    ghost predicate Kept()
      reads this, fs
    {
      && fs.Valid() && fs.g.Roomy()
      && Spells(fs.g, fs.Fat(), obj, chain)
      && Allocated(fs.g, fs.View(), chain)
    }

    constructor (fs: Volume, obj: ObjId, ghost chain: seq<nat>)
      ensures this.fs == fs && this.obj == obj && this.chain == chain
    {
      this.fs := fs;
      this.obj := obj;
      this.chain := chain;
    }

    /** The link of a cluster, from the record or from the table; 0xFFFFFFFF is a disk error. */
    method GetFat(clst: nat) returns (val: nat)
      requires fs.Valid() && fs.g.Roomy()
      modifies fs`disk, fs`win, fs`winsect, fs`wflag, fs`failures, fs`faults
      ensures fs.faults >= old(fs.faults) && (val == UNKNOWN ==> fs.faults > old(fs.faults))
      ensures fs.Valid() && fs.View() == old(fs.View())
      ensures val == UNKNOWN || val == LinkValue(fs.g, fs.Fat(), obj, clst)
    {
      hide Volume.Valid, ViewOf, FatOf;
      var g := fs.g;
      fs.Bounded();
      if clst < 2 || g.nFatent <= clst { return 1; }
      if !g.kind.ExFat? {
        val := fs.LoadEntry(clst);
        return;
      }
      if (obj.objsize != 0 && obj.sclust != 0) || obj.stat == 0 {
        var cofs := (clst - obj.sclust) % 0x1_0000_0000;
        var clen := ClustersFor(g, obj.objsize) - 1;
        if obj.stat == 2 && cofs <= clen {
          return if cofs == clen then EOC else clst + 1;
        }
        if obj.stat == 3 && cofs < obj.nCont {
          return clst + 1;
        }
        if obj.stat != 2 {
          if obj.nFrag != 0 { return EOC; }
          val := fs.LoadEntry(clst);
          return;
        }
      }
      val := 1;
    }

    /** Writes the links of the first fragment, after which the whole chain but the last fragment is in
        the table. */
    method FillFirstFrag() returns (res: FResult)
      requires Kept() && fs.g.kind.ExFat? && (chain != [] ==> obj.sclust == chain[0])
      modifies this`obj, fs`disk, fs`win, fs`winsect, fs`wflag, fs`failures, fs`faults
      ensures fs.faults >= old(fs.faults) && (res.DiskErr? ==> fs.faults > old(fs.faults))
      ensures Kept() && TableOnly(fs.g, old(fs.View()), fs.View(), Owned(chain))
      ensures res.Ok? ==> obj == if old(obj).stat == 3 then old(obj).(stat := 0) else old(obj)
      ensures !res.Ok? ==> res.DiskErr? && obj == old(obj) && obj.stat == 3
    {
      hide Volume.Valid, ViewOf, FatOf, FreeOf, Stored;
      res := Ok;
      if obj.stat == 3 {
        res := FillFirstLinks();
        if res.Ok? {
          FillFirst(fs.g, fs.Fat(), obj, chain);
          obj := obj.(stat := 0);
        }
      }
    }

    method FillFirstLinks() returns (res: FResult)
      requires Kept() && fs.g.kind.ExFat? && obj.stat == 3 && chain != [] && obj.sclust == chain[0]
      modifies fs`disk, fs`win, fs`winsect, fs`wflag, fs`failures, fs`faults
      ensures fs.faults >= old(fs.faults) && (res.DiskErr? ==> fs.faults > old(fs.faults))
      ensures Kept() && TableOnly(fs.g, old(fs.View()), fs.View(), Owned(chain))
      ensures res.Ok? ==> Linked(fs.Fat(), chain, 0, obj.nCont)
      ensures res.Ok? || res.DiskErr?
    {
      hide Volume.Valid, ViewOf, FatOf, FreeOf, Stored;
      var cl, n := obj.sclust, obj.nCont;
      ghost var v := fs.View();
      TableOnlyNothing(fs.g, v, Owned(chain));
      assert Linked(fs.Fat(), chain, 0, 0);
      hide TableOnly, Spells, Linked;
      while n > 0
        invariant fs.faults >= old(fs.faults)
        invariant n <= obj.nCont && cl == obj.sclust + (obj.nCont - n)
        invariant fs.Valid() && TableOnly(fs.g, v, fs.View(), Owned(chain))
        invariant Spells(fs.g, fs.Fat(), obj, chain) && Linked(fs.Fat(), chain, 0, obj.nCont - n)
      {
        ghost var u := fs.View();
        res := PutFirstLink(cl, obj.nCont - n);
        TableOnlyTwice(fs.g, v, u, fs.View(), Owned(chain), cl);
        if !res.Ok? {
          TableChange(fs.g, v, fs.View(), Owned(chain));
          return;
        }
        cl, n := cl + 1, n - 1;
      }
      TableChange(fs.g, v, fs.View(), Owned(chain));
      res := Ok;
    }

    method PutFirstLink(cl: nat, ghost i: nat) returns (res: FResult)
      requires fs.Valid() && fs.g.kind.ExFat? && obj.stat == 3 && i < obj.nCont
      requires Spells(fs.g, fs.Fat(), obj, chain) && Linked(fs.Fat(), chain, 0, i) && chain != [] && cl == chain[0] + i
      modifies fs`disk, fs`win, fs`winsect, fs`wflag, fs`failures, fs`faults
      ensures fs.faults >= old(fs.faults) && (res.DiskErr? ==> fs.faults > old(fs.faults))
      ensures fs.Valid() && TableOnly(fs.g, old(fs.View()), fs.View(), {cl}) && cl in Owned(chain)
      ensures Spells(fs.g, fs.Fat(), obj, chain) && (res.Ok? ==> Linked(fs.Fat(), chain, 0, i + 1))
      ensures res.Ok? || res.DiskErr?
    {
      hide Volume.Valid, ViewOf, FatOf, FreeOf, Stored, Spells, TableOnly;
      FillFirstLink(fs.g, fs.Fat(), obj, chain, i);
      StoredValues(fs.g, cl + 1);
      res := fs.PutFat(cl, cl + 1);
    }

    /** Writes the links of the last fragment, which ends in cluster `lcl`, and `term` as the link of that
        cluster. Whatever happens, every link that was known stays known. */
    method FillLastFrag(lcl: nat, term: nat) returns (res: FResult)
      requires fs.Valid() && fs.g.Roomy() && fs.g.kind.ExFat? && term < 0x1_0000_0000
      modifies this`obj, fs`disk, fs`win, fs`winsect, fs`wflag, fs`failures, fs`faults
      ensures fs.faults >= old(fs.faults) && (res.DiskErr? ==> fs.faults > old(fs.faults))
      ensures fs.Valid()
      ensures obj == old(obj).(nFrag := obj.nFrag) && obj.nFrag <= old(obj).nFrag
      ensures res.Ok? <==> obj.nFrag == 0
      ensures old(obj).nFrag == 0 ==> fs.View() == old(fs.View())
      ensures old(EndsIn(lcl)) ==> Inside(fs.g, fs.Fat(), obj, chain)
      ensures old(EndsIn(lcl)) ==> TableOnly(fs.g, old(fs.View()), fs.View(), Owned(chain))
      ensures old(EndsIn(lcl)) && res.Ok? && old(obj).nFrag > 0 ==>
                chain != [] && fs.g.IsCluster(lcl) && fs.Fat()[lcl] == Stored(fs.g.kind, term)
      ensures old(EndsIn(lcl)) ==> !res.IntErr? && !res.Denied?
    {
      hide Volume.Valid, ViewOf, FatOf, FreeOf, Stored, Inside;
      ghost var v, good := fs.View(), EndsIn(lcl);
      TableOnlyNothing(fs.g, v, Owned(chain));
      hide TableOnly;
      while obj.nFrag > 0
        invariant fs.faults >= old(fs.faults)
        invariant fs.Valid()
        invariant obj == old(obj).(nFrag := obj.nFrag) && obj.nFrag <= old(obj).nFrag
        invariant good ==> EndsIn(lcl) && TableOnly(fs.g, v, fs.View(), Owned(chain))
        invariant good && obj.nFrag < old(obj).nFrag && obj.nFrag == 0 ==>
                    chain != [] && fs.g.IsCluster(lcl) && fs.Fat()[lcl] == Stored(fs.g.kind, term)
        invariant old(obj).nFrag == 0 ==> fs.View() == v
        decreases obj.nFrag
      {
        var c := (lcl - obj.nFrag + 1) % 0x1_0000_0000;
        var val := if obj.nFrag > 1 then (lcl - obj.nFrag + 2) % 0x1_0000_0000 else term;
        if good {
          FragmentStart(fs.g, fs.Fat(), obj, chain, lcl);
          StoredValues(fs.g, val);
          FillOne(fs.g, fs.Fat(), obj, chain, Stored(fs.g.kind, val));
        }
        ghost var u := fs.View();
        res := fs.PutFat(c, val);
        if good { TableOnlyTwice(fs.g, v, u, fs.View(), Owned(chain), c); }
        if !res.Ok? { return; }
        obj := obj.(nFrag := obj.nFrag - 1);
      }
      res := Ok;
    }

    /** Looks for a free cluster cyclically from the one after `scl`, which is tried last: 0 is returned
        only when no entry is zero, 1 only when some entry holds 1. */
    method ScanTable(scl: nat) returns (r: nat)
      requires fs.Valid() && fs.g.Roomy() && !fs.g.kind.ExFat? && 1 <= scl < fs.g.nFatent
      modifies fs`disk, fs`win, fs`winsect, fs`wflag, fs`failures, fs`faults
      ensures fs.faults >= old(fs.faults) && (r == UNKNOWN ==> fs.faults > old(fs.faults))
      ensures fs.Valid() && fs.View() == old(fs.View())
      ensures r == 0 || r == 1 || r == UNKNOWN || fs.g.IsCluster(r)
      ensures r == 0 ==> forall c :: 2 <= c < fs.g.nFatent ==> fs.Fat()[c] != 0
      ensures r == 1 ==> exists c :: 2 <= c < fs.g.nFatent && fs.Fat()[c] == 1
      ensures fs.g.IsCluster(r) ==>
                && fs.Fat()[r] == 0
                && var from := if scl + 1 < fs.g.nFatent then scl + 1 else 2;
                   forall c: nat :: fs.g.IsCluster(c) && Turn(fs.g, from, c) < Turn(fs.g, from, r) ==> fs.Fat()[c] != 0
    {
      hide Volume.Valid, ViewOf, FatOf;
      var n := fs.g.nFatent;
      ghost var v, fat := fs.View(), fs.Fat();
      var ncl := scl;
      ghost var wrapped := false;
      while true
        invariant fs.faults >= old(fs.faults)
        invariant fs.Valid() && fs.View() == v && fs.Fat() == fat
        invariant if wrapped then 2 <= ncl < scl else scl <= ncl < n
        invariant !wrapped ==> forall c :: scl < c <= ncl ==> fat[c] != 0
        invariant wrapped ==> forall c :: (scl < c < n || 2 <= c <= ncl) ==> fat[c] != 0
        decreases if wrapped then 0 else 1, n - ncl
      {
        ncl := ncl + 1;
        if n <= ncl {
          ncl := 2;
          wrapped := true;
          if ncl > scl { return 0; }
        }
        var cs := GetFat(ncl);
        if cs == 0 { return ncl; }
        if cs == 1 || cs == UNKNOWN { return cs; }
        if ncl == scl { return 0; }
      }
    }

    /** Picks a free cluster on FAT volumes: the one after `clst` if it is free, else any found by the scan. */
    method PickOnTable(clst: nat, hint: nat) returns (ncl: nat)
      requires fs.Valid() && fs.g.Roomy() && !fs.g.kind.ExFat? && 1 <= hint < fs.g.nFatent
      modifies fs`disk, fs`win, fs`winsect, fs`wflag, fs`failures, fs`faults
      ensures fs.faults >= old(fs.faults) && (ncl == UNKNOWN ==> fs.faults > old(fs.faults))
      ensures fs.Valid() && fs.View() == old(fs.View())
      ensures ncl == 0 || ncl == 1 || ncl == UNKNOWN || ncl in fs.Free()
      ensures ncl == 0 ==> fs.Free() == {}
      ensures ncl == 1 ==> exists c :: 2 <= c < fs.g.nFatent && fs.Fat()[c] == 1
      ensures ncl in fs.Free() ==>
                && var next := if hint + 1 < fs.g.nFatent then hint + 1 else 2;
                   var again := hint == clst && next !in fs.Free() && 2 <= fs.lastClst < fs.g.nFatent;
                   var from := if !again then next else if fs.lastClst + 1 < fs.g.nFatent then fs.lastClst + 1 else 2;
                   forall c: nat :: c in fs.Free() ==> Turn(fs.g, from, ncl) <= Turn(fs.g, from, c)
      ensures hint == clst && 2 <= clst && clst + 1 in fs.Free() && ncl in fs.Free() ==> ncl == clst + 1
    {
      hide Volume.Valid, ViewOf, FatOf, FreeOf;
      var n := fs.g.nFatent;
      FreeOnTable(fs.g, fs.View());
      var scl := hint;
      ncl := 0;
      if scl == clst {
        ncl := scl + 1;
        if n <= ncl { ncl := 2; }
        var cs := GetFat(ncl);
        if cs == 1 || cs == UNKNOWN { return cs; }
        if cs != 0 {
          cs := fs.lastClst;
          if 2 <= cs < n { scl := cs; }
          ncl := 0;
        }
      }
      if ncl == 0 {
        ncl := ScanTable(scl);
        assert fs.Fat() == FatOf(fs.g, fs.View());
        if ncl == 0 { NoneZero(fs.g, fs.View()); }
      }
    }

    /** Marks a free cluster as the end of a chain and links it to the last cluster, if there is one. */
    method AppendOnTable(clst: nat, ncl: nat) returns (res: FResult)
      requires Kept() && !fs.g.kind.ExFat? && ncl in fs.Free()
      requires if clst == 0 then chain == [] else chain != [] && clst == chain[|chain| - 1]
      modifies this`chain, fs`disk, fs`win, fs`winsect, fs`wflag, fs`failures, fs`faults
      ensures fs.faults >= old(fs.faults) && (res.DiskErr? ==> fs.faults > old(fs.faults))
      ensures fs.Valid() && OthersIntact(fs.g, old(fs.View()), fs.View(), Owned(old(chain)) + {ncl})
      ensures res.Ok? || res.DiskErr?
      ensures res.Ok? ==> Kept() && chain == old(chain) + [ncl] && fs.Free() == old(fs.Free()) - {ncl}
      ensures res.DiskErr? ==> chain == old(chain)
    {
      hide Volume.Valid, ViewOf, FatOf, FreeOf, Stored;
      assert clst != 0 ==> clst in chain && fs.g.IsCluster(clst);
      hide Spells;
      ghost var v, fat: seq<nat> := fs.View(), fs.Fat();
      ghost var own := Owned(chain) + {ncl};
      FreeOnTable(fs.g, v);
      StoredValues(fs.g, ncl);
      ghost var end: nat := Stored(fs.g.kind, 0xFFFF_FFFF);
      GrowTable(fs.g, fat, obj, chain, ncl, end);
      res := fs.PutFat(ncl, 0xFFFF_FFFF);
      TableOnlyMore(fs.g, v, fs.View(), {ncl}, own);
      if res.Ok? && clst != 0 {
        ghost var u := fs.View();
        res := fs.PutFat(clst, ncl);
        TableOnlyTwice(fs.g, v, u, fs.View(), own, clst);
      }
      hide TableOnly;
      EntryChange(fs.g, v, fs.View(), own);
      if res.Ok? {
        assert chain == [] ==> fs.Fat() == fat[ncl := end];
        assert chain != [] ==> fs.Fat() == fat[ncl := end][clst := ncl];
        chain := chain + [ncl];
        TakenFromFree(fs.g, v, fs.View(), fat, fs.Fat(), clst, ncl);
        AllAllocated(fs.g, fs.View(), obj, chain);
      }
    }

    /** Stretching on FAT volumes. */
    method GrowOnTable(clst: nat, hint: nat) returns (ncl: nat, res: FResult)
      requires Kept() && !fs.g.kind.ExFat? && 1 <= hint < fs.g.nFatent
      requires if clst == 0 then chain == [] else chain != [] && clst == chain[|chain| - 1]
      modifies this`chain, fs`disk, fs`win, fs`winsect, fs`wflag, fs`failures, fs`faults
      ensures fs.faults >= old(fs.faults)
      ensures res.DiskErr? || (res.Ok? && ncl == UNKNOWN) ==> fs.faults > old(fs.faults)
      ensures fs.Valid() && OthersIntact(fs.g, old(fs.View()), fs.View(), Owned(old(chain)) + old(fs.Free()))
      ensures res.Ok? ==> ncl == 0 || ncl == 1 || ncl == UNKNOWN || ncl in old(fs.Free())
      ensures res.Ok? && ncl !in old(fs.Free()) ==> fs.View() == old(fs.View()) && chain == old(chain)
      ensures res.Ok? && ncl == 0 ==> fs.Free() == {}
      ensures res.Ok? && ncl == 1 ==> exists c :: 2 <= c < fs.g.nFatent && old(fs.Fat())[c] == 1
      ensures res.Ok? && ncl in old(fs.Free()) ==>
                Kept() && chain == old(chain) + [ncl] && fs.Free() == old(fs.Free()) - {ncl}
      ensures !res.Ok? ==> res.DiskErr? && chain == old(chain)
      ensures res.Ok? && hint == clst && 2 <= clst && clst + 1 in old(fs.Free()) && ncl in old(fs.Free()) ==>
                ncl == clst + 1
    {
      hide Volume.Valid, ViewOf, FatOf, FreeOf, Spells;
      NotFreeCodes(fs.g, fs.View());
      res := Ok;
      ncl := PickOnTable(clst, hint);
      if ncl == 0 || ncl == 1 || ncl == UNKNOWN { return; }
      ghost var v := fs.View();
      res := AppendOnTable(clst, ncl);
      OthersIntactMore(fs.g, v, fs.View(), Owned(old(chain)) + {ncl}, Owned(old(chain)) + FreeOf(fs.g, v));
    }

    /** Takes a free cluster from the bitmap, the first one from `hint` on. */
    method TakeBit(hint: nat) returns (ncl: nat, res: FResult)
      requires fs.Valid() && fs.g.kind.ExFat?
      modifies fs`disk, fs`win, fs`winsect, fs`wflag, fs`failures, fs`faults
      ensures fs.faults >= old(fs.faults)
      ensures res.DiskErr? || (res.Ok? && ncl == UNKNOWN) ==> fs.faults > old(fs.faults)
      ensures fs.Valid() && fs.Fat() == old(fs.Fat()) && (res.Ok? || res.DiskErr?)
      ensures res.Ok? ==> ncl == 0 || ncl == UNKNOWN || ncl in old(fs.Free())
      ensures res.Ok? && ncl !in old(fs.Free()) ==> fs.View() == old(fs.View())
      ensures res.Ok? && ncl == 0 ==> fs.Free() == {}
      ensures res.Ok? && ncl in old(fs.Free()) ==> fs.Free() == old(fs.Free()) - {ncl}
      ensures OthersIntact(fs.g, old(fs.View()), fs.View(), if ncl in old(fs.Free()) then {ncl} else {})
      ensures fs.g.IsCluster(hint) && hint !in old(fs.Free()) && hint + 1 in old(fs.Free()) && ncl in old(fs.Free()) ==>
                ncl == hint + 1
    {
      hide Volume.Valid, ViewOf, FatOf, FreeOf, OthersIntact, InUse, Painted, SameOutsideBitmap, IsBusy;
      ghost var v := fs.View();
      res := Ok;
      ncl := fs.FindBitmap(hint);
      FreeOnBitmap(fs.g, v);
      if ncl == 0 || ncl == UNKNOWN {
        NotFreeCodes(fs.g, v);
        OthersIntactSelf(fs.g, v, {});
        if ncl == 0 { NoneFree(fs.g, v); }
        return;
      }
      if fs.g.IsCluster(hint) && hint !in FreeOf(fs.g, v) && hint + 1 in FreeOf(fs.g, v) {
        NextFirst(fs.g, v, hint, ncl);
      }
      res := fs.ChangeBitmap(ncl, 1, true);
      BitsChange(fs.g, v, fs.View(), {ncl});
      if res.Ok? { BitTaken(fs.g, v, fs.View(), ncl); }
    }

    /** Stretching on exFAT: takes a free cluster from the bitmap and brings the record up to date, writing
        the last fragment out when the new cluster does not follow on the disk. */
    method GrowOnBitmap(clst: nat, hint: nat) returns (ncl: nat, res: FResult)
      requires Kept() && fs.g.kind.ExFat? && (chain != [] ==> obj.sclust == chain[0])
      requires if clst == 0 then chain == [] else chain != [] && clst == chain[|chain| - 1] && hint == clst
      modifies this`chain, this`obj, fs`disk, fs`win, fs`winsect, fs`wflag, fs`failures, fs`faults
      ensures fs.faults >= old(fs.faults)
      ensures res.DiskErr? || (res.Ok? && ncl == UNKNOWN) ==> fs.faults > old(fs.faults)
      ensures fs.Valid() && OthersIntact(fs.g, old(fs.View()), fs.View(), Owned(old(chain)) + old(fs.Free()))
      ensures obj.sclust == old(obj).sclust && obj.objsize == old(obj).objsize
      ensures res.Ok? ==> ncl == 0 || ncl == UNKNOWN || ncl in old(fs.Free())
      ensures res.Ok? && (ncl == 0 || ncl == UNKNOWN) ==>
                Kept() && fs.View() == old(fs.View()) && chain == old(chain) && obj == old(obj)
      ensures res.Ok? && ncl == 0 ==> fs.Free() == {}
      ensures res.Ok? && ncl in old(fs.Free()) ==>
                Kept() && chain == old(chain) + [ncl] && fs.Free() == old(fs.Free()) - {ncl}
      ensures res.Ok? && ncl in old(fs.Free()) && obj.stat == 3 ==> old(chain) != []
      ensures !res.Ok? ==> res.DiskErr? && chain == old(chain)
      ensures res.Ok? && 2 <= clst && clst + 1 in old(fs.Free()) && ncl in old(fs.Free()) ==> ncl == clst + 1
    {
      hide Volume.Valid, ViewOf, FatOf, FreeOf, Spells, OthersIntact;
      ghost var v := fs.View();
      ghost var mine := Owned(chain);
      NotFreeCodes(fs.g, v);
      ChainInRange(fs.g, fs.Fat(), obj, chain);
      assert clst != 0 ==> clst in chain && fs.g.IsCluster(clst) && clst !in FreeOf(fs.g, v);
      ncl, res := TakeBit(hint);
      ghost var w := fs.View();
      OthersIntactMore(fs.g, v, w, if ncl in FreeOf(fs.g, v) then {ncl} else {}, mine + FreeOf(fs.g, v));
      if !res.Ok? || ncl == 0 || ncl == UNKNOWN { return; }
      FreeIsCluster(fs.g, v, ncl);
      assert ncl !in chain;
      res := Recorded(clst, ncl);
      OthersIntactTwice(fs.g, v, w, fs.View(), {ncl}, mine);
      OthersIntactMore(fs.g, v, fs.View(), {ncl} + mine, mine + FreeOf(fs.g, v));
      if res.Ok? {
        chain := chain + [ncl];
      }
    }

    /** Brings the record up to date after cluster `ncl` was taken to follow the last cluster `clst`. */
    method Recorded(clst: nat, ncl: nat) returns (res: FResult)
      requires fs.Valid() && fs.g.Roomy() && fs.g.kind.ExFat? && Spells(fs.g, fs.Fat(), obj, chain)
      requires if clst == 0 then chain == [] else chain != [] && clst == chain[|chain| - 1] && obj.sclust == chain[0]
      requires fs.g.IsCluster(ncl) && ncl !in chain
      modifies this`obj, fs`disk, fs`win, fs`winsect, fs`wflag, fs`failures, fs`faults
      ensures fs.faults >= old(fs.faults) && (res.DiskErr? ==> fs.faults > old(fs.faults))
      ensures fs.Valid() && OthersIntact(fs.g, old(fs.View()), fs.View(), Owned(chain)) && fs.Free() == old(fs.Free())
      ensures obj.sclust == old(obj).sclust && obj.objsize == old(obj).objsize
      ensures res.Ok? || res.DiskErr?
      ensures res.Ok? ==> Spells(fs.g, fs.Fat(), obj, chain + [ncl]) && (obj.stat == 3 ==> chain != [])
    {
      hide Volume.Valid, ViewOf, FatOf, FreeOf, Stored;
      res := Ok;
      if clst == 0 {
        obj := obj.(stat := 2);
        GrowContiguous(fs.g, fs.Fat(), obj, chain, ncl);
        return;
      }
      assert Inside(fs.g, fs.Fat(), obj, chain);
      hide Spells, Inside;
      if obj.stat == 2 && ncl != clst + 1 {
        BreakUp(fs.g, fs.Fat(), obj, chain);
        obj := obj.(nCont := clst - obj.sclust, stat := 3);
      } else if obj.stat == 2 {
        GrowContiguous(fs.g, fs.Fat(), obj, chain, ncl);
        return;
      } else if ncl == clst + 1 {
        GrowAdjacent(fs.g, fs.Fat(), obj, chain, ncl);
        obj := obj.(nFrag := if obj.nFrag > 0 then obj.nFrag + 1 else 2);
        return;
      }
      res := NewFragment(clst, ncl);
    }

    method NewFragment(clst: nat, ncl: nat) returns (res: FResult)
      requires fs.Valid() && fs.g.Roomy() && fs.g.kind.ExFat? && Inside(fs.g, fs.Fat(), obj, chain)
      requires chain != [] && clst == chain[|chain| - 1] && obj.stat != 2
      requires fs.g.IsCluster(ncl) && ncl !in chain
      modifies this`obj, fs`disk, fs`win, fs`winsect, fs`wflag, fs`failures, fs`faults
      ensures fs.faults >= old(fs.faults) && (res.DiskErr? ==> fs.faults > old(fs.faults))
      ensures fs.Valid() && OthersIntact(fs.g, old(fs.View()), fs.View(), Owned(chain)) && fs.Free() == old(fs.Free())
      ensures obj == old(obj).(nFrag := obj.nFrag)
      ensures res.Ok? || res.DiskErr?
      ensures res.Ok? ==> Spells(fs.g, fs.Fat(), obj, chain + [ncl])
    {
      hide Volume.Valid, ViewOf, FatOf, FreeOf, Stored, Spells, Inside;
      if obj.nFrag == 0 {
        OpenFragment(fs.g, fs.Fat(), obj, chain);
        obj := obj.(nFrag := 1);
      }
      StoredValues(fs.g, ncl);
      ghost var v := fs.View();
      res := FillLastFrag(clst, ncl);
      TableChange(fs.g, v, fs.View(), Owned(chain));
      if res.Ok? {
        GrowFragment(fs.g, fs.Fat(), obj, chain, ncl);
        obj := obj.(nFrag := 1);
      }
    }

    ghost predicate FreeKnown()
      requires fs.Valid()
      reads fs
    {
      FreeIs(fs.freeClst, fs.g, fs.Free())
    }

    /** Follows the chain from cluster `clst`, stretching it at its end, or starts it if `clst` is 0.
        Returns 0 when the volume is full, 1 for an internal error and 0xFFFFFFFF for a disk error. */
    method CreateChain(clst: nat, ghost i: nat) returns (r: nat)
      requires Kept() && Sized(fs.g, obj, chain)
      requires if clst == 0 then chain == []
               else i < |chain| && chain[i] == clst && (obj.nFrag > 0 ==> i == |chain| - 1)
      modifies this`chain, this`obj, fs
      ensures fs.faults >= old(fs.faults) && (r == UNKNOWN ==> fs.faults > old(fs.faults))
      ensures fs.Valid() && OthersIntact(fs.g, old(fs.View()), fs.View(), Owned(old(chain)) + old(fs.Free()))
      ensures obj.sclust == old(obj).sclust && obj.objsize == old(obj).objsize
      ensures r == 0 || r == 1 || r == UNKNOWN || fs.g.IsCluster(r)
      // An existing successor is returned and nothing changes.
      ensures clst != 0 && i + 1 < |old(chain)| ==> r == old(chain)[i + 1] || r == UNKNOWN
      ensures (clst != 0 && i + 1 < |old(chain)|) || r == 0 ==>
                Kept() && fs.View() == old(fs.View()) && chain == old(chain) && obj == old(obj)
      // Full is reported only when the count says so or nothing is free.
      ensures r == 0 ==> fs.freeClst == 0 || fs.Free() == {}
      // A new cluster was free, and is appended.
      ensures (clst == 0 || i + 1 == |old(chain)|) && fs.g.IsCluster(r) ==>
                Kept() && r in old(fs.Free()) && chain == old(chain) + [r] && fs.Free() == old(fs.Free()) - {r}
      // ... the next one on the disk, if that is free.
      ensures clst != 0 && i + 1 == |old(chain)| && clst + 1 in old(fs.Free()) && fs.g.IsCluster(r) ==> r == clst + 1
      ensures r == 1 ==> !fs.g.kind.ExFat? && exists c :: 2 <= c < fs.g.nFatent && old(fs.Fat())[c] == 1
      ensures old(FreeKnown()) && r != 1 && r != UNKNOWN ==> FreeKnown()
      ensures obj.stat == 3 && old(obj).stat != 3 && fs.g.IsCluster(r) ==> old(chain) != []
    {
      hide ViewOf, FatOf, FreeOf, Spells, LinkValue, ClustersFor, Allocated, Volume.Valid;
      var scl: nat;
      if clst == 0 {
        scl := fs.lastClst;
        if scl == 0 || fs.g.nFatent <= scl { scl := 1; }
      } else {
        LinkFollows(fs.g, fs.Fat(), obj, chain, i);
        ChainInRange(fs.g, fs.Fat(), obj, chain);
        var cs := GetFat(clst);
        if cs < 2 || cs == UNKNOWN || cs < fs.g.nFatent {
          r := cs;
          if cs < 2 { r := INTERNAL; }
          return;
        }
        scl := clst;
      }
      if fs.freeClst == 0 { return 0; }
      r := Stretch(clst, scl);
    }

    /** The part of `CreateChain` that takes a new cluster. */
    method Stretch(clst: nat, scl: nat) returns (r: nat)
      requires Kept() && 1 <= scl < fs.g.nFatent && fs.freeClst != 0 && (chain != [] ==> obj.sclust == chain[0])
      requires if clst == 0 then chain == [] else chain != [] && clst == chain[|chain| - 1] && scl == clst
      modifies this`chain, this`obj, fs
      ensures fs.faults >= old(fs.faults) && (r == UNKNOWN ==> fs.faults > old(fs.faults))
      ensures fs.Valid() && OthersIntact(fs.g, old(fs.View()), fs.View(), Owned(old(chain)) + old(fs.Free()))
      ensures obj.sclust == old(obj).sclust && obj.objsize == old(obj).objsize
      ensures r == 0 || r == 1 || r == UNKNOWN || r in old(fs.Free())
      ensures r == 0 ==>
                Kept() && fs.View() == old(fs.View()) && chain == old(chain) && obj == old(obj) && fs.Free() == {}
      ensures r in old(fs.Free()) ==>
                Kept() && fs.g.IsCluster(r) && chain == old(chain) + [r] && fs.Free() == old(fs.Free()) - {r}
      ensures 2 <= clst && clst + 1 in old(fs.Free()) && r in old(fs.Free()) ==> r == clst + 1
      ensures r == 1 ==> !fs.g.kind.ExFat? && exists c :: 2 <= c < fs.g.nFatent && old(fs.Fat())[c] == 1
      ensures old(FreeKnown()) && r != 1 && r != UNKNOWN ==> FreeKnown()
      ensures obj.stat == 3 && old(obj).stat != 3 && r in old(fs.Free()) ==> old(chain) != []
    {
      hide ViewOf, FatOf, FreeOf, Spells, OthersIntact, Allocated, Volume.Valid, FreeIs, Owned, Sized;
      var ncl: nat, res: FResult := 0, Ok;
      ghost var v := fs.View();
      if fs.g.kind.ExFat? {
        ncl, res := GrowOnBitmap(clst, scl);
      } else {
        ncl, res := GrowOnTable(clst, scl);
      }
      NotFreeCodes(fs.g, v);
      if res.Ok? && (ncl == 0 || ncl == 1 || ncl == UNKNOWN) { return ncl; }
      if !res.Ok? { return UNKNOWN; }
      FreeIsCluster(fs.g, v, ncl);
      CountTaken(fs.freeClst, fs.g, FreeOf(fs.g, v), ncl);
      fs.NoteTaken(ncl);
      r := ncl;
    }

    // ----- cutting a chain -----

    /** Frees one cluster on a FAT volume and returns its old link; a link of 0 or 1 frees nothing. */
    method FreeOne(clst: nat) returns (nxt: nat, res: FResult)
      requires fs.Valid() && fs.g.Roomy() && !fs.g.kind.ExFat? && fs.g.IsCluster(clst)
      modifies fs`disk, fs`win, fs`winsect, fs`wflag, fs`failures, fs`faults, fs`freeClst, fs`fsiFlag
      ensures fs.faults >= old(fs.faults) && (res.DiskErr? ==> fs.faults > old(fs.faults))
      ensures fs.Valid() && TableOnly(fs.g, old(fs.View()), fs.View(), {clst})
      ensures res.Ok? ==> nxt == old(fs.Fat())[clst] && nxt != 1
      ensures res.IntErr? ==> old(fs.Fat())[clst] == 1
      ensures !res.Denied?
      ensures res.Ok? && nxt == 0 ==> fs.View() == old(fs.View()) && fs.freeClst == old(fs.freeClst)
      ensures res.Ok? && nxt != 0 ==> clst !in old(fs.Free()) && fs.Free() == old(fs.Free()) + {clst}
      ensures res.Ok? && nxt != 0 ==> fs.freeClst == Counted(fs.g, old(fs.freeClst))
    {
      hide Volume.Valid, ViewOf, FatOf, FreeOf, Stored;
      ghost var v, fat: seq<nat> := fs.View(), fs.Fat();
      TableOnlyNothing(fs.g, v, {clst});
      hide TableOnly;
      res := Ok;
      nxt := GetFat(clst);
      if nxt == 0 { return; }
      if nxt == 1 { res := IntErr; return; }
      if nxt == UNKNOWN { res := DiskErr; return; }
      StoredValues(fs.g, 0);
      res := fs.PutFat(clst, 0);
      if !res.Ok? { return; }
      GivenBack(fs.g, v, fs.View(), clst);
      fs.NoteFreed();
    }

    /** Frees the clusters a chain leads through from `clst` on. For any contents of the table, cyclic
        links included, this ends, because every step turns a used entry into a free one. */
    method RemoveOnTable(start: nat, ghost i: nat, ghost good: bool) returns (res: FResult)
      requires fs.Valid() && fs.g.Roomy() && !fs.g.kind.ExFat? && fs.g.IsCluster(start)
      requires good ==> i < |chain| && chain[i] == start && Leads(fs.g, fs.Fat(), obj, chain, i)
      modifies fs`disk, fs`win, fs`winsect, fs`wflag, fs`failures, fs`faults, fs`freeClst, fs`fsiFlag
      ensures fs.faults >= old(fs.faults) && (res.DiskErr? ==> fs.faults > old(fs.faults))
      ensures fs.Valid() && !res.Denied?
      ensures good ==> !res.IntErr? && TableOnly(fs.g, old(fs.View()), fs.View(), Owned(chain[i..]))
      ensures good && res.Ok? ==> fs.Free() == old(fs.Free()) + Owned(chain[i..])
      ensures good && res.Ok? ==> fs.freeClst == CountedTimes(fs.g, old(fs.freeClst), |chain| - i)
    {
      hide Volume.Valid, ViewOf, FatOf, FreeOf, Stored, LinkValue;
      var clst: nat := start;
      ghost var v, count: nat := fs.View(), fs.freeClst;
      ghost var j: nat := i;
      if good {
        TableOnlyNothing(fs.g, v, Owned(chain[i..]));
        assert Owned(chain[i..i]) == {};
      }
      hide TableOnly;
      while true
        invariant fs.faults >= old(fs.faults)
        invariant fs.Valid() && fs.g.IsCluster(clst)
        invariant good ==> j < |chain| && chain[j] == clst && Zeroing(v, count, i, j)
        decreases Busy(fs.g, fs.Free())
      {
        var nxt;
        nxt, res := ZeroStep(clst, v, count, i, j, good);
        if !res.Ok? || nxt == 0 { return; }
        j := j + 1;
        clst := nxt;
        if fs.g.nFatent <= clst { break; }
      }
      assert good ==> chain[i..] == chain[i..j];
      res := Ok;
    }

    /** Entries `i..j` of the chain are zero and the rest can still be followed. */
    ghost predicate Zeroing(v: Image, count: nat, i: nat, j: nat)
      requires Fits(fs.g, v)
      reads this, fs
    {
      && fs.Valid() && i <= j <= |chain| && Leads(fs.g, fs.Fat(), obj, chain, j)
      && TableOnly(fs.g, v, fs.View(), Owned(chain[i..]))
      && fs.Free() == FreeOf(fs.g, v) + Owned(chain[i..j])
      && fs.freeClst == CountedTimes(fs.g, count, j - i)
    }

    method ZeroStep(clst: nat, ghost v: Image, ghost count: nat, ghost i: nat, ghost j: nat, ghost good: bool)
        returns (nxt: nat, res: FResult)
      requires fs.Valid() && fs.g.Roomy() && !fs.g.kind.ExFat? && fs.g.IsCluster(clst) && Fits(fs.g, v)
      requires good ==> j < |chain| && chain[j] == clst && Zeroing(v, count, i, j)
      modifies fs`disk, fs`win, fs`winsect, fs`wflag, fs`failures, fs`faults, fs`freeClst, fs`fsiFlag
      ensures fs.faults >= old(fs.faults) && (res.DiskErr? ==> fs.faults > old(fs.faults))
      ensures fs.Valid() && !res.Denied?
      ensures res.Ok? && nxt != 0 ==> nxt >= 2 && clst !in old(fs.Free()) && fs.Free() == old(fs.Free()) + {clst}
      ensures good ==> !res.IntErr? && TableOnly(fs.g, v, fs.View(), Owned(chain[i..]))
      ensures good && res.Ok? ==> nxt != 0 && Zeroing(v, count, i, j + 1)
      ensures good && res.Ok? ==> if j + 1 < |chain| then nxt == chain[j + 1] else fs.g.nFatent <= nxt
    {
      hide Volume.Valid, ViewOf, FatOf, FreeOf, Stored, LinkValue, TableOnly, CountedTimes;
      ghost var u := fs.View();
      if good {
        assert LeadsAt(fs.g, fs.Fat(), obj, chain, j);
        TableLink(fs.g, fs.Fat(), obj, clst);
        OwnedStep(chain, i, j);
      }
      hide Owned;
      nxt, res := FreeOne(clst);
      if good {
        TableOnlyTwice(fs.g, v, u, fs.View(), Owned(chain[i..]), clst);
        LeadsPast(fs.g, u, fs.View(), obj, chain, j);
        CountedOnce(fs.g, count, j - i);
      }
    }

    /** Clears the bits of a block of allocated clusters. */
    method FreeBlock(scl: nat, ecl: nat) returns (res: FResult)
      requires fs.Valid() && fs.g.kind.ExFat? && 2 <= scl <= ecl < fs.g.nFatent
      requires forall c :: scl <= c <= ecl ==> c !in fs.Free()
      modifies fs`disk, fs`win, fs`winsect, fs`wflag, fs`failures, fs`faults
      ensures fs.faults >= old(fs.faults) && (res.DiskErr? ==> fs.faults > old(fs.faults))
      ensures fs.Valid() && fs.Fat() == old(fs.Fat())
      ensures OthersIntact(fs.g, old(fs.View()), fs.View(), Block(scl, ecl))
      ensures res.Ok? || res.DiskErr?
      ensures res.Ok? ==> fs.Free() == old(fs.Free()) + Block(scl, ecl)
    {
      hide Volume.Valid, ViewOf, FatOf, FreeOf, IsBusy;
      ghost var v := fs.View();
      FreeOnBitmap(fs.g, v);
      assert forall k :: scl - 2 <= k < scl - 2 + (ecl - scl + 1) ==> IsBusy(fs.g, v, k) by {
        forall k | scl - 2 <= k < scl - 2 + (ecl - scl + 1)
          ensures IsBusy(fs.g, v, k)
        {
          assert k + 2 !in fs.Free() && fs.g.IsCluster(k + 2);
        }
      }
      res := fs.ChangeBitmap(scl, ecl - scl + 1, false);
      BitsChange(fs.g, v, fs.View(), Block(scl, ecl));
      FreeOnBitmap(fs.g, fs.View());
    }

    /** Frees the block of clusters `k..j` of the chain, after those from `i` to `k`. */
    method ReleaseBlock(scl: nat, ecl: nat, ghost v: Image, ghost i: nat, ghost k: nat, ghost j: nat)
        returns (res: FResult)
      requires fs.Valid() && fs.g.kind.ExFat? && i <= k < j <= |chain| && scl == chain[k] && ecl == chain[j - 1]
      requires InRange(fs.g, chain) && Distinct(chain) && Adjacent(chain, k, j - 1)
      requires Fits(fs.g, v) && Allocated(fs.g, v, chain) && OthersIntact(fs.g, v, fs.View(), Owned(chain[i..]))
      requires fs.Free() == FreeOf(fs.g, v) + Owned(chain[i..k])
      modifies fs`disk, fs`win, fs`winsect, fs`wflag, fs`failures, fs`faults
      ensures fs.faults >= old(fs.faults) && (res.DiskErr? ==> fs.faults > old(fs.faults))
      ensures fs.Valid() && fs.Fat() == old(fs.Fat())
      ensures OthersIntact(fs.g, v, fs.View(), Owned(chain[i..]))
      ensures res.Ok? || res.DiskErr?
      ensures res.Ok? ==> fs.Free() == FreeOf(fs.g, v) + Owned(chain[i..j])
    {
      hide Volume.Valid, ViewOf, FatOf, FreeOf, Owned, OthersIntact;
      BlockOfChain(fs.g, chain, i, k, j);
      assert forall c :: scl <= c <= ecl ==> c !in fs.Free() by {
        forall c | scl <= c <= ecl
          ensures c !in fs.Free()
        {
          assert IsNat(c) && c in Block(scl, ecl);
          var m :| 0 <= m < |chain| && chain[m] == c;
        }
      }
      ghost var u := fs.View();
      res := FreeBlock(scl, ecl);
      OthersIntactTwice(fs.g, v, u, fs.View(), Owned(chain[i..]), Block(scl, ecl));
      assert Owned(chain[i..]) + Block(scl, ecl) == Owned(chain[i..]);
    }

    /** Clusters `i..k` of the chain are free and `k..j` wait to be freed as one block starting at `scl`;
        `clst` is cluster `j`, or lies past the clusters at the end. */
    ghost predicate Removing(v: Image, fat: seq<nat>, count: nat, i: nat, k: nat, j: nat, scl: nat, clst: nat)
      requires Fits(fs.g, v)
      reads this, fs
    {
      && fs.Valid() && i <= k <= j <= |chain|
      && fs.Fat() == fat
      && (j < |chain| ==> scl == chain[k] && clst == chain[j] && Adjacent(chain, k, j))
      && (j == |chain| ==> k == j && fs.g.nFatent <= clst)
      && OthersIntact(fs.g, v, fs.View(), Owned(chain[i..]))
      && fs.Free() == FreeOf(fs.g, v) + Owned(chain[i..k])
      && fs.freeClst == CountedTimes(fs.g, count, j - i)
    }

    /** Frees the clusters an exFAT chain leads through from `start` on, block by block. */
    method RemoveOnBitmap(start: nat, ghost i: nat) returns (res: FResult)
      requires fs.Valid() && fs.g.Roomy() && fs.g.kind.ExFat? && i < |chain| && chain[i] == start
      requires Leads(fs.g, fs.Fat(), obj, chain, i) && Allocated(fs.g, fs.View(), chain)
      modifies fs`disk, fs`win, fs`winsect, fs`wflag, fs`failures, fs`faults, fs`freeClst, fs`fsiFlag
      ensures fs.faults >= old(fs.faults) && (res.DiskErr? ==> fs.faults > old(fs.faults))
      ensures fs.Valid() && (res.Ok? || res.DiskErr?) && fs.Fat() == old(fs.Fat())
      ensures OthersIntact(fs.g, old(fs.View()), fs.View(), Owned(chain[i..]))
      ensures res.Ok? ==> fs.Free() == old(fs.Free()) + Owned(chain[i..])
      ensures res.Ok? ==> fs.freeClst == CountedTimes(fs.g, old(fs.freeClst), |chain| - i)
    {
      hide Volume.Valid, ViewOf, FatOf, FreeOf, LinkValue, OthersIntact, LeadsAt, Allocated, Adjacent, Counted;
      var clst: nat, scl: nat := start, start;
      ghost var v, fat: seq<nat>, count: nat := fs.View(), fs.Fat(), fs.freeClst;
      ghost var k: nat, j: nat := i, i;
      assert Owned(chain[i..i]) == {};
      OthersIntactSelf(fs.g, v, Owned(chain[i..]));
      AdjacentOne(chain, i);
      while clst < fs.g.nFatent
        invariant fs.faults >= old(fs.faults)
        invariant Removing(v, fat, count, i, k, j, scl, clst)
        decreases |chain| - j
      {
        res, clst, scl, k := RemoveStep(clst, scl, v, fat, count, i, k, j);
        if !res.Ok? { return; }
        j := j + 1;
      }
      assert chain[i..] == chain[i..k];
      res := Ok;
    }

    method RemoveStep(clst: nat, start: nat, ghost v: Image, ghost fat: seq<nat>, ghost count: nat, ghost i: nat,
        ghost k: nat, ghost j: nat)
      returns (res: FResult, nxt: nat, scl: nat, ghost k': nat)
      requires Fits(fs.g, v) && fs.g.Roomy() && fs.g.kind.ExFat? && Removing(v, fat, count, i, k, j, start, clst)
      requires j < |chain| && Leads(fs.g, fat, obj, chain, i) && Allocated(fs.g, v, chain)
      modifies fs`disk, fs`win, fs`winsect, fs`wflag, fs`failures, fs`faults, fs`freeClst, fs`fsiFlag
      ensures fs.faults >= old(fs.faults) && (res.DiskErr? ==> fs.faults > old(fs.faults))
      ensures fs.Valid() && fs.Fat() == fat && OthersIntact(fs.g, v, fs.View(), Owned(chain[i..]))
      ensures res.Ok? || res.DiskErr?
      ensures res.Ok? ==> Removing(v, fat, count, i, k', j + 1, scl, nxt)
    {
      hide Volume.Valid, ViewOf, FatOf, FreeOf, LinkValue, OthersIntact, CountedTimes, Counted, Adjacent;
      scl, k', res := start, k, Ok;
      assert LeadsAt(fs.g, fs.Fat(), obj, chain, j);
      nxt := GetFat(clst);
      if nxt == 0 { return; }
      if nxt == 1 { res := IntErr; return; }
      if nxt == UNKNOWN { res := DiskErr; return; }
      fs.NoteFreed();
      CountedOnce(fs.g, count, j - i);
      if clst + 1 == nxt {
        AdjacentMore(chain, k, j);
        return;
      }
      res := ReleaseBlock(start, clst, v, i, k, j + 1);
      scl, k' := nxt, j + 1;
      AdjacentOne(chain, k');
    }

    /** A fragmented chain is known to be contiguous once it is; one that was fragmented in this session, once it ends
        in its first part. */
    static ghost predicate Resettled(o: ObjId, o': ObjId, chain: seq<nat>)
      requires chain != []
    {
      var last := chain[|chain| - 1];
      && (o.stat == 0 ==> o'.stat == if Adjacent(chain, 0, |chain| - 1) then 2 else 0)
      && (o.stat == 2 ==> o'.stat == 2)
      && (o.stat == 3 ==> o'.stat == if o.sclust <= last <= o.sclust + o.nCont then 2 else 3)
    }

    /** Finds out whether what is left of an exFAT chain, which ends in `pclst`, became contiguous. */
    method Resettle(pclst: nat) returns (res: FResult)
      requires fs.Valid() && fs.g.Roomy() && fs.g.kind.ExFat? && obj.nFrag == 0
      requires chain != [] && obj.sclust == chain[0] && pclst == chain[|chain| - 1] && InRange(fs.g, chain)
      requires Distinct(chain)
      requires obj.stat == 0 || obj.stat == 2 || obj.stat == 3
      requires if obj.stat == 3 && obj.sclust <= pclst <= obj.sclust + obj.nCont then Adjacent(chain, 0, |chain| - 1)
               else Spells(fs.g, fs.Fat(), obj, chain)
      modifies this`obj, fs`disk, fs`win, fs`winsect, fs`wflag, fs`failures, fs`faults
      ensures fs.faults >= old(fs.faults) && (res.DiskErr? ==> fs.faults > old(fs.faults))
      ensures fs.Valid() && fs.View() == old(fs.View())
      ensures obj == old(obj).(stat := obj.stat) && (obj.stat == 3 ==> old(obj).stat == 3)
      ensures res.Ok? ==> Resettled(old(obj), obj, chain)
      ensures res.Ok? ==> Spells(fs.g, fs.Fat(), obj, chain)
      ensures res.Ok? || res.DiskErr?
    {
      hide Volume.Valid, ViewOf, FatOf, FreeOf;
      res := Ok;
      if obj.stat == 0 {
        var whole: bool;
        res, whole := WalkContiguous(pclst);
        if res.Ok? && whole {
          obj := obj.(stat := 2);
        }
      } else if obj.stat == 3 && obj.sclust <= pclst <= obj.sclust + obj.nCont {
        obj := obj.(stat := 2);
      }
    }

    /** Follows the chain for as long as its clusters follow each other on the disk. */
    method WalkContiguous(pclst: nat) returns (res: FResult, whole: bool)
      requires fs.Valid() && fs.g.Roomy() && fs.g.kind.ExFat? && obj.nFrag == 0 && obj.stat == 0
      requires chain != [] && obj.sclust == chain[0] && pclst == chain[|chain| - 1]
      requires Spells(fs.g, fs.Fat(), obj, chain)
      modifies fs`disk, fs`win, fs`winsect, fs`wflag, fs`failures, fs`faults
      ensures fs.faults >= old(fs.faults) && (res.DiskErr? ==> fs.faults > old(fs.faults))
      ensures fs.Valid() && fs.View() == old(fs.View())
      ensures res.Ok? || res.DiskErr?
      ensures res.Ok? ==> (whole <==> Adjacent(chain, 0, |chain| - 1))
    {
      hide Volume.Valid, ViewOf, FatOf, FreeOf, LinkValue;
      assert Distinct(chain);
      hide Spells;
      var clst: nat := obj.sclust;
      ghost var v, m: nat := fs.View(), 0;
      whole := false;
      while clst != pclst
        invariant fs.faults >= old(fs.faults)
        invariant fs.Valid() && fs.View() == v && m < |chain| && clst == chain[m] && Adjacent(chain, 0, m)
        decreases |chain| - m
      {
        PlainLink(fs.g, fs.Fat(), obj, chain, m);
        var nxt := GetFat(clst);
        if nxt < 2 { res := IntErr; return; }
        if nxt == UNKNOWN { res := DiskErr; return; }
        if nxt != clst + 1 { break; }
        clst := clst + 1;
        m := m + 1;
      }
      res, whole := Ok, clst == pclst;
      assert clst != pclst ==> chain[m] == chain[0] + m && chain[m + 1] != chain[0] + (m + 1);
      assert clst == pclst ==> m == |chain| - 1;
    }

    /** `clst` is cluster `i` of a fully written chain and `pclst` the one before it, or 0. */
    ghost predicate CutPoint(clst: nat, pclst: nat, i: nat)
      reads this, fs
    {
      && Kept() && Sized(fs.g, obj, chain) && obj.nFrag == 0 && i < |chain| && chain[i] == clst
      && pclst == if i == 0 then 0 else chain[i - 1]
    }

    /** Cluster `i - 1` is marked as the end, where that is kept in the table, and earlier links are as they were. */
    ghost predicate EndMarked(fat: seq<nat>, i: nat)
      requires fs.Valid() && |fat| == fs.g.nFatent && InRange(fs.g, chain) && i <= |chain|
      reads this, fs
    {
      && (forall m :: 0 <= m < i - 1 ==> fs.Fat()[chain[m]] == fat[chain[m]])
      && (0 < i && obj.stat != 2 ==> IsEnd(fs.g, fs.Fat()[chain[i - 1]]))
    }

    /** Marks the previous cluster as the last one. */
    method MarkEnd(clst: nat, pclst: nat, ghost i: nat, ghost good: bool) returns (res: FResult)
      requires fs.Valid() && fs.g.Roomy() && (good ==> CutPoint(clst, pclst, i))
      modifies fs`disk, fs`win, fs`winsect, fs`wflag, fs`failures, fs`faults
      ensures fs.faults >= old(fs.faults) && (res.DiskErr? ==> fs.faults > old(fs.faults))
      ensures fs.Valid()
      ensures good ==> TableOnly(fs.g, old(fs.View()), fs.View(), Owned(chain[..i])) && (res.Ok? || res.DiskErr?)
      ensures good && res.Ok? ==>
                InRange(fs.g, chain) && EndMarked(old(fs.Fat()), i) && Leads(fs.g, fs.Fat(), obj, chain, i)
    {
      hide Volume.Valid, ViewOf, FatOf, FreeOf, Stored, LinkValue, ClustersFor;
      ghost var v, fat: seq<nat> := fs.View(), fs.Fat();
      res := Ok;
      if good {
        SpellsLeads(fs.g, fat, obj, chain, i);
        TableOnlyNothing(fs.g, v, Owned(chain[..i]));
        assert i > 0 ==> chain[..i][i - 1] == pclst;
      }
      if pclst != 0 && (!fs.g.kind.ExFat? || obj.stat != 2) {
        res := fs.PutFat(pclst, 0xFFFF_FFFF);
        if good {
          TableOnlyMore(fs.g, v, fs.View(), {pclst}, Owned(chain[..i]));
          if res.Ok? {
            StoredValues(fs.g, 0);
            LeadsOn(fs.g, fat, fs.Fat(), obj, chain, i, i);
          }
        }
      }
    }

    /** Clusters `i..` are free and the end before them is marked; `v` and `count` are view and free count
        from before. */
    ghost predicate TailGone(v: Image, count: nat, i: nat)
      requires Fits(fs.g, v)
      reads this, fs
    {
      && fs.Valid() && i <= |chain| && InRange(fs.g, chain)
      && EndMarked(FatOf(fs.g, v), i)
      && fs.Free() == FreeOf(fs.g, v) + Owned(chain[i..])
      && fs.freeClst == CountedTimes(fs.g, count, |chain| - i)
    }

    method TailOnTable(clst: nat, pclst: nat, ghost i: nat, ghost good: bool) returns (res: FResult)
      requires fs.Valid() && fs.g.Roomy() && fs.g.IsCluster(clst) && (good ==> CutPoint(clst, pclst, i))
      requires !fs.g.kind.ExFat?
      modifies fs`disk, fs`win, fs`winsect, fs`wflag, fs`failures, fs`faults, fs`freeClst, fs`fsiFlag
      ensures fs.faults >= old(fs.faults) && (res.DiskErr? ==> fs.faults > old(fs.faults))
      ensures fs.Valid()
      ensures good ==> (res.Ok? || res.DiskErr?) && OthersIntact(fs.g, old(fs.View()), fs.View(), Owned(chain))
      ensures good && res.Ok? ==> TailGone(old(fs.View()), old(fs.freeClst), i)
    {
      hide Volume.Valid, ViewOf, FatOf, FreeOf, Stored, LinkValue, Sized, TableOnly, OthersIntact, CountedTimes, Owned;
      ghost var v := fs.View();
      res := MarkEnd(clst, pclst, i, good);
      ghost var u := fs.View();
      if good {
        OwnedParts(chain, i);
        MarkedIntact(fs.g, v, u, chain, obj, i);
        OthersIntactMore(fs.g, v, u, Owned(chain[..i]), Owned(chain));
        if res.Ok? { MarkedNotFree(fs.g, v, u, chain, obj, i); }
        hide Spells;
      }
      if !res.Ok? { return; }
      res := RemoveOnTable(clst, i, good);
      if good {
        EntryChange(fs.g, u, fs.View(), Owned(chain[i..]));
        PrefixKept(fs.g, u, fs.View(), chain, i);
        OthersIntactTwice(fs.g, v, u, fs.View(), Owned(chain), Owned(chain[i..]));
      }
    }

    method TailOnBitmap(clst: nat, pclst: nat, ghost i: nat) returns (res: FResult)
      requires fs.g.kind.ExFat? && CutPoint(clst, pclst, i)
      modifies fs`disk, fs`win, fs`winsect, fs`wflag, fs`failures, fs`faults, fs`freeClst, fs`fsiFlag
      ensures fs.faults >= old(fs.faults) && (res.DiskErr? ==> fs.faults > old(fs.faults))
      ensures fs.Valid() && (res.Ok? || res.DiskErr?) && OthersIntact(fs.g, old(fs.View()), fs.View(), Owned(chain))
      ensures res.Ok? ==> TailGone(old(fs.View()), old(fs.freeClst), i)
    {
      hide Volume.Valid, ViewOf, FatOf, FreeOf, Stored, LinkValue, Sized, TableOnly, OthersIntact, CountedTimes, Owned;
      ghost var v := fs.View();
      res := MarkEnd(clst, pclst, i, true);
      ghost var u := fs.View();
      OwnedParts(chain, i);
      MarkedIntact(fs.g, v, u, chain, obj, i);
      OthersIntactMore(fs.g, v, u, Owned(chain[..i]), Owned(chain));
      if !res.Ok? { return; }
      hide Spells;
      res := RemoveOnBitmap(clst, i);
      OthersIntactTwice(fs.g, v, u, fs.View(), Owned(chain), Owned(chain[i..]));
    }

    lemma AfterCut(v: Image, count: nat, i: nat)
      requires Fits(fs.g, v) && Spells(fs.g, FatOf(fs.g, v), obj, chain) && Allocated(fs.g, v, chain)
      requires i < |chain| && obj.sclust == chain[0] && obj.nFrag == 0 && TailGone(v, count, i)
      ensures Allocated(fs.g, fs.View(), chain[..i])
      ensures FreeIs(count, fs.g, FreeOf(fs.g, v)) ==> FreeKnown()
      ensures !fs.g.kind.ExFat? ==> Spells(fs.g, fs.Fat(), obj, chain[..i])
      ensures i == 0 ==> Spells(fs.g, fs.Fat(), obj.(stat := 0), chain[..i])
      ensures 0 < i && obj.stat == 3 && obj.sclust <= chain[i - 1] <= obj.sclust + obj.nCont ==>
                Adjacent(chain[..i], 0, i - 1)
      ensures 0 < i && !(obj.stat == 3 && obj.sclust <= chain[i - 1] <= obj.sclust + obj.nCont) ==>
                Spells(fs.g, fs.Fat(), obj, chain[..i])
      ensures InRange(fs.g, chain[..i]) && Distinct(chain[..i])
    {
      hide Volume.Valid, ViewOf, FatOf, FreeOf, CountedTimes, Owned;
      assert Distinct(chain);
      hide Spells;
      CutOnVolume(fs.g, FatOf(fs.g, v), fs.Fat(), obj, chain, i);
      StillAllocated(fs.g, v, fs.View(), chain, i);
      if FreeIs(count, fs.g, FreeOf(fs.g, v)) { CountsRemoved(fs.g, v, chain, i, count); }
    }

    /** Frees the chain from `clst` on; `pclst` is the cluster before it, 0 for the whole chain. Afterwards
        the chain is what was before `clst`, exactly the removed clusters became free, and a known free
        count is still right. On FAT volumes this ends for any table, and `good` tells a proper chain. */
    method RemoveChain(clst: nat, pclst: nat, ghost i: nat, ghost good: bool) returns (res: FResult)
      requires fs.Valid() && fs.g.Roomy() && (good ==> CutPoint(clst, pclst, i)) && (fs.g.kind.ExFat? ==> good)
      modifies this`chain, this`obj, fs`disk, fs`win, fs`winsect, fs`wflag, fs`failures, fs`faults, fs`freeClst,
               fs`fsiFlag
      ensures fs.faults >= old(fs.faults) && (res.DiskErr? ==> fs.faults > old(fs.faults))
      ensures fs.Valid()
      ensures good ==> (res.Ok? || res.DiskErr?) && OthersIntact(fs.g, old(fs.View()), fs.View(), Owned(old(chain)))
      ensures good && res.Ok? ==>
                Kept() && chain == old(chain)[..i] && fs.Free() == old(fs.Free()) + Owned(old(chain)[i..])
      ensures good && res.Ok? && old(FreeKnown()) ==> FreeKnown()
      ensures good && res.Ok? && i > 0 && fs.g.kind.ExFat? ==> Resettled(old(obj), obj, old(chain)[..i])
      ensures obj == old(obj).(stat := obj.stat)
      ensures good && res.Ok? ==> (i == 0 ==> obj.stat == 0) && (obj.stat == 3 ==> old(obj).stat == 3)
    {
      hide Volume.Valid, ViewOf, FatOf, FreeOf, LinkValue, ClustersFor, OthersIntact;
      if clst < 2 || fs.g.nFatent <= clst { return IntErr; }
      if fs.g.kind.ExFat? {
        res := RemoveExFat(clst, pclst, i);
        return;
      }
      ghost var v, count := fs.View(), fs.freeClst;
      res := TailOnTable(clst, pclst, i, good);
      if good && res.Ok? {
        AfterCut(v, count, i);
        chain := chain[..i];
      }
    }

    method RemoveExFat(clst: nat, pclst: nat, ghost i: nat) returns (res: FResult)
      requires fs.g.kind.ExFat? && CutPoint(clst, pclst, i)
      modifies this`chain, this`obj, fs`disk, fs`win, fs`winsect, fs`wflag, fs`failures, fs`faults, fs`freeClst,
               fs`fsiFlag
      ensures fs.faults >= old(fs.faults) && (res.DiskErr? ==> fs.faults > old(fs.faults))
      ensures fs.Valid() && (res.Ok? || res.DiskErr?)
      ensures OthersIntact(fs.g, old(fs.View()), fs.View(), Owned(old(chain)))
      ensures res.Ok? ==> Kept() && chain == old(chain)[..i] && fs.Free() == old(fs.Free()) + Owned(old(chain)[i..])
      ensures res.Ok? && old(FreeKnown()) ==> FreeKnown()
      ensures res.Ok? && i > 0 ==> Resettled(old(obj), obj, old(chain)[..i])
      ensures obj == old(obj).(stat := obj.stat)
      ensures res.Ok? ==> (i == 0 ==> obj.stat == 0) && (obj.stat == 3 ==> old(obj).stat == 3)
    {
      hide Volume.Valid, ViewOf, FatOf, FreeOf, LinkValue, ClustersFor, OthersIntact;
      ghost var v, count := fs.View(), fs.freeClst;
      assert obj.stat == 0 || obj.stat == 2 || obj.stat == 3;
      hide Spells, Owned, CountedTimes, FreeIs;
      res := TailOnBitmap(clst, pclst, i);
      if !res.Ok? { return; }
      AfterCut(v, count, i);
      chain := chain[..i];
      if pclst == 0 {
        obj := obj.(stat := 0);
      } else {
        res := Resettle(pclst);
      }
    }

    /** The last fragment, if any, ends in `lcl`. */
    ghost predicate EndsIn(lcl: nat)
      requires fs.Valid()
      reads this, fs
    {
      Inside(fs.g, fs.Fat(), obj, chain) && (obj.nFrag > 0 ==> chain != [] && lcl == chain[|chain| - 1])
    }
  }

  lemma FreeIsCluster(g: Geometry, v: Image, c: nat)
    requires Fits(g, v) && c in FreeOf(g, v)
    ensures g.IsCluster(c)
  {
  }

  /** None of the result codes is a free cluster. */
  lemma NotFreeCodes(g: Geometry, v: Image)
    requires Fits(g, v)
    ensures 0 !in FreeOf(g, v) && 1 !in FreeOf(g, v) && UNKNOWN !in FreeOf(g, v)
  {
  }

  lemma OneLess(s: set<nat>, x: nat)
    requires x in s
    ensures |s - {x}| == |s| - 1
  {
  }

  lemma CountTaken(count: nat, g: Geometry, free: set<nat>, ncl: nat)
    requires FreeIs(count, g, free) ==> ncl in free
    requires 2 <= g.nFatent && 0 < count
    ensures FreeIs(count, g, free) ==> FreeIs(if count <= g.nFatent - 2 then count - 1 else count, g, free - {ncl})
  {
    if ncl in free { OneLess(free, ncl); }
  }

  lemma ChainInRange(g: Geometry, fat: seq<nat>, o: ObjId, chain: seq<nat>)
    requires Spells(g, fat, o, chain)
    ensures InRange(g, chain)
  {
  }

  lemma FreeOnBitmap(g: Geometry, v: Image)
    requires Fits(g, v) && g.kind.ExFat?
    ensures forall c: nat :: c in FreeOf(g, v) <==> g.IsCluster(c) && !IsBusy(g, v, c - 2)
  {
    hide MapBit;
  }

  /** What free means: the table entry is 0, or the bitmap does not say that the cluster is in use. */
  lemma FreeMeans(g: Geometry, v: Image, c: nat)
    requires Fits(g, v)
    ensures c in FreeOf(g, v) <==> g.IsCluster(c) && if g.kind.ExFat? then !InUse(g, v, c) else FatOf(g, v)[c] == 0
  {
    hide FreeOf, FatOf, InUse, IsBusy;
    if g.kind.ExFat? {
      FreeOnBitmap(g, v);
      BusyIsInUse(g, v);
      if g.IsCluster(c) { assert InUse(g, v, c) <==> IsBusy(g, v, c - 2); }
    } else {
      FreeOnTable(g, v);
    }
  }

  /** The first free cluster from one that is in use on is the next one, if that is free. */
  lemma NextFirst(g: Geometry, v: Image, clst: nat, ncl: nat)
    requires Fits(g, v) && g.kind.ExFat? && g.IsCluster(clst) && g.IsCluster(ncl)
    requires clst !in FreeOf(g, v) && clst + 1 in FreeOf(g, v) && ncl in FreeOf(g, v)
    requires forall c: nat :: g.IsCluster(c) && Turn(g, clst, c) < Turn(g, clst, ncl) ==> InUse(g, v, c)
    ensures ncl == clst + 1
  {
    hide FreeOf, InUse;
    FreeMeans(g, v, clst + 1);
    FreeMeans(g, v, ncl);
    assert ncl != clst;
  }

  lemma NoneZero(g: Geometry, v: Image)
    requires Fits(g, v) && !g.kind.ExFat? && forall c :: 2 <= c < g.nFatent ==> FatOf(g, v)[c] != 0
    ensures FreeOf(g, v) == {}
  {
    hide FreeOf, FatOf;
    FreeOnTable(g, v);
    assert forall c: nat :: c !in FreeOf(g, v);
  }

  function CountedTimes(g: Geometry, free: nat, n: nat): nat
    requires 2 <= g.nFatent
  {
    if n == 0 then free else Counted(g, CountedTimes(g, free, n - 1))
  }

  ghost function Busy(g: Geometry, free: set<nat>): set<nat> {
    (set c: nat | c < g.nFatent && g.IsCluster(c)) - free
  }

  lemma CountedOnce(g: Geometry, free: nat, n: nat)
    requires 2 <= g.nFatent
    ensures CountedTimes(g, free, n + 1) == Counted(g, CountedTimes(g, free, n))
  {
  }

  /** A chain kept in the table alone is read from there. */
  lemma PlainLink(g: Geometry, fat: seq<nat>, o: ObjId, chain: seq<nat>, m: nat)
    requires g.Valid() && Spells(g, fat, o, chain) && o.stat == 0 && o.nFrag == 0 && m + 1 < |chain|
    ensures LinkValue(g, fat, o, chain[m]) == chain[m + 1] && g.IsCluster(chain[m + 1])
  {
    assert fat[chain[m]] == chain[m + 1];
  }

  lemma TableLink(g: Geometry, fat: seq<nat>, o: ObjId, c: nat)
    requires |fat| == g.nFatent && !g.kind.ExFat? && g.IsCluster(c)
    ensures LinkValue(g, fat, o, c) == fat[c]
  {
  }

  lemma AdjacentOne(chain: seq<nat>, j: nat)
    ensures Adjacent(chain, j, j)
  {
  }

  lemma AdjacentMore(chain: seq<nat>, k: nat, j: nat)
    requires k <= j < |chain| && Adjacent(chain, k, j) && (j + 1 < |chain| ==> chain[j + 1] == chain[j] + 1)
    ensures Adjacent(chain, k, j + 1)
  {
  }

  ghost predicate IsNat(c: nat) { 0 <= c }

  ghost function Block(scl: nat, ecl: nat): set<nat> {
    set c: nat | scl <= c <= ecl && IsNat(c)
  }

  /** A run of adjacent clusters of the chain, as a block. */
  lemma BlockOfChain(g: Geometry, chain: seq<nat>, i: nat, k: nat, j: nat)
    requires i <= k < j <= |chain| && Adjacent(chain, k, j - 1) && Distinct(chain)
    ensures Block(chain[k], chain[j - 1]) == Owned(chain[k..j])
    ensures Owned(chain[i..j]) == Owned(chain[i..k]) + Block(chain[k], chain[j - 1])
    ensures Block(chain[k], chain[j - 1]) <= Owned(chain[i..])
    ensures Block(chain[k], chain[j - 1]) !! Owned(chain[i..k])
    ensures forall c {:trigger c in Block(chain[k], chain[j - 1])} :: c in Block(chain[k], chain[j - 1]) ==>
              exists m :: 0 <= m < |chain| && chain[m] == c
  {
    var block := Block(chain[k], chain[j - 1]);
    assert chain[j - 1] == chain[k] + (j - 1 - k);
    forall c: nat | chain[k] <= c <= chain[j - 1]
      ensures c in Owned(chain[k..j]) && c in chain && c in Owned(chain[i..]) && c in Owned(chain[i..j])
      ensures c !in Owned(chain[i..k])
    {
      var m := k + (c - chain[k]);
      assert chain[m] == c && chain[k..j][m - k] == c && chain[i..][m - i] == c && chain[i..j][m - i] == c;
    }
    forall c | c in Owned(chain[k..j])
      ensures c in block
    {
      var m :| 0 <= m < j - k && chain[k..j][m] == c;
      assert chain[k + m] == c;
    }
    assert chain[i..j] == chain[i..k] + chain[k..j];
  }

  ghost predicate FreeIs(count: nat, g: Geometry, free: set<nat>) {
    count <= g.nFatent - 2 ==> count == |free|
  }

  /** What marking a new end does to the volume: no cluster becomes free by it. */
  lemma MarkedIntact(g: Geometry, v: Image, w: Image, chain: seq<nat>, o: ObjId, i: nat)
    requires g.Valid() && Fits(g, v) && i <= |chain| && TableOnly(g, v, w, Owned(chain[..i]))
    ensures OthersIntact(g, v, w, Owned(chain[..i]))
    ensures g.kind.ExFat? ==> FreeOf(g, w) == FreeOf(g, v)
  {
    hide FatOf, FreeOf, TableOnly, OthersIntact;
    if g.kind.ExFat? {
      TableChange(g, v, w, Owned(chain[..i]));
    } else {
      EntryChange(g, v, w, Owned(chain[..i]));
    }
  }

  lemma MarkedNotFree(g: Geometry, v: Image, w: Image, chain: seq<nat>, o: ObjId, i: nat)
    requires g.Valid() && !g.kind.ExFat? && Fits(g, v) && i <= |chain| && TableOnly(g, v, w, Owned(chain[..i]))
    requires Spells(g, FatOf(g, v), o, chain)
    requires forall m :: 0 <= m < i - 1 ==> FatOf(g, w)[chain[m]] == FatOf(g, v)[chain[m]]
    requires 0 < i ==> IsEnd(g, FatOf(g, w)[chain[i - 1]])
    ensures FreeOf(g, w) == FreeOf(g, v)
  {
    hide FatOf, FreeOf;
    FreeOnTable(g, v);
    FreeOnTable(g, w);
    forall c: nat | g.IsCluster(c)
      ensures FatOf(g, w)[c] == 0 <==> FatOf(g, v)[c] == 0
    {
      if c in Owned(chain[..i]) {
        var m :| 0 <= m < i && chain[m] == c;
        ChainNotFree(g, FatOf(g, v), o, chain, m);
      }
    }
  }

  lemma PrefixKept(g: Geometry, v: Image, w: Image, chain: seq<nat>, i: nat)
    requires i <= |chain| && TableOnly(g, v, w, Owned(chain[i..])) && InRange(g, chain) && Distinct(chain)
    ensures forall m :: 0 <= m < i ==> FatOf(g, w)[chain[m]] == FatOf(g, v)[chain[m]]
  {
    hide FatOf;
  }

  lemma StillAllocated(g: Geometry, v: Image, w: Image, chain: seq<nat>, i: nat)
    requires Fits(g, v) && Fits(g, w) && i <= |chain| && Distinct(chain) && Allocated(g, v, chain)
    requires FreeOf(g, w) == FreeOf(g, v) + Owned(chain[i..])
    ensures Allocated(g, w, chain[..i])
  {
    hide FreeOf;
  }

  lemma CountsRemoved(g: Geometry, v: Image, chain: seq<nat>, i: nat, count: nat)
    requires Fits(g, v) && i <= |chain| && InRange(g, chain) && Distinct(chain) && Allocated(g, v, chain)
    requires FreeIs(count, g, FreeOf(g, v))
    ensures FreeIs(CountedTimes(g, count, |chain| - i), g, FreeOf(g, v) + Owned(chain[i..]))
  {
    hide FreeOf;
    var tail := chain[i..];
    assert Distinct(tail) && InRange(g, tail) && Allocated(g, v, tail);
    OwnedSize(tail);
    var free := FreeOf(g, v);
    assert free !! Owned(tail);
    assert |free + Owned(tail)| == |free| + |tail|;
    FreeInRange(g, v);
    ClusterCount(g.nFatent, free + Owned(tail));
    CountedSum(g, count, |tail|);
  }

  lemma FreeInRange(g: Geometry, v: Image)
    requires Fits(g, v)
    ensures forall c :: c in FreeOf(g, v) ==> 2 <= c < g.nFatent
  {
  }

  lemma {:induction false} OwnedSize(chain: seq<nat>)
    requires Distinct(chain)
    ensures |Owned(chain)| == |chain|
  {
    if chain != [] {
      var rest := chain[..|chain| - 1];
      OwnedSize(rest);
      assert chain == rest + [chain[|chain| - 1]];
      assert Owned(chain) == Owned(rest) + {chain[|chain| - 1]};
    }
  }

  lemma {:induction false} ClusterCount(n: nat, s: set<nat>)
    requires 2 <= n && forall c :: c in s ==> 2 <= c < n
    ensures |s| <= n - 2
  {
    if n > 2 {
      ClusterCount(n - 1, s - {n - 1});
      assert s <= (s - {n - 1}) + {n - 1};
    } else {
      assert s == {};
    }
  }

  lemma {:induction false} CountedSum(g: Geometry, count: nat, n: nat)
    requires 2 <= g.nFatent
    ensures count + n <= g.nFatent - 2 ==> CountedTimes(g, count, n) == count + n
    ensures g.nFatent - 2 < count ==> CountedTimes(g, count, n) == count
  {
    if n > 0 {
      CountedSum(g, count, n - 1);
    }
  }

  /** What is left of a chain cut after cluster `i - 1`, before exFAT looks for contiguity. */
  lemma CutOnVolume(g: Geometry, fat: seq<nat>, fat': seq<nat>, o: ObjId, chain: seq<nat>, i: nat)
    requires g.Valid() && Spells(g, fat, o, chain) && o.nFrag == 0 && i < |chain| && |fat'| == |fat|
    requires chain[0] == o.sclust
    requires forall m :: 0 <= m < i - 1 ==> fat'[chain[m]] == fat[chain[m]]
    requires 0 < i && o.stat != 2 ==> IsEnd(g, fat'[chain[i - 1]])
    ensures !g.kind.ExFat? ==> Spells(g, fat', o, chain[..i])
    ensures i == 0 ==> Spells(g, fat', o.(stat := 0), chain[..i])
    ensures 0 < i && o.stat == 3 && o.sclust <= chain[i - 1] <= o.sclust + o.nCont ==> Adjacent(chain[..i], 0, i - 1)
    ensures 0 < i && !(o.stat == 3 && o.sclust <= chain[i - 1] <= o.sclust + o.nCont) ==> Spells(g, fat', o, chain[..i])
  {
    if i > 0 {
      Cut(g, fat, fat', o, chain, i);
      if o.stat == 3 {
        NotInFirstFragment(g, o, chain, i - 1);
      } else if o.stat == 2 {
        assert o == o.(stat := 2);
      }
    }
  }

  lemma GivenBack(g: Geometry, v: Image, w: Image, clst: nat)
    requires Fits(g, v) && Fits(g, w) && !g.kind.ExFat? && g.IsCluster(clst)
    requires FatOf(g, v)[clst] != 0 && FatOf(g, w) == FatOf(g, v)[clst := 0]
    ensures clst !in FreeOf(g, v) && FreeOf(g, w) == FreeOf(g, v) + {clst}
  {
    hide FatOf, FreeOf;
    FreeOnTable(g, v);
    FreeOnTable(g, w);
  }

  lemma LeadsPast(g: Geometry, v: Image, w: Image, o: ObjId, chain: seq<nat>, j: nat)
    requires j < |chain| && TableOnly(g, v, w, {chain[j]}) && Leads(g, FatOf(g, v), o, chain, j)
    ensures Leads(g, FatOf(g, w), o, chain, j + 1)
  {
    hide FatOf, LinkValue;
    forall k | j + 1 <= k < |chain|
      ensures FatOf(g, w)[chain[k]] == FatOf(g, v)[chain[k]]
    {
      assert chain[k] != chain[j] && g.IsCluster(chain[k]);
    }
    LeadsOn(g, FatOf(g, v), FatOf(g, w), o, chain, j, j + 1);
  }

  lemma NoneFree(g: Geometry, v: Image)
    requires Fits(g, v) && g.kind.ExFat? && forall k :: 0 <= k < g.nFatent - 2 ==> IsBusy(g, v, k)
    ensures FreeOf(g, v) == {}
  {
    hide FreeOf;
    FreeOnBitmap(g, v);
    assert forall c: nat :: g.IsCluster(c) ==> IsBusy(g, v, c - 2);
  }

  /** A change of bitmap bits alone touches neither the table nor data. */
  lemma BitsChange(g: Geometry, v: Image, w: Image, own: set<nat>)
    requires Fits(g, v) && Fits(g, w) && g.kind.ExFat? && SameOutsideBitmap(g, v, w)
    requires forall k :: 0 <= k < g.nFatent - 2 && k + 2 !in own ==> IsBusy(g, w, k) == IsBusy(g, v, k)
    ensures OthersIntact(g, v, w, own) && FatOf(g, w) == FatOf(g, v)
  {
    hide FatOf, FreeOf, MapBit;
    FreeOnBitmap(g, v);
    FreeOnBitmap(g, w);
    TableFrame(g, v, w);
  }

  lemma BitTaken(g: Geometry, v: Image, w: Image, ncl: nat)
    requires Fits(g, v) && Fits(g, w) && g.kind.ExFat? && g.IsCluster(ncl) && InUse(g, w, ncl)
    requires forall k :: 0 <= k < g.nFatent - 2 && k != ncl - 2 ==> IsBusy(g, w, k) == IsBusy(g, v, k)
    ensures FreeOf(g, w) == FreeOf(g, v) - {ncl}
  {
    hide FreeOf, InUse, IsBusy;
    FreeOnBitmap(g, v);
    FreeOnBitmap(g, w);
    BusyIsInUse(g, w);
  }

  lemma OthersIntactSelf(g: Geometry, v: Image, own: set<nat>)
    requires Fits(g, v)
    ensures OthersIntact(g, v, v, own)
  {
  }

  lemma OthersIntactMore(g: Geometry, v: Image, w: Image, own: set<nat>, more: set<nat>)
    requires OthersIntact(g, v, w, own) && own <= more
    ensures OthersIntact(g, v, w, more)
  {
  }

  lemma TakenFromFree(g: Geometry, v: Image, w: Image, fat: seq<nat>, fat': seq<nat>, clst: nat, ncl: nat)
    requires Fits(g, v) && Fits(g, w) && !g.kind.ExFat? && fat == FatOf(g, v) && fat' == FatOf(g, w)
    requires g.IsCluster(ncl) && fat'[ncl] != 0
    requires clst == 0 || (g.IsCluster(clst) && fat[clst] != 0 && fat'[clst] != 0)
    requires forall c :: 2 <= c < g.nFatent && c != ncl && c != clst ==> fat'[c] == fat[c]
    ensures FreeOf(g, w) == FreeOf(g, v) - {ncl}
  {
    hide FatOf, FreeOf;
    FreeOnTable(g, v);
    FreeOnTable(g, w);
  }

  lemma AllAllocated(g: Geometry, v: Image, o: ObjId, chain: seq<nat>)
    requires g.Valid() && Fits(g, v) && !g.kind.ExFat? && Spells(g, FatOf(g, v), o, chain)
    ensures Allocated(g, v, chain)
  {
    hide FatOf, FreeOf, Spells;
    FreeOnTable(g, v);
    forall i | 0 <= i < |chain|
      ensures chain[i] !in FreeOf(g, v)
    {
      ChainNotFree(g, FatOf(g, v), o, chain, i);
    }
  }

  ghost predicate Allocated(g: Geometry, v: Image, chain: seq<nat>)
    requires Fits(g, v)
  {
    forall i :: 0 <= i < |chain| ==> chain[i] !in FreeOf(g, v)
  }

  /** Stretching a chain by a free cluster keeps it apart from every other chain, which stays as it is. */
  lemma GrownApart(g: Geometry, v: Image, w: Image, chain: seq<nat>, ncl: nat, o: ObjId, other: seq<nat>)
    requires Fits(g, v) && Fits(g, w) && OthersIntact(g, v, w, Owned(chain) + FreeOf(g, v)) && ncl in FreeOf(g, v)
    requires Spells(g, FatOf(g, v), o, other) && Allocated(g, v, other) && Owned(other) !! Owned(chain)
    ensures Spells(g, FatOf(g, w), o, other) && Allocated(g, w, other) && Owned(other) !! Owned(chain + [ncl])
  {
    hide FatOf, FreeOf;
    assert forall i :: 0 <= i < |other| ==> other[i] in Owned(other) && g.IsCluster(other[i]);
    OtherChainSame(g, v, w, Owned(chain) + FreeOf(g, v), o, other);
  }
}
