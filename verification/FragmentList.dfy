/**
 The fragment list of a file: its cluster chain as runs of device sectors.
 */
module FragmentList {
  import opened FatLayout
  import opened FatChains
  import opened FatVolume
  import opened FatFile
  import opened FatContent
  import opened Defrag
  import BlockDevice

  /** The device sectors of a chain, cluster by cluster; `offset` is where the volume begins. */
  function ChainSectors(g: Geometry, offset: nat, chain: seq<nat>): seq<nat> {
    if chain == [] then []
    else ChainSectors(g, offset, chain[..|chain| - 1]) + Stretch(offset + Start(g, chain[|chain| - 1]), g.csize)
  }

  lemma ChainSectorsStep(g: Geometry, offset: nat, chain: seq<nat>, j: nat)
    requires j < |chain|
    ensures ChainSectors(g, offset, chain[..j + 1]) == ChainSectors(g, offset, chain[..j])
                + Stretch(offset + Start(g, chain[j]), g.csize)
  {
    assert chain[..j + 1][..j] == chain[..j];
  }

  /** Sector `k` of the list is sector `k` of the file. */
  lemma {:induction false} ChainSectorsAre(g: Geometry, offset: nat, chain: seq<nat>, k: nat)
    ensures k < |ChainSectors(g, offset, chain)| <==> Nth(g, k) < |chain|
    ensures Nth(g, k) < |chain| ==> ChainSectors(g, offset, chain)[k] == offset + Addr(g, chain, k)
    ensures Off(g, |ChainSectors(g, offset, chain)|) == 0 && Nth(g, |ChainSectors(g, offset, chain)|) == |chain|
  {
    if chain != [] {
      var n := |chain| - 1;
      var front := ChainSectors(g, offset, chain[..n]);
      ChainSectorsAre(g, offset, chain[..n], k);
      CountStep(g, |front|);
      if |front| <= k < |front| + g.csize {
        NthWithin(g, |front|, k - |front|);
      } else if |front| + g.csize <= k {
        NthMonotone(g, |front| + g.csize, k);
      }
    }
  }

  lemma CountStep(g: Geometry, k: nat)
    ensures Nth(g, k + g.csize) == Nth(g, k) + 1 && Off(g, k + g.csize) == Off(g, k)
  {
  }

  /** Different sectors of a file are different sectors of the device. */
  lemma ChainSectorsDiffer(g: Geometry, offset: nat, chain: seq<nat>)
    requires InRange(g, chain) && Distinct(chain)
    ensures Different(ChainSectors(g, offset, chain))
  {
    hide Addr, Nth, Off, ChainSectors;
    var lbas := ChainSectors(g, offset, chain);
    forall i, j | 0 <= i < j < |lbas|
      ensures lbas[i] != lbas[j]
    {
      ChainSectorsAre(g, offset, chain, i);
      ChainSectorsAre(g, offset, chain, j);
      if Addr(g, chain, i) == Addr(g, chain, j) { AddrInjective(g, chain, i, j); }
    }
  }

  /** How many clusters of a chain the links lead through. While the last fragment of an exFAT file is not in
      the table, the link of every cluster past the first fragment reads as an end. */
  function Reach(g: Geometry, o: ObjId, chain: seq<nat>): nat {
    if o.nFrag == 0 then |chain| else TableFrom(g, o) + 1
  }

  /** Up to there every cluster leads to its successor, and the last one reached to an end. */
  lemma LinkReaches(g: Geometry, fat: seq<nat>, o: ObjId, chain: seq<nat>, i: nat)
    requires g.Valid() && Spells(g, fat, o, chain) && Sized(g, o, chain) && chain != []
    ensures 0 < Reach(g, o, chain) <= |chain|
    ensures i + 1 < Reach(g, o, chain) ==> LinkValue(g, fat, o, chain[i]) == chain[i + 1]
    ensures i + 1 == Reach(g, o, chain) ==>
              && IsEnd(g, LinkValue(g, fat, o, chain[i]))
              && (EndApart(g, fat, o, chain) <==> LinkValue(g, fat, o, chain[i]) != chain[i] + 1)
    ensures o.nFrag > 0 ==> Adjacent(chain, 0, Reach(g, o, chain) - 1) && g.kind.ExFat?
  {
    if o.nFrag == 0 {
      if i < |chain| { LinkFollows(g, fat, o, chain, i); }
    } else if o.stat == 3 && i <= o.nCont {
      NotInFirstFragment(g, o, chain, i);
      assert chain[i] == chain[0] + i;
    }
  }

  /** The mark of the last cluster reached is not mistaken for the cluster after it. */
  ghost predicate EndApart(g: Geometry, fat: seq<nat>, o: ObjId, chain: seq<nat>)
    requires |fat| == g.nFatent
  {
    && 0 < Reach(g, o, chain) <= |chain|
    && LinkValue(g, fat, o, chain[Reach(g, o, chain) - 1]) != chain[Reach(g, o, chain) - 1] + 1
  }

  /** That is so for the mark the allocator writes, and always on exFAT. */
  lemma WrittenEndApart(g: Geometry, fat: seq<nat>, o: ObjId, chain: seq<nat>)
    requires g.Valid() && Spells(g, fat, o, chain) && Sized(g, o, chain) && chain != []
    requires g.kind.ExFat? || fat[chain[|chain| - 1]] == Stored(g.kind, 0xFFFF_FFFF)
    ensures EndApart(g, fat, o, chain)
  {
    LinkReaches(g, fat, o, chain, 0);
    LinkReaches(g, fat, o, chain, Reach(g, o, chain) - 1);
    StoredValues(g, 0);
    match g.kind
    case Fat12 => assert Stored(g.kind, 0xFFFF_FFFF) == 0xFFF;
    case Fat16 => assert Stored(g.kind, 0xFFFF_FFFF) == 0xFFFF;
    case Fat32 => assert Stored(g.kind, 0xFFFF_FFFF) == 0xFFF_FFFF;
    case ExFat =>
  }

  /** An instance: a contiguous file of clusters 2 and 3 has grown by cluster 7. The table says so, but
      as long as the end mark is not written the links end with cluster 3,
      so the listing sees one fragment of a file that has two. */
  lemma SeenContiguous()
    ensures
      var g := Geometry(ExFat, 10, 1, 1, 1, 2, 1, 2, 20);
      var fat: seq<nat> := seq(10, i => if i == 3 then 7 else 0);
      var o := ObjId(2, 1025, 3, 1, 1);
      var chain: seq<nat> := [2, 3, 7];
      && g.Valid() && Spells(g, fat, o, chain) && Sized(g, o, chain)
      && Reach(g, o, chain) == 2 && !Adjacent(chain, 0, |chain| - 1)
  {
    var g := Geometry(ExFat, 10, 1, 1, 1, 2, 1, 2, 20);
    var fat: seq<nat> := seq(10, i => if i == 3 then 7 else 0);
    var o := ObjId(2, 1025, 3, 1, 1);
    var chain: seq<nat> := [2, 3, 7];
    assert chain[2] == 7 && Nth(g, 2) == 2;
    assert g.BitSectors() == 1;
  }

  /** Another: on a FAT16 volume with clusters 2 to 9 the last cluster of a file holds 10, which ends the chain as
      any number from 10 on does, but is taken for the next cluster, so that nothing is listed. */
  lemma EndTakenForNext()
    ensures
      var g := Geometry(Fat16, 10, 1, 1, 1, 2, 1, 0, 20);
      var fat: seq<nat> := seq(10, i => if i == 9 then 10 else 0);
      var o := ObjId(9, 100, 0, 0, 0);
      var chain: seq<nat> := [9];
      g.Valid() && Spells(g, fat, o, chain) && Sized(g, o, chain) && !EndApart(g, fat, o, chain)
  {
    var chain: seq<nat> := [9];
    assert chain[0] == 9;
  }

  /** The list so far covers the clusters before `j`, together with the run that began at `start` and has
      reached cluster `j`. */
  ghost predicate Covers(g: Geometry, offset: nat, chain: seq<nat>, list: seq<Fragment>, start: nat, j: nat)
  {
    && j < |chain| && Start(g, start) <= Start(g, chain[j])
    && ChainSectors(g, offset, chain[..j]) == Spread(list)
        + Stretch(offset + Start(g, start), Start(g, chain[j]) - Start(g, start))
  }

  lemma CoversBegin(g: Geometry, offset: nat, chain: seq<nat>, list: seq<Fragment>, j: nat)
    requires j < |chain| && ChainSectors(g, offset, chain[..j]) == Spread(list)
    ensures Covers(g, offset, chain, list, chain[j], j)
  {
  }

  lemma StretchMore(a: nat, n: nat, m: nat)
    ensures Stretch(a, n) + Stretch(a + n, m) == Stretch(a, n + m)
  {
  }

  /** The next cluster follows on the disk: the run goes on. */
  lemma CoversOn(g: Geometry, offset: nat, chain: seq<nat>, list: seq<Fragment>, start: nat, j: nat)
    requires Covers(g, offset, chain, list, start, j) && j + 1 < |chain| && chain[j + 1] == chain[j] + 1
    requires 2 <= chain[j]
    ensures Covers(g, offset, chain, list, start, j + 1)
  {
    hide Spread, ChainSectors, Stretch;
    ChainSectorsStep(g, offset, chain, j);
    StretchMore(offset + Start(g, start), Start(g, chain[j]) - Start(g, start), g.csize);
    assert Start(g, chain[j] + 1) == Start(g, chain[j]) + g.csize;
  }

  /** The run ends with cluster `j`: listing it covers all clusters up to `j`. */
  lemma CoversEnd(g: Geometry, offset: nat, chain: seq<nat>, list: seq<Fragment>, start: nat, j: nat)
    requires Covers(g, offset, chain, list, start, j)
    ensures
      var f := Fragment(offset + Start(g, start), Start(g, chain[j]) - Start(g, start) + g.csize);
      Spread(list + [f]) == ChainSectors(g, offset, chain[..j + 1])
  {
    hide ChainSectors, Stretch;
    var f := Fragment(offset + Start(g, start), Start(g, chain[j]) - Start(g, start) + g.csize);
    ChainSectorsStep(g, offset, chain, j);
    StretchMore(offset + Start(g, start), Start(g, chain[j]) - Start(g, start), g.csize);
    assert (list + [f])[..|list|] == list;
  }

  /** Lists the fragments of a file, storing at most `max` of them and counting all. `m` clusters of the chain
      are covered: all that the links reach, unless a link could not be read or the end mark was mistaken for a
      cluster. So the list is complete exactly if the links reach all clusters and the end mark is apart. */
  method GetFragList(o: FileObject, offset: nat, max: nat)
      returns (stored: seq<Fragment>, n: nat, ghost all: seq<Fragment>, ghost m: nat, ghost broke: bool)
    requires o.Kept() && Sized(o.fs.g, o.obj, o.chain) && o.chain != []
    modifies o.fs`disk, o.fs`win, o.fs`winsect, o.fs`wflag, o.fs`failures, o.fs`faults
    ensures o.fs.Valid() && o.fs.View() == old(o.fs.View())
    ensures n == |all| && stored == all[..if n < max then n else max] && m <= |o.chain|
    ensures Spread(all) == ChainSectors(o.fs.g, offset, o.chain[..m])
    ensures !broke ==> (m == Reach(o.fs.g, o.obj, o.chain) <==> EndApart(o.fs.g, o.fs.Fat(), o.obj, o.chain))
    ensures !broke ==>
              (m == |o.chain| <==>
                  Reach(o.fs.g, o.obj, o.chain) == |o.chain| && EndApart(o.fs.g, o.fs.Fat(), o.obj, o.chain))
    ensures o.fs.faults >= old(o.fs.faults) && (broke ==> m > 0 && o.fs.faults > old(o.fs.faults))
    ensures !broke && EndApart(o.fs.g, o.fs.Fat(), o.obj, o.chain) ==>
              (n == 1 <==> Adjacent(o.chain, 0, Reach(o.fs.g, o.obj, o.chain) - 1))
    ensures !broke && o.obj.nFrag > 0 ==> n == 1 && m == TableFrom(o.fs.g, o.obj) + 1
  {
    hide Volume.Valid, ViewOf, FatOf, FreeOf, LinkValue, Allocated, Spells, Covers, Spread, ChainSectors, ClustersFor,
         Adjacent, Linked, Reach, EndApart, Sized;
    ghost var g, fat, r := o.fs.g, o.fs.Fat(), Reach(o.fs.g, o.obj, o.chain);
    Reached(g, fat, o.obj, o.chain);
    ghost var chain := o.chain[..r];
    var start: nat, cur: nat := o.obj.sclust, o.obj.sclust;
    ghost var j: nat := 0;
    stored, n, all, m, broke := [], 0, [], 0, false;
    SpreadNothing(g, offset, chain);
    CoversBegin(g, offset, chain, all, 0);
    ChainInRange(g, fat, o.obj, o.chain);
    AdjacentOne(chain, 0);
    while true
      invariant o.fs.faults >= old(o.fs.faults)
      invariant o.fs.Valid() && o.fs.View() == old(o.fs.View())
      invariant j < |chain| && cur == chain[j] && m <= j && Covers(g, offset, chain, all, start, j)
      invariant n == |all| && stored == all[..if n < max then n else max]
      invariant Spread(all) == ChainSectors(g, offset, chain[..m])
      invariant n == 0 ==> m == 0 && start == chain[0] && Adjacent(chain, 0, j)
      invariant n > 0 ==> !Adjacent(chain, 0, |chain| - 1)
      invariant o.fs.g.IsCluster(start)
      decreases |chain| - j
    {
      LinkReaches(g, fat, o.obj, o.chain, j);
      CoversOrder(g, offset, chain, all, start, j);
      var next := o.GetFat(cur);
      if next != cur + 1 {
        CoversEnd(g, offset, chain, all, start, j);
        var f := Fragment(offset + ClusterSector(o.fs.g, start),
            ClusterSector(o.fs.g, cur) - ClusterSector(o.fs.g, start) + o.fs.g.csize);
        all := all + [f];
        if n < max { stored := stored + [f]; }
        n := n + 1;
        m := j + 1;
        start := next;
        if next < o.fs.g.nFatent {
          CoversBegin(g, offset, chain, all, j + 1);
          GapIsGap(chain, j);
        }
      } else if next < o.fs.g.nFatent {
        CoversOn(g, offset, chain, all, start, j);
        if n == 0 { AdjacentMore(chain, 0, j); }
      }
      cur := next;
      if o.fs.g.nFatent <= cur {
        broke := next == UNKNOWN;
        assert chain[..m] == o.chain[..m];
        return;
      }
      j := j + 1;
    }
  }

  lemma Reached(g: Geometry, fat: seq<nat>, o: ObjId, chain: seq<nat>)
    requires g.Valid() && Spells(g, fat, o, chain) && Sized(g, o, chain) && chain != []
    ensures 0 < Reach(g, o, chain) <= |chain| && o.sclust == chain[0]
    ensures
      var r := Reach(g, o, chain);
      && (Adjacent(chain[..r], 0, r - 1) <==> Adjacent(chain, 0, r - 1))
      && (o.nFrag > 0 ==> Adjacent(chain, 0, r - 1) && EndApart(g, fat, o, chain) && r == TableFrom(g, o) + 1)
  {
    LinkReaches(g, fat, o, chain, 0);
    if o.nFrag > 0 { WrittenEndApart(g, fat, o, chain); }
  }

  lemma CoversOrder(g: Geometry, offset: nat, chain: seq<nat>, list: seq<Fragment>, start: nat, j: nat)
    requires Covers(g, offset, chain, list, start, j)
    ensures Start(g, start) <= Start(g, chain[j])
  {
  }

  lemma GapIsGap(chain: seq<nat>, j: nat)
    requires j + 1 < |chain| && chain[j + 1] != chain[j] + 1
    ensures !Adjacent(chain, 0, |chain| - 1)
  {
  }

  lemma SpreadNothing(g: Geometry, offset: nat, chain: seq<nat>)
    ensures Spread([]) == [] == ChainSectors(g, offset, chain[..0])
  {
  }

  // ----- an empty file -----

  /** The cluster reached after `n` steps along the links. */
  function Walk(g: Geometry, fat: seq<nat>, o: ObjId, c: nat, n: nat): nat
    requires |fat| == g.nFatent
  {
    if n == 0 then c else LinkValue(g, fat, o, Walk(g, fat, o, c, n - 1))
  }

  /** From the start "cluster" 0 of an empty file the walk goes to 1 and stays there: it never meets the end of
      a chain, which is the only thing that stops the listing loop. */
  lemma {:induction false} EmptyNeverEnds(g: Geometry, fat: seq<nat>, o: ObjId, n: nat)
    requires g.Valid() && |fat| == g.nFatent
    ensures Walk(g, fat, o, 0, n) == (if n == 0 then 0 else 1) && Walk(g, fat, o, 0, n) < g.nFatent
  {
    if n > 0 { EmptyNeverEnds(g, fat, o, n - 1); }
  }

  // ----- from the list to the data -----

  /** What a transfer through the list reads is, sector by sector, what walking the chain finds. */
  lemma ListIsFile(g: Geometry, offset: nat, chain: seq<nat>, list: seq<Fragment>, disk: seq<BlockDevice.Sector>,
      sector: nat, count: nat, i: nat)
    requires Spread(list) == ChainSectors(g, offset, chain) && sector + count <= |Spread(list)| && i < count
    requires OnDisk(disk, Spread(list)[sector..sector + count])
    ensures Nth(g, sector + i) < |chain| && 0 <= offset + Addr(g, chain, sector + i) < |disk|
    ensures Gather(disk, Spread(list)[sector..sector + count])[i] == disk[offset + Addr(g, chain, sector + i)]
  {
    hide Addr, Nth, Spread, ChainSectors;
    ChainSectorsAre(g, offset, chain, sector + i);
    assert Spread(list)[sector..sector + count][i] == offset + Addr(g, chain, sector + i);
  }
}
