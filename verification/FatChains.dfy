/**
 Cluster chains and the lazy way exFAT objects keep them. An object record says how its chain
 is kept: on FAT volumes every link is a table entry; on exFAT the links of a contiguous chain
 (`stat` 2), of the first fragment (`stat` 3) and of the last fragment (`nFrag` clusters) are
 not in the table and have to be made up.
 */
module FatChains {
  import opened FatLayout

  const EOC: nat := 0x7FFF_FFFF

  /** Allocation record of an object: `nCont` counts the links, not the clusters, of the first fragment. */
  datatype ObjId = ObjId(sclust: nat, objsize: nat, stat: nat, nCont: nat, nFrag: nat)

  function ClustersFor(g: Geometry, size: nat): nat
  {
    if size == 0 then 0 else Nth(g, (size - 1) / SS) + 1
  }

  /** The link of cluster `c` as an object's allocation record and the table give it: 1 is an internal
      error, anything from `nFatent` up the end of the chain. */
  function LinkValue(g: Geometry, fat: seq<nat>, o: ObjId, c: nat): nat
    requires |fat| == g.nFatent
  {
    if !g.IsCluster(c) then 1
    else if !g.kind.ExFat? then fat[c]
    else if (o.objsize != 0 && o.sclust != 0) || o.stat == 0 then
      var cofs := (c - o.sclust) % 0x1_0000_0000;
      if o.stat == 2 && cofs <= ClustersFor(g, o.objsize) - 1 then
        if cofs == ClustersFor(g, o.objsize) - 1 then EOC else c + 1
      else if o.stat == 3 && cofs < o.nCont then c + 1
      else if o.stat != 2 then if o.nFrag != 0 then EOC else fat[c]
      else 1
    else 1
  }

  ghost predicate Distinct(chain: seq<nat>) {
    forall i, j :: 0 <= i < j < |chain| ==> chain[i] != chain[j]
  }

  ghost predicate InRange(g: Geometry, chain: seq<nat>) {
    forall i :: 0 <= i < |chain| ==> g.IsCluster(chain[i])
  }

  /** Links `lo..hi` are in the table. */
  ghost predicate Linked(fat: seq<nat>, chain: seq<nat>, lo: int, hi: int) {
    forall i :: lo <= i < hi && 0 <= i < |chain| - 1 ==> 0 <= chain[i] < |fat| && fat[chain[i]] == chain[i + 1]
  }

  /** The clusters `lo..=hi` of the chain follow each other on the disk. */
  ghost predicate Adjacent(chain: seq<nat>, lo: int, hi: int) {
    forall i :: lo <= i <= hi && 0 <= i < |chain| && 0 <= lo < |chain| ==> chain[i] == chain[lo] + (i - lo)
  }

  /** First link that has to be in the table. */
  function TableFrom(g: Geometry, o: ObjId): nat {
    if g.kind.ExFat? && o.stat == 3 then o.nCont else 0
  }

  /** The links inside the chain are all known: made up where the record allows it, in the table elsewhere. */
  ghost predicate Inside(g: Geometry, fat: seq<nat>, o: ObjId, chain: seq<nat>) {
    && |fat| == g.nFatent
    && InRange(g, chain) && Distinct(chain)
    && (!g.kind.ExFat? ==> o.nFrag == 0 && o.stat == 0)
    && (o.stat == 0 || o.stat == 2 || o.stat == 3)
    && (chain == [] ==> o.nFrag == 0)
    && if o.stat == 2 then o.nFrag == 0 && Adjacent(chain, 0, |chain| - 1)
       else
         && TableFrom(g, o) + o.nFrag <= |chain|
         && (o.stat == 3 ==> o.nCont < |chain| && Adjacent(chain, 0, o.nCont))
         && Linked(fat, chain, TableFrom(g, o), |chain| - o.nFrag)
         && Adjacent(chain, |chain| - o.nFrag, |chain| - 1)
  }

  /** ... and the end is known too. */
  ghost predicate Spells(g: Geometry, fat: seq<nat>, o: ObjId, chain: seq<nat>) {
    && Inside(g, fat, o, chain)
    && (chain != [] && o.nFrag == 0 && o.stat != 2 ==> IsEnd(g, fat[chain[|chain| - 1]]))
  }

  /** The mark of a last cluster: any value past the clusters on FAT volumes, one value on exFAT. */
  predicate IsEnd(g: Geometry, link: nat) {
    if g.kind.ExFat? then link == EOC else g.nFatent <= link
  }

  /** The size agrees with the chain; it must do so exactly where links are made up from it. */
  ghost predicate Sized(g: Geometry, o: ObjId, chain: seq<nat>)
  {
    && ClustersFor(g, o.objsize) <= |chain|
    && (o.stat == 2 ==> ClustersFor(g, o.objsize) == |chain|)
    && (o.stat == 3 ==> o.objsize > 0)
    && (if chain == [] then o.sclust == 0 else o.sclust == chain[0])
  }

  /** Following links: every cluster leads to its successor and the last one to the end, whichever way
      the chain is kept. With an unwritten last fragment this holds for the last cluster. */
  lemma LinkFollows(g: Geometry, fat: seq<nat>, o: ObjId, chain: seq<nat>, i: nat)
    requires g.Valid() && Spells(g, fat, o, chain) && Sized(g, o, chain)
    requires i < |chain| && (o.nFrag == 0 || i == |chain| - 1)
    ensures i + 1 < |chain| ==> LinkValue(g, fat, o, chain[i]) == chain[i + 1]
    ensures i + 1 == |chain| ==> IsEnd(g, LinkValue(g, fat, o, chain[i]))
  {
    if g.kind.ExFat? {
      if o.stat == 2 {
        assert chain[i] == chain[0] + i && i < 0x8000_0000;
        assert (chain[i] - o.sclust) % 0x1_0000_0000 == i;
      } else if o.stat == 3 {
        NotInFirstFragment(g, o, chain, i);
        if i < o.nCont { assert chain[i] == chain[0] + i && chain[i + 1] == chain[0] + (i + 1); }
      }
    }
  }

  lemma NotInFirstFragment(g: Geometry, o: ObjId, chain: seq<nat>, i: nat)
    requires g.Valid() && InRange(g, chain) && Distinct(chain) && i < |chain| && chain[0] == o.sclust
    requires o.nCont < |chain| && Adjacent(chain, 0, o.nCont)
    ensures (chain[i] - o.sclust) % 0x1_0000_0000 < o.nCont <==> i < o.nCont
    ensures o.sclust <= chain[i] <= o.sclust + o.nCont <==> i <= o.nCont
  {
    var d := chain[i] - o.sclust;
    assert chain[o.nCont] == chain[0] + o.nCont && o.nCont < 0x7FFF_FFFF;
    assert -0x7FFF_FFFF < d < 0x7FFF_FFFF;
    assert i <= o.nCont ==> chain[i] == chain[0] + i;
    assert 0 <= d <= o.nCont ==> chain[d] == chain[0] + d;
    assert d < 0 ==> d % 0x1_0000_0000 == d + 0x1_0000_0000;
    assert d >= 0 ==> d % 0x1_0000_0000 == d;
  }

  // ----- growing a chain -----

  /** The record after a chain ending in `clst` got the next cluster on the disk. */
  lemma GrowAdjacent(g: Geometry, fat: seq<nat>, o: ObjId, chain: seq<nat>, ncl: nat)
    requires g.Valid() && g.kind.ExFat? && o.stat != 2 && chain != [] && Spells(g, fat, o, chain)
    requires g.IsCluster(ncl) && ncl !in chain && ncl == chain[|chain| - 1] + 1
    ensures Spells(g, fat, o.(nFrag := if o.nFrag == 0 then 2 else o.nFrag + 1), chain + [ncl])
  {
    hide Adjacent, Linked, Distinct, InRange;
    Appended(g, chain, ncl);
    var first := if o.nFrag == 0 then |chain| - 1 else |chain| - o.nFrag;
    AdjacentOn(chain, first, ncl);
    if o.stat == 3 { AdjacentWithin(chain, 0, o.nCont, ncl); }
    LinkedWithin(fat, chain, TableFrom(g, o), |chain| - o.nFrag, first, ncl);
  }

  lemma Appended(g: Geometry, chain: seq<nat>, ncl: nat)
    requires InRange(g, chain) && Distinct(chain) && g.IsCluster(ncl) && ncl !in chain
    ensures InRange(g, chain + [ncl]) && Distinct(chain + [ncl])
  {
  }

  /** A last run of adjacent clusters goes on in the next cluster; a single cluster is such a run. */
  lemma AdjacentOn(chain: seq<nat>, first: nat, ncl: nat)
    requires first < |chain| && (first < |chain| - 1 ==> Adjacent(chain, first, |chain| - 1))
    requires ncl == chain[|chain| - 1] + 1
    ensures Adjacent(chain + [ncl], first, |chain|)
  {
  }

  lemma AdjacentWithin(chain: seq<nat>, lo: nat, hi: nat, ncl: nat)
    requires hi < |chain| && Adjacent(chain, lo, hi)
    ensures Adjacent(chain + [ncl], lo, hi)
  {
  }

  lemma LinkedWithin(fat: seq<nat>, chain: seq<nat>, lo: int, hi: int, hi': int, ncl: nat)
    requires Linked(fat, chain, lo, hi) && hi' <= hi && hi' < |chain|
    ensures Linked(fat, chain + [ncl], lo, hi')
  {
  }

  /** The record after the last fragment was written with `ncl` as its end and a new fragment begun. */
  lemma GrowFragment(g: Geometry, fat: seq<nat>, o: ObjId, chain: seq<nat>, ncl: nat)
    requires g.Valid() && g.kind.ExFat? && o.stat != 2 && o.nFrag == 0 && chain != [] && Inside(g, fat, o, chain)
    requires g.IsCluster(ncl) && ncl !in chain && fat[chain[|chain| - 1]] == ncl
    ensures Spells(g, fat, o.(nFrag := 1), chain + [ncl])
  {
  }

  /** A contiguous chain that grows by the next cluster stays contiguous. */
  lemma GrowContiguous(g: Geometry, fat: seq<nat>, o: ObjId, chain: seq<nat>, ncl: nat)
    requires g.Valid() && g.kind.ExFat? && o.stat == 2 && Spells(g, fat, o, chain)
    requires g.IsCluster(ncl) && ncl !in chain && (chain != [] ==> ncl == chain[|chain| - 1] + 1)
    ensures Spells(g, fat, o, chain + [ncl])
  {
  }

  /** A contiguous chain about to be broken up: its links become the first fragment, all but the last. */
  lemma BreakUp(g: Geometry, fat: seq<nat>, o: ObjId, chain: seq<nat>)
    requires g.Valid() && g.kind.ExFat? && o.stat == 2 && chain != [] && Spells(g, fat, o, chain)
    ensures Inside(g, fat, o.(stat := 3, nCont := |chain| - 1), chain)
    ensures chain[|chain| - 1] == chain[0] + (|chain| - 1) && o.nFrag == 0
  {
  }

  /** A chain with no unwritten fragment can be seen as ending in one of a single cluster. */
  lemma OpenFragment(g: Geometry, fat: seq<nat>, o: ObjId, chain: seq<nat>)
    requires g.Valid() && g.kind.ExFat? && o.stat != 2 && o.nFrag == 0 && chain != [] && Inside(g, fat, o, chain)
    ensures Inside(g, fat, o.(nFrag := 1), chain)
  {
  }

  /** Writing the first link of the last fragment keeps everything known, with one link less to write. */
  lemma FillOne(g: Geometry, fat: seq<nat>, o: ObjId, chain: seq<nat>, val: nat)
    requires g.Valid() && Inside(g, fat, o, chain) && o.nFrag > 0
    requires o.nFrag > 1 ==> val == chain[|chain| - o.nFrag + 1]
    ensures 0 <= |chain| - o.nFrag < |chain| && chain[|chain| - o.nFrag] < |fat|
    ensures Inside(g, fat[chain[|chain| - o.nFrag] := val], o.(nFrag := o.nFrag - 1), chain)
  {
    var first := |chain| - o.nFrag;
    var fat' := fat[chain[first] := val];
    var o' := o.(nFrag := o.nFrag - 1);
    forall i | TableFrom(g, o) <= i < |chain| - o'.nFrag && 0 <= i < |chain| - 1
      ensures fat'[chain[i]] == chain[i + 1]
    {
      if i != first {
        assert chain[i] != chain[first];
      }
    }
    assert Adjacent(chain, |chain| - o'.nFrag, |chain| - 1);
  }

  /** Where the unwritten last fragment begins, counted back from its last cluster `lcl`. */
  lemma FragmentStart(g: Geometry, fat: seq<nat>, o: ObjId, chain: seq<nat>, lcl: nat)
    requires g.Valid() && Inside(g, fat, o, chain) && o.nFrag > 0 && chain != [] && lcl == chain[|chain| - 1]
    ensures g.kind.ExFat? && o.nFrag <= |chain| && g.IsCluster(lcl)
    ensures chain[|chain| - o.nFrag] == (lcl - o.nFrag + 1) % 0x1_0000_0000
    ensures o.nFrag > 1 ==> chain[|chain| - o.nFrag + 1] == (lcl - o.nFrag + 2) % 0x1_0000_0000
    ensures g.IsCluster(chain[|chain| - o.nFrag])
    ensures o.nFrag > 1 ==> g.IsCluster(chain[|chain| - o.nFrag + 1])
  {
    var first := |chain| - o.nFrag;
    assert chain[|chain| - 1] == chain[first] + (o.nFrag - 1);
    assert o.nFrag > 1 ==> chain[first + 1] == chain[first] + 1;
  }

  /** Links of the first fragment are not read from the table, so writing one changes nothing. */
  lemma FillFirstLink(g: Geometry, fat: seq<nat>, o: ObjId, chain: seq<nat>, i: nat)
    requires g.Valid() && g.kind.ExFat? && o.stat == 3 && Spells(g, fat, o, chain) && Linked(fat, chain, 0, i)
    requires i < o.nCont
    ensures o.nCont < |chain|
    ensures chain[i] == chain[0] + i && g.IsCluster(chain[i]) && chain[i] < |fat| && chain[i + 1] == chain[i] + 1
    ensures g.IsCluster(chain[i + 1])
    ensures Spells(g, fat[chain[i] := chain[i + 1]], o, chain)
    ensures Linked(fat[chain[i] := chain[i + 1]], chain, 0, i + 1)
  {
    var fat' := fat[chain[i] := chain[i + 1]];
    assert chain[i] == chain[0] + i && chain[i + 1] == chain[0] + (i + 1);
    forall j | 0 <= j < |chain| && j != i
      ensures fat'[chain[j]] == fat[chain[j]]
    {
      assert chain[j] != chain[i];
    }
  }

  /** With the first fragment written the whole chain is in the table. */
  lemma FillFirst(g: Geometry, fat: seq<nat>, o: ObjId, chain: seq<nat>)
    requires g.Valid() && g.kind.ExFat? && o.stat == 3 && Spells(g, fat, o, chain) && Linked(fat, chain, 0, o.nCont)
    ensures Spells(g, fat, o.(stat := 0), chain)
  {
  }

  // ----- cutting a chain -----

  /** The links from cluster `i` of the chain on can be followed to the end. */
  ghost predicate Leads(g: Geometry, fat: seq<nat>, o: ObjId, chain: seq<nat>, i: nat) {
    && |fat| == g.nFatent && InRange(g, chain) && Distinct(chain)
    && forall j :: i <= j < |chain| ==> LeadsAt(g, fat, o, chain, j)
  }

  ghost predicate LeadsAt(g: Geometry, fat: seq<nat>, o: ObjId, chain: seq<nat>, j: nat)
    requires |fat| == g.nFatent && j < |chain|
  {
    var next := LinkValue(g, fat, o, chain[j]);
    if j + 1 < |chain| then next == chain[j + 1] else IsEnd(g, next)
  }

  lemma SpellsLeads(g: Geometry, fat: seq<nat>, o: ObjId, chain: seq<nat>, i: nat)
    requires g.Valid() && Spells(g, fat, o, chain) && Sized(g, o, chain) && o.nFrag == 0
    ensures Leads(g, fat, o, chain, i)
  {
    hide LinkValue, ClustersFor;
    assert InRange(g, chain) && Distinct(chain);
    forall j | i <= j < |chain|
      ensures LeadsAt(g, fat, o, chain, j)
    {
      LinkFollows(g, fat, o, chain, j);
    }
  }

  /** A link depends on the cluster's own entry only, so the rest of the chain can still be followed after
      earlier entries changed. */
  lemma LeadsOn(g: Geometry, fat: seq<nat>, fat': seq<nat>, o: ObjId, chain: seq<nat>, i: nat, k: nat)
    requires Leads(g, fat, o, chain, i) && i <= k && |fat'| == |fat|
    requires forall j :: k <= j < |chain| ==> fat'[chain[j]] == fat[chain[j]]
    ensures Leads(g, fat', o, chain, k)
  {
    hide ClustersFor;
    forall j | k <= j < |chain|
      ensures LeadsAt(g, fat', o, chain, j)
    {
      assert LeadsAt(g, fat, o, chain, j) && fat'[chain[j]] == fat[chain[j]];
    }
  }

  /** Cutting a fully written chain after cluster `n - 1`. */
  lemma Cut(g: Geometry, fat: seq<nat>, fat': seq<nat>, o: ObjId, chain: seq<nat>, n: nat)
    requires g.Valid() && Spells(g, fat, o, chain) && o.nFrag == 0 && 0 < n < |chain|
    requires |fat'| == |fat| && (forall i :: 0 <= i < n - 1 ==> fat'[chain[i]] == fat[chain[i]])
    requires o.stat != 2 ==> IsEnd(g, fat'[chain[n - 1]])
    ensures g.kind.ExFat? && Adjacent(chain[..n], 0, n - 1) ==> Spells(g, fat', o.(stat := 2), chain[..n])
    ensures o.stat == 2 || (o.stat == 3 && n - 1 <= o.nCont) ==> Adjacent(chain[..n], 0, n - 1)
    ensures o.stat == 0 || (o.stat == 3 && o.nCont < n) ==> Spells(g, fat', o, chain[..n])
  {
    var cut := chain[..n];
    assert forall i :: 0 <= i < n ==> cut[i] == chain[i];
    if o.stat != 2 {
      assert Linked(fat', cut, TableFrom(g, o), n);
    }
  }

  // ----- allocation on a table -----

  /** On FAT volumes the free clusters are the zero entries. */
  lemma FreeOnTable(g: Geometry, v: Image)
    requires Fits(g, v) && !g.kind.ExFat?
    ensures forall c: nat :: c in FreeOf(g, v) <==> g.IsCluster(c) && FatOf(g, v)[c] == 0
  {
    hide TableOf, Decode;
  }

  /** Cutting a value to an entry's width keeps cluster numbers and keeps "end of chain" above them. */
  lemma StoredValues(g: Geometry, c: nat)
    requires g.Valid()
    ensures c < g.nFatent ==> Stored(g.kind, c) == c
    ensures IsEnd(g, Stored(g.kind, 0xFFFF_FFFF))
    ensures Stored(g.kind, 0) == 0
  {
    match g.kind
    case Fat12 => assert 0xFFFF_FFFF % 0x1000 == 0xFFF;
    case Fat16 => assert 0xFFFF_FFFF % 0x1_0000 == 0xFFFF;
    case Fat32 => assert 0xFFFF_FFFF % 0x1000_0000 == 0xFFF_FFFF;
    case ExFat => assert 0xFFFF_FFFF % 0x8000_0000 == 0x7FFF_FFFF;
  }

  /** Marking a free cluster as end and linking the old last cluster to it appends it. */
  lemma GrowTable(g: Geometry, fat: seq<nat>, o: ObjId, chain: seq<nat>, ncl: nat, end: nat)
    requires g.Valid() && !g.kind.ExFat? && Spells(g, fat, o, chain)
    requires g.IsCluster(ncl) && fat[ncl] == 0 && IsEnd(g, end)
    ensures ncl !in chain
    ensures chain != [] ==> Spells(g, fat[ncl := end][chain[|chain| - 1] := ncl], o, chain + [ncl])
    ensures chain == [] ==> Spells(g, fat[ncl := end], o, chain + [ncl])
  {
    forall i | 0 <= i < |chain|
      ensures chain[i] != ncl
    {
      assert i < |chain| - 1 ==> fat[chain[i]] == chain[i + 1];
    }
    if chain != [] {
      var chain' := chain + [ncl];
      var fat' := fat[ncl := end][chain[|chain| - 1] := ncl];
      forall i | 0 <= i < |chain'| - 1
        ensures fat'[chain'[i]] == chain'[i + 1]
      {
        if i < |chain| - 1 {
          assert chain[i] != chain[|chain| - 1] && fat[chain[i]] == chain[i + 1];
        }
      }
    }
  }

  /** No cluster of a chain that the table spells is free. */
  lemma ChainNotFree(g: Geometry, fat: seq<nat>, o: ObjId, chain: seq<nat>, i: nat)
    requires g.Valid() && !g.kind.ExFat? && Spells(g, fat, o, chain) && i < |chain|
    ensures fat[chain[i]] != 0
  {
    assert i < |chain| - 1 ==> fat[chain[i]] == chain[i + 1];
  }

  // ----- what other objects see -----

  /** Nothing outside `own` changed: neither table entries nor the free state of clusters, nor any
      sector of the data area that does not hold the bitmap. */
  ghost predicate OthersIntact(g: Geometry, v: Image, w: Image, own: set<nat>) {
    && Fits(g, v) && Fits(g, w)
    && (forall c: nat {:trigger FatOf(g, w)[c]} :: g.IsCluster(c) && c !in own ==> FatOf(g, w)[c] == FatOf(g, v)[c])
    && (forall c: nat {:trigger c in FreeOf(g, w)} :: g.IsCluster(c) && c !in own ==>
        (c in FreeOf(g, w) <==> c in FreeOf(g, v)))
    && SameData(g, v, w)
  }

  ghost predicate SameData(g: Geometry, v: Image, w: Image)
    requires Fits(g, v) && Fits(g, w)
  {
    forall s {:trigger w[s]} :: g.database <= s < |v| && !g.InBitmap(s) ==> w[s] == v[s]
  }

  /** Any chain of another object, lazily kept or not, reads the same afterwards. */
  lemma OtherChainSame(g: Geometry, v: Image, w: Image, own: set<nat>, o: ObjId, chain: seq<nat>)
    requires g.Valid() && OthersIntact(g, v, w, own)
    requires Spells(g, FatOf(g, v), o, chain) && forall i :: 0 <= i < |chain| ==> chain[i] !in own
    ensures Spells(g, FatOf(g, w), o, chain)
  {
    hide FatOf, FreeOf;
    assert forall i :: 0 <= i < |chain| ==> FatOf(g, w)[chain[i]] == FatOf(g, v)[chain[i]];
  }

  /** On FAT volumes a change of table entries alone touches no data. */
  lemma EntryChange(g: Geometry, v: Image, w: Image, own: set<nat>)
    requires TableOnly(g, v, w, own) && !g.kind.ExFat?
    ensures OthersIntact(g, v, w, own)
  {
    hide FatOf, FreeOf;
    FreeOnTable(g, v);
    FreeOnTable(g, w);
  }

  /** On exFAT a change of table entries alone touches neither the bitmap nor data. */
  lemma TableChange(g: Geometry, v: Image, w: Image, own: set<nat>)
    requires TableOnly(g, v, w, own) && g.kind.ExFat?
    ensures OthersIntact(g, v, w, own) && FreeOf(g, w) == FreeOf(g, v)
  {
    hide FatOf, FreeOf;
    BitmapFrame(g, v, w);
  }

  lemma OthersIntactTwice(g: Geometry, u: Image, v: Image, w: Image, own: set<nat>, more: set<nat>)
    requires OthersIntact(g, u, v, own) && OthersIntact(g, v, w, more)
    ensures OthersIntact(g, u, w, own + more)
  {
    hide FatOf, FreeOf;
    forall c: nat | g.IsCluster(c) && c !in own + more
      ensures FatOf(g, w)[c] == FatOf(g, u)[c] && (c in FreeOf(g, w) <==> c in FreeOf(g, u))
    {
      assert FatOf(g, v)[c] == FatOf(g, u)[c];
      assert c in FreeOf(g, v) <==> c in FreeOf(g, u);
    }
  }
}
