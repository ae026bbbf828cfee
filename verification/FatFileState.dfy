/**
 What holds of an open file, and what its operations do to it, as facts about values: the
 volume's sectors, the allocation record, the chain and the file pointer.
 */
module FatFileState {
  import opened FatLayout
  import opened FatChains
  import opened FatVolume
  import opened FatFile
  import opened FatContent

  // ----- what holds of an open file -----

  /** Chain and volume are in order. */
  ghost predicate SoundIn(g: Geometry, v: Image, obj: ObjId, chain: seq<nat>) {
    && Fits(g, v) && g.Roomy()
    && Spells(g, FatOf(g, v), obj, chain) && Allocated(g, v, chain) && Secure(g, v, chain)
    && (!g.kind.ExFat? ==> obj.objsize < 0x1_0000_0000)
  }

  /** An unwritten last fragment ends in the current cluster. */
  ghost predicate AtEdge(obj: ObjId, chain: seq<nat>, clust: nat) {
    obj.nFrag > 0 ==> chain != [] && clust == chain[|chain| - 1]
  }

  /** Current cluster and sector go with the file pointer. */
  ghost predicate Here(g: Geometry, chain: seq<nat>, fptr: nat, clust: nat, sect: nat)
  {
    && (fptr > 0 ==> Idx(g, fptr - 1) < |chain| && clust == chain[Idx(g, fptr - 1)])
    && (fptr % SS != 0 ==> Idx(g, fptr) < |chain| && sect == Addr(g, chain, fptr / SS))
  }

  ghost predicate InvIn(g: Geometry, v: Image, obj: ObjId, chain: seq<nat>, fptr: nat, clust: nat, sect: nat) {
    && SoundIn(g, v, obj, chain) && Sized(g, obj, chain)
    && fptr <= obj.objsize && Here(g, chain, fptr, clust, sect) && AtEdge(obj, chain, clust)
    && (obj.nFrag > 0 ==> fptr > 0)
  }

  ghost function TextIn(g: Geometry, v: Image, obj: ObjId, chain: seq<nat>): (c: seq<Byte>)
    requires SoundIn(g, v, obj, chain) && Sized(g, obj, chain)
    ensures |c| == obj.objsize
  {
    SizeInChain(g, obj, chain);
    Content(g, v, chain, obj.objsize)
  }

  lemma SizeInChain(g: Geometry, o: ObjId, chain: seq<nat>)
    requires Sized(g, o, chain)
    ensures o.objsize > 0 ==> Idx(g, o.objsize - 1) < |chain|
  {
  }

  lemma PointerInFile(g: Geometry, v: Image, obj: ObjId, chain: seq<nat>, fptr: nat, clust: nat, sect: nat)
    requires InvIn(g, v, obj, chain, fptr, clust, sect)
    ensures fptr <= obj.objsize && (!g.kind.ExFat? ==> obj.objsize < 0x1_0000_0000)
  {
  }

  lemma LaidOut(g: Geometry, v: Image, obj: ObjId, chain: seq<nat>)
    requires SoundIn(g, v, obj, chain)
    ensures Laid(g, v, chain)
  {
  }

  /** The file pointer is in the current cluster. */
  ghost predicate AtCluster(g: Geometry, chain: seq<nat>, fptr: nat, clust: nat)
  {
    Idx(g, fptr) < |chain| && clust == chain[Idx(g, fptr)]
  }

  /** Moving on inside the current cluster keeps cluster and sector in step with the file pointer. */
  lemma Advanced(g: Geometry, chain: seq<nat>, fptr: nat, clust: nat, sect: nat, n: nat)
    requires AtCluster(g, chain, fptr, clust) && 1 <= n <= Room(g, fptr)
    requires (fptr + n) % SS != 0 ==> sect == Addr(g, chain, fptr / SS) && (fptr + n) / SS == fptr / SS
    ensures Here(g, chain, fptr + n, clust, sect)
  {
    hide Addr, Nth, Off, Start;
    IdxWithin(g, fptr, n);
    if (fptr + n) % SS != 0 {
      assert Idx(g, fptr + n) == Idx(g, fptr);
    }
  }

  /** Off a cluster boundary the byte before is in the same cluster. */
  lemma IdxInside(g: Geometry, p: nat)
    requires p % SS != 0 || Off(g, p / SS) != 0
    ensures p > 0 && Idx(g, p - 1) == Idx(g, p)
  {
    if p % SS == 0 {
      assert (p - 1) / SS == p / SS - 1;
      NthBefore(g, p / SS);
    } else {
      assert (p - 1) / SS == p / SS;
    }
  }

  /** With an unwritten last fragment the current cluster is the last one, so it has no successor. */
  lemma NotLastIfMore(g: Geometry, v: Image, o: ObjId, chain: seq<nat>, i: nat, clust: nat)
    requires SoundIn(g, v, o, chain) && AtEdge(o, chain, clust) && i + 1 < |chain| && clust == chain[i]
    ensures o.nFrag == 0
  {
  }

  // ----- sectors and bytes -----

  lemma ClusterSectorAt(g: Geometry, c: nat)
    requires g.Valid() && g.IsCluster(c)
    ensures ClusterSector(g, c) == Start(g, c) && 0 < g.database <= ClusterSector(g, c)
  {
    StartApart(g, c, c + 1);
    hide Start;
  }

  lemma ClusterSectorOk(g: Geometry, v: Image, chain: seq<nat>, k: nat)
    requires Laid(g, v, chain) && Nth(g, k) < |chain|
    ensures ClusterSector(g, chain[Nth(g, k)]) > 0
    ensures Addr(g, chain, k) == ClusterSector(g, chain[Nth(g, k)]) + Off(g, k)
    ensures DataSector(g, Addr(g, chain, k)) && !g.InMirror(Addr(g, chain, k)) && 0 <= Addr(g, chain, k)
  {
    hide Secure, Nth, Off, Start;
    ClusterSectorAt(g, chain[Nth(g, k)]);
    AddrIsData(g, v, chain, k);
    DataSectorPlace(g, Addr(g, chain, k));
  }

  /** Bytes cut into sectors. */
  function Sectors(d: seq<Byte>): (rows: seq<Sector>)
    requires |d| % SS == 0
    ensures Rows(rows, d)
  {
    seq(|d| / SS, j requires 0 <= j < |d| / SS => d[SS * j..SS * j + SS])
  }

  /** Sectors joined to bytes. */
  function Flatten(rows: seq<Sector>): (d: seq<Byte>)
    ensures Rows(rows, d)
  {
    if rows == [] then [] else Flatten(rows[..|rows| - 1]) + rows[|rows| - 1]
  }

  lemma RowsFit(g: Geometry, p: nat, rows: seq<Sector>, d: seq<Byte>)
    requires Rows(rows, d) && p % SS == 0 && 1 <= |d| <= Room(g, p)
    ensures |d| % SS == 0 && 1 <= |rows| <= g.csize - Off(g, p / SS)
  {
    hide Nth, Off, Room;
    RoomAtLeast(g, p, |rows|);
  }

  lemma RunIsData(g: Geometry, v: Image, chain: seq<nat>, k: nat, cc: nat)
    requires Laid(g, v, chain) && Nth(g, k) < |chain| && 1 <= cc <= g.csize - Off(g, k)
    ensures 0 <= Addr(g, chain, k) && Addr(g, chain, k) + cc <= |v|
    ensures forall s :: Addr(g, chain, k) <= s < Addr(g, chain, k) + cc ==>
              DataSector(g, s) && !g.InMirror(s) && !g.InFat(s)
  {
    hide Secure, Addr, FreeOf, Nth, Off, Start;
    forall s | Addr(g, chain, k) <= s < Addr(g, chain, k) + cc
      ensures DataSector(g, s) && !g.InMirror(s) && !g.InFat(s)
    {
      AddrRun(g, chain, k, s - Addr(g, chain, k));
      AddrIsData(g, v, chain, k + (s - Addr(g, chain, k)));
      DataSectorPlace(g, s);
    }
    AddrIsData(g, v, chain, k);
    assert DataSector(g, Addr(g, chain, k) + cc - 1);
  }

  /** `rows` are the sectors of the file from `k` on, within one cluster. */
  ghost predicate RunAt(g: Geometry, v: Image, chain: seq<nat>, k: nat, rows: seq<Sector>) {
    && Nth(g, k) < |chain| && |rows| <= g.csize - Off(g, k)
    && 0 <= Addr(g, chain, k) && Addr(g, chain, k) + |rows| <= |v|
    && forall j :: 0 <= j < |rows| ==> rows[j] == v[Addr(g, chain, k) + j]
  }

  lemma RunContent(g: Geometry, v: Image, obj: ObjId, chain: seq<nat>, k: nat, rows: seq<Sector>)
    requires SoundIn(g, v, obj, chain) && Sized(g, obj, chain) && SS * (k + |rows|) <= obj.objsize
    requires RunAt(g, v, chain, k, rows)
    ensures Flatten(rows) == TextIn(g, v, obj, chain)[SS * k..SS * (k + |rows|)]
  {
    hide Addr, Flatten, SoundIn, ByteAt, RunAt, Laid, Idx, Rows, Sized, TextIn, Nth, Off, Start;
    forall j: nat, o: nat | j < |rows| && o < SS
      ensures rows[j][o] == TextIn(g, v, obj, chain)[SS * (k + j) + o]
    {
      RunText(g, v, obj, chain, k, rows, j, o);
    }
    RowsText(rows, Flatten(rows), TextIn(g, v, obj, chain), k);
  }

  lemma RowsText(rows: seq<Sector>, d: seq<Byte>, t: seq<Byte>, k: nat)
    requires Rows(rows, d) && SS * (k + |rows|) <= |t|
    requires forall j: nat, o: nat :: j < |rows| && o < SS ==> rows[j][o] == t[SS * (k + j) + o]
    ensures d == t[SS * k..SS * (k + |rows|)]
  {
    forall i: nat | i < SS * |rows|
      ensures d[i] == t[SS * k + i]
    {
      var j, o := i / SS, i % SS;
      assert i == SS * j + o;
      assert d[SS * j + o] == rows[j][o];
    }
  }

  lemma RunText(g: Geometry, v: Image, obj: ObjId, chain: seq<nat>, k: nat, rows: seq<Sector>, j: nat, o: nat)
    requires SoundIn(g, v, obj, chain) && Sized(g, obj, chain) && SS * (k + |rows|) <= obj.objsize
    requires RunAt(g, v, chain, k, rows) && j < |rows| && o < SS
    ensures rows[j][o] == TextIn(g, v, obj, chain)[SS * (k + j) + o]
  {
    hide Addr, SoundIn, ByteAt, RunAt, Laid, Idx, Sized, TextIn, Nth, Off, Start;
    TextByte(g, v, obj, chain, SS * (k + j) + o);
    RunByte(g, v, chain, obj.objsize, k, rows, j, o);
  }

  lemma TextByte(g: Geometry, v: Image, o: ObjId, chain: seq<nat>, i: nat)
    requires SoundIn(g, v, o, chain) && Sized(g, o, chain) && i < o.objsize
    ensures Laid(g, v, chain) && Idx(g, o.objsize - 1) < |chain|
    ensures TextIn(g, v, o, chain)[i] == ByteAt(g, v, chain, o.objsize, i)
  {
    LaidOut(g, v, o, chain);
    SizeInChain(g, o, chain);
    hide Laid, SoundIn, Sized, ByteAt, Idx, Nth, Off, Start;
  }

  lemma RunByte(g: Geometry, v: Image, chain: seq<nat>, size: nat, k: nat, rows: seq<Sector>, j: nat, o: nat)
    requires Laid(g, v, chain) && RunAt(g, v, chain, k, rows) && j < |rows| && o < SS
    requires SS * (k + j) + o < size && Idx(g, size - 1) < |chain|
    ensures ByteAt(g, v, chain, size, SS * (k + j) + o) == rows[j][o]
  {
    hide Addr, Secure, Laid, Nth, Off, Start;
    AddrRun(g, chain, k, j);
    assert (SS * (k + j) + o) / SS == k + j && (SS * (k + j) + o) % SS == o;
  }

  lemma PartContent(g: Geometry, v: Image, obj: ObjId, chain: seq<nat>, p: nat, n: nat)
    requires SoundIn(g, v, obj, chain) && Sized(g, obj, chain) && 1 <= n && p + n <= obj.objsize
    requires Idx(g, p) < |chain| && n <= SS - p % SS && 0 <= Addr(g, chain, p / SS) < |v|
    ensures v[Addr(g, chain, p / SS)][p % SS..p % SS + n] == TextIn(g, v, obj, chain)[p..p + n]
  {
    hide Addr, SoundIn, Nth, Off, Start;
    LaidOut(g, v, obj, chain);
    hide Laid, Nth, Off, Start;
    SizeInChain(g, obj, chain);
    var part := v[Addr(g, chain, p / SS)][p % SS..p % SS + n];
    forall i | 0 <= i < n
      ensures part[i] == ByteAt(g, v, chain, obj.objsize, p + i)
    {
      PartByte(p, i);
    }
  }

  lemma PartByte(p: nat, i: nat)
    requires i < SS - p % SS
    ensures (p + i) / SS == p / SS && (p + i) % SS == p % SS + i
  {
  }

  /** Ready to write into cluster `cl` at `p`, once the size has grown over `p`. */
  ghost predicate StagedIn(g: Geometry, v: Image, o: ObjId, chain: seq<nat>, p: nat, cl: nat) {
    SoundIn(g, v, o, chain) && SizedAt(g, o, chain, p) && AtCluster(g, chain, p, cl) && AtEdge(o, chain, cl)
  }

  lemma StagedGrown(g: Geometry, v: Image, o: ObjId, chain: seq<nat>, w: Image, o': ObjId, p: nat, ncl: nat)
    requires SoundIn(g, v, o, chain) && Sized(g, o, chain) && Idx(g, p) == |chain| && p == o.objsize
    requires Fits(g, w) && Spells(g, FatOf(g, w), o', chain + [ncl]) && Allocated(g, w, chain + [ncl])
    requires ncl in FreeOf(g, v) && FreeOf(g, w) == FreeOf(g, v) - {ncl}
    requires o'.objsize == o.objsize && o'.sclust == (if chain == [] then ncl else o.sclust)
    requires o'.stat == 3 ==> chain != []
    ensures StagedIn(g, w, o', chain + [ncl], p, ncl)
  {
    hide Spells, Allocated, FatOf, FreeOf, Idx, Nth, Off, Start;
    SizedGrown(g, o, o', chain, ncl, p);
  }

  /** An empty file has no clusters only if its size is 0, and starting its chain is growing it at 0. */
  lemma EmptyFile(g: Geometry, o: ObjId)
    requires Sized(g, o, [])
    ensures o.objsize == 0 && Idx(g, 0) == 0 && o.sclust == 0 && o.stat != 3
  {
  }

  /** Start and size of an object say nothing about its links. */
  lemma SpellsRecord(g: Geometry, fat: seq<nat>, o: ObjId, o': ObjId, chain: seq<nat>)
    requires Spells(g, fat, o, chain) && o' == o.(sclust := o'.sclust, objsize := o'.objsize)
    ensures Spells(g, fat, o', chain)
  {
  }

  /** A chain is kept in the way the operations on it need. */
  lemma SoundKept(o: FileObject)
    requires o.fs.Valid() && SoundIn(o.fs.g, o.fs.View(), o.obj, o.chain)
    ensures o.Kept()
  {
  }

  lemma IdxZero(g: Geometry)
    ensures Idx(g, 0) == 0 && Off(g, 0) == 0
  {
  }

  lemma NoChain(g: Geometry, v: Image, o: ObjId, chain: seq<nat>)
    requires SoundIn(g, v, o, chain) && Sized(g, o, chain) && o.sclust == 0
    ensures chain == []
  {
  }

  /** At the start of a file that has clusters. */
  lemma AtStart(g: Geometry, v: Image, o: ObjId, chain: seq<nat>)
    requires SoundIn(g, v, o, chain) && Sized(g, o, chain) && o.sclust != 0 && o.nFrag == 0
    ensures StagedIn(g, v, o, chain, 0, o.sclust) && g.IsCluster(o.sclust)
  {
    hide Spells, Allocated, FatOf, FreeOf, Secure, Idx, ClustersFor, Nth, Off, Start;
    ChainInRange(g, FatOf(g, v), o, chain);
    IdxZero(g);
    SizedNext(g, o, chain, 0);
  }

  lemma EdgeIndex(g: Geometry, v: Image, o: ObjId, chain: seq<nat>, i: nat, clust: nat)
    requires SoundIn(g, v, o, chain) && AtEdge(o, chain, clust) && i < |chain| && clust == chain[i]
    ensures o.nFrag > 0 ==> i == |chain| - 1
    ensures g.IsCluster(clust)
  {
  }

  lemma AdvancedRows(g: Geometry, chain: seq<nat>, p: nat, clust: nat, sect: nat, n: nat)
    requires AtCluster(g, chain, p, clust) && 1 <= n <= Room(g, p) && p % SS == 0 && n % SS == 0
    ensures Here(g, chain, p + n, clust, sect)
  {
    hide Room, Addr, Nth, Off, Start;
    Advanced(g, chain, p, clust, sect, n);
  }

  lemma PartStep(p: nat, n: nat)
    requires 1 <= n <= SS - p % SS
    ensures (p + n) % SS != 0 ==> (p + n) / SS == p / SS
  {
  }

  // ----- the contents across a change -----

  /** The first `size` bytes of the file are `text`. */
  ghost predicate Reads(g: Geometry, v: Image, chain: seq<nat>, size: nat, text: seq<Byte>) {
    && Laid(g, v, chain) && (size > 0 ==> Idx(g, size - 1) < |chain|)
    && Content(g, v, chain, size) == text
  }

  lemma ReadsText(g: Geometry, v: Image, o: ObjId, chain: seq<nat>)
    requires SoundIn(g, v, o, chain) && Sized(g, o, chain)
    ensures Reads(g, v, chain, o.objsize, TextIn(g, v, o, chain))
  {
    LaidOut(g, v, o, chain);
    SizeInChain(g, o, chain);
  }

  lemma TextReads(g: Geometry, v: Image, o: ObjId, chain: seq<nat>, text: seq<Byte>)
    requires SoundIn(g, v, o, chain) && Sized(g, o, chain) && Reads(g, v, chain, o.objsize, text)
    ensures TextIn(g, v, o, chain) == text
  {
  }

  /** More clusters, and changes outside the data sectors, leave the contents. */
  lemma ReadsOn(g: Geometry, v: Image, w: Image, o: ObjId, chain: seq<nat>, chain': seq<nat>, size: nat,
      text: seq<Byte>, own: set<nat>)
    requires Reads(g, v, chain, size, text) && SoundIn(g, w, o, chain') && chain <= chain' && OthersIntact(g, v, w, own)
    ensures Reads(g, w, chain', size, text)
  {
    LaidOut(g, w, o, chain');
    ContentSame(g, v, w, chain, chain', size);
  }

  /** Sectors `lo..lo + n`, all of them in the data area, are all that changed. */
  ghost predicate DataOnly(g: Geometry, v: Image, w: Image, lo: int, n: nat) {
    && Fits(g, v) && Fits(g, w)
    && (forall s :: lo <= s < lo + n ==> DataSector(g, s))
    && forall s {:trigger w[s]} :: 0 <= s < g.sectors && !(lo <= s < lo + n) ==> w[s] == v[s]
  }

  lemma DataOnlyKeeps(g: Geometry, v: Image, w: Image, lo: int, n: nat)
    requires DataOnly(g, v, w, lo, n)
    ensures SameElse(g, v, w, lo, n) && FatOf(g, w) == FatOf(g, v) && FreeOf(g, w) == FreeOf(g, v)
  {
    hide FatOf, FreeOf, Nth, Off, Start;
    forall s | 0 <= s < g.sectors && (g.InFat(s) || g.InBitmap(s))
      ensures w[s] == v[s]
    {
      assert lo <= s < lo + n ==> DataSector(g, s);
    }
    TableFrame(g, v, w);
    if g.kind.ExFat? {
      BitmapFrame(g, v, w);
    } else {
      FreeOnTable(g, v);
      FreeOnTable(g, w);
    }
  }

  lemma SoundSame(g: Geometry, v: Image, w: Image, o: ObjId, o': ObjId, chain: seq<nat>)
    requires SoundIn(g, v, o, chain) && Fits(g, w) && FatOf(g, w) == FatOf(g, v) && FreeOf(g, w) == FreeOf(g, v)
    requires o' == o.(objsize := o'.objsize) && (!g.kind.ExFat? ==> o'.objsize < 0x1_0000_0000)
    ensures SoundIn(g, w, o', chain)
  {
    hide FatOf, FreeOf, Nth, Off, Start;
  }

  /** Overwriting in the current cluster, with the size brought up to date. */
  lemma AfterWrite(g: Geometry, v: Image, w: Image, o: ObjId, chain: seq<nat>, p: nat, cl: nat, text: seq<Byte>,
      d: seq<Byte>, o': ObjId)
    requires StagedIn(g, v, o, chain, p, cl) && Reads(g, v, chain, o.objsize, text) && p <= o.objsize
    requires 1 <= |d| <= Room(g, p) && SoundIn(g, w, o', chain) && Laid(g, w, chain)
    requires Overwritten(g, v, w, chain, o.objsize, p, d)
    requires o' == o.(objsize := if p + |d| > o.objsize then p + |d| else o.objsize)
    ensures Sized(g, o', chain) && AtEdge(o', chain, cl)
    ensures Reads(g, w, chain, o'.objsize, Splice(text, p, d))
  {
    hide SoundIn, Laid, Idx, Overwritten, Room, Nth, Off, Start;
    SizedOn(g, o, chain, p, |d|);
    IdxWithin(g, p, |d|);
    OverwrittenContent(g, v, w, chain, o.objsize, p, d);
  }

  /** Off a cluster boundary the current cluster can be written at once. */
  lemma StagedInside(g: Geometry, v: Image, o: ObjId, chain: seq<nat>, p: nat, cl: nat, sect: nat)
    requires InvIn(g, v, o, chain, p, cl, sect) && (p % SS != 0 || Off(g, p / SS) != 0)
    ensures StagedIn(g, v, o, chain, p, cl)
  {
    hide SoundIn, Addr, Idx, Nth, Off, Start;
    IdxInside(g, p);
    SizeOfCluster(g, p + 1);
    if p > 0 { SizeOfCluster(g, p); }
  }

  // ----- what other files see -----

  ghost function Reach(g: Geometry, v: Image, chain: seq<nat>): set<nat>
    requires Fits(g, v)
  {
    Owned(chain) + FreeOf(g, v)
  }

  lemma ReachGrown(g: Geometry, v: Image, w: Image, chain: seq<nat>, ncl: nat)
    requires Fits(g, v) && Fits(g, w) && ncl in FreeOf(g, v) && FreeOf(g, w) == FreeOf(g, v) - {ncl}
    ensures Reach(g, w, chain + [ncl]) == Reach(g, v, chain)
  {
    hide FreeOf;
  }

  lemma SafeSelf(g: Geometry, v: Image, own: set<nat>)
    requires Fits(g, v)
    ensures OthersSafe(g, v, v, own)
  {
  }

  lemma SafeMore(g: Geometry, v: Image, w: Image, own: set<nat>, more: set<nat>)
    requires OthersSafe(g, v, w, own) && own <= more
    ensures OthersSafe(g, v, w, more)
  {
    hide FatOf, FreeOf, SectorOf;
  }

  /** `s` is a sector of cluster `c`. */
  predicate SectorOf(g: Geometry, c: nat, s: int) {
    Start(g, c) <= s < Start(g, c) + g.csize
  }

  /** `s` is in none of the clusters of `own`. */
  ghost predicate Foreign(g: Geometry, own: set<nat>, s: int) {
    forall c: nat :: c in own && g.IsCluster(c) ==> !SectorOf(g, c, s)
  }

  /** Nothing outside `own` changed: no table entry, no free state, no sector of another cluster. */
  ghost predicate OthersSafe(g: Geometry, v: Image, w: Image, own: set<nat>) {
    && Fits(g, v) && Fits(g, w)
    && (forall c: nat {:trigger FatOf(g, w)[c]} :: g.IsCluster(c) && c !in own ==> FatOf(g, w)[c] == FatOf(g, v)[c])
    && (forall c: nat {:trigger c in FreeOf(g, w)} :: g.IsCluster(c) && c !in own ==>
        (c in FreeOf(g, w) <==> c in FreeOf(g, v)))
    && (forall s {:trigger w[s]} :: DataSector(g, s) && Foreign(g, own, s) ==> w[s] == v[s])
  }

  /** Some table entry holds 1, which no chain and no free cluster has: the volume is damaged. */
  ghost predicate Damaged(g: Geometry, v: Image)
    requires Fits(g, v)
  {
    !g.kind.ExFat? && exists c: nat :: g.IsCluster(c) && FatOf(g, v)[c] == 1
  }

  lemma DamagedIf(g: Geometry, v: Image)
    requires Fits(g, v) && !g.kind.ExFat? && exists c :: 2 <= c < g.nFatent && FatOf(g, v)[c] == 1
    ensures Damaged(g, v)
  {
    hide FatOf;
    var c :| 2 <= c < g.nFatent && FatOf(g, v)[c] == 1;
    assert g.IsCluster(c);
  }

  lemma ChainNotOne(g: Geometry, v: Image, o: ObjId, chain: seq<nat>, i: nat)
    requires SoundIn(g, v, o, chain) && !g.kind.ExFat? && i < |chain|
    ensures g.IsCluster(chain[i]) && FatOf(g, v)[chain[i]] != 1
  {
    hide FatOf, FreeOf, Secure, Allocated;
    var fat := FatOf(g, v);
    assert Linked(fat, chain, 0, |chain|);
    if i + 1 < |chain| { assert fat[chain[i]] == chain[i + 1] && g.IsCluster(chain[i + 1]); }
  }

  /** An operation that left all others alone has not done that. */
  lemma DamagedBefore(g: Geometry, v: Image, w: Image, o: ObjId, chain: seq<nat>, own: set<nat>)
    requires OthersSafe(g, v, w, own) && SoundIn(g, w, o, chain) && Reach(g, w, chain) == own && Damaged(g, w)
    ensures Damaged(g, v)
  {
    hide FatOf, FreeOf, Foreign, SoundIn;
    var c: nat :| g.IsCluster(c) && FatOf(g, w)[c] == 1;
    FreeOnTable(g, w);
    forall i | 0 <= i < |chain|
      ensures chain[i] != c
    {
      ChainNotOne(g, w, o, chain, i);
    }
    assert c !in own;
    assert FatOf(g, v)[c] == 1;
  }

  lemma DamagedFile(g: Geometry, v: Image, w: Image, o: ObjId, chain: seq<nat>, fptr: nat, clust: nat, sect: nat,
      own: set<nat>)
    requires OthersSafe(g, v, w, own) && InvIn(g, w, o, chain, fptr, clust, sect) && Reach(g, w, chain) == own
    requires Damaged(g, w)
    ensures Damaged(g, v)
  {
    hide OthersSafe, SoundIn, Reach, Damaged;
    DamagedBefore(g, v, w, o, chain, own);
  }

  lemma DamagedSeek(g: Geometry, v: Image, w: Image, o: ObjId, chain: seq<nat>, p: nat, cl: nat, text: seq<Byte>,
      own: set<nat>)
    requires SeekIn(g, v, w, o, chain, p, cl, text, own) && Damaged(g, w)
    ensures Fits(g, v) && Damaged(g, v)
  {
    hide SoundIn, Reach, Damaged, Reads, FatOf, FreeOf, Foreign;
    DamagedBefore(g, v, w, o, chain, own);
  }

  /** The same of a volume as it is, also where an aborted write has left its window and the disk apart. */
  ghost predicate Spared(fs: Volume, v: Image, own: set<nat>)
    reads fs
  {
    |fs.disk| == fs.g.sectors && OthersSafe(fs.g, v, ViewOf(fs.g, fs.disk, fs.win, fs.winsect), own)
  }

  lemma SparedNow(fs: Volume, v: Image, own: set<nat>)
    requires fs.Valid() && OthersSafe(fs.g, v, fs.View(), own)
    ensures Spared(fs, v, own)
  {
    hide OthersSafe;
  }

  lemma SparedMore(fs: Volume, v: Image, u: Image, own: set<nat>, more: set<nat>)
    requires OthersSafe(fs.g, v, u, more) && Spared(fs, u, own) && own <= more
    ensures Spared(fs, v, more)
  {
    hide OthersSafe, ViewOf;
    var w := ViewOf(fs.g, fs.disk, fs.win, fs.winsect);
    SafeMore(fs.g, u, w, own, more);
    SafeTwice(fs.g, v, u, w, more);
  }

  lemma IntactSafe(g: Geometry, v: Image, w: Image, own: set<nat>, more: set<nat>)
    requires OthersIntact(g, v, w, own) && own <= more
    ensures OthersSafe(g, v, w, more)
  {
    hide FatOf, FreeOf, Nth, Off, Start;
  }

  lemma SafeTwice(g: Geometry, u: Image, v: Image, w: Image, own: set<nat>)
    requires OthersSafe(g, u, v, own) && OthersSafe(g, v, w, own)
    ensures OthersSafe(g, u, w, own)
  {
    hide FatOf, FreeOf, Foreign, Nth, Off, Start;
    forall c: nat | g.IsCluster(c) && c !in own
      ensures FatOf(g, w)[c] == FatOf(g, u)[c] && (c in FreeOf(g, w) <==> c in FreeOf(g, u))
    {
      assert FatOf(g, v)[c] == FatOf(g, u)[c];
      assert c in FreeOf(g, v) <==> c in FreeOf(g, u);
    }
  }

  /** Writing sectors of one of its own clusters is safe for everyone else. */
  lemma DataOnlySafe(g: Geometry, v: Image, w: Image, chain: seq<nat>, k: nat, n: nat, own: set<nat>)
    requires Laid(g, v, chain) && Nth(g, k) < |chain| && n <= g.csize - Off(g, k)
    requires DataOnly(g, v, w, Addr(g, chain, k), n)
    requires Owned(chain) <= own
    ensures OthersSafe(g, v, w, own)
  {
    hide FatOf, FreeOf, Nth, Off, Start;
    DataOnlyKeeps(g, v, w, Addr(g, chain, k), n);
    var c := chain[Nth(g, k)];
    assert c in chain && c in own;
    forall s | Addr(g, chain, k) <= s < Addr(g, chain, k) + n
      ensures !Foreign(g, own, s)
    {
      assert SectorOf(g, c, s);
    }
  }

  /** So is a write of such sectors that fails. */
  lemma FailedRows(fs: Volume, v: Image, chain: seq<nat>, k: nat, n: nat)
    requires Laid(fs.g, v, chain) && Nth(fs.g, k) < |chain| && 1 <= n <= fs.g.csize - Off(fs.g, k)
    requires |fs.disk| == fs.g.sectors && Fits(fs.g, ViewOf(fs.g, fs.disk, fs.win, fs.winsect))
    requires forall s :: 0 <= s < fs.g.sectors && !(Addr(fs.g, chain, k) <= s < Addr(fs.g, chain, k) + n) ==>
                         ViewOf(fs.g, fs.disk, fs.win, fs.winsect)[s] == v[s]
    ensures Spared(fs, v, Owned(chain))
  {
    hide Addr, Nth, Off, OthersSafe, Start, FatOf, FreeOf, ViewOf, Owned;
    RunIsData(fs.g, v, chain, k, n);
    DataOnlySafe(fs.g, v, ViewOf(fs.g, fs.disk, fs.win, fs.winsect), chain, k, n, Owned(chain));
  }

  /** A file that shares no cluster with the changed ones keeps its chain and its contents. */
  lemma OtherFileSame(g: Geometry, v: Image, w: Image, own: set<nat>, o: ObjId, chain: seq<nat>)
    requires OthersSafe(g, v, w, own) && SoundIn(g, v, o, chain) && Sized(g, o, chain)
    requires Owned(chain) !! own && (forall c: nat :: g.IsCluster(c) && Reserved(g, c) ==> c !in own)
    ensures SoundIn(g, w, o, chain) && TextIn(g, w, o, chain) == TextIn(g, v, o, chain)
  {
    hide FatOf, FreeOf, Addr, Nth, Off, Start;
    LaidOut(g, v, o, chain);
    OtherSound(g, v, w, own, o, chain);
    LaidOut(g, w, o, chain);
    SizeInChain(g, o, chain);
    forall i: nat | i < o.objsize
      ensures ByteAt(g, w, chain, o.objsize, i) == ByteAt(g, v, chain, o.objsize, i)
    {
      IdxInChain(g, o, chain, i);
      OtherSector(g, v, w, own, chain, i / SS);
    }
  }

  lemma OtherSound(g: Geometry, v: Image, w: Image, own: set<nat>, o: ObjId, chain: seq<nat>)
    requires OthersSafe(g, v, w, own) && SoundIn(g, v, o, chain)
    requires Owned(chain) !! own && (forall c: nat :: g.IsCluster(c) && Reserved(g, c) ==> c !in own)
    ensures SoundIn(g, w, o, chain)
  {
    hide FatOf, FreeOf, Foreign, Nth, Off, Start;
    assert forall i :: 0 <= i < |chain| ==> chain[i] in Owned(chain);
    assert forall i :: 0 <= i < |chain| ==> FatOf(g, w)[chain[i]] == FatOf(g, v)[chain[i]];
    assert Allocated(g, w, chain);
    assert Secure(g, w, chain);
  }

  lemma OtherSector(g: Geometry, v: Image, w: Image, own: set<nat>, chain: seq<nat>, k: nat)
    requires OthersSafe(g, v, w, own) && Laid(g, v, chain) && Owned(chain) !! own && Nth(g, k) < |chain|
    ensures 0 <= Addr(g, chain, k) < |v| && w[Addr(g, chain, k)] == v[Addr(g, chain, k)]
  {
    hide FatOf, FreeOf, Nth, Off, Start;
    AddrIsData(g, v, chain, k);
    var s := Addr(g, chain, k);
    var c := chain[Nth(g, k)];
    OffSmall(g, k);
    assert c in Owned(chain);
    forall d: nat | d in own && g.IsCluster(d)
      ensures !SectorOf(g, d, s)
    {
      if SectorOf(g, d, s) {
        SameStart(g, c, d, s);
      }
    }
  }

  /** Everything a write leaves behind. */
  ghost predicate WroteIn(g: Geometry, v: Image, w: Image, o': ObjId, chain: seq<nat>, p: nat, cl: nat, sect: nat,
      text: seq<Byte>, d: seq<Byte>) {
    && InvIn(g, w, o', chain, p + |d|, cl, sect) && OthersSafe(g, v, w, Owned(chain)) && FreeOf(g, w) == FreeOf(g, v)
    && p <= |text| && Reads(g, w, chain, o'.objsize, Splice(text, p, d))
  }

  /** `o` with its size brought up to date after a write that ends at `e`. */
  function Extended(o: ObjId, e: nat): ObjId {
    o.(objsize := if e > o.objsize then e else o.objsize)
  }

  /** Writing `n` sectors of the current cluster, whichever way it is done. */
  lemma WroteEnd(g: Geometry, v: Image, w: Image, o: ObjId, chain: seq<nat>, p: nat, cl: nat, text: seq<Byte>,
      d: seq<Byte>, sect: nat, n: nat)
    requires StagedIn(g, v, o, chain, p, cl) && p <= o.objsize && Reads(g, v, chain, o.objsize, text)
    requires 1 <= |d| <= Room(g, p) && (!g.kind.ExFat? ==> p + |d| < 0x1_0000_0000)
    requires n <= g.csize - Off(g, p / SS) && DataOnly(g, v, w, Addr(g, chain, p / SS), n)
    requires Laid(g, v, chain) && Laid(g, w, chain) && Overwritten(g, v, w, chain, o.objsize, p, d)
    requires Here(g, chain, p + |d|, cl, sect)
    ensures WroteIn(g, v, w, Extended(o, p + |d|), chain, p, cl, sect, text, d)
  {
    var o' := Extended(o, p + |d|);
    hide Idx, Addr, FatOf, FreeOf, Spells, Allocated, Secure, Room, Overwritten, Nth, Off, Start;
    DataOnlySafe(g, v, w, chain, p / SS, n, Owned(chain));
    DataOnlyKeeps(g, v, w, Addr(g, chain, p / SS), n);
    hide DataOnly, SameElse, OthersSafe, Laid, Nth, Off, Start;
    SoundSame(g, v, w, o, o', chain);
    AfterWrite(g, v, w, o, chain, p, cl, text, d, o');
  }

  lemma LaidSame(g: Geometry, v: Image, w: Image, chain: seq<nat>)
    requires Laid(g, v, chain) && Fits(g, w) && FreeOf(g, w) == FreeOf(g, v)
    ensures Laid(g, w, chain)
  {
    hide FreeOf, Nth, Off, Start;
  }

  /** `w` is `v` with `rows` written from sector `lo` on. */
  ghost predicate RowsPut(g: Geometry, v: Image, w: Image, lo: int, rows: seq<Sector>) {
    && Fits(g, v) && Fits(g, w)
    && forall s {:trigger w[s]} :: 0 <= s < g.sectors ==> w[s] == if lo <= s < lo + |rows| then rows[s - lo] else v[s]
  }

  lemma RowsPutOnly(g: Geometry, v: Image, w: Image, chain: seq<nat>, k: nat, rows: seq<Sector>)
    requires Laid(g, v, chain) && Nth(g, k) < |chain| && 1 <= |rows| <= g.csize - Off(g, k)
    requires RowsPut(g, v, w, Addr(g, chain, k), rows)
    ensures DataOnly(g, v, w, Addr(g, chain, k), |rows|) && Laid(g, w, chain)
  {
    hide Addr, Nth, Off, Laid;
    RunIsData(g, v, chain, k, |rows|);
    DataOnlyKeeps(g, v, w, Addr(g, chain, k), |rows|);
    LaidSame(g, v, w, chain);
  }

  lemma RowsPutWrites(g: Geometry, v: Image, w: Image, chain: seq<nat>, size: nat, p: nat, rows: seq<Sector>,
      d: seq<Byte>)
    requires Laid(g, v, chain) && Laid(g, w, chain) && p <= size && p % SS == 0 && Nth(g, p / SS) < |chain|
    requires 1 <= |rows| <= g.csize - Off(g, p / SS) && RowsPut(g, v, w, Addr(g, chain, p / SS), rows) && Rows(rows, d)
    requires DataOnly(g, v, w, Addr(g, chain, p / SS), |rows|)
    ensures Overwritten(g, v, w, chain, size, p, d)
  {
    hide Addr, Nth, Off, Laid, Overwritten, Rows;
    RunIsData(g, v, chain, p / SS, |rows|);
    DirectWrite(g, v, w, chain, size, p, rows, d);
  }

  lemma WroteRows(g: Geometry, v: Image, w: Image, o: ObjId, chain: seq<nat>, p: nat, cl: nat, text: seq<Byte>,
      rows: seq<Sector>, d: seq<Byte>, sect: nat)
    requires StagedIn(g, v, o, chain, p, cl) && p <= o.objsize && Reads(g, v, chain, o.objsize, text)
    requires 1 <= |d| <= Room(g, p) && p % SS == 0 && (!g.kind.ExFat? ==> p + |d| < 0x1_0000_0000)
    requires RowsPut(g, v, w, Addr(g, chain, p / SS), rows) && Rows(rows, d)
    ensures WroteIn(g, v, w, Extended(o, p + |d|), chain, p, cl, sect, text, d)
  {
    hide Addr, SoundIn, Sized, Room, Laid, Nth, Off, Here, Reads, SizedAt, AtEdge, RowsPut, Overwritten, DataOnly, Rows,
         WroteIn;
    LaidOut(g, v, o, chain);
    RowsFit(g, p, rows, d);
    RowsPutOnly(g, v, w, chain, p / SS, rows);
    RowsPutWrites(g, v, w, chain, o.objsize, p, rows, d);
    AdvancedRows(g, chain, p, cl, sect, |d|);
    WroteEnd(g, v, w, o, chain, p, cl, text, d, sect, |rows|);
  }

  /** `w` is `v` with `d` written into sector `s` at offset `i`; if `blank`, the rest of it is anything. */
  ghost predicate PartPut(g: Geometry, v: Image, w: Image, sect: int, i: nat, d: seq<Byte>, blank: bool) {
    && Fits(g, v) && Fits(g, w) && 0 <= sect < g.sectors
    && (forall s {:trigger w[s]} :: 0 <= s < g.sectors && s != sect ==> w[s] == v[s])
    && (forall j :: 0 <= j < SS && (i <= j < i + |d| || !blank) ==>
        w[sect][j] == if i <= j < i + |d| then d[j - i] else v[sect][j])
  }

  lemma PartPutWrites(g: Geometry, v: Image, w: Image, chain: seq<nat>, size: nat, p: nat, d: seq<Byte>, blank: bool)
    requires Laid(g, v, chain) && p <= size && Nth(g, p / SS) < |chain| && |d| <= SS - p % SS
    requires PartPut(g, v, w, Addr(g, chain, p / SS), p % SS, d, blank) && (blank ==> p % SS == 0 && size <= p)
    ensures Laid(g, w, chain) && DataOnly(g, v, w, Addr(g, chain, p / SS), 1)
    ensures Overwritten(g, v, w, chain, size, p, d)
  {
    hide Addr, Nth, Off, Laid, Overwritten;
    ClusterSectorOk(g, v, chain, p / SS);
    DataOnlyKeeps(g, v, w, Addr(g, chain, p / SS), 1);
    LaidSame(g, v, w, chain);
    PartialWrite(g, v, w, chain, size, p, d);
  }

  lemma WrotePart(g: Geometry, v: Image, w: Image, o: ObjId, chain: seq<nat>, p: nat, cl: nat, text: seq<Byte>,
      d: seq<Byte>, sect: nat, blank: bool)
    requires StagedIn(g, v, o, chain, p, cl) && p <= o.objsize && Reads(g, v, chain, o.objsize, text)
    requires 1 <= |d| <= Room(g, p) && |d| <= SS - p % SS && sect == Addr(g, chain, p / SS)
    requires !g.kind.ExFat? ==> p + |d| < 0x1_0000_0000
    requires PartPut(g, v, w, sect, p % SS, d, blank) && (blank ==> p % SS == 0 && o.objsize <= p)
    ensures WroteIn(g, v, w, Extended(o, p + |d|), chain, p, cl, sect, text, d)
  {
    hide Addr, SoundIn, Sized, Room, Laid, Nth, Off, Here, Reads, SizedAt, AtEdge, PartPut, Overwritten, DataOnly,
         WroteIn;
    LaidOut(g, v, o, chain);
    PartPutWrites(g, v, w, chain, o.objsize, p, d, blank);
    PartStep(p, |d|);
    Advanced(g, chain, p, cl, sect, |d|);
    OffSmall(g, p / SS);
    WroteEnd(g, v, w, o, chain, p, cl, text, d, sect, 1);
  }

  lemma SpliceNothing(c: seq<Byte>, p: nat)
    requires p <= |c|
    ensures forall d: seq<Byte> :: Splice(c, p, d[..0]) == c
  {
  }

  lemma SpliceMore(c: seq<Byte>, p: nat, data: seq<Byte>, b: nat, n: nat, w: nat)
    requires p <= |c| && b <= n <= |data| && w <= n - b
    ensures p + b <= |Splice(c, p, data[..b])|
    ensures Splice(Splice(c, p, data[..b]), p + b, data[b..n][..w]) == Splice(c, p, data[..b + w])
  {
    SpliceTwice(c, p, data[..b], data[b..n][..w]);
    assert data[..b] + data[b..n][..w] == data[..b + w];
  }

  // ----- writing out a lazily kept chain -----

  lemma InvEnds(g: Geometry, v: Image, o: ObjId, chain: seq<nat>, fptr: nat, clust: nat, sect: nat)
    requires InvIn(g, v, o, chain, fptr, clust, sect)
    ensures Fits(g, v) && g.Roomy() && Inside(g, FatOf(g, v), o, chain)
    ensures o.nFrag > 0 ==> chain != [] && clust == chain[|chain| - 1]
    ensures chain != [] ==> o.sclust == chain[0]
  {
    hide FatOf, FreeOf;
  }

  lemma InvKept(o: FileObject, fptr: nat, clust: nat, sect: nat)
    requires o.fs.Valid() && InvIn(o.fs.g, o.fs.View(), o.obj, o.chain, fptr, clust, sect)
    ensures o.Kept()
  {
    hide Volume.Valid, FatOf, FreeOf;
  }

  /** Table entries of the file changed; record and chain still belong together. */
  lemma TableRewritten(g: Geometry, v: Image, w: Image, o: ObjId, o': ObjId, chain: seq<nat>, fptr: nat, clust: nat,
      sect: nat)
    requires InvIn(g, v, o, chain, fptr, clust, sect) && g.kind.ExFat? && TableOnly(g, v, w, Owned(chain))
    requires Spells(g, FatOf(g, w), o', chain) && o'.objsize == o.objsize && o'.sclust == o.sclust
    requires o'.nFrag <= o.nFrag
    requires o'.stat == o.stat || o'.stat == 0
    ensures InvIn(g, w, o', chain, fptr, clust, sect) && TextIn(g, w, o', chain) == TextIn(g, v, o, chain)
    ensures OthersSafe(g, v, w, Owned(chain)) && FreeOf(g, w) == FreeOf(g, v)
  {
    hide FatOf, FreeOf, Spells, TableOnly, Here, Content, ClustersFor;
    TableChange(g, v, w, Owned(chain));
    IntactSafe(g, v, w, Owned(chain), Owned(chain));
    ReadsText(g, v, o, chain);
    ReadsOn(g, v, w, o', chain, chain, o.objsize, TextIn(g, v, o, chain), Owned(chain));
    TextReads(g, w, o', chain, TextIn(g, v, o, chain));
  }

  lemma Filled(g: Geometry, v: Image, w: Image, o: ObjId, o': ObjId, chain: seq<nat>, fptr: nat, clust: nat, sect: nat)
    requires InvIn(g, v, o, chain, fptr, clust, sect) && g.kind.ExFat? && TableOnly(g, v, w, Owned(chain))
    requires Inside(g, FatOf(g, w), o', chain) && o' == o.(nFrag := o'.nFrag) && o'.nFrag <= o.nFrag
    requires o.nFrag == 0 ==> w == v
    requires o'.nFrag == 0 && o.nFrag > 0 ==> g.IsCluster(clust) && IsEnd(g, FatOf(g, w)[clust])
    ensures InvIn(g, w, o', chain, fptr, clust, sect) && TextIn(g, w, o', chain) == TextIn(g, v, o, chain)
    ensures OthersSafe(g, v, w, Owned(chain)) && FreeOf(g, w) == FreeOf(g, v)
  {
    hide FatOf, FreeOf, TableOnly, Here, TextIn, Inside, Sized, OthersSafe;
    TableRewritten(g, v, w, o, o', chain, fptr, clust, sect);
  }

  lemma FilledFirst(g: Geometry, v: Image, w: Image, o: ObjId, o': ObjId, chain: seq<nat>, fptr: nat, clust: nat,
      sect: nat)
    requires InvIn(g, v, o, chain, fptr, clust, sect) && g.kind.ExFat? && TableOnly(g, v, w, Owned(chain))
    requires Spells(g, FatOf(g, w), o', chain) && (o' == o || o' == o.(stat := 0))
    ensures InvIn(g, w, o', chain, fptr, clust, sect) && TextIn(g, w, o', chain) == TextIn(g, v, o, chain)
    ensures OthersSafe(g, v, w, Owned(chain)) && FreeOf(g, w) == FreeOf(g, v)
  {
    TableRewritten(g, v, w, o, o', chain, fptr, clust, sect);
  }

  /** What the disk must say about a file that has been synchronised. */
  ghost predicate Settled(g: Geometry, disk: Image, o: ObjId, chain: seq<nat>) {
    && SoundIn(g, disk, o, chain) && Sized(g, o, chain) && o.nFrag == 0
    && if g.kind.ExFat? && o.stat == 2 then Adjacent(chain, 0, |chain| - 1)
       else o.stat == 0 && TableSpells(g, FatOf(g, disk), chain)
  }

  /** The table alone gives the chain. */
  ghost predicate TableSpells(g: Geometry, fat: seq<nat>, chain: seq<nat>)
    requires |fat| == g.nFatent
  {
    && InRange(g, chain)
    && forall i :: 0 <= i < |chain| ==>
         if i + 1 < |chain| then fat[chain[i]] == chain[i + 1] else IsEnd(g, fat[chain[i]])
  }

  lemma SettledNow(g: Geometry, v: Image, disk: Image, o: ObjId, chain: seq<nat>, fptr: nat, clust: nat, sect: nat)
    requires InvIn(g, v, o, chain, fptr, clust, sect) && Fits(g, disk)
    requires g.kind.ExFat? ==> o.nFrag == 0 && o.stat != 3
    requires forall s {:trigger v[s]} :: 0 <= s < g.sectors && !g.InMirror(s) ==> v[s] == disk[s]
    ensures Settled(g, disk, o, chain) && TextIn(g, disk, o, chain) == TextIn(g, v, o, chain)
  {
    hide FatOf, FreeOf, TextIn, Here;
    SameView(g, v, disk);
    SoundSame(g, v, disk, o, o, chain);
    ReadsText(g, v, o, chain);
    OthersIntactSelfOn(g, v, disk);
    ReadsOn(g, v, disk, o, chain, chain, o.objsize, TextIn(g, v, o, chain), {});
    TextReads(g, disk, o, chain, TextIn(g, v, o, chain));
  }

  lemma SameView(g: Geometry, v: Image, disk: Image)
    requires Fits(g, v) && Fits(g, disk)
    requires forall s {:trigger v[s]} :: 0 <= s < g.sectors && !g.InMirror(s) ==> v[s] == disk[s]
    ensures FatOf(g, disk) == FatOf(g, v) && FreeOf(g, disk) == FreeOf(g, v)
  {
    hide FatOf, FreeOf;
    TableFrame(g, v, disk);
    if g.kind.ExFat? {
      BitmapFrame(g, v, disk);
    } else {
      FreeOnTable(g, v);
      FreeOnTable(g, disk);
    }
  }

  lemma OthersIntactSelfOn(g: Geometry, v: Image, disk: Image)
    requires Fits(g, v) && Fits(g, disk)
    requires forall s {:trigger v[s]} :: 0 <= s < g.sectors && !g.InMirror(s) ==> v[s] == disk[s]
    ensures OthersIntact(g, v, disk, {})
  {
    hide FatOf, FreeOf;
    SameView(g, v, disk);
  }

  // ----- truncating -----

  lemma WholeText(text: seq<Byte>)
    ensures text[..|text|] == text
  {
  }

  /** Where a file is cut, and that it can be cut there. */
  lemma CutIndex(g: Geometry, v: Image, o: ObjId, chain: seq<nat>, fptr: nat, clust: nat, sect: nat)
    requires InvIn(g, v, o, chain, fptr, clust, sect) && fptr < o.objsize
    ensures ClustersFor(g, fptr) <= |chain| && chain != [] && Sized(g, o, chain) && o.sclust == chain[0]
    ensures fptr == 0 ==> ClustersFor(g, fptr) == 0 && o.nFrag == 0
    ensures fptr > 0 ==> 0 < ClustersFor(g, fptr) && clust == chain[ClustersFor(g, fptr) - 1]
    ensures ClustersFor(g, fptr) < |chain| ==> o.nFrag == 0
  {
    hide Addr, Nth, Off, FatOf, FreeOf;
    SizeOfCluster(g, o.objsize);
    if fptr > 0 {
      SizeOfCluster(g, fptr);
      NotLastInFragment(g, v, o, chain, Idx(g, fptr - 1), clust);
    }
  }

  lemma NotLastInFragment(g: Geometry, v: Image, o: ObjId, chain: seq<nat>, i: nat, clust: nat)
    requires SoundIn(g, v, o, chain) && AtEdge(o, chain, clust) && i < |chain| && clust == chain[i]
    ensures i + 1 < |chain| ==> o.nFrag == 0
  {
    if i + 1 < |chain| { NotLastIfMore(g, v, o, chain, i, clust); }
  }

  lemma CutLink(g: Geometry, v: Image, o: ObjId, chain: seq<nat>, fptr: nat, clust: nat, sect: nat)
    requires InvIn(g, v, o, chain, fptr, clust, sect) && 0 < fptr < o.objsize
    ensures
      var n, next := ClustersFor(g, fptr), LinkValue(g, FatOf(g, v), o, clust);
      2 <= next && if n < |chain| then next == chain[n] && next < g.nFatent else g.nFatent <= next
  {
    hide Addr, Nth, Off, FatOf, FreeOf, LinkValue, Spells, ClustersFor, Here, Secure, Allocated;
    CutIndex(g, v, o, chain, fptr, clust, sect);
    var n := ClustersFor(g, fptr);
    LinkFollows(g, FatOf(g, v), o, chain, n - 1);
    ChainInRange(g, FatOf(g, v), o, chain);
  }

  /** The record and the contents after the cut. */
  lemma CutText(g: Geometry, v: Image, w: Image, o: ObjId, o': ObjId, chain: seq<nat>, fptr: nat, clust: nat, sect: nat)
    requires InvIn(g, v, o, chain, fptr, clust, sect) && fptr < o.objsize && ClustersFor(g, fptr) <= |chain|
    requires var n := ClustersFor(g, fptr);
             && Fits(g, w) && OthersIntact(g, v, w, Owned(chain))
             && Spells(g, FatOf(g, w), o', chain[..n]) && Allocated(g, w, chain[..n])
             && FreeOf(g, w) == FreeOf(g, v) + Owned(chain[n..])
             && o'.objsize == fptr && o'.sclust == (if n == 0 then 0 else o.sclust) && (o'.stat == 3 ==> 0 < n)
             && o'.nFrag == o.nFrag
    ensures InvIn(g, w, o', chain[..ClustersFor(g, fptr)], fptr, clust, sect)
    ensures TextIn(g, w, o', chain[..ClustersFor(g, fptr)]) == TextIn(g, v, o, chain)[..fptr]
  {
    hide Addr, Nth, Off, FatOf, FreeOf, Spells, Allocated, Content;
    var n := ClustersFor(g, fptr);
    var cut := chain[..n];
    CutIndex(g, v, o, chain, fptr, clust, sect);
    CutSound(g, v, w, o, o', chain, n);
    CutHere(g, chain, n, fptr, clust, sect);
    ReadsText(g, v, o, chain);
    CutReads(g, v, w, chain, n, o.objsize, fptr, TextIn(g, v, o, chain), o');
    TextReads(g, w, o', cut, TextIn(g, v, o, chain)[..fptr]);
  }

  lemma CutSound(g: Geometry, v: Image, w: Image, o: ObjId, o': ObjId, chain: seq<nat>, n: nat)
    requires SoundIn(g, v, o, chain) && n <= |chain| && Fits(g, w) && o'.objsize < o.objsize
    requires Spells(g, FatOf(g, w), o', chain[..n]) && Allocated(g, w, chain[..n])
    requires FreeOf(g, w) == FreeOf(g, v) + Owned(chain[n..])
    ensures SoundIn(g, w, o', chain[..n])
  {
    hide FatOf, FreeOf, Spells, Allocated;
  }

  lemma CutHere(g: Geometry, chain: seq<nat>, n: nat, fptr: nat, clust: nat, sect: nat)
    requires Here(g, chain, fptr, clust, sect) && n == ClustersFor(g, fptr) && n <= |chain|
    ensures Here(g, chain[..n], fptr, clust, sect)
  {
    hide Nth, Off, Start;
    if fptr % SS != 0 { IdxInside(g, fptr); }
  }

  lemma CutReads(g: Geometry, v: Image, w: Image, chain: seq<nat>, n: nat, size: nat, less: nat, text: seq<Byte>,
      o': ObjId)
    requires Reads(g, v, chain, size, text) && less <= size && n == ClustersFor(g, less) && n <= |chain|
    requires SoundIn(g, w, o', chain[..n]) && OthersIntact(g, v, w, Owned(chain))
    ensures less <= |text| && Reads(g, w, chain[..n], less, text[..less])
  {
    hide FatOf, FreeOf, Spells, Allocated, Secure, Nth, Off, ByteAt;
    LaidOut(g, w, o', chain[..n]);
    ContentPrefix(g, v, chain, less, size);
    ContentSame(g, w, v, chain[..n], chain, less);
  }

  // ----- seeking -----

  /** First byte of the cluster of byte `p`. */
  function FirstOf(g: Geometry, p: nat): int {
    p - p % SS - SS * Off(g, p / SS)
  }

  lemma FirstOfCluster(g: Geometry, p: nat)
    ensures 0 <= FirstOf(g, p) <= p && FirstOf(g, p) % SS == 0 && Off(g, FirstOf(g, p) / SS) == 0
    ensures Idx(g, FirstOf(g, p)) == Idx(g, p)
  {
    hide Nth, Off;
    FirstSector(g, p / SS);
    assert FirstOf(g, p) == SS * (p / SS - Off(g, p / SS));
  }

  lemma FirstSector(g: Geometry, k: nat)
    ensures Off(g, k) <= k && Off(g, k - Off(g, k)) == 0 && Nth(g, k - Off(g, k)) == Nth(g, k)
  {
    if g.csize <= k { FirstSector(g, k - g.csize); }
  }

  /** On the way of a seek: at the first byte `p` of cluster `cl`, with the old contents in place. */
  ghost predicate SeekIn(g: Geometry, v: Image, w: Image, o: ObjId, chain: seq<nat>, p: nat, cl: nat, text: seq<Byte>,
      own: set<nat>) {
    && StagedIn(g, w, o, chain, p, cl) && p % SS == 0 && Off(g, p / SS) == 0
    && |text| <= o.objsize && p <= o.objsize && (o.objsize <= |text| || o.objsize <= p)
    && Reads(g, w, chain, |text|, text) && OthersSafe(g, v, w, own) && Reach(g, w, chain) == own
  }

  lemma SparedSeek(fs: Volume, v: Image, w: Image, o: ObjId, chain: seq<nat>, p: nat, cl: nat, text: seq<Byte>,
      own: set<nat>)
    requires fs.Valid() && SeekIn(fs.g, v, w, o, chain, p, cl, text, own)
    requires OthersIntact(fs.g, w, fs.View(), Reach(fs.g, w, chain))
    ensures Spared(fs, v, own)
  {
    hide OthersIntact, StagedIn, Reads, Reach, ViewOf, Volume.Valid, Spared, FatOf, FreeOf, Foreign;
    IntactSafe(fs.g, w, fs.View(), Reach(fs.g, w, chain), own);
    SafeTwice(fs.g, v, w, fs.View(), own);
    SparedNow(fs, v, own);
  }

  lemma InvParts(g: Geometry, v: Image, o: ObjId, chain: seq<nat>, fptr: nat, clust: nat, sect: nat)
    requires InvIn(g, v, o, chain, fptr, clust, sect)
    ensures SoundIn(g, v, o, chain) && Sized(g, o, chain)
  {
  }

  /** FAT volumes keep no fragment back. */
  lemma FragmentOnTable(g: Geometry, v: Image, o: ObjId, chain: seq<nat>, fptr: nat, clust: nat, sect: nat)
    requires InvIn(g, v, o, chain, fptr, clust, sect)
    ensures !g.kind.ExFat? ==> o.nFrag == 0 && o.stat == 0
  {
    hide FatOf, FreeOf;
  }

  lemma Rewound(g: Geometry, v: Image, o: ObjId, chain: seq<nat>, fptr: nat, clust: nat, sect: nat)
    requires InvIn(g, v, o, chain, fptr, clust, sect) && o.nFrag == 0
    ensures InvIn(g, v, o, chain, 0, clust, sect) && InvIn(g, v, o, chain, 0, 0, sect)
  {
  }

  lemma SeekSizes(g: Geometry, v: Image, w: Image, o: ObjId, chain: seq<nat>, p: nat, cl: nat, text: seq<Byte>,
      own: set<nat>)
    requires SeekIn(g, v, w, o, chain, p, cl, text, own)
    ensures |text| <= o.objsize && p <= o.objsize
  {
  }

  lemma SeekBegin(g: Geometry, v: Image, w: Image, o: ObjId, chain: seq<nat>, p: nat, cl: nat, text: seq<Byte>,
      own: set<nat>)
    requires StagedIn(g, w, o, chain, p, cl) && p % SS == 0 && Off(g, p / SS) == 0 && p <= o.objsize == |text|
    requires Reads(g, w, chain, |text|, text) && OthersSafe(g, v, w, own) && Reach(g, w, chain) == own
    ensures SeekIn(g, v, w, o, chain, p, cl, text, own)
  {
  }

  lemma SeekResume(g: Geometry, v: Image, o: ObjId, chain: seq<nat>, fptr: nat, clust: nat, sect: nat, ofs: nat)
    requires InvIn(g, v, o, chain, fptr, clust, sect) && 0 < fptr && 0 < ofs && Idx(g, fptr - 1) <= Idx(g, ofs - 1)
    ensures
      var p := FirstOf(g, fptr - 1);
      0 <= p < ofs && p <= o.objsize && p % SS == 0 && Off(g, p / SS) == 0 && StagedIn(g, v, o, chain, p, clust)
  {
    hide Nth, Off, FirstOf, SoundIn, Addr, ClustersFor;
    FirstOfCluster(g, fptr - 1);
    var p := FirstOf(g, fptr - 1);
    IdxBoundary(g, p, ofs - 1);
  }

  lemma SeekStarted(g: Geometry, v: Image, w: Image, o: ObjId, chain: seq<nat>, chain': seq<nat>, cl: nat,
      text: seq<Byte>, own: set<nat>)
    requires Reads(g, v, chain, |text|, text) && chain <= chain' && StagedIn(g, w, o, chain', 0, cl)
    requires o.objsize == |text|
    requires OthersIntact(g, v, w, own) && Reach(g, w, chain') == own
    ensures SeekIn(g, v, w, o, chain', 0, cl, text, own)
  {
    hide FatOf, FreeOf, Reach, SoundIn, OthersSafe, OthersIntact, Reads, SizedAt, AtCluster, AtEdge, Nth;
    IdxZero(g);
    IntactSafe(g, v, w, own, own);
    ReadsOn(g, v, w, o, chain, chain', |text|, text, own);
  }

  lemma SeekSector(g: Geometry, v: Image, w: Image, o: ObjId, chain: seq<nat>, p: nat, cl: nat, text: seq<Byte>,
      own: set<nat>)
    requires SeekIn(g, v, w, o, chain, p, cl, text, own)
    ensures 0 < ClusterSector(g, cl)
  {
    hide Nth, Off, SoundIn, Addr;
    LaidOut(g, w, o, chain);
    ClusterSectorOk(g, w, chain, p / SS);
  }

  lemma SeekDone(g: Geometry, v: Image, w: Image, o: ObjId, chain: seq<nat>, p: nat, cl: nat, text: seq<Byte>,
      own: set<nat>, left: nat, sect: nat, nsect: nat)
    requires SeekIn(g, v, w, o, chain, p, cl, text, own) && 0 < left <= SS * g.csize
    requires !g.kind.ExFat? ==> p + left < 0x1_0000_0000
    requires left % SS != 0 ==> nsect == ClusterSector(g, cl) + left / SS
    requires (p + left) % SS != 0 ==> sect == nsect
    ensures
      var o' := Extended(o, p + left);
      && InvIn(g, w, o', chain, p + left, cl, sect) && text <= TextIn(g, w, o', chain)
      && o'.objsize == if p + left < |text| then |text| else p + left
    ensures OthersSafe(g, v, w, own) && Reach(g, w, chain) == own
  {
    hide Nth, Off, SoundIn, Addr, OthersSafe, Reach, Here, Sized, SizedAt, Reads, ClusterSector, Spells;
    var o' := Extended(o, p + left);
    WholeCluster(g, p);
    SizedOn(g, o, chain, p, left);
    SoundGrown(g, w, o, chain, p + left);
    SeekHere(g, w, o, chain, p, cl, left, sect);
    ReadsPrefix(g, w, o', chain, text);
  }

  lemma WholeCluster(g: Geometry, p: nat)
    requires p % SS == 0 && Off(g, p / SS) == 0
    ensures Room(g, p) == SS * g.csize
    ensures (p + SS * g.csize) % SS == 0 && Off(g, (p + SS * g.csize) / SS) == 0
  {
    assert (p + SS * g.csize) / SS == p / SS + g.csize;
  }

  lemma SoundRoomy(g: Geometry, w: Image, o: ObjId, chain: seq<nat>)
    requires SoundIn(g, w, o, chain)
    ensures g.Roomy()
  {
  }

  lemma SoundGrown(g: Geometry, w: Image, o: ObjId, chain: seq<nat>, e: nat)
    requires SoundIn(g, w, o, chain) && (!g.kind.ExFat? ==> e < 0x1_0000_0000)
    ensures SoundIn(g, w, Extended(o, e), chain)
  {
    hide FatOf, FreeOf;
  }

  lemma SeekHere(g: Geometry, w: Image, o: ObjId, chain: seq<nat>, p: nat, cl: nat, left: nat, sect: nat)
    requires SoundIn(g, w, o, chain) && AtCluster(g, chain, p, cl) && p % SS == 0 && Off(g, p / SS) == 0
    requires 0 < left <= SS * g.csize
    requires left % SS != 0 ==> sect == ClusterSector(g, cl) + left / SS
    ensures Here(g, chain, p + left, cl, sect)
  {
    hide Nth, Off, SoundIn, Addr, ClusterSector, Room;
    WholeCluster(g, p);
    IdxWithin(g, p, left);
    SectorsIn(p, left);
    if left % SS != 0 {
      IdxWithin(g, p, left + 1);
      LaidOut(g, w, o, chain);
      ClusterSectorOk(g, w, chain, p / SS);
      AddrRun(g, chain, p / SS, left / SS);
    }
  }

  lemma SectorsIn(p: nat, left: nat)
    requires p % SS == 0
    ensures (p + left) % SS == left % SS && (p + left) / SS == p / SS + left / SS
  {
  }

  lemma ReadsPrefix(g: Geometry, w: Image, o: ObjId, chain: seq<nat>, text: seq<Byte>)
    requires SoundIn(g, w, o, chain) && Sized(g, o, chain) && Reads(g, w, chain, |text|, text) && |text| <= o.objsize
    ensures text <= TextIn(g, w, o, chain)
  {
    hide Laid, Idx, ByteAt;
    SizeInChain(g, o, chain);
    ContentPrefix(g, w, chain, |text|, o.objsize);
  }

  /** One cluster on, with the size grown over the cluster passed. */
  lemma SeekNext(g: Geometry, v: Image, w: Image, o: ObjId, chain: seq<nat>, p: nat, cl: nat, text: seq<Byte>,
      own: set<nat>)
    requires SeekIn(g, v, w, o, chain, p, cl, text, own) && (!g.kind.ExFat? ==> p + SS * g.csize < 0x1_0000_0000)
    ensures
      var p', o' := p + SS * g.csize, Extended(o, p + SS * g.csize);
      && SoundIn(g, w, o', chain) && Sized(g, o', chain) && p' % SS == 0 && Off(g, p' / SS) == 0
      && AtCluster(g, chain, p' - 1, cl) && AtEdge(o', chain, cl) && p' <= o'.objsize
      && |text| <= o'.objsize && (o'.objsize <= |text| || o'.objsize <= p')
    ensures g.Roomy() && Reads(g, w, chain, |text|, text) && OthersSafe(g, v, w, own) && Reach(g, w, chain) == own
  {
    hide Nth, Off, SoundIn, OthersSafe, Reach, Sized, SizedAt, Reads, Room, Start;
    WholeCluster(g, p);
    SoundRoomy(g, w, o, chain);
    SizedOn(g, o, chain, p, SS * g.csize);
    SoundGrown(g, w, o, chain, p + SS * g.csize);
    IdxWithin(g, p, SS * g.csize);
  }

  lemma SeekFollowed(g: Geometry, v: Image, w: Image, w': Image, chain: seq<nat>, o': ObjId, chain': seq<nat>, p: nat,
      cl: nat, text: seq<Byte>, own: set<nat>)
    requires Reads(g, w, chain, |text|, text) && OthersSafe(g, v, w, own) && Reach(g, w, chain) == own
    requires Fits(g, w) && Fits(g, w') && OthersIntact(g, w, w', Reach(g, w, chain)) && chain <= chain'
    requires Reach(g, w', chain') == Reach(g, w, chain)
    requires StagedIn(g, w', o', chain', p, cl) && p % SS == 0 && Off(g, p / SS) == 0
    requires |text| <= o'.objsize && p <= o'.objsize && (o'.objsize <= |text| || o'.objsize <= p)
    ensures SeekIn(g, v, w', o', chain', p, cl, text, own)
  {
    hide FatOf, FreeOf, Nth, Off, SoundIn, OthersSafe, OthersIntact, Reach, Reads, SizedAt, AtCluster, AtEdge;
    IntactSafe(g, w, w', Reach(g, w, chain), own);
    SafeTwice(g, v, w, w', own);
    ReadsOn(g, w, w', o', chain, chain', |text|, text, Reach(g, w, chain));
  }

  /** Nothing left to stretch the chain with: the seek ends on the cluster boundary. */
  lemma SeekFull(g: Geometry, v: Image, w: Image, o: ObjId, chain: seq<nat>, p: nat, cl: nat, text: seq<Byte>,
      own: set<nat>, sect: nat)
    requires SoundIn(g, w, o, chain) && Sized(g, o, chain) && p % SS == 0 && 0 < p == o.objsize
    requires AtCluster(g, chain, p - 1, cl) && AtEdge(o, chain, cl) && |text| <= o.objsize
    requires Reads(g, w, chain, |text|, text)
    ensures InvIn(g, w, o, chain, p, cl, sect) && text <= TextIn(g, w, o, chain)
  {
    hide Nth, Off, SoundIn, Reads, TextIn, Addr, ClustersFor;
    ReadsPrefix(g, w, o, chain, text);
  }

  lemma SeekReadNext(g: Geometry, v: Image, w: Image, o: ObjId, chain: seq<nat>, p: nat, cl: nat, text: seq<Byte>,
      own: set<nat>)
    requires SeekIn(g, v, w, o, chain, p, cl, text, own) && o.nFrag == 0 && p + SS * g.csize < o.objsize
    ensures
      var p' := p + SS * g.csize;
      StagedIn(g, w, o, chain, p', LinkValue(g, FatOf(g, w), o, cl))
    ensures o.objsize == |text| && g.IsCluster(LinkValue(g, FatOf(g, w), o, cl))
  {
    hide Nth, Off, OthersSafe, Reach, Reads, Room, LinkValue, FatOf, FreeOf, Spells, Secure, Allocated, ClustersFor;
    WholeCluster(g, p);
    var p' := p + SS * g.csize;
    IdxWithin(g, p, SS * g.csize);
    IdxBoundary(g, p', p');
    SizedNext(g, o, chain, p');
    IdxInChain(g, o, chain, p');
    ChainInRange(g, FatOf(g, w), o, chain);
    LinkFollows(g, FatOf(g, w), o, chain, Idx(g, p));
  }
}
