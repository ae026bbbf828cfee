/**
 The contents of a file as the sectors of its clusters give it: where each byte lives, and how
 the contents change with the volume and with the chain.
 */
module FatContent {
  import opened FatLayout
  import opened FatChains

  // ----- positions and clusters -----

  /** Index, in the chain, of the cluster that holds byte `p` of the file. */
  function Idx(g: Geometry, p: nat): nat
  {
    Nth(g, p / SS)
  }

  lemma IdxMonotone(g: Geometry, p: nat, q: nat)
    requires p <= q
    ensures Idx(g, p) <= Idx(g, q)
  {
    NthMonotone(g, p / SS, q / SS);
  }

  /** A position on a cluster boundary is the first of its cluster. */
  lemma IdxBoundary(g: Geometry, p: nat, q: nat)
    requires p % SS == 0 && Off(g, p / SS) == 0
    ensures Idx(g, p) <= Idx(g, q) <==> p <= q
    ensures p > 0 ==> Idx(g, p - 1) + 1 == Idx(g, p)
  {
    hide Nth, Off;
    if p > 0 {
      assert (p - 1) / SS == p / SS - 1;
      NthBefore(g, p / SS);
    }
    if p <= q {
      IdxMonotone(g, p, q);
    } else {
      IdxMonotone(g, q, p - 1);
    }
  }

  /** Bytes from `p` to the end of its cluster. */
  function Room(g: Geometry, p: nat): int
  {
    (g.csize - Off(g, p / SS)) * SS - p % SS
  }

  /** The rest of the sector of `p` is in its cluster, and so are as many whole sectors as fit. */
  lemma RoomAtLeast(g: Geometry, p: nat, n: nat)
    ensures SS - p % SS <= Room(g, p)
    ensures p % SS == 0 ==> (SS * n <= Room(g, p) <==> n <= g.csize - Off(g, p / SS))
  {
    OffSmall(g, p / SS);
    hide Nth, Off;
  }

  /** Positions up to the end of the cluster of `p` are in that cluster. */
  lemma IdxWithin(g: Geometry, p: nat, n: nat)
    requires 1 <= n <= Room(g, p)
    ensures Idx(g, p + n - 1) == Idx(g, p)
  {
    hide Nth, Off;
    var a, b := p / SS, (p + n - 1) / SS;
    assert a <= b < a + (g.csize - Off(g, a));
    NthWithin(g, a, b - a);
  }

  // ----- sizes -----

  /** The size agrees with the chain once byte `p` is counted in. */
  ghost predicate SizedAt(g: Geometry, o: ObjId, chain: seq<nat>, p: nat)
  {
    Sized(g, o.(objsize := if p < o.objsize then o.objsize else p + 1), chain)
  }

  lemma SizeOfCluster(g: Geometry, size: nat)
    requires size > 0
    ensures ClustersFor(g, size) == Idx(g, size - 1) + 1
  {
  }

  /** Growing the file inside the cluster of byte `p` keeps size and chain in step. */
  lemma SizedOn(g: Geometry, o: ObjId, chain: seq<nat>, p: nat, n: nat)
    requires SizedAt(g, o, chain, p)
    requires 1 <= n <= Room(g, p)
    ensures Sized(g, o.(objsize := if p + n < o.objsize then o.objsize else p + n), chain)
  {
    hide Idx, Room;
    IdxWithin(g, p, n);
    SizeOfCluster(g, p + 1);
    SizeOfCluster(g, p + n);
    if p < o.objsize <= p + n {
      SizeOfCluster(g, o.objsize);
      IdxMonotone(g, p, o.objsize - 1);
      IdxMonotone(g, o.objsize - 1, p + n - 1);
    }
  }

  /** Byte positions of the file lie in its clusters. */
  lemma IdxInChain(g: Geometry, o: ObjId, chain: seq<nat>, i: nat)
    requires Sized(g, o, chain) && i < o.objsize
    ensures Idx(g, i) < |chain|
  {
    hide Idx;
    SizeOfCluster(g, o.objsize);
    IdxMonotone(g, i, o.objsize - 1);
  }

  /** On a cluster boundary inside or at the end of the file, with `i` the cluster before it: either the
      chain goes on there and the file's size already agrees, or it ends and one more cluster makes the
      size agree once the next byte is counted. */
  lemma SizedNext(g: Geometry, o: ObjId, chain: seq<nat>, p: nat)
    requires Sized(g, o, chain) && p <= o.objsize && p % SS == 0 && Off(g, p / SS) == 0
    requires p > 0 || chain != []
    ensures p > 0 ==> Idx(g, p - 1) < |chain| && Idx(g, p) == Idx(g, p - 1) + 1
    ensures Idx(g, p) < |chain| ==> SizedAt(g, o, chain, p)
    ensures Idx(g, p) == |chain| ==> p == o.objsize
  {
    hide Idx;
    SizeOfCluster(g, p + 1);
    if p > 0 {
      IdxBoundary(g, p, p);
      IdxInChain(g, o, chain, p - 1);
    }
    if o.objsize > 0 {
      SizeOfCluster(g, o.objsize);
      IdxBoundary(g, p, o.objsize - 1);
    }
  }

  lemma SizedGrown(g: Geometry, o: ObjId, o': ObjId, chain: seq<nat>, ncl: nat, p: nat)
    requires Sized(g, o, chain) && Idx(g, p) == |chain| && p == o.objsize
    requires o'.objsize == o.objsize && o'.sclust == (if chain == [] then ncl else o.sclust)
    requires o'.stat == 3 ==> chain != [] 
    ensures SizedAt(g, o', chain + [ncl], p)
  {
    hide Idx;
    SizeOfCluster(g, p + 1);
  }

  // ----- sectors of the file -----

  /** Disk address of sector `k` of the file. */
  function Addr(g: Geometry, chain: seq<nat>, k: nat): int
    requires Nth(g, k) < |chain|
  {
    var c: int := chain[Nth(g, k)];
    Start(g, c) + Off(g, k)
  }

  /** Cluster `c` holds part of the bitmap. */
  predicate Reserved(g: Geometry, c: nat)
    requires 2 <= g.nFatent
  {
    && g.kind.ExFat?
    && Start(g, c) < g.bitbase + g.BitSectors()
    && g.bitbase < Start(g, c) + g.csize
  }

  /** The clusters of the bitmap are allocated, and not to this file. */
  ghost predicate Secure(g: Geometry, v: Image, chain: seq<nat>)
    requires Fits(g, v)
  {
    forall c: nat :: g.IsCluster(c) && Reserved(g, c) ==> c !in FreeOf(g, v) && c !in chain
  }

  /** `s` is a sector of the data area outside the bitmap. */
  predicate DataSector(g: Geometry, s: int)
    requires 2 <= g.nFatent
  {
    g.database <= s < g.sectors && !g.InBitmap(s)
  }

  lemma DataSectorPlace(g: Geometry, s: int)
    requires g.Valid() && DataSector(g, s)
    ensures !g.InFat(s) && !g.InMirror(s) && 0 <= s
  {
  }

  lemma AddrIsData(g: Geometry, v: Image, chain: seq<nat>, k: nat)
    requires Fits(g, v) && g.Roomy() && InRange(g, chain) && Secure(g, v, chain) && Nth(g, k) < |chain|
    ensures DataSector(g, Addr(g, chain, k))
  {
    hide FreeOf;
    var c := chain[Nth(g, k)];
    assert c in chain && !Reserved(g, c);
    StartInside(g, c);
    OffSmall(g, k);
    hide Start, Nth, Off;
  }

  /** Different sectors of a file have different addresses. */
  lemma AddrInjective(g: Geometry, chain: seq<nat>, k: nat, m: nat)
    requires InRange(g, chain) && Distinct(chain) && Nth(g, k) < |chain| && Nth(g, m) < |chain|
    requires Addr(g, chain, k) == Addr(g, chain, m)
    ensures k == m
  {
    hide Nth, Off, Start;
    var c, d := chain[Nth(g, k)], chain[Nth(g, m)];
    OffSmall(g, k);
    OffSmall(g, m);
    SameStart(g, c, d, Addr(g, chain, k));
    NthOffInjective(g, k, m);
  }

  /** No sector is in two clusters. */
  lemma SameStart(g: Geometry, c: nat, d: nat, s: int)
    requires 2 <= c && 2 <= d && Start(g, c) <= s < Start(g, c) + g.csize && Start(g, d) <= s < Start(g, d) + g.csize
    ensures c == d
  {
    hide Start;
    if c < d {
      StartApart(g, c, d);
    } else if d < c {
      StartApart(g, d, c);
    }
  }

  /** Within a cluster the sectors of the file follow each other. */
  lemma AddrRun(g: Geometry, chain: seq<nat>, k: nat, i: nat)
    requires Nth(g, k) < |chain| && i < g.csize - Off(g, k)
    ensures Nth(g, k + i) == Nth(g, k) && Addr(g, chain, k + i) == Addr(g, chain, k) + i
  {
    hide Nth, Off, Start;
    NthWithin(g, k, i);
  }

  // ----- bytes of the file -----

  /** What a file's chain and the volume need to fit together. */
  ghost predicate Laid(g: Geometry, v: Image, chain: seq<nat>) {
    Fits(g, v) && g.Roomy() && InRange(g, chain) && Distinct(chain) && Secure(g, v, chain)
  }

  function FileSector(g: Geometry, v: Image, chain: seq<nat>, k: nat): Sector
    requires Nth(g, k) < |chain|
    requires 0 <= Addr(g, chain, k) < |v|
  {
    v[Addr(g, chain, k)]
  }

  ghost function Content(g: Geometry, v: Image, chain: seq<nat>, size: nat): (c: seq<Byte>)
    requires Laid(g, v, chain) && (size > 0 ==> Idx(g, size - 1) < |chain|)
    ensures |c| == size
  {
    seq(size, i requires 0 <= i < size => ByteAt(g, v, chain, size, i))
  }

  ghost function ByteAt(g: Geometry, v: Image, chain: seq<nat>, size: nat, i: nat): Byte
    requires Laid(g, v, chain) && i < size && Idx(g, size - 1) < |chain|
  {
    IdxMonotone(g, i, size - 1);
    AddrIsData(g, v, chain, i / SS);
    FileSector(g, v, chain, i / SS)[i % SS]
  }

  /** Contents depend on the sectors of the clusters only, and more clusters at the end change nothing. */
  lemma ContentSame(g: Geometry, v: Image, w: Image, chain: seq<nat>, chain': seq<nat>, size: nat)
    requires Laid(g, v, chain) && Laid(g, w, chain') && (size > 0 ==> Idx(g, size - 1) < |chain|)
    requires chain <= chain' && SameData(g, v, w)
    ensures size > 0 ==> Idx(g, size - 1) < |chain'|
    ensures Content(g, w, chain', size) == Content(g, v, chain, size)
  {
    hide Secure, Nth, Off, Start;
    forall i: nat | i < size
      ensures ByteAt(g, w, chain', size, i) == ByteAt(g, v, chain, size, i)
    {
      IdxMonotone(g, i, size - 1);
      SectorSame(g, v, w, chain, chain', i / SS);
    }
  }

  lemma SectorSame(g: Geometry, v: Image, w: Image, chain: seq<nat>, chain': seq<nat>, k: nat)
    requires Laid(g, v, chain) && Laid(g, w, chain') && Nth(g, k) < |chain|
    requires chain <= chain' && SameData(g, v, w)
    ensures 0 <= Addr(g, chain, k) < |v| && Addr(g, chain', k) == Addr(g, chain, k)
    ensures w[Addr(g, chain, k)] == v[Addr(g, chain, k)]
  {
    AddrIsData(g, v, chain, k);
  }

  /** A shorter size cuts the contents. */
  lemma ContentPrefix(g: Geometry, v: Image, chain: seq<nat>, size: nat, more: nat)
    requires Laid(g, v, chain) && size <= more && (more > 0 ==> Idx(g, more - 1) < |chain|)
    ensures size > 0 ==> Idx(g, size - 1) < |chain|
    ensures Content(g, v, chain, size) == Content(g, v, chain, more)[..size]
  {
    hide Secure, Idx, Nth, Off, Start;
    if size > 0 { IdxMonotone(g, size - 1, more - 1); }
    forall i: nat | i < size
      ensures ByteAt(g, v, chain, size, i) == ByteAt(g, v, chain, more, i)
    {
    }
  }

  // ----- writing into a file -----

  /** `c` with the bytes from `p` on replaced by `d`, grown if `d` reaches past its end. */
  function Splice(c: seq<Byte>, p: nat, d: seq<Byte>): (r: seq<Byte>)
    requires p <= |c|
    ensures |r| == if p + |d| <= |c| then |c| else p + |d|
  {
    c[..p] + d + (if p + |d| <= |c| then c[p + |d|..] else [])
  }

  lemma SpliceTwice(c: seq<Byte>, p: nat, d: seq<Byte>, e: seq<Byte>)
    requires p <= |c|
    ensures Splice(Splice(c, p, d), p + |d|, e) == Splice(c, p, d + e)
  {
  }

  /** Data sectors outside `lo..lo + n` are the same. */
  ghost predicate SameElse(g: Geometry, v: Image, w: Image, lo: int, n: nat) {
    && Fits(g, v) && Fits(g, w)
    && forall s {:trigger w[s]} :: DataSector(g, s) && !(lo <= s < lo + n) ==> w[s] == v[s]
  }

  /** The file's bytes were overwritten from `p` on with `d`. */
  ghost predicate Overwritten(g: Geometry, v: Image, w: Image, chain: seq<nat>, size: nat, p: nat, d: seq<Byte>)
    requires Laid(g, v, chain) && Laid(g, w, chain)
  {
    forall i: nat :: i < (if p + |d| <= size then size else p + |d|) && Nth(g, i / SS) < |chain| ==>
      Patched(g, v, w, chain, p, d, i)
  }

  ghost predicate Patched(g: Geometry, v: Image, w: Image, chain: seq<nat>, p: nat, d: seq<Byte>, i: nat)
    requires Laid(g, v, chain) && Laid(g, w, chain) && Nth(g, i / SS) < |chain|
  {
    AddrIsData(g, v, chain, i / SS);
    w[Addr(g, chain, i / SS)][i % SS] == if p <= i < p + |d| then d[i - p] else v[Addr(g, chain, i / SS)][i % SS]
  }

  lemma OverwrittenContent(g: Geometry, v: Image, w: Image, chain: seq<nat>, size: nat, p: nat, d: seq<Byte>)
    requires Laid(g, v, chain) && Laid(g, w, chain) && p <= size && |d| > 0
    requires (size > 0 ==> Idx(g, size - 1) < |chain|) && Idx(g, p + |d| - 1) < |chain|
    requires Overwritten(g, v, w, chain, size, p, d)
    ensures
      var size' := if p + |d| <= size then size else p + |d|;
      Idx(g, size' - 1) < |chain| && Content(g, w, chain, size') == Splice(Content(g, v, chain, size), p, d)
  {
    hide Secure, Nth, Off, Start;
    var size' := if p + |d| <= size then size else p + |d|;
    var c := Content(g, v, chain, size);
    forall i: nat | i < size'
      ensures ByteAt(g, w, chain, size', i) == Splice(c, p, d)[i]
    {
      IdxMonotone(g, i, size' - 1);
      assert Patched(g, v, w, chain, p, d, i);
    }
  }

  /** Part of one sector was replaced. Where the sector held none of the file yet, the rest of it may be
      anything. */
  lemma PartialWrite(g: Geometry, v: Image, w: Image, chain: seq<nat>, size: nat, p: nat, d: seq<Byte>)
    requires Laid(g, v, chain) && Laid(g, w, chain) && p <= size && p % SS + |d| <= SS && Nth(g, p / SS) < |chain|
    requires SameElse(g, v, w, Addr(g, chain, p / SS), 1)
    requires 0 <= Addr(g, chain, p / SS) < |v|
    requires forall o :: 0 <= o < SS && (p % SS <= o < p % SS + |d| || p % SS != 0 || p < size) ==>
               w[Addr(g, chain, p / SS)][o] == if p % SS <= o < p % SS + |d| then d[o - p % SS]
                   else v[Addr(g, chain, p / SS)][o]
    ensures Overwritten(g, v, w, chain, size, p, d)
  {
    hide Secure, Addr, Nth, Off, Start;
    var k := p / SS;
    forall i: nat | i < (if p + |d| <= size then size else p + |d|) && Nth(g, i / SS) < |chain|
      ensures Patched(g, v, w, chain, p, d, i)
    {
      AddrIsData(g, v, chain, i / SS);
      if i / SS == k {
        assert i == SS * k + i % SS && p == SS * k + p % SS;
      } else {
        if Addr(g, chain, i / SS) == Addr(g, chain, k) {
          AddrInjective(g, chain, i / SS, k);
        }
      }
    }
  }

  /** Whole sectors of one cluster were replaced by `rows`. */
  lemma DirectWrite(g: Geometry, v: Image, w: Image, chain: seq<nat>, size: nat, p: nat, rows: seq<Sector>,
      d: seq<Byte>)
    requires Laid(g, v, chain) && Laid(g, w, chain) && p <= size && p % SS == 0 && Nth(g, p / SS) < |chain|
    requires |rows| <= g.csize - Off(g, p / SS) && Rows(rows, d)
    requires SameElse(g, v, w, Addr(g, chain, p / SS), |rows|)
    requires 0 <= Addr(g, chain, p / SS) && Addr(g, chain, p / SS) + |rows| <= |w|
    requires forall j :: 0 <= j < |rows| ==> w[Addr(g, chain, p / SS) + j] == rows[j]
    ensures Overwritten(g, v, w, chain, size, p, d)
  {
    hide Secure, Addr, Nth, Off, Start;
    var k := p / SS;
    forall i: nat | i < (if p + |d| <= size then size else p + |d|) && Nth(g, i / SS) < |chain|
      ensures Patched(g, v, w, chain, p, d, i)
    {
      AddrIsData(g, v, chain, i / SS);
      var m := i / SS;
      assert i == SS * m + i % SS && p == SS * k;
      if k <= m < k + |rows| {
        AddrRun(g, chain, k, m - k);
        assert rows[m - k][i % SS] == d[SS * (m - k) + i % SS];
      } else {
        var a := Addr(g, chain, m) - Addr(g, chain, k);
        if 0 <= a < |rows| {
          AddrRun(g, chain, k, a);
          AddrInjective(g, chain, m, k + a);
        }
      }
    }
  }

  /** `rows` is `d` cut into sectors. */
  ghost predicate Rows(rows: seq<Sector>, d: seq<Byte>) {
    && |d| == SS * |rows|
    && forall j, o :: 0 <= j < |rows| && 0 <= o < SS ==> rows[j][o] == d[SS * j + o]
  }
}
