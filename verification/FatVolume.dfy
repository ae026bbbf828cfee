/**
 The mounted volume: the disk, the one-sector window that caches it, and the accesses to
 table entries and bitmap bits made through that window. Every disk operation may fail; a
 failed write leaves anything in the sectors it was aimed at.
 */
module FatVolume {
  import opened FatLayout

  datatype FResult = Ok | DiskErr | IntErr | Denied

  const INVALID_SECTOR: nat := 0xFFFF_FFFF_FFFF_FFFF
  const UNKNOWN: nat := 0xFFFF_FFFF
  const INTERNAL: nat := 1

  lemma ViewPoke(g: Geometry, disk: Image, win: Sector, winsect: nat, win': Sector)
    requires winsect < |disk| && !g.InMirror(winsect)
    ensures ViewOf(g, disk, win', winsect) == ViewOf(g, disk, win, winsect)[winsect := win']
  {
  }

  /** A sector with `d` copied to offset `o`. */
  function Patched(win: Sector, o: nat, d: seq<Byte>): (r: Sector)
    requires o + |d| <= SS
    ensures forall i :: 0 <= i < SS ==> r[i] == if o <= i < o + |d| then d[i - o] else win[i]
  {
    win[..o] + d + win[o + |d|..]
  }

  /** Showing another sector instead of what a clean window showed changes that sector of the view only. */
  lemma ViewMoved(g: Geometry, disk: Image, win: Sector, winsect: nat, win': Sector, sect: nat)
    requires sect < |disk| && !g.InMirror(sect) && (winsect == sect || (winsect < |disk| ==> win == disk[winsect]))
    ensures |ViewOf(g, disk, win', sect)| == |ViewOf(g, disk, win, winsect)| == |disk|
    ensures ViewOf(g, disk, win', sect)[sect] == win'
    ensures forall s :: 0 <= s < |disk| && s != sect ==>
              ViewOf(g, disk, win', sect)[s] == ViewOf(g, disk, win, winsect)[s]
  {
  }

  /** The free count after one cluster was given back; an unknown count stays unknown. */
  function Counted(g: Geometry, free: nat): nat
    requires 2 <= g.nFatent
  {
    if free < g.nFatent - 2 then free + 1 else free
  }

  /** Two views that differ in the table only. */
  ghost predicate SameOutsideFat(g: Geometry, v: Image, w: Image) {
    |v| == |w| && forall s :: 0 <= s < |v| && !g.InFat(s) ==> v[s] == w[s]
  }

  /** Two views that differ in the bitmap only. */
  ghost predicate SameOutsideBitmap(g: Geometry, v: Image, w: Image)
    requires 2 <= g.nFatent
  {
    |v| == |w| && forall s :: 0 <= s < |v| && !g.InBitmap(s) ==> v[s] == w[s]
  }

  ghost predicate IsBusy(g: Geometry, v: Image, k: int)
    requires Fits(g, v) && g.kind.ExFat?
  {
    0 <= k < g.nFatent - 2 && MapBit(g, v, k)
  }

  /** The bitmap says that cluster `c` is in use: the binary digit that stands for it is 1. */
  ghost predicate InUse(g: Geometry, v: Image, c: nat)
    requires Fits(g, v) && g.kind.ExFat? && g.IsCluster(c)
  {
    BitSector(g, c - 2);
    v[g.bitbase + (c - 2) / 4096][(c - 2) / 8 % SS] / Pow2((c - 2) % 8) % 2 == 1
  }

  lemma BusyIsInUse(g: Geometry, v: Image)
    requires Fits(g, v) && g.kind.ExFat?
    ensures forall c: nat {:trigger InUse(g, v, c)} :: g.IsCluster(c) ==> (InUse(g, v, c) <==> IsBusy(g, v, c - 2))
    ensures forall k {:trigger IsBusy(g, v, k)} :: 0 <= k < g.nFatent - 2 ==> (IsBusy(g, v, k) <==> InUse(g, v, k + 2))
  {
    hide MapBit, InUse;
    forall c: nat | g.IsCluster(c)
      ensures InUse(g, v, c) <==> IsBusy(g, v, c - 2)
    {
      InUseIs(g, v, c);
    }
  }

  lemma InUseIs(g: Geometry, v: Image, c: nat)
    requires Fits(g, v) && g.kind.ExFat? && g.IsCluster(c)
    ensures InUse(g, v, c) <==> MapBit(g, v, c - 2)
  {
    hide MapBit;
    MapBitIs(g, v, c - 2);
  }

  /** An instance: with 0x01 as its first byte the bitmap has cluster 2 in use, and 3 to 9 not. */
  lemma FirstByteOne(g: Geometry, v: Image, c: nat)
    requires Fits(g, v) && g.kind.ExFat? && g.IsCluster(c) && v[g.bitbase][0] == 0x01 && c <= 9
    ensures InUse(g, v, c) <==> c == 2
  {
    hide InUse;
    FirstByte(g, v, c);
    if c > 2 { OneBelow(c - 2); }
  }

  lemma FirstByte(g: Geometry, v: Image, c: nat)
    requires Fits(g, v) && g.kind.ExFat? && g.IsCluster(c) && c <= 9
    ensures InUse(g, v, c) <==> v[g.bitbase][0] / Pow2(c - 2) % 2 == 1
  {
    hide Pow2;
    var k := c - 2;
    assert k / 4096 == 0 && k / 8 % SS == 0 && k % 8 == k;
  }

  lemma OneBelow(j: nat)
    requires 0 < j
    ensures 1 / Pow2(j) == 0
  {
    assert Pow2(j) == 2 * Pow2(j - 1);
    Remainder(1, Pow2(j), 0, 1);
  }

  /** The place of a cluster on the cyclic way through all of them that begins at `from`. */
  function Turn(g: Geometry, from: nat, c: nat): (t: nat)
    requires g.IsCluster(from) && g.IsCluster(c)
    ensures t < g.nFatent - 2
  {
    if from <= c then c - from else c - from + (g.nFatent - 2)
  }

  /** Every bit on the cyclic way from `from` to `val` is set. */
  ghost predicate Scanned(g: Geometry, v: Image, from: nat, val: nat, wrapped: bool)
    requires Fits(g, v) && g.kind.ExFat?
  {
    if wrapped
    then val < from < g.nFatent - 2 && forall k :: (from <= k < g.nFatent - 2 || 0 <= k < val) ==> IsBusy(g, v, k)
    else from <= val < g.nFatent - 2 && forall k :: from <= k < val ==> IsBusy(g, v, k)
  }

  /** `w` is `v` with the bits `lo..hi` set to `bv`. */
  ghost predicate Painted(g: Geometry, v: Image, w: Image, lo: nat, hi: nat, bv: bool)
    requires Fits(g, v) && Fits(g, w) && g.kind.ExFat?
  {
    forall k {:trigger IsBusy(g, w, k)} :: 0 <= k < g.nFatent - 2 ==>
      IsBusy(g, w, k) == if lo <= k < hi then bv else IsBusy(g, v, k)
  }

  lemma NothingPainted(g: Geometry, v: Image, lo: nat, bv: bool)
    requires Fits(g, v) && g.kind.ExFat?
    ensures Painted(g, v, v, lo, lo, bv) && SameOutsideBitmap(g, v, v)
  {
  }

  lemma PaintedElse(g: Geometry, v: Image, w: Image, lo: nat, hi: nat, bv: bool)
    requires Fits(g, v) && Fits(g, w) && g.kind.ExFat? && Painted(g, v, w, lo, hi, bv)
    ensures forall k {:trigger IsBusy(g, w, k)} :: !(lo <= k < hi) ==> IsBusy(g, w, k) == IsBusy(g, v, k)
  {
  }

  lemma PaintMore(g: Geometry, u: Image, v: Image, w: Image, lo: nat, k: nat, bv: bool)
    requires Fits(g, u) && Fits(g, v) && Fits(g, w) && g.kind.ExFat? && lo <= k
    requires Painted(g, u, v, lo, k, bv) && Painted(g, v, w, k, k + 1, bv)
    requires SameOutsideBitmap(g, u, v) && SameOutsideBitmap(g, v, w)
    ensures Painted(g, u, w, lo, k + 1, bv) && SameOutsideBitmap(g, u, w)
  {
    hide IsBusy;
    forall j | 0 <= j < g.nFatent - 2
      ensures IsBusy(g, w, j) == if lo <= j < k + 1 then bv else IsBusy(g, u, j)
    {
      assert IsBusy(g, v, j) == if lo <= j < k then bv else IsBusy(g, u, j);
    }
  }

  /** One more set bit: the scan goes on, or it has come round to its start and all bits are set. */
  lemma ScanStep(g: Geometry, v: Image, from: nat, val: nat, wrapped: bool)
    requires Fits(g, v) && g.kind.ExFat? && Scanned(g, v, from, val, wrapped) && IsBusy(g, v, val)
    ensures
      var wraps := g.nFatent - 2 <= val + 1;
      var next := if wraps then 0 else val + 1;
      if next == from then forall k :: 0 <= k < g.nFatent - 2 ==> IsBusy(g, v, k)
      else Scanned(g, v, from, next, wrapped || wraps)
  {
  }

  /** What painting a block means for clusters. */
  lemma Repainted(g: Geometry, v: Image, w: Image, clst: nat, ncl: nat, bv: bool, res: FResult)
    requires Fits(g, v) && Fits(g, w) && g.kind.ExFat? && 2 <= clst && clst + ncl <= g.nFatent
    requires res.Ok? ==> Painted(g, v, w, clst - 2, clst - 2 + ncl, bv)
    requires res.Ok? ==> forall k :: clst - 2 <= k < clst - 2 + ncl ==> IsBusy(g, v, k) != bv
    requires forall k {:trigger IsBusy(g, w, k)} :: !(clst - 2 <= k < clst - 2 + ncl) ==>
               IsBusy(g, w, k) == IsBusy(g, v, k)
    requires res.IntErr? ==> exists k :: clst - 2 <= k < clst - 2 + ncl && IsBusy(g, v, k) == bv
    ensures res.Ok? ==> forall c: nat :: clst <= c < clst + ncl ==> InUse(g, v, c) == !bv && InUse(g, w, c) == bv
    ensures forall c: nat {:trigger InUse(g, w, c)} :: g.IsCluster(c) && !(clst <= c < clst + ncl) ==>
              InUse(g, w, c) == InUse(g, v, c)
    ensures res.IntErr? ==> exists c: nat :: clst <= c < clst + ncl && InUse(g, v, c) == bv
  {
    hide IsBusy, InUse;
    BusyIsInUse(g, v);
    BusyIsInUse(g, w);
    if res.IntErr? {
      var k: int :| clst - 2 <= k < clst - 2 + ncl && IsBusy(g, v, k) == bv;
      assert InUse(g, v, k + 2) == bv;
    }
  }

  /** What the scan has found, in terms of clusters. */
  lemma Found(g: Geometry, v: Image, from: nat, r: nat)
    requires Fits(g, v) && g.kind.ExFat? && (r == 0 || g.IsCluster(r))
    requires r == 0 ==> forall k :: 0 <= k < g.nFatent - 2 ==> IsBusy(g, v, k)
    requires r != 0 ==> !IsBusy(g, v, r - 2) && (Scanned(g, v, from, r - 2, false) || Scanned(g, v, from, r - 2, true))
    requires from < g.nFatent - 2
    ensures r == 0 ==> forall c: nat :: g.IsCluster(c) ==> InUse(g, v, c)
    ensures r != 0 ==>
              && v[g.bitbase + (r - 2) / 4096][(r - 2) / 8 % SS] / Pow2((r - 2) % 8) % 2 == 0
              && forall c: nat :: g.IsCluster(c) && Turn(g, from + 2, c) < Turn(g, from + 2, r) ==> InUse(g, v, c)
  {
    hide IsBusy;
    BusyIsInUse(g, v);
    if r != 0 {
      BitValue(g, v, r);
      hide InUse;
      forall c: nat | g.IsCluster(c) && Turn(g, from + 2, c) < Turn(g, from + 2, r)
        ensures InUse(g, v, c)
      {
        assert IsBusy(g, v, c - 2);
      }
    }
  }

  lemma BitValue(g: Geometry, v: Image, c: nat)
    requires Fits(g, v) && g.kind.ExFat? && g.IsCluster(c)
    ensures g.bitbase + (c - 2) / 4096 < |v|
    ensures !InUse(g, v, c) <==> v[g.bitbase + (c - 2) / 4096][(c - 2) / 8 % SS] / Pow2((c - 2) % 8) % 2 == 0
  {
    BitSector(g, c - 2);
  }

  /** Stepping to the next bit, as byte and bit position in a bitmap sector. */
  lemma BitStep(val: nat)
    ensures val % 8 < 7 ==> (val + 1) % 8 == val % 8 + 1 && (val + 1) / 8 == val / 8 && (val + 1) / 4096 == val / 4096
    ensures val % 8 == 7 ==> (val + 1) % 8 == 0 && (val + 1) / 8 == val / 8 + 1
    ensures val % 8 == 7 && val / 8 % SS + 1 < SS ==>
              (val + 1) / 8 % SS == val / 8 % SS + 1 && (val + 1) / 4096 == val / 4096
  {
    assert val / 4096 == val / 8 / SS && (val + 1) / 4096 == (val + 1) / 8 / SS;
  }

  /** The bytes of an aligned word share a sector. */
  lemma Aligned(k: nat)
    ensures k % 2 == 0 ==> (k + 1) / SS == k / SS
    ensures k % 4 == 0 ==> (k + 1) / SS == (k + 2) / SS == (k + 3) / SS == k / SS
  {
  }

  lemma BitSector(g: Geometry, k: nat)
    requires g.Valid() && g.kind.ExFat? && k < g.nFatent - 2
    ensures g.bitbase + k / 4096 < g.sectors && g.InBitmap(g.bitbase + k / 4096) && !g.InMirror(g.bitbase + k / 4096)
  {
  }

  class Volume {
    const g: Geometry
    var disk: Image
    var win: Sector
    var winsect: nat
    var wflag: bool
    var lastClst: nat
    var freeClst: nat
    var fsiFlag: bool
    ghost const twins: bool    // both table copies were equal when the volume was mounted
    ghost var failures: nat    // disk writes that failed so far
    ghost var faults: nat      // disk accesses that failed so far

    ghost predicate Valid()
      reads this
    {
      && g.Valid() && |disk| == g.sectors
      && !g.InMirror(winsect)
      && (wflag ==> winsect < |disk|)
      && (!wflag && winsect < |disk| ==> win == disk[winsect])
      && (twins && failures == 0 ==> CopiesEqual(g, disk))
    }

    static ghost predicate CopiesEqual(g: Geometry, disk: Image)
      requires g.Valid() && |disk| == g.sectors
    {
      g.nFats == 2 ==> forall s {:trigger disk[s]} :: g.InFat(s) ==> disk[s + g.fsize] == disk[s]
    }

    ghost function View(): (v: Image)
      requires Valid()
      reads this
      ensures Fits(g, v)
    {
      ViewOf(g, disk, win, winsect)
    }

    ghost function Fat(): (fat: seq<nat>)
      requires Valid()
      reads this
      ensures |fat| == g.nFatent
    {
      FatOf(g, View())
    }

    ghost function Free(): set<nat>
      requires Valid()
      reads this
    {
      FreeOf(g, View())
    }

    /** A freshly mounted volume: the window holds the sector the mount read last. */
    constructor (g: Geometry, disk: Image, lastClst: nat, freeClst: nat)
      requires g.Valid() && |disk| == g.sectors
      ensures Valid() && this.g == g && this.disk == disk && !wflag && failures == 0
      ensures twins == CopiesEqual(g, disk)
      ensures this.lastClst == lastClst && this.freeClst == freeClst
    {
      this.g := g;
      this.disk := disk;
      this.win := disk[0];
      this.winsect := 0;
      this.wflag := false;
      this.lastClst := lastClst;
      this.freeClst := freeClst;
      this.fsiFlag := false;
      this.twins := CopiesEqual(g, disk);
      this.failures := 0;
      this.faults := 0;
    }

    method DiskRead(sect: nat, count: nat) returns (ok: bool, data: Image)
      requires sect + count <= |disk|
      modifies this`faults
      ensures faults == if ok then old(faults) else old(faults) + 1
      ensures |data| == count
      ensures ok ==> data == disk[sect..sect + count]
    {
      ok := *;
      if ok {
        data := disk[sect..sect + count];
      } else {
        data := *;
        if |data| != count { data := seq(count, _ => BLANK); }
        faults := faults + 1;
      }
    }

    method DiskWrite(sect: nat, data: Image) returns (ok: bool)
      requires sect + |data| <= |disk|
      modifies this`disk, this`failures, this`faults
      ensures faults == if ok then old(faults) else old(faults) + 1
      ensures |disk| == old(|disk|)
      ensures forall s :: 0 <= s < |disk| && !(sect <= s < sect + |data|) ==> disk[s] == old(disk[s])
      ensures ok ==> forall s :: sect <= s < sect + |data| ==> disk[s] == data[s - sect]
      ensures ok ==> failures == old(failures)
      ensures !ok ==> failures == old(failures) + 1
    {
      ok := *;
      var after: Image := data;
      if !ok {
        assert exists junk: Image :: |junk| == |data| by { assert |data| == |data|; }
        after :| |after| == |data|;
        failures, faults := failures + 1, faults + 1;
      }
      disk := disk[..sect] + after + disk[sect + |data|..];
    }

    method SyncWindow() returns (res: FResult)
      requires Valid()
      modifies this`disk, this`wflag, this`failures, this`faults
      ensures faults >= old(faults) && (res.DiskErr? ==> faults > old(faults))
      ensures Valid() && View() == old(View())
      ensures res.Ok? || res.DiskErr?
      ensures res.Ok? ==> !wflag
      ensures !old(wflag) ==> res.Ok? && disk == old(disk)
      ensures res.DiskErr? ==> wflag && old(wflag)
    {
      res := Ok;
      if wflag {
        var ok := DiskWrite(winsect, [win]);
        if ok {
          assert disk[winsect] == win;
          wflag := false;
          if g.InFat(winsect) && g.nFats == 2 {
            var _ := DiskWrite(winsect + g.fsize, [win]);
            assert failures == old(failures) ==> disk[winsect + g.fsize] == win;
          }
        } else {
          res := DiskErr;
        }
      }
    }

    method MoveWindow(sect: nat) returns (res: FResult)
      requires Valid() && sect < |disk| && !g.InMirror(sect)
      modifies this`disk, this`win, this`winsect, this`wflag, this`failures, this`faults
      ensures faults >= old(faults) && (res.DiskErr? ==> faults > old(faults))
      ensures Valid() && View() == old(View())
      ensures res.Ok? || res.DiskErr?
      ensures res.Ok? ==> winsect == sect
      ensures if sect == old(winsect) then res.Ok? && wflag == old(wflag) && disk == old(disk) else res.Ok? ==> !wflag
    {
      res := Ok;
      if sect != winsect {
        res := SyncWindow();
        if res.Ok? {
          var ok, data := DiskRead(sect, 1);
          win := data[0];
          winsect := sect;
          if !ok {
            res := DiskErr;
            winsect := INVALID_SECTOR;
          }
        }
      }
    }

    lemma Bounded()
      requires Valid()
      ensures g.nFatent < UNKNOWN
    {
    }

    lemma WindowIsView()
      requires Valid() && winsect < |disk|
      ensures View()[winsect] == win
    {
    }

    /** With a clean window the disk itself is the view, the second table copy apart. */
    lemma CleanDisk()
      requires Valid() && !wflag
      ensures Fits(g, disk)
      ensures forall s {:trigger View()[s]} :: 0 <= s < |disk| && !g.InMirror(s) ==> View()[s] == disk[s]
    {
    }

    /** Reads sectors past the window: where the window is dirty it holds the newer data. */
    method ReadThrough(sect: nat, count: nat) returns (ok: bool, data: Image)
      requires Valid() && sect + count <= |disk| && forall s :: sect <= s < sect + count ==> !g.InMirror(s)
      modifies this`faults
      ensures faults == if ok then old(faults) else old(faults) + 1
      ensures Valid() && View() == old(View())
      ensures ok ==> |data| == count && forall j :: 0 <= j < count ==> data[j] == View()[sect + j]
    {
      ok, data := DiskRead(sect, count);
      if ok && wflag && sect <= winsect < sect + count {
        data := data[winsect - sect := win];
      }
    }

    /** Writes data sectors past the window, which is refilled if it shows one of them. */
    method WriteThrough(sect: nat, rows: Image) returns (ok: bool)
      requires Valid() && sect + |rows| <= |disk|
      requires forall s :: sect <= s < sect + |rows| ==> !g.InMirror(s) && !g.InFat(s)
      modifies this`disk, this`win, this`wflag, this`failures, this`faults
      ensures faults >= old(faults) && (!ok ==> faults > old(faults))
      ensures ok ==> Valid() && (sect <= winsect < sect + |rows| ==> !wflag)
      ensures ok ==>
                forall s :: 0 <= s < g.sectors ==>
                  View()[s] == if sect <= s < sect + |rows| then rows[s - sect] else old(View())[s]
      ensures |disk| == g.sectors && Fits(g, ViewOf(g, disk, win, winsect))
      ensures forall s :: 0 <= s < g.sectors && !(sect <= s < sect + |rows|) ==>
                ViewOf(g, disk, win, winsect)[s] == old(View())[s]
    {
      ok := DiskWrite(sect, rows);
      if ok && sect <= winsect < sect + |rows| {
        win := rows[winsect - sect];
        wflag := false;
      }
    }

    /** Copies `d` into a data sector at offset `o`, through the window. A `blank` sector holds nothing of
        value yet and is not read first; what the window showed before is flushed. */
    method PatchSector(sect: nat, o: nat, d: seq<Byte>, blank: bool) returns (res: FResult)
      requires Valid() && sect < |disk| && !g.InMirror(sect) && o + |d| <= SS
      modifies this`disk, this`win, this`winsect, this`wflag, this`failures, this`faults
      ensures faults >= old(faults) && (res.DiskErr? ==> faults > old(faults))
      ensures Valid() && (res.Ok? || res.DiskErr?)
      ensures forall s :: 0 <= s < g.sectors && s != sect ==> View()[s] == old(View())[s]
      ensures !res.Ok? ==> View() == old(View())
      ensures blank && !old(wflag) ==> res.Ok? && disk == old(disk)
      ensures res.Ok? ==> forall i :: 0 <= i < SS && (o <= i < o + |d| || !blank) ==>
                View()[sect][i] == if o <= i < o + |d| then d[i - o] else old(View())[sect][i]
    {
      hide ViewOf, CopiesEqual;
      if blank {
        res := SyncWindow();
        if !res.Ok? { return; }
        ViewMoved(g, disk, win, winsect, Patched(win, o, d), sect);
        winsect := sect;
      } else {
        res := MoveWindow(sect);
        if !res.Ok? { return; }
        ViewMoved(g, disk, win, winsect, Patched(win, o, d), sect);
        WindowIsView();
      }
      win := Patched(win, o, d);
      wflag := true;
    }

    /** Byte `k` of the table lies in sector `fatbase + k / SS`. */
    lemma TableSector(k: nat)
      requires g.Valid() && |disk| == g.sectors && k < g.fsize * SS
      ensures g.fatbase + k / SS < |disk| && g.InFat(g.fatbase + k / SS) && !g.InMirror(g.fatbase + k / SS)
    {
    }

    ghost function Table(): (t: seq<Byte>)
      requires Valid()
      reads this
      ensures |t| == g.fsize * SS
    {
      TableOf(g, View())
    }

    /** A byte of the table, from the window that shows its sector. */
    function PeekTable(k: nat): (b: Byte)
      requires Valid() && k < g.fsize * SS && winsect == g.fatbase + k / SS
      reads this
      ensures b == Table()[k]
    {
      TableSector(k);
      win[k % SS]
    }

    function PeekWord(k: nat): (w: nat)
      requires Valid() && k % 4 == 0 && k + 4 <= g.fsize * SS && winsect == g.fatbase + k / SS
      reads this
      ensures w == WordAt(Table(), k)
    {
      Aligned(k);
      Word32(PeekTable(k), PeekTable(k + 1), PeekTable(k + 2), PeekTable(k + 3))
    }

    /** Writes one byte of the table into the window that shows its sector. */
    method PokeTable(k: nat, b: Byte)
      requires Valid() && k < g.fsize * SS && winsect == g.fatbase + k / SS
      modifies this`win, this`wflag
      ensures Valid() && Table() == old(Table())[k := b]
      ensures SameOutsideFat(g, old(View()), View())
    {
      TableSector(k);
      ghost var v := View();
      ViewPoke(g, disk, win, winsect, win[k % SS := b]);
      win := win[k % SS := b];
      wflag := true;
      assert View() == WithFatByte(g, v, k, b);
    }

    method PokeWord(k: nat, word: nat)
      requires Valid() && k % 4 == 0 && k + 4 <= g.fsize * SS && winsect == g.fatbase + k / SS
      modifies this`win, this`wflag
      ensures Valid()
      ensures Table() == old(Table())[k := Digit(word, 0)][k + 1 := Digit(word, 1)][k + 2 := Digit(word, 2)][k + 3 :=
                  Digit(word, 3)]
      ensures SameOutsideFat(g, old(View()), View())
    {
      hide ViewOf;
      Aligned(k);
      PokeTable(k, Digit(word, 0));
      PokeTable(k + 1, Digit(word, 1));
      PokeTable(k + 2, Digit(word, 2));
      PokeTable(k + 3, Digit(word, 3));
    }

    /** Reads a table entry; 0xFFFFFFFF reports a disk error, which no entry can hold: it comes from an access
        that failed. */
    method LoadEntry(clst: nat) returns (val: nat)
      requires Valid() && clst < g.nFatent
      modifies this`disk, this`win, this`winsect, this`wflag, this`failures, this`faults
      ensures faults >= old(faults) && (val == UNKNOWN ==> faults > old(faults))
      ensures Valid() && View() == old(View())
      ensures val == UNKNOWN || val == Fat()[clst]
    {
      hide ViewOf;
      if g.kind.Fat12? {
        val := LoadEntry12(clst);
        return;
      }
      var k := ByteOffset(g.kind, clst);
      EntryHolds(g, Table(), clst);
      TableSector(k);
      var res := MoveWindow(g.fatbase + k / SS);
      if !res.Ok? { return UNKNOWN; }
      ghost var t := Table();
      if g.kind.Fat16? {
        Aligned(k);
        var lo: int, hi: int := PeekTable(k), PeekTable(k + 1);
        val := lo + 0x100 * hi;
      } else {
        val := Stored(g.kind, PeekWord(k));
      }
      assert val == Decode(g.kind, t, clst);
    }

    method LoadEntry12(clst: nat) returns (val: nat)
      requires Valid() && g.kind.Fat12? && clst < g.nFatent
      modifies this`disk, this`win, this`winsect, this`wflag, this`failures, this`faults
      ensures faults >= old(faults) && (val == UNKNOWN ==> faults > old(faults))
      ensures Valid() && View() == old(View())
      ensures val == UNKNOWN || val == Fat()[clst]
    {
      hide ViewOf;
      var k := clst + clst / 2;
      ghost var t := Table();
      EntryHolds(g, t, clst);
      TableSector(k);
      var res := MoveWindow(g.fatbase + k / SS);
      if !res.Ok? { return UNKNOWN; }
      var lo := PeekTable(k);
      TableSector(k + 1);
      res := MoveWindow(g.fatbase + (k + 1) / SS);
      if !res.Ok? { return UNKNOWN; }
      val := Read12(clst, lo, PeekTable(k + 1));
      assert val == Decode(g.kind, t, clst);
    }

    static lemma EncodeAsWord(kind: Kind, t: seq<Byte>, c: nat, val: nat, word: nat)
      requires (kind.Fat32? || kind.ExFat?) && Holds(kind, t, c)
      requires word == NewWord(kind, val, WordAt(t, 4 * c))
      ensures Encode(kind, t, c, val)
           == t[4 * c := Digit(word, 0)][4 * c + 1 := Digit(word, 1)][4 * c + 2 := Digit(word, 2)][4 * c + 3 :=
               Digit(word, 3)]
    {
    }

    /** Stores a value in entry `clst`: that entry reads back as the value cut to the entry's width and
        no other entry changes, on success; on failure at most that entry is disturbed. */
    method PutFat(clst: nat, val: nat) returns (res: FResult)
      requires Valid() && val < 0x1_0000_0000
      modifies this`disk, this`win, this`winsect, this`wflag, this`failures, this`faults
      ensures faults >= old(faults) && (res.DiskErr? ==> faults > old(faults))
      ensures Valid() && TableOnly(g, old(View()), View(), {clst})
      ensures res.IntErr? <==> !g.IsCluster(clst)
      ensures !res.Denied?
      ensures res.Ok? ==> Fat() == old(Fat())[clst := Stored(g.kind, val)]
      ensures !res.Ok? && !g.kind.Fat12? ==> View() == old(View())
    {
      hide ViewOf, FatOf, Stored;
      if !(2 <= clst < g.nFatent) { return IntErr; }
      if g.kind.Fat12? {
        res := PutFat12(clst, val);
      } else if g.kind.Fat16? {
        res := PutFat16(clst, val);
      } else {
        res := PutFat32(clst, val);
      }
    }

    /** The two bytes of a FAT12 entry may lie in different sectors. */
    method PutFat12(clst: nat, val: nat) returns (res: FResult)
      requires Valid() && g.kind.Fat12? && g.IsCluster(clst)
      modifies this`disk, this`win, this`winsect, this`wflag, this`failures, this`faults
      ensures faults >= old(faults) && (res.DiskErr? ==> faults > old(faults))
      ensures Valid() && TableOnly(g, old(View()), View(), {clst})
      ensures res.Ok? || res.DiskErr?
      ensures res.Ok? ==> Fat() == old(Fat())[clst := Stored(g.kind, val)]
    {
      hide ViewOf, FatOf, TableOf, Low12, High12, Stored;
      var k := clst + clst / 2;
      ghost var v := View();
      ghost var t := Table();
      EntryHolds(g, t, clst);
      TableSector(k);
      res := MoveWindow(g.fatbase + k / SS);
      if !res.Ok? { return; }
      PokeTable(k, Low12(clst, val, PeekTable(k)));
      HalfStored(g, v, View(), clst, val);
      TableSector(k + 1);
      res := MoveWindow(g.fatbase + (k + 1) / SS);
      if !res.Ok? { return; }
      PokeTable(k + 1, High12(clst, val, PeekTable(k + 1)));
      TableStores(g, v, View(), clst, val);
    }

    method PutFat16(clst: nat, val: nat) returns (res: FResult)
      requires Valid() && g.kind.Fat16? && g.IsCluster(clst)
      modifies this`disk, this`win, this`winsect, this`wflag, this`failures, this`faults
      ensures faults >= old(faults) && (res.DiskErr? ==> faults > old(faults))
      ensures Valid() && TableOnly(g, old(View()), View(), {clst})
      ensures res.Ok? || res.DiskErr?
      ensures res.Ok? ==> Fat() == old(Fat())[clst := Stored(g.kind, val)]
      ensures !res.Ok? ==> View() == old(View())
    {
      hide ViewOf;
      var k := 2 * clst;
      ghost var v := View();
      EntryHolds(g, Table(), clst);
      TableSector(k);
      res := MoveWindow(g.fatbase + k / SS);
      if !res.Ok? { return; }
      Aligned(k);
      PokeTable(k, Digit(val, 0));
      PokeTable(k + 1, Digit(val, 1));
      TableStores(g, v, View(), clst, val);
    }

    method PutFat32(clst: nat, val: nat) returns (res: FResult)
      requires Valid() && (g.kind.Fat32? || g.kind.ExFat?) && g.IsCluster(clst)
      modifies this`disk, this`win, this`winsect, this`wflag, this`failures, this`faults
      ensures faults >= old(faults) && (res.DiskErr? ==> faults > old(faults))
      ensures Valid() && TableOnly(g, old(View()), View(), {clst})
      ensures res.Ok? || res.DiskErr?
      ensures res.Ok? ==> Fat() == old(Fat())[clst := Stored(g.kind, val)]
      ensures !res.Ok? ==> View() == old(View())
    {
      hide ViewOf;
      var k := 4 * clst;
      ghost var v := View();
      ghost var t := Table();
      EntryHolds(g, t, clst);
      TableSector(k);
      res := MoveWindow(g.fatbase + k / SS);
      if !res.Ok? { return; }
      var word := NewWord(g.kind, val, PeekWord(k));
      EncodeAsWord(g.kind, t, clst, val, word);
      PokeWord(k, word);
      TableStores(g, v, View(), clst, val);
    }

    /** Notes an allocation in the free-cluster information. */
    method NoteTaken(ncl: nat)
      requires Valid() && freeClst != 0
      modifies this`lastClst, this`freeClst, this`fsiFlag
      ensures Valid() && View() == old(View())
      ensures fsiFlag && lastClst == ncl
      ensures freeClst == if old(freeClst) <= g.nFatent - 2 then old(freeClst) - 1 else old(freeClst)
    {
      lastClst := ncl;
      if freeClst <= g.nFatent - 2 { freeClst := freeClst - 1; }
      fsiFlag := true;
    }

    /** Notes a cluster given back in the free-cluster information. */
    method NoteFreed()
      requires Valid()
      modifies this`freeClst, this`fsiFlag
      ensures Valid() && View() == old(View())
      ensures freeClst == Counted(g, old(freeClst)) && (freeClst != old(freeClst) ==> fsiFlag)
    {
      if freeClst < g.nFatent - 2 {
        freeClst := freeClst + 1;
        fsiFlag := true;
      }
    }

    // ----- the exFAT allocation bitmap -----

    ghost predicate Busy(k: int)
      requires Valid() && g.kind.ExFat?
      reads this
    {
      IsBusy(g, View(), k)
    }

    /** A bit of the bitmap, from the window that shows its sector. */
    predicate PeekBit(k: nat)
      requires Valid() && g.kind.ExFat? && k < g.nFatent - 2 && winsect == g.bitbase + k / 4096
      reads this
      ensures PeekBit(k) == Busy(k)
    {
      BitSector(g, k);
      Bit(win[k / 8 % SS], k % 8)
    }

    method FlipBit(k: nat)
      requires Valid() && g.kind.ExFat? && k < g.nFatent - 2 && winsect == g.bitbase + k / 4096
      modifies this`win, this`wflag
      ensures Valid() && SameOutsideBitmap(g, old(View()), View())
      ensures Painted(g, old(View()), View(), k, k + 1, !old(Busy(k)))
    {
      BitSector(g, k);
      ghost var v := View();
      var after: Sector := win[k / 8 % SS := FlipByte(win[k / 8 % SS], k % 8)];
      ViewPoke(g, disk, win, winsect, after);
      win := after;
      wflag := true;
      assert View() == WithBit(g, v, k);
      forall i: nat | i < g.nFatent - 2
        ensures MapBit(g, View(), i) == if i == k then !MapBit(g, v, k) else MapBit(g, v, i)
      {
        WithBitFlips(g, v, k, i);
      }
    }

    /** Finds the first cluster that is not in use, cyclically from cluster `clst` on, or from 2 if that is none: 0 is
        returned only when all are in use, 0xFFFFFFFF on a disk error. */
    method FindBitmap(clst: nat) returns (r: nat)
      requires Valid() && g.kind.ExFat?
      modifies this`disk, this`win, this`winsect, this`wflag, this`failures, this`faults
      ensures faults >= old(faults) && (r == UNKNOWN ==> faults > old(faults))
      ensures Valid() && View() == old(View())
      ensures r == 0 ==> forall k :: 0 <= k < g.nFatent - 2 ==> IsBusy(g, View(), k)
      ensures r != 0 && r != UNKNOWN ==> g.IsCluster(r) && !IsBusy(g, View(), r - 2)
      ensures r == 0 ==> forall c: nat :: g.IsCluster(c) ==> InUse(g, View(), c)
      ensures r != 0 && r != UNKNOWN ==>
                && View()[g.bitbase + (r - 2) / 4096][(r - 2) / 8 % SS] / Pow2((r - 2) % 8) % 2 == 0
                && var from := if g.IsCluster(clst) then clst else 2;
                   forall c: nat :: g.IsCluster(c) && Turn(g, from, c) < Turn(g, from, r) ==> InUse(g, View(), c)
    {
      hide ViewOf, MapBit, IsBusy, InUse;
      var n := g.nFatent - 2;
      var from: nat := if 2 <= clst < g.nFatent then clst - 2 else 0;
      var val := from;
      ghost var v := View();
      ghost var wrapped := false;
      while true
        invariant faults >= old(faults)
        invariant Valid() && View() == v && Scanned(g, v, from, val, wrapped)
        decreases if wrapped then from - val else n - val + from
      {
        BitSector(g, val);
        var res := MoveWindow(g.bitbase + val / 4096);
        if !res.Ok? { return UNKNOWN; }
        var next: nat, scl: nat;
        next, scl, wrapped := ScanSector(from, val, wrapped);
        if scl != UNKNOWN {
          assert scl == 0 ==> forall k :: 0 <= k < n ==> IsBusy(g, View(), k);
          Found(g, View(), from, scl);
          return scl;
        }
        val := next;
      }
    }

    /** The two inner loops of the scan: the bits from `start` on in the sector the window shows. They
        stop at a free bit, at the bit the scan began with, at the end of the sector, or at the last
        cluster, after which `val` wraps to 0. */
    method ScanSector(from: nat, start: nat, ghost wrapped0: bool) returns (val: nat, r: nat, ghost wrapped: bool)
      requires Valid() && g.kind.ExFat? && Scanned(g, View(), from, start, wrapped0)
      requires winsect == g.bitbase + start / 4096
      ensures r == 0 ==> forall k :: 0 <= k < g.nFatent - 2 ==> IsBusy(g, View(), k)
      ensures r != 0 && r != UNKNOWN ==> g.IsCluster(r) && !IsBusy(g, View(), r - 2)
      ensures r != 0 && r != UNKNOWN ==> Scanned(g, View(), from, r - 2, false) || Scanned(g, View(), from, r - 2, true)
      ensures r == UNKNOWN ==> Scanned(g, View(), from, val, wrapped)
      ensures r == UNKNOWN ==> if wrapped == wrapped0 then start < val else wrapped
    {
      hide ViewOf; hide MapBit;
      var n := g.nFatent - 2;
      var scl: nat;
      val, scl, wrapped := start, start, wrapped0;
      var i, bm := val / 8 % SS, val % 8;
      ghost var v := View();
      while i < SS
        invariant i <= SS + 1 && bm <= 8
        invariant i < SS ==>
                    bm < 8 && i == val / 8 % SS && bm == val % 8 && val / 4096 == start / 4096 && wrapped == wrapped0
        invariant wrapped == wrapped0 ==> start <= val && (val == start ==> i < SS)
        invariant wrapped0 ==> wrapped
        invariant scl == val && Scanned(g, v, from, val, wrapped)
        decreases SS + 1 - i, 8 - bm
      {
        var busy := PeekBit(val);
        if busy { ScanStep(g, v, from, val, wrapped); }
        BitStep(val);
        bm := bm + 1;
        val := val + 1;
        if n <= val {
          val, bm, i := 0, 8, SS;
          wrapped := true;
        }
        if !busy { return val, scl + 2, wrapped; }
        scl := val;
        if val == from { return val, 0, wrapped; }
        if bm == 8 {
          bm := 0;
          i := i + 1;
        }
      }
      r := UNKNOWN;
    }

    /** Flips the bits of `ncl` clusters from `clst` on to `bv`. A bit that has that value already is an
        internal error; the bits before it are flipped by then. */
    method ChangeBitmap(clst: nat, ncl: nat, bv: bool) returns (res: FResult)
      requires Valid() && g.kind.ExFat? && 2 <= clst && 1 <= ncl && clst + ncl <= g.nFatent
      modifies this`disk, this`win, this`winsect, this`wflag, this`failures, this`faults
      ensures faults >= old(faults) && (res.DiskErr? ==> faults > old(faults))
      ensures Valid() && SameOutsideBitmap(g, old(View()), View())
      ensures !res.Denied?
      ensures res.Ok? ==> Painted(g, old(View()), View(), clst - 2, clst - 2 + ncl, bv)
      ensures res.Ok? ==> forall k :: clst - 2 <= k < clst - 2 + ncl ==> IsBusy(g, old(View()), k) != bv
      ensures forall k {:trigger IsBusy(g, View(), k)} :: !(clst - 2 <= k < clst - 2 + ncl) ==>
                IsBusy(g, View(), k) == IsBusy(g, old(View()), k)
      ensures res.IntErr? ==> exists k :: clst - 2 <= k < clst - 2 + ncl && IsBusy(g, old(View()), k) == bv
      ensures res.Ok? ==>
                forall c: nat :: clst <= c < clst + ncl ==> InUse(g, old(View()), c) == !bv && InUse(g, View(), c) == bv
      ensures forall c: nat {:trigger InUse(g, View(), c)} :: g.IsCluster(c) && !(clst <= c < clst + ncl) ==>
                InUse(g, View(), c) == InUse(g, old(View()), c)
      ensures res.IntErr? ==> exists c: nat :: clst <= c < clst + ncl && InUse(g, old(View()), c) == bv
    {
      hide ViewOf, MapBit, Painted, SameOutsideBitmap, IsBusy, InUse;
      var left := ncl;
      var lo: nat := clst - 2;
      var k := lo;
      ghost var v := View();
      NothingPainted(g, v, lo, bv);
      while true
        invariant faults >= old(faults)
        invariant Valid() && SameOutsideBitmap(g, v, View())
        invariant 1 <= left <= ncl && k == lo + ncl - left
        invariant Painted(g, v, View(), lo, k, bv) && (forall j :: lo <= j < k ==> IsBusy(g, v, j) != bv)
        decreases left
      {
        BitSector(g, k);
        var r := MoveWindow(g.bitbase + k / 4096);
        PaintedElse(g, v, View(), lo, k, bv);
        if !r.Ok? {
          Repainted(g, v, View(), clst, ncl, bv, DiskErr);
          return DiskErr;
        }
        var n: nat;
        res, n := FlipSector(k, left, bv, v, lo);
        PaintedElse(g, v, View(), lo, k + n, bv);
        k, left := k + n, left - n;
        if !res.Ok? || left == 0 {
          Repainted(g, v, View(), clst, ncl, bv, res);
          return;
        }
      }
    }

    /** The inner loops: flips the bits from `start` on that lie in the sector the window shows, `n` at most. */
    method FlipSector(start: nat, n: nat, bv: bool, ghost v: Image, ghost lo: nat) returns (res: FResult, done: nat)
      requires Valid() && g.kind.ExFat? && Fits(g, v) && 1 <= n && start + n <= g.nFatent - 2 && lo <= start
      requires winsect == g.bitbase + start / 4096 && SameOutsideBitmap(g, v, View())
      requires Painted(g, v, View(), lo, start, bv)
      modifies this`win, this`wflag
      ensures Valid() && done <= n && SameOutsideBitmap(g, v, View()) && Painted(g, v, View(), lo, start + done, bv)
      ensures forall j :: start <= j < start + done ==> IsBusy(g, v, j) != bv
      ensures res.Ok? ==> 0 < done
      ensures res.Ok? || (res.IntErr? && done < n && IsBusy(g, v, start + done) == bv)
    {
      hide ViewOf, MapBit, Painted, SameOutsideBitmap, IsBusy;
      var k := start;
      var i, bm := k / 8 % SS, k % 8;
      done := 0;
      while i < SS
        invariant Valid() && done < n && k == start + done && i <= SS && bm < 8 && (i == SS ==> 0 < done)
        invariant i < SS ==> i == k / 8 % SS && bm == k % 8 && winsect == g.bitbase + k / 4096
        invariant SameOutsideBitmap(g, v, View()) && Painted(g, v, View(), lo, k, bv)
        invariant forall j :: start <= j < k ==> IsBusy(g, v, j) != bv
        decreases n - done, SS - i
      {
        PaintedElse(g, v, View(), lo, k, bv);
        if PeekBit(k) == bv { return IntErr, done; }
        ghost var u := View();
        FlipBit(k);
        PaintMore(g, v, u, View(), lo, k, bv);
        done := done + 1;
        if done == n { return Ok, done; }
        BitStep(k);
        k := k + 1;
        bm := bm + 1;
        if bm == 8 {
          bm := 0;
          i := i + 1;
        }
      }
      res := Ok;
    }
  }
}
