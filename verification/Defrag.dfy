/**
 Fragment lists: runs of device sectors that together make up a file, and transfers that go
 through such a list.
 */
module Defrag {
  import opened BlockDevice

  datatype Fragment = Fragment(sector: nat, count: nat)

  /** `n` sectors from `sector` on. */
  function Stretch(sector: nat, n: nat): (r: seq<nat>)
    ensures |r| == n
  {
    seq(n, i requires 0 <= i < n => sector + i)
  }

  /** The device sectors of a list, one by one. */
  function Spread(list: seq<Fragment>): seq<nat> {
    if list == [] then [] else Spread(list[..|list| - 1]) + Stretch(list[|list| - 1].sector, list[|list| - 1].count)
  }

  lemma SpreadStep(list: seq<Fragment>, i: nat)
    requires i < |list|
    ensures Spread(list[..i + 1]) == Spread(list[..i]) + Stretch(list[i].sector, list[i].count)
  {
    assert list[..i + 1][..i] == list[..i];
  }

  lemma {:induction false} SpreadPrefix(list: seq<Fragment>, i: nat)
    requires i <= |list|
    ensures Spread(list[..i]) <= Spread(list)
  {
    if i == |list| {
      assert list[..i] == list;
    } else {
      SpreadPrefix(list[..|list| - 1], i);
      assert list[..|list| - 1][..i] == list[..i];
    }
  }

  /** The sectors `lbas`, in order. */
  function Gather(disk: seq<Sector>, lbas: seq<nat>): (d: seq<Sector>)
    requires forall k :: 0 <= k < |lbas| ==> lbas[k] < |disk|
    ensures |d| == |lbas|
  {
    seq(|lbas|, k requires 0 <= k < |lbas| => disk[lbas[k]])
  }

  /** `disk` with `data[k]` written to `lbas[k]`, one after the other. */
  function Scatter(disk: seq<Sector>, lbas: seq<nat>, data: seq<Sector>): (r: seq<Sector>)
    requires |lbas| == |data| && forall k :: 0 <= k < |lbas| ==> lbas[k] < |disk|
    ensures |r| == |disk|
    decreases |lbas|
  {
    if lbas == [] then disk
    else Scatter(disk, lbas[..|lbas| - 1], data[..|lbas| - 1])[lbas[|lbas| - 1] := data[|lbas| - 1]]
  }

  ghost predicate Different(lbas: seq<nat>) {
    forall i, j :: 0 <= i < j < |lbas| ==> lbas[i] != lbas[j]
  }

  /** On a list without repetitions what was written is read back, and nothing else changes. */
  lemma {:induction false} ScatterGather(disk: seq<Sector>, lbas: seq<nat>, data: seq<Sector>)
    requires |lbas| == |data| && (forall k :: 0 <= k < |lbas| ==> lbas[k] < |disk|) && Different(lbas)
    ensures Gather(Scatter(disk, lbas, data), lbas) == data
    ensures forall s :: 0 <= s < |disk| && s !in lbas ==> Scatter(disk, lbas, data)[s] == disk[s]
    decreases |lbas|
  {
    if lbas != [] {
      var n := |lbas| - 1;
      ScatterGather(disk, lbas[..n], data[..n]);
      GatherUpdated(Scatter(disk, lbas[..n], data[..n]), lbas, data);
    }
  }

  lemma GatherUpdated(r: seq<Sector>, lbas: seq<nat>, data: seq<Sector>)
    requires 0 < |lbas| == |data| && (forall k :: 0 <= k < |lbas| ==> lbas[k] < |r|) && Different(lbas)
    requires Gather(r, lbas[..|lbas| - 1]) == data[..|lbas| - 1]
    ensures Gather(r[lbas[|lbas| - 1] := data[|lbas| - 1]], lbas) == data
  {
    var n := |lbas| - 1;
    forall k | 0 <= k < |lbas|
      ensures r[lbas[n] := data[n]][lbas[k]] == data[k]
    {
      if k < n { assert Gather(r, lbas[..n])[k] == r[lbas[k]] && data[..n][k] == data[k]; }
    }
  }

  lemma {:induction false} ScatterMore(disk: seq<Sector>, lbas: seq<nat>, data: seq<Sector>, more: seq<nat>,
      md: seq<Sector>)
    requires |lbas| == |data| && |more| == |md| && (forall k :: 0 <= k < |lbas| ==> lbas[k] < |disk|)
    requires forall k :: 0 <= k < |more| ==> more[k] < |disk|
    ensures Scatter(disk, lbas + more, data + md) == Scatter(Scatter(disk, lbas, data), more, md)
    decreases |more|
  {
    if more == [] {
      assert lbas + more == lbas && data + md == data;
    } else {
      var n := |more| - 1;
      assert (lbas + more)[..|lbas| + n] == lbas + more[..n] && (data + md)[..|lbas| + n] == data + md[..n];
      ScatterMore(disk, lbas, data, more[..n], md[..n]);
    }
  }

  lemma {:induction false} ScatterStretch(disk: seq<Sector>, sector: nat, data: seq<Sector>)
    requires sector + |data| <= |disk|
    ensures Scatter(disk, Stretch(sector, |data|), data) == Written(disk, sector, data)
    decreases |data|
  {
    if data != [] {
      var n := |data| - 1;
      assert Stretch(sector, |data|)[..n] == Stretch(sector, n);
      ScatterStretch(disk, sector, data[..n]);
    }
  }

  /** Finds the fragment of sector `k` of the list: its index, and the number of sectors before it; the
      length of the list if there is none. */
  method Locate(list: seq<Fragment>, k: nat) returns (i: nat, offset: nat)
    ensures i <= |list| && offset == |Spread(list[..i])|
    ensures i == |list| <==> |Spread(list)| <= k
    ensures i < |list| ==> offset <= k < offset + list[i].count && list[i].sector + (k - offset) == Spread(list)[k]
  {
    i, offset := 0, 0;
    while i < |list|
      invariant i <= |list| && offset == |Spread(list[..i])| <= k
    {
      SpreadStep(list, i);
      SpreadPrefix(list, i + 1);
      if offset <= k && k < offset + list[i].count { return; }
      offset := offset + list[i].count;
      i := i + 1;
    }
    assert list[..i] == list;
  }

  /** The part of a request that one fragment can take. */
  lemma OneFragment(list: seq<Fragment>, i: nat, k: nat, n: nat)
    requires i < |list| && |Spread(list[..i])| <= k && k + n <= |Spread(list[..i])| + list[i].count
    ensures k + n <= |Spread(list)| && Spread(list)[k..k + n] == Stretch(list[i].sector + (k - |Spread(list[..i])|), n)
  {
    SpreadStep(list, i);
    SpreadPrefix(list, i + 1);
    var p := Spread(list[..i + 1]);
    assert Spread(list)[k..k + n] == p[k..k + n];
  }

  lemma StretchOnDisk(disk: seq<Sector>, sector: nat, n: nat)
    requires sector + n <= |disk|
    ensures forall k :: 0 <= k < n ==> Stretch(sector, n)[k] < |disk|
    ensures Gather(disk, Stretch(sector, n)) == disk[sector..sector + n]
  {
  }

  ghost predicate OnDisk(disk: seq<Sector>, lbas: seq<nat>) {
    forall k :: 0 <= k < |lbas| ==> lbas[k] < |disk|
  }

  lemma GatherMore(disk: seq<Sector>, lbas: seq<nat>, more: seq<nat>)
    requires OnDisk(disk, lbas) && OnDisk(disk, more)
    ensures OnDisk(disk, lbas + more) && Gather(disk, lbas + more) == Gather(disk, lbas) + Gather(disk, more)
  {
  }

  lemma SliceMore(s: seq<nat>, a: nat, b: nat, c: nat)
    requires a <= b <= c <= |s|
    ensures s[a..b] + s[b..c] == s[a..c]
  {
  }

  /** The sectors `lbas[from..to]` are on the disk and hold `data`. */
  ghost predicate Got(disk: seq<Sector>, lbas: seq<nat>, from: nat, to: nat, data: seq<Sector>) {
    from <= to <= |lbas| && OnDisk(disk, lbas[from..to]) && data == Gather(disk, lbas[from..to])
  }

  lemma GotMore(disk: seq<Sector>, lbas: seq<nat>, from: nat, mid: nat, to: nat, data: seq<Sector>, more: seq<Sector>)
    requires Got(disk, lbas, from, mid, data) && Got(disk, lbas, mid, to, more)
    ensures Got(disk, lbas, from, to, data + more)
  {
    GatherMore(disk, lbas[from..mid], lbas[mid..to]);
    SliceMore(lbas, from, mid, to);
  }

  lemma GotStretch(disk: seq<Sector>, lbas: seq<nat>, k: nat, n: nat, sector: nat)
    requires k + n <= |lbas| && lbas[k..k + n] == Stretch(sector, n) && sector + n <= |disk|
    ensures Got(disk, lbas, k, k + n, disk[sector..sector + n])
  {
    StretchOnDisk(disk, sector, n);
  }

  /** `disk` became `after` by writing `data` to `lbas[from..to]`. */
  ghost predicate Did(disk: seq<Sector>, after: seq<Sector>, lbas: seq<nat>, from: nat, to: nat, data: seq<Sector>) {
    && from <= to <= |lbas| && |data| == to - from && OnDisk(disk, lbas[from..to])
    && after == Scatter(disk, lbas[from..to], data)
  }

  lemma DidMore(disk: seq<Sector>, mid: seq<Sector>, after: seq<Sector>, lbas: seq<nat>, a: nat, b: nat, c: nat,
      data: seq<Sector>, more: seq<Sector>)
    requires Did(disk, mid, lbas, a, b, data) && Did(mid, after, lbas, b, c, more)
    ensures Did(disk, after, lbas, a, c, data + more)
  {
    ScatterMore(disk, lbas[a..b], data, lbas[b..c], more);
    SliceMore(lbas, a, b, c);
  }

  lemma DidStretch(disk: seq<Sector>, lbas: seq<nat>, k: nat, data: seq<Sector>, sector: nat)
    requires k + |data| <= |lbas| && lbas[k..k + |data|] == Stretch(sector, |data|) && sector + |data| <= |disk|
    ensures Did(disk, Written(disk, sector, data), lbas, k, k + |data|, data)
  {
    ScatterStretch(disk, sector, data);
    StretchOnDisk(disk, sector, |data|);
  }

  /** A part of the file that is beyond the end of the device. */
  lemma Beyond(disk: seq<Sector>, lbas: seq<nat>, from: nat, k: nat, n: nat, to: nat, sector: nat)
    requires from <= k && 0 < n && k + n <= to <= |lbas| && lbas[k..k + n] == Stretch(sector, n) && |disk| < sector + n
    ensures !OnDisk(disk, lbas[from..to])
  {
    assert lbas[from..to][k + n - 1 - from] == lbas[k..k + n][n - 1] == sector + (n - 1);
  }

  /** Only sectors of the file changed. */
  ghost predicate Inside(before: seq<Sector>, after: seq<Sector>, lbas: seq<nat>) {
    |after| == |before| && forall s :: 0 <= s < |before| && s !in lbas ==> after[s] == before[s]
  }

  lemma InsideSelf(disk: seq<Sector>, lbas: seq<nat>)
    ensures Inside(disk, disk, lbas)
  {
  }

  lemma InStretch(lbas: seq<nat>, k: nat, n: nat, sector: nat, s: nat)
    requires k + n <= |lbas| && lbas[k..k + n] == Stretch(sector, n) && sector <= s < sector + n
    ensures s in lbas
  {
    assert lbas[k..k + n][s - sector] == s && lbas[k + (s - sector)] == s;
  }

  lemma InsideMore(before: seq<Sector>, mid: seq<Sector>, after: seq<Sector>, lbas: seq<nat>, k: nat, n: nat,
      sector: nat)
    requires Inside(before, mid, lbas) && Confined(mid, after, sector, n)
    requires k + n <= |lbas| && lbas[k..k + n] == Stretch(sector, n)
    ensures Inside(before, after, lbas)
  {
    forall s | 0 <= s < |before| && s !in lbas
      ensures after[s] == before[s]
    {
      if sector <= s < sector + n { InStretch(lbas, k, n, sector, s); }
    }
  }

  /** Reads sectors of the file that the list describes. */
  method Read(bd: Device, list: seq<Fragment>, sector: nat, count: nat) returns (r: int, data: seq<Sector>)
    requires bd.Valid() && count < 0x1_0000
    modifies bd`faults, bd`asked
    ensures r == count || r == -1
    ensures r == count ==> sector + count <= |Spread(list)| || count == 0
    ensures r == count > 0 ==>
              && OnDisk(bd.disk, Spread(list)[sector..sector + count])
              && data == Gather(bd.disk, Spread(list)[sector..sector + count])
    ensures r == -1 ==>
              || |Spread(list)| < sector + count || !OnDisk(bd.disk, Spread(list)[sector..sector + count])
              || bd.faults > old(bd.faults)
  {
    hide Spread, Gather, Stretch, Got, OnDisk;
    var start: nat, left: nat := sector, count;
    data := [];
    ghost var lbas := Spread(list);
    GotNothing(bd.disk, lbas, sector);
    while left > 0
      invariant left <= count && start == sector + (count - left) && bd.faults == old(bd.faults)
      invariant (left < count ==> sector < |lbas|) && (sector <= |lbas| ==> Got(bd.disk, lbas, sector, start, data))
      decreases left
    {
      var i, offset := Locate(list, start);
      if i == |list| { return -1, data; }
      var f := list[i];
      var n := left;
      if offset + f.count < start + n { n := offset + f.count - start; }
      OneFragment(list, i, start, n);
      var got, d := bd.Read(f.sector + (start - offset), n);
      if got != n {
        if bd.sectorCount < f.sector + (start - offset) + n && sector + count <= |lbas| {
          Beyond(bd.disk, lbas, sector, start, n, sector + count, f.sector + (start - offset));
        }
        return -1, data;
      }
      GotStretch(bd.disk, lbas, start, n, f.sector + (start - offset));
      GotMore(bd.disk, lbas, sector, start, start + n, data, d);
      data := data + d;
      start, left := start + n, left - n;
    }
    GotAll(bd.disk, lbas, sector, count, data);
    r := count;
  }

  lemma GotNothing(disk: seq<Sector>, lbas: seq<nat>, k: nat)
    ensures k <= |lbas| ==> Got(disk, lbas, k, k, [])
    ensures k <= |lbas| ==> Did(disk, disk, lbas, k, k, [])
  {
  }

  lemma GotAll(disk: seq<Sector>, lbas: seq<nat>, sector: nat, count: nat, data: seq<Sector>)
    requires count > 0 ==> Got(disk, lbas, sector, sector + count, data)
    ensures count > 0 ==>
              && sector + count <= |lbas| && OnDisk(disk, lbas[sector..sector + count])
              && data == Gather(disk, lbas[sector..sector + count])
  {
  }

  /** Writes sectors of the file that the list describes. */
  method Write(bd: Device, list: seq<Fragment>, sector: nat, data: seq<Sector>) returns (r: int)
    requires bd.Valid() && |data| < 0x1_0000
    modifies bd`disk, bd`faults
    ensures bd.Valid()
    ensures r == |data| || r == -1
    ensures r == |data| > 0 ==>
              && sector + |data| <= |Spread(list)| && OnDisk(old(bd.disk), Spread(list)[sector..sector + |data|])
              && bd.disk == Scatter(old(bd.disk), Spread(list)[sector..sector + |data|], data)
    ensures r == -1 ==>
              || |Spread(list)| < sector + |data| || !OnDisk(old(bd.disk), Spread(list)[sector..sector + |data|])
              || bd.faults > old(bd.faults)
    ensures Inside(old(bd.disk), bd.disk, Spread(list))
  {
    hide Spread, Scatter, Stretch, Written, Did, OnDisk, Inside;
    var start: nat, left: nat := sector, |data|;
    ghost var disk, lbas := bd.disk, Spread(list);
    GotNothing(disk, lbas, sector);
    InsideSelf(disk, lbas);
    assert data[..0] == [];
    while left > 0
      invariant left <= |data| && start == sector + (|data| - left) && bd.Valid() && bd.faults == old(bd.faults)
      invariant Inside(disk, bd.disk, lbas) && (left < |data| ==> sector < |lbas|)
      invariant sector <= |lbas| ==> Did(disk, bd.disk, lbas, sector, start, data[..start - sector])
      decreases left
    {
      var i, offset := Locate(list, start);
      if i == |list| { return -1; }
      var f := list[i];
      var n := left;
      if offset + f.count < start + n { n := offset + f.count - start; }
      OneFragment(list, i, start, n);
      ghost var mid := bd.disk;
      var part := data[start - sector..start - sector + n];
      var put := bd.Write(f.sector + (start - offset), part);
      InsideMore(disk, mid, bd.disk, lbas, start, n, f.sector + (start - offset));
      if put != n {
        if bd.sectorCount < f.sector + (start - offset) + n && sector + |data| <= |lbas| {
          Beyond(disk, lbas, sector, start, n, sector + |data|, f.sector + (start - offset));
        }
        return -1;
      }
      DidStretch(mid, lbas, start, part, f.sector + (start - offset));
      DidMore(disk, mid, bd.disk, lbas, sector, start, start + n, data[..start - sector], part);
      assert data[..start - sector] + part == data[..start + n - sector];
      start, left := start + n, left - n;
    }
    assert data[..|data|] == data;
    DidAll(disk, bd.disk, lbas, sector, data);
    r := |data|;
  }

  lemma DidAll(disk: seq<Sector>, after: seq<Sector>, lbas: seq<nat>, sector: nat, data: seq<Sector>)
    requires |data| > 0 ==> Did(disk, after, lbas, sector, sector + |data|, data)
    ensures |data| > 0 ==>
              && sector + |data| <= |lbas| && OnDisk(disk, lbas[sector..sector + |data|])
              && after == Scatter(disk, lbas[sector..sector + |data|], data)
  {
  }
}
