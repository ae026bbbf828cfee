/**
 Long file names on FAT volumes: a name of up to 255 units is cut into directory entries of
 13 units each and put together again.
 */
module Lfn {

  type Byte = b: int | 0 <= b < 256

  type Unit = u: int | 0 <= u < 0x1_0000

  type Raw = d: seq<Byte> | |d| == 32 witness seq<Byte>(32, _ => 0)

  const MAX_LFN: nat := 255
  const FILLER: Unit := 0xFFFF
  const AM_LFN: Byte := 0x0F
  const LLEF: nat := 0x40

  /** Where the units of an entry stand. */
  const LFN_OFS: seq<nat> := [1, 3, 5, 7, 9, 14, 16, 18, 20, 22, 24, 28, 30]

  /** A directory entry that holds part of a long name: its order, whether it is marked as the last part, 13
      units, the checksum of the short name, and a cluster field that must be 0. */
  datatype Entry = Entry(num: nat, last: bool, units: seq<Unit>, sum: nat, cluster: nat)

  lemma OffsetAt(s: nat)
    requires s < 13
    ensures |LFN_OFS| == 13 && LFN_OFS[s] == 2 * s + if s < 5 then 1 else if s < 11 then 4 else 6
  {
  }

  function WordAt(d: Raw, at: nat): Unit
    requires at + 1 < 32
  {
    var lo: nat, hi: nat := d[at], d[at + 1];
    lo + 256 * hi
  }

  /** The first `n` units in the bytes of an entry. */
  function UnitsIn(d: Raw, n: nat): (us: seq<Unit>)
    requires n <= 13
    ensures |us| == n && forall s :: 0 <= s < n ==> LFN_OFS[s] < 31 && us[s] == WordAt(d, LFN_OFS[s])
  {
    if n == 0 then [] else
      OffsetAt(n - 1);
      UnitsIn(d, n - 1) + [WordAt(d, LFN_OFS[n - 1])]
  }

  /** What the 32 bytes of a directory entry say; the order byte also holds the mark of the last part. */
  function EntryIn(d: Raw): Entry {
    var last := d[0] / LLEF % 2 == 1;
    Entry(if last then d[0] - LLEF else d[0], last, UnitsIn(d, 13), d[13], WordAt(d, 26))
  }

  predicate IsName(name: seq<Unit>) {
    1 <= |name| <= MAX_LFN && forall i :: 0 <= i < |name| ==> name[i] != 0 && name[i] != FILLER
  }

  /** Number of entries for a name. */
  function Parts(n: nat): nat { (n + 12) / 13 }

  /** What stands at place `k` of a name that is terminated and then filled up. */
  function At(name: seq<Unit>, k: nat): Unit {
    if k < |name| then name[k] else if k == |name| then 0 else FILLER
  }

  /** Thirteen units of it. */
  function Cut(name: seq<Unit>, base: nat, n: nat): (us: seq<Unit>)
    ensures |us| == n && forall s :: 0 <= s < n ==> us[s] == At(name, base + s)
  {
    if n == 0 then [] else Cut(name, base, n - 1) + [At(name, base + n - 1)]
  }

  function EntryOf(name: seq<Unit>, ord: nat, sum: nat): Entry
    requires ord >= 1
  {
    Entry(ord, |name| <= 13 * ord, Cut(name, 13 * (ord - 1), 13), sum, 0)
  }

  /** Makes the entry of order `ord` out of a terminated name, in the 32 bytes of a directory entry. */
  method PutLfn(lfn: seq<Unit>, dir: array<Byte>, ord: Byte, sum: Byte)
    requires lfn != [] && IsName(lfn[..|lfn| - 1]) && lfn[|lfn| - 1] == 0 && 1 <= ord <= Parts(|lfn| - 1)
    requires dir.Length == 32
    modifies dir
    ensures EntryIn(dir[..]) == EntryOf(lfn[..|lfn| - 1], ord, sum)
    ensures dir[0] == (if |lfn| - 1 <= 13 * ord then ord + 0x40 else ord) && dir[11] == 0x0F && dir[12] == 0
    ensures dir[13] == sum && dir[26] == 0 && dir[27] == 0
  {
    hide Stored;
    ghost var name := lfn[..|lfn| - 1];
    StoredNone(name, ord);
    dir[13], dir[11], dir[12] := sum, AM_LFN, 0;
    dir[26], dir[27] := 0, 0;
    var i: nat, s: nat, wc: Unit := 13 * (ord - 1), 0, 0;
    while s < 13
      invariant s <= 13 && dir[11] == AM_LFN && dir[12] == 0 && dir[13] == sum && dir[26] == dir[27] == 0
      invariant Stored(dir[..], name, ord, s)
      invariant if wc != FILLER then i == 13 * (ord - 1) + s <= |name| else |name| < 13 * (ord - 1) + s
    {
      if wc != FILLER {
        wc := lfn[i];
        i := i + 1;
      }
      StoreUnit(dir, s, wc, name, ord);
      if wc == 0 { wc := FILLER; }
      s := s + 1;
    }
    var last := wc == FILLER || lfn[i] == 0;
    ghost var d := dir[..];
    dir[0] := if last then ord + LLEF else ord;
    StoredAll(d, dir[..], name, ord);
  }

  method StoreUnit(dir: array<Byte>, s: nat, u: Unit, ghost name: seq<Unit>, ghost ord: nat)
    requires Stored(dir[..], name, ord, s) && s < 13 && u == At(name, 13 * (ord - 1) + s) && dir.Length == 32
    modifies dir
    ensures Stored(dir[..], name, ord, s + 1)
    ensures forall k :: k in {11, 12, 13, 26, 27} ==> dir[k] == old(dir[k])
  {
    OffsetAt(s);
    ghost var d := dir[..];
    dir[LFN_OFS[s]], dir[LFN_OFS[s] + 1] := u % 256, u / 256;
    StoredMore(d, dir[..], name, ord, s, u);
  }

  /** The first `n` units of the entry of order `ord` are in its bytes. */
  ghost predicate Stored(d: seq<Byte>, name: seq<Unit>, ord: nat, n: nat) {
    && |d| == 32 && n <= 13 && ord >= 1
    && forall s :: 0 <= s < n ==> LFN_OFS[s] < 31 && WordAt(d, LFN_OFS[s]) == At(name, 13 * (ord - 1) + s)
  }

  lemma StoredNone(name: seq<Unit>, ord: nat)
    requires ord >= 1
    ensures forall d: seq<Byte> :: |d| == 32 ==> Stored(d, name, ord, 0)
  {
  }

  lemma StoredMore(d: seq<Byte>, d': seq<Byte>, name: seq<Unit>, ord: nat, n: nat, u: Unit)
    requires Stored(d, name, ord, n) && n < 13 && |d'| == 32 && LFN_OFS[n] < 31 && u == At(name, 13 * (ord - 1) + n)
    requires d' == d[LFN_OFS[n] := u % 256][LFN_OFS[n] + 1 := u / 256]
    ensures Stored(d', name, ord, n + 1)
  {
    OffsetAt(n);
    forall s | 0 <= s < n + 1
      ensures LFN_OFS[s] < 31 && WordAt(d', LFN_OFS[s]) == At(name, 13 * (ord - 1) + s)
    {
      OffsetAt(s);
      if s < n { assert WordAt(d', LFN_OFS[s]) == WordAt(d, LFN_OFS[s]); }
    }
  }

  lemma StoredAll(d: seq<Byte>, d': seq<Byte>, name: seq<Unit>, ord: nat)
    requires Stored(d, name, ord, 13) && |d'| == 32 && forall k :: 1 <= k < 32 ==> d'[k] == d[k]
    ensures UnitsIn(d', 13) == Cut(name, 13 * (ord - 1), 13)
  {
    forall s | 0 <= s < 13
      ensures UnitsIn(d', 13)[s] == Cut(name, 13 * (ord - 1), 13)[s]
    {
      OffsetAt(s);
      assert WordAt(d', LFN_OFS[s]) == WordAt(d, LFN_OFS[s]);
    }
  }

  /** Where the first zero of an entry is; 13 if there is none. */
  function FirstZero(units: seq<Unit>, s: nat): (z: nat)
    requires s <= |units|
    ensures s <= z <= |units| && (z < |units| ==> units[z] == 0) && forall k :: s <= k < z ==> units[k] != 0
    decreases |units| - s
  {
    if s == |units| || units[s] == 0 then s else FirstZero(units, s + 1)
  }

  /** An entry is taken if its cluster field is 0, only filler follows a zero, and all fits the buffer. */
  predicate Acceptable(e: Entry)
    requires |e.units| == 13
  {
    var z := FirstZero(e.units, 0);
    && e.cluster == 0 && e.num >= 1
    && 13 * (e.num - 1) + (if z < 13 then z + 1 else if e.last then 14 else 13) <= MAX_LFN + 1
    && forall s :: z < s < 13 ==> e.units[s] == FILLER
  }

  method OrderOf(dir: Raw) returns (num: nat, last: bool)
    ensures
      var e := EntryIn(dir);
      && num == e.num && last == e.last && |e.units| == 13 && e.cluster == WordAt(dir, 26)
      && forall s :: 0 <= s < 13 ==> LFN_OFS[s] < 31 && e.units[s] == WordAt(dir, LFN_OFS[s])
  {
    last := dir[0] / LLEF % 2 == 1;
    num := if last then dir[0] - LLEF else dir[0];
  }

  /** Copies the units of an entry to their place in the name buffer. */
  method PickLfn(buf: array<Unit>, dir: Raw) returns (ok: bool)
    requires buf.Length == MAX_LFN + 1
    modifies buf
    ensures ok <==> Acceptable(EntryIn(dir))
    ensures ok ==> forall k :: 0 <= k < buf.Length ==> buf[k] == Picked(EntryIn(dir), k, old(buf[k]))
  {
    hide EntryIn;
    ghost var e := EntryIn(dir);
    var num, last := OrderOf(dir);
    if WordAt(dir, 26) != 0 || num == 0 { return false; }
    var i: nat, s: nat, wc: Unit := 13 * (num - 1), 0, 1;
    ghost var base, z := i, FirstZero(e.units, 0);
    while s < 13
      invariant s <= 13 && base == 13 * (e.num - 1)
      invariant if wc != 0 then s <= z && i == base + s && (s > 0 ==> i <= buf.Length)
                else z < s && i == base + z + 1 <= buf.Length && forall k :: z < k < s ==> e.units[k] == FILLER
      invariant forall k :: 0 <= k < buf.Length ==> buf[k] == if base <= k < i then e.units[k - base] else old(buf[k])
    {
      OffsetAt(s);
      var uc := WordAt(dir, LFN_OFS[s]);
      if wc != 0 {
        if MAX_LFN + 1 <= i { return false; }
        buf[i] := uc;
        i := i + 1;
        wc := uc;
      } else if uc != FILLER {
        return false;
      }
      s := s + 1;
    }
    if last && wc != 0 {
      if MAX_LFN + 1 <= i { return false; }
      buf[i] := 0;
    }
    ok := true;
  }

  /** Place `k` of the buffer after an entry was picked. */
  function Picked(e: Entry, k: nat, was: Unit): Unit
    requires |e.units| == 13 && e.num >= 1
  {
    var base, z := 13 * (e.num - 1), FirstZero(e.units, 0);
    if base <= k < base + 13 && k <= base + z then e.units[k - base]
    else if z == 13 && e.last && k == base + 13 then 0 else was
  }

  /** Where the zero of an entry made from a name is. */
  lemma ZeroOf(name: seq<Unit>, ord: nat, sum: nat)
    requires IsName(name) && 1 <= ord <= Parts(|name|)
    ensures FirstZero(EntryOf(name, ord, sum).units, 0) == (if |name| < 13 * ord then |name| - 13 * (ord - 1) else 13)
  {
    var e := EntryOf(name, ord, sum);
    var z := FirstZero(e.units, 0);
    var base := 13 * (ord - 1);
    assert base < |name|;
    if |name| < 13 * ord { assert e.units[|name| - base] == 0; }
    if z < 13 { assert e.units[z] == At(name, base + z); }
  }

  /** Every entry of a name is taken, and puts the name's units where they belong. */
  lemma EntryPicks(name: seq<Unit>, ord: nat, sum: nat, k: nat, was: Unit)
    requires IsName(name) && 1 <= ord <= Parts(|name|)
    ensures
      var e := EntryOf(name, ord, sum);
      && Acceptable(e)
      && Picked(e, k, was)
          == (if k <= |name| && (13 * (ord - 1) <= k < 13 * ord || k == 13 * ord == |name|) then At(name, k) else was)
  {
    ZeroOf(name, ord, sum);
    var e := EntryOf(name, ord, sum);
    if |name| < 13 * ord {
      forall s | |name| - 13 * (ord - 1) < s < 13
        ensures e.units[s] == FILLER
      {
      }
    }
  }

  /** The mark of the last part is on the highest order and on no other. */
  lemma LastIsHighest(name: seq<Unit>, ord: nat, sum: nat)
    requires IsName(name) && 1 <= ord <= Parts(|name|)
    ensures EntryOf(name, ord, sum).last <==> ord == Parts(|name|)
  {
  }

  /** Writes all entries of a name, the highest order first. */
  method PutAll(name: seq<Unit>, sum: Byte) returns (es: seq<Raw>)
    requires IsName(name)
    ensures |es| == Parts(|name|) && forall j :: 0 <= j < |es| ==> EntryIn(es[j]) == EntryOf(name, |es| - j, sum)
    ensures forall j :: 0 <= j < |es| ==> es[j][11] == AM_LFN && es[j][12] == 0 && es[j][13] == sum
  {
    var n := Parts(|name|);
    var ord := n;
    es := [];
    var lfn := name + [0];
    assert lfn[..|lfn| - 1] == name;
    while ord > 0
      invariant 0 <= ord <= n && |es| == n - ord
      invariant forall j :: 0 <= j < |es| ==> EntryIn(es[j]) == EntryOf(name, n - j, sum)
      invariant forall j :: 0 <= j < |es| ==> es[j][11] == AM_LFN && es[j][12] == 0 && es[j][13] == sum
    {
      var dir := new Byte[32](_ => 0);
      PutLfn(lfn, dir, ord, sum);
      es := es + [dir[..]];
      ord := ord - 1;
    }
  }

  /** A name written into entries and picked from them, whatever was in the buffer before, is back in it,
      terminated. */
  method RoundTrip(name: seq<Unit>, sum: Byte, buf: array<Unit>) returns (ok: bool)
    requires 1 <= |name| <= 255 && (forall i :: 0 <= i < |name| ==> name[i] != 0 && name[i] != 0xFFFF)
    requires buf.Length == 256
    modifies buf
    ensures ok && buf[..|name|] == name && buf[|name|] == 0
  {
    hide EntryOf, EntryIn, Picked, Acceptable, IsName;
    var es := PutAll(name, sum);
    PartsCover(name);
    ok := true;
    for j := 0 to |es|
      invariant ok && forall k :: j > 0 && 13 * (|es| - j) <= k <= |name| ==> buf[k] == At(name, k)
    {
      ghost var ord := |es| - j;
      UnitsOfEntry(name, ord, sum);
      EntryPicks(name, ord, sum, 0, 0);
      forall k: nat, was: Unit
        ensures Picked(EntryIn(es[j]), k, was)
                    == (if k <= |name| && (13 * (ord - 1) <= k < 13 * ord || k == 13 * ord == |name|) then At(name, k)
                    else was)
      {
        EntryPicks(name, ord, sum, k, was);
      }
      ok := PickLfn(buf, es[j]);
    }
    assert forall k :: 0 <= k < |name| ==> buf[k] == At(name, k);
    assert buf[|name|] == At(name, |name|);
  }

  lemma PartsCover(name: seq<Unit>)
    requires IsName(name)
    ensures 1 <= |name| <= MAX_LFN && 13 * (Parts(|name|) - 1) < |name| <= 13 * Parts(|name|)
  {
  }

  lemma UnitsOfEntry(name: seq<Unit>, ord: nat, sum: nat)
    requires ord >= 1
    ensures |EntryOf(name, ord, sum).units| == 13 && EntryOf(name, ord, sum).num == ord
  {
  }
}
