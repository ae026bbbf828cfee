/**
 The sector cache of the block-device manager: 32 blocks of 8 sectors, filled by reads of
 fewer than 8 sectors and thrown away by writes that touch them.
 */
module BlockCache {
  import opened BlockDevice

  const SECTORS_PER_BLOCK: nat := 8
  const BLOCK_COUNT: nat := 32
  const WEIGHT_FACTOR: nat := 256
  const NONE: nat := U64 - 1

  datatype Slot = Slot(weight: int, sector: nat, data: seq<Sector>)

  /** A block and a range of sectors have one in common; the sums are those of 64-bit words. */
  predicate Overlaps(csector: nat, sector: nat, count: nat) {
    sector < (csector + SECTORS_PER_BLOCK) % U64 && (sector + count) % U64 > csector
  }

  predicate Contains(csector: nat, sector: nat, count: nat) {
    sector >= csector && (sector + count) % U64 <= (csector + SECTORS_PER_BLOCK) % U64
  }

  /** Away from the end of the address space a block contains a range if the range begins and ends in it ... */
  lemma ContainsMeans(csector: nat, sector: nat, count: nat)
    requires csector + SECTORS_PER_BLOCK < U64 && sector + count < U64
    ensures Contains(csector, sector, count) <==> csector <= sector && sector + count <= csector + 8
  {
  }

  predicate Among(s: int, first: int, count: nat) { first <= s < first + count }

  /** ... and overlaps one if some sector is in both. */
  lemma OverlapsMeans(csector: nat, sector: nat, count: nat)
    requires csector + SECTORS_PER_BLOCK < U64 && sector + count < U64
    ensures Overlaps(csector, sector, count) && 0 < count <==>
            exists s :: Among(s, csector, 8) && Among(s, sector, count)
  {
    if Overlaps(csector, sector, count) && 0 < count {
      var s := if csector < sector then sector else csector;
      assert Among(s, csector, 8) && Among(s, sector, count);
    }
  }

  /** An empty block is never hit. */
  lemma EmptyHoldsNothing(sector: nat, count: nat)
    requires sector + count < U64 && 0 < count
    ensures !Contains(NONE, sector, count)
  {
  }

  ghost predicate Cached(slots: seq<Slot>, sector: nat, count: nat) {
    exists i :: 0 <= i < |slots| && Contains(slots[i].sector, sector, count)
  }

  /** Division that truncates toward zero. */
  function Truncated(x: int, d: nat): int
    requires d > 0
  {
    if x >= 0 then x / d else -(-x / d)
  }

  /** A weight after one round of aging. */
  function Aged(w: int): int {
    w - (SECTORS_PER_BLOCK * WEIGHT_FACTOR / BLOCK_COUNT + Truncated(w, 32))
  }

  const FLOOR: int := -2048

  /** A hit in block `i`, the first that contains the range, makes it heavier. */
  ghost predicate Touched(slots: seq<Slot>, slots': seq<Slot>, i: nat, sector: nat, count: nat) {
    && i < |slots| && Contains(slots[i].sector, sector, count)
    && (forall j :: 0 <= j < i ==> !Contains(slots[j].sector, sector, count))
    && slots' == slots[i := slots[i].(weight := (if slots[i].weight < 0 then 0 else slots[i].weight) + 256 * count)]
  }

  /** A miss ages all blocks and replaces the first of the lightest, by the sectors from `sector` on or, if these could
      not be read, by nothing. */
  ghost predicate Replaced(slots: seq<Slot>, slots': seq<Slot>, best: nat, sector: nat, count: nat, ok: bool) {
    && best < |slots| == |slots'|
    && (forall i :: 0 <= i < |slots| && i != best ==> slots'[i] == slots[i].(weight := Aged(slots[i].weight)))
    && ((forall i :: 0 <= i < |slots| ==> Aged(slots[i].weight) < 0x7FFF_FFFF) ==>
          forall i :: 0 <= i < |slots| ==>
            && Aged(slots[best].weight) <= Aged(slots[i].weight)
            && (i < best ==> Aged(slots[best].weight) < Aged(slots[i].weight)))
    && slots'[best].sector == (if ok then sector else NONE)
    && slots'[best].weight == if ok then 256 * count else Aged(slots[best].weight)
  }

  /** Aging pulls every weight towards -2048 and never takes one past it. */
  lemma AgingStops(w: int)
    ensures FLOOR <= w ==> FLOOR <= Aged(w) <= w && (Aged(w) == w ==> w == FLOOR)
  {
  }

  /** How many sectors a block at `sector` can hold before the device ends. */
  function Kept(size: nat, sector: nat): nat {
    if sector + SECTORS_PER_BLOCK <= size then SECTORS_PER_BLOCK else if sector <= size then size - sector else 0
  }

  /** What the slot holds is what the device holds. Blocks so near the end of the address space that the sums
      wrap, which includes the mark of an empty slot, are exempt. */
  ghost predicate Faithful(disk: seq<Sector>, slot: Slot) {
    slot.sector + SECTORS_PER_BLOCK < U64 && slot.sector < |disk| ==>
      |slot.data| == Kept(|disk|, slot.sector) && slot.data == disk[slot.sector..slot.sector + |slot.data|]
  }

  /** A hit lies inside what the block holds, and a block that is exempt is never hit. */
  lemma HitIsKept(disk: seq<Sector>, slot: Slot, sector: nat, count: nat)
    requires |disk| < U64 && sector + count <= |disk| && 0 < count && slot.sector < U64
    requires Contains(slot.sector, sector, count) && Faithful(disk, slot)
    ensures slot.sector <= sector && sector - slot.sector + count <= |slot.data|
    ensures slot.data[sector - slot.sector..sector - slot.sector + count] == disk[sector..sector + count]
  {
    assert slot.sector + SECTORS_PER_BLOCK < U64;
    Subrange(disk, slot.sector, |slot.data|, sector - slot.sector, count);
  }

  lemma Subrange(disk: seq<Sector>, a: nat, n: nat, i: nat, count: nat)
    requires a + n <= |disk| && i + count <= n
    ensures disk[a..a + n][i..i + count] == disk[a + i..a + i + count]
  {
    var l, r := disk[a..a + n][i..i + count], disk[a + i..a + i + count];
    assert forall k :: 0 <= k < count ==> l[k] == disk[a + i + k] && r[k] == disk[a + i + k];
  }

  /** A block that a write left alone is still right. */
  lemma SparedIsRight(before: seq<Sector>, after: seq<Sector>, slot: Slot, sector: nat, count: nat)
    requires |before| < U64 && (sector + count < U64 || |before| <= sector) && Confined(before, after, sector, count)
    requires Faithful(before, slot) && !Overlaps(slot.sector, sector, count)
    ensures Faithful(after, slot)
  {
    if |before| <= sector { assert after == before; }
  }

  class Cache {
    const bd: Device
    const slots: array<Slot>

    ghost predicate Valid()
      reads this, bd, slots
    {
      && bd.Valid() && slots.Length == BLOCK_COUNT
      && forall i :: 0 <= i < BLOCK_COUNT ==>
          FLOOR <= slots[i].weight && slots[i].sector < U64 && Faithful(bd.disk, slots[i])
    }

    constructor (bd: Device)
      requires bd.Valid()
      ensures Valid() && this.bd == bd && fresh(slots)
    {
      this.bd := bd;
      this.slots := new Slot[BLOCK_COUNT](_ => Slot(0, NONE, []));
    }

    /** The index of a block that holds the range, or `BLOCK_COUNT`. */
    method Lookup(sector: nat, count: nat) returns (i: nat)
      requires Valid()
      ensures i <= BLOCK_COUNT && (i < BLOCK_COUNT ==> Contains(slots[i].sector, sector, count))
      ensures forall j :: 0 <= j < i ==> !Contains(slots[j].sector, sector, count)
    {
      i := 0;
      while i < BLOCK_COUNT
        invariant i <= BLOCK_COUNT && forall j :: 0 <= j < i ==> !Contains(slots[j].sector, sector, count)
      {
        if Contains(slots[i].sector, sector, count) { return; }
        i := i + 1;
      }
    }

    /** Ages every block and picks the lightest one. */
    method Evict() returns (best: nat)
      requires Valid()
      modifies slots
      ensures Valid() && best < BLOCK_COUNT
      ensures forall i :: 0 <= i < BLOCK_COUNT ==> slots[i] == old(slots[i]).(weight := Aged(old(slots[i]).weight))
      ensures (exists i :: 0 <= i < BLOCK_COUNT && slots[i].weight < 0x7FFF_FFFF) ==>
                forall i :: 0 <= i < BLOCK_COUNT ==>
                  slots[best].weight <= slots[i].weight && (i < best ==> slots[best].weight < slots[i].weight)
    {
      var bestWeight := 0x7FFF_FFFF;
      best := 0;
      var i := 0;
      while i < BLOCK_COUNT
        invariant i <= BLOCK_COUNT && best < BLOCK_COUNT && Valid()
        invariant forall j :: 0 <= j < BLOCK_COUNT ==>
                    slots[j] == if j < i then old(slots[j]).(weight := Aged(old(slots[j]).weight)) else old(slots[j])
        invariant bestWeight <= 0x7FFF_FFFF
        invariant forall j :: 0 <= j < i ==> bestWeight <= slots[j].weight || slots[j].weight >= 0x7FFF_FFFF
        invariant bestWeight < 0x7FFF_FFFF ==> best < i && slots[best].weight == bestWeight
        invariant bestWeight < 0x7FFF_FFFF ==> forall j :: 0 <= j < best ==> bestWeight < slots[j].weight
      {
        AgingStops(slots[i].weight);
        slots[i] := slots[i].(weight := Aged(slots[i].weight));
        if slots[i].weight < bestWeight { bestWeight, best := slots[i].weight, i; }
        i := i + 1;
      }
    }

    /** Reads through the cache. A successful read gives what the device holds; failures come from the device
        or from a range outside it. */
    method Read(sector: nat, count: nat) returns (r: int, data: seq<Sector>, ghost at: nat)
      requires Valid() && sector < U64 && count < 0x1_0000
      modifies slots, bd`faults, bd`asked
      ensures Valid()
      ensures r == count > 0 ==> sector + count <= bd.sectorCount && data == bd.disk[sector..sector + count]
      ensures count > 0 && bd.sectorCount < sector + count ==> r == -EIO && bd.faults == old(bd.faults)
      ensures r != count && sector + count <= bd.sectorCount ==> bd.faults > old(bd.faults)
      ensures count == 0 ==> r == 0 && bd.faults == old(bd.faults)
      ensures r <= count && bd.faults >= old(bd.faults)
      ensures var was, now := old(slots[..]), slots[..];
              if !(bd.sectorSize == 512 && 0 < count < 8 && sector + count <= bd.sectorCount) then
                now == was && bd.asked == old(bd.asked) + if 0 < count && sector + count <= bd.sectorCount then 1 else 0
              else if Cached(was, sector, count) then
                bd.asked == old(bd.asked) && r == count && Touched(was, now, at, sector, count)
              else
                bd.asked == old(bd.asked) + 1 && Replaced(was, now, at, sector, count, r == count)
      ensures r == count && 0 < count < 8 && bd.sectorSize == 512 && sector + 8 < U64 ==>
                Cached(slots[..], sector, count)
    {
      at := 0;
      data := [];
      if count == 0 { return 0, data, at; }
      if bd.sectorCount <= sector || bd.sectorCount - sector < count { return -EIO, data, at; }
      if bd.sectorSize != 512 || SECTORS_PER_BLOCK <= count {
        r, data := bd.Read(sector, count);
        return;
      }
      var hit := Lookup(sector, count);
      if hit < BLOCK_COUNT {
        var slot := slots[hit];
        HitIsKept(bd.disk, slot, sector, count);
        at := hit;
        slots[hit] := slot.(weight := (if slot.weight < 0 then 0 else slot.weight) + count * WEIGHT_FACTOR);
        assert Contains(slots[..][hit].sector, sector, count);
        data := slot.data[sector - slot.sector..sector - slot.sector + count];
        return count, data, at;
      }
      r, data, at := Fill(sector, count);
    }

    /** A miss: the lightest block is emptied, filled from the device as far as that reaches, and read. */
    method Fill(sector: nat, count: nat) returns (r: int, data: seq<Sector>, ghost best: nat)
      requires Valid() && 0 < count < SECTORS_PER_BLOCK && sector + count <= bd.sectorCount
      modifies slots, bd`faults, bd`asked
      ensures Valid() && bd.faults >= old(bd.faults)
      ensures r == count ==> data == bd.disk[sector..sector + count]
      ensures r != count ==> r < 0 && bd.faults > old(bd.faults)
      ensures bd.asked == old(bd.asked) + 1
      ensures Replaced(old(slots[..]), slots[..], best, sector, count, r == count)
      ensures r == count && sector + 8 < U64 ==> Cached(slots[..], sector, count)
    {
      hide Aged, Contains, Overlaps;
      var lightest := Evict();
      ghost var aged := slots[..];
      best := lightest;
      var n := SECTORS_PER_BLOCK;
      if bd.sectorCount - sector < n { n := bd.sectorCount - sector; }
      slots[lightest] := slots[lightest].(sector := NONE);
      var got;
      got, data := bd.Read(sector, n);
      slots[lightest] := slots[lightest].(data := data);
      if got != n { return if got < 0 then got else -EIO, data, best; }
      slots[lightest] := slots[lightest].(sector := sector);
      slots[lightest] := slots[lightest].(weight := count * WEIGHT_FACTOR);
      data := data[..count];
      r := count;
      assert slots[..] == aged[lightest := slots[lightest]];
      if sector + SECTORS_PER_BLOCK < U64 {
        ContainsMeans(sector, sector, count);
        assert Contains(slots[..][best].sector, sector, count);
      }
    }

    /** Empties every block that overlaps the range. */
    method Invalidate(sector: nat, count: nat)
      requires Valid()
      modifies slots
      ensures Valid()
      ensures forall i :: 0 <= i < BLOCK_COUNT ==>
                slots[i] == if Overlaps(old(slots[i]).sector, sector, count) then old(slots[i]).(sector := NONE)
                    else old(slots[i])
    {
      var i := 0;
      while i < BLOCK_COUNT
        invariant i <= BLOCK_COUNT && Valid()
        invariant forall j :: 0 <= j < BLOCK_COUNT ==>
                    slots[j] == if j < i && Overlaps(old(slots[j]).sector, sector, count)
                        then old(slots[j]).(sector := NONE) else old(slots[j])
      {
        if Overlaps(slots[i].sector, sector, count) { slots[i] := slots[i].(sector := NONE); }
        i := i + 1;
      }
    }

    /** Writes to the device, as a direct write would; whatever it leaves there, no stale block survives, unless
        the device reaches up to where the sum wraps. */
    method Write(sector: nat, data: seq<Sector>) returns (r: int)
      requires Valid() && sector < U64 && |data| < 0x1_0000
      modifies slots, bd`disk, bd`faults
      ensures sector + |data| < U64 || bd.sectorCount <= sector ==> Valid()
      ensures r <= |data| && Confined(old(bd.disk), bd.disk, sector, |data|)
      ensures r == |data| > 0 ==>
                && sector + |data| <= bd.sectorCount && bd.disk == Written(old(bd.disk), sector, data)
                && bd.faults == old(bd.faults)
      ensures r != |data| && sector + |data| <= bd.sectorCount ==> bd.faults > old(bd.faults)
      ensures bd.faults >= old(bd.faults)
      ensures |data| == 0 ==> r == 0 && bd.faults == old(bd.faults)
      ensures forall i :: 0 <= i < slots.Length ==>
                slots[i] == if Overlaps(old(slots[i]).sector, sector, |data|) then old(slots[i]).(sector := NONE)
                    else old(slots[i])
    {
      Invalidate(sector, |data|);
      ghost var before := bd.disk;
      r := bd.Write(sector, data);
      forall i | 0 <= i < BLOCK_COUNT && (sector + |data| < U64 || bd.sectorCount <= sector)
        ensures Faithful(bd.disk, slots[i])
      {
        if !Overlaps(slots[i].sector, sector, |data|) { SparedIsRight(before, bd.disk, slots[i], sector, |data|); }
      }
    }
  }

  // ----- whole runs -----

  datatype Op = Get(sector: nat, count: nat) | Put(sector: nat, data: seq<Sector>)
  {
    function Size(): nat { if Get? then count else |data| }

    /** What the interface can pass; a range may lie outside the device, but must not wrap on it. */
    predicate Askable(size: nat) {
      sector < U64 && Size() < 0x1_0000 && (sector + Size() < U64 || size <= sector)
    }
  }

  /** What an operation returns, and the sectors it delivers. */
  datatype Reply = Reply(r: int, data: seq<Sector>)

  /** What a device without a cache may answer and do: all of what was asked for, or, as on any device that fails,
      an error, with anything left in the range of a write. */
  ghost predicate Plain(disk: seq<Sector>, op: Op, a: Reply, disk': seq<Sector>) {
    && a.r <= op.Size()
    && match op
       case Get(sector, count) =>
         disk' == disk && (a.r == count > 0 ==> sector + count <= |disk| && a.data == disk[sector..sector + count])
       case Put(sector, data) =>
         && Confined(disk, disk', sector, |data|)
         && (a.r == |data| > 0 ==> sector + |data| <= |disk| && disk' == Written(disk, sector, data))
  }

  ghost predicate Full(size: nat, op: Op, a: Reply) {
    op.sector + op.Size() <= size ==> a.r == op.Size()
  }

  /** Every run, with transfers failing at any time: operation by operation the answers and the sectors on the
      device are those of a device without a cache, whatever was cached before; `disks[k]` is what it holds before
      operation `k`. If no transfer failed, all that asks for sectors of the device gets them. */
  method Replay(c: Cache, ops: seq<Op>) returns (replies: seq<Reply>, ghost disks: seq<seq<Sector>>)
    requires c.Valid() && forall k :: 0 <= k < |ops| ==> ops[k].Askable(c.bd.sectorCount)
    modifies c.slots, c.bd`disk, c.bd`faults, c.bd`asked
    ensures c.Valid() && c.bd.faults >= old(c.bd.faults) && |replies| == |ops| && |disks| == |ops| + 1
    ensures disks[0] == old(c.bd.disk) && disks[|ops|] == c.bd.disk
    ensures forall k :: 0 <= k < |ops| ==> Plain(disks[k], ops[k], replies[k], disks[k + 1])
    ensures c.bd.faults == old(c.bd.faults) ==>
              forall k :: 0 <= k < |ops| ==> Full(c.bd.sectorCount, ops[k], replies[k])
  {
    hide Plain, Full;
    replies, disks := [], [c.bd.disk];
    for i := 0 to |ops|
      invariant c.Valid() && c.bd.faults >= old(c.bd.faults) && |replies| == i && |disks| == i + 1
      invariant disks[0] == old(c.bd.disk) && disks[i] == c.bd.disk
      invariant forall k :: 0 <= k < i ==> Plain(disks[k], ops[k], replies[k], disks[k + 1])
      invariant c.bd.faults == old(c.bd.faults) ==>
                  forall k :: 0 <= k < i ==> Full(c.bd.sectorCount, ops[k], replies[k])
    {
      var a := Step(c, ops[i]);
      replies, disks := replies + [a], disks + [c.bd.disk];
    }
  }

  method Step(c: Cache, op: Op) returns (a: Reply)
    requires c.Valid() && op.Askable(c.bd.sectorCount)
    modifies c.slots, c.bd`disk, c.bd`faults, c.bd`asked
    ensures c.Valid() && c.bd.faults >= old(c.bd.faults) && Plain(old(c.bd.disk), op, a, c.bd.disk)
    ensures c.bd.faults == old(c.bd.faults) ==> Full(c.bd.sectorCount, op, a)
  {
    var r, data := 0, [];
    match op {
      case Get(sector, count) =>
        ghost var at;
        r, data, at := c.Read(sector, count);
      case Put(sector, d) =>
        r := c.Write(sector, d);
    }
    a := Reply(r, data);
  }

  /** A part of what is cached is cached, also after a write elsewhere. */
  lemma StillCached(slots: seq<Slot>, slots': seq<Slot>, sector: nat, count: nat, n: nat, other: nat, m: nat)
    requires Cached(slots, sector, count) && 0 < n <= count < 8 && sector + 8 < U64 && other + m < U64
    requires other + m <= sector - 7 || sector + 8 <= other
    requires forall i :: 0 <= i < |slots| ==> slots[i].sector < U64
    requires |slots'| == |slots| && forall i :: 0 <= i < |slots| && !Overlaps(slots[i].sector, other, m) ==>
               slots'[i] == slots[i]
    ensures Cached(slots', sector, n)
  {
    var i :| 0 <= i < |slots| && Contains(slots[i].sector, sector, count);
    assert slots[i].sector + 8 < U64 && sector - 7 <= slots[i].sector;
    assert slots'[i] == slots[i] && Contains(slots'[i].sector, sector, n);
  }

  /** What a read has brought in is read again without the device, in any part, also after a write elsewhere. */
  method ReadAgain(c: Cache, sector: nat, count: nat, n: nat, other: nat, data: seq<Sector>)
      returns (first: int, second: int, ghost between: nat)
    requires c.Valid() && c.bd.sectorSize == 512 && 0 < n <= count < 8 && sector + count <= c.bd.sectorCount
    requires other + |data| <= c.bd.sectorCount && |data| < 0x1_0000 && sector + 8 < U64
    requires other + |data| <= sector - 7 || sector + 8 <= other
    modifies c.slots, c.bd`disk, c.bd`faults, c.bd`asked
    ensures between <= old(c.bd.asked) + 1
    ensures first == count ==> second == n && c.bd.asked == between
  {
    hide Contains, Overlaps, Aged;
    ghost var at;
    var got;
    first, got, at := c.Read(sector, count);
    between := c.bd.asked;
    ghost var was := c.slots[..];
    var _ := c.Write(other, data);
    if first == count { StillCached(was, c.slots[..], sector, count, n, other, |data|); }
    second, got, at := c.Read(sector, n);
  }
}
