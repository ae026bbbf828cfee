/**
 A block device as the block-device manager sees it: numbered sectors, reads and writes that
 say how many sectors they transferred. Any transfer may fail or stop short; then a read
 leaves anything in the caller's buffer and a write anything in the sectors it was aimed at.
 */
module BlockDevice {

  type Byte = b: int | 0 <= b < 256

  type Sector = seq<Byte>

  const U64: nat := 0x1_0000_0000_0000_0000

  const EIO := 5

  /** `disk` with `data` written from `sector` on. */
  function Written(disk: seq<Sector>, sector: nat, data: seq<Sector>): (r: seq<Sector>)
    requires sector + |data| <= |disk|
    ensures |r| == |disk|
    ensures forall s :: 0 <= s < |disk| ==> r[s] == if sector <= s < sector + |data| then data[s - sector] else disk[s]
  {
    disk[..sector] + data + disk[sector + |data|..]
  }

  /** Nothing outside `sector..sector + count` changed. */
  ghost predicate Confined(before: seq<Sector>, after: seq<Sector>, sector: nat, count: nat) {
    |after| == |before| && forall s :: 0 <= s < |before| && !(sector <= s < sector + count) ==> after[s] == before[s]
  }

  class Device {
    const sectorSize: nat
    const sectorCount: nat
    var disk: seq<Sector>
    ghost var faults: nat    // transfers within the device that did not complete so far
    ghost var asked: nat     // how often it was asked for sectors

    ghost predicate Valid()
      reads this
    {
      |disk| == sectorCount < U64
    }

    constructor (sectorSize: nat, disk: seq<Sector>)
      requires |disk| < U64
      ensures Valid() && this.disk == disk && this.sectorSize == sectorSize && faults == 0 && asked == 0
    {
      this.sectorSize := sectorSize;
      this.sectorCount := |disk|;
      this.disk := disk;
      this.faults := 0;
      this.asked := 0;
    }

    method Read(sector: nat, count: nat) returns (r: int, data: seq<Sector>)
      requires Valid()
      modifies this`faults, this`asked
      ensures |data| == count && r <= count && asked == old(asked) + 1
      ensures r == count > 0 ==>
                sector + count <= sectorCount && data == disk[sector..sector + count] && faults == old(faults)
      ensures r != count ==> faults == old(faults) + if sector + count <= sectorCount then 1 else 0
      ensures count == 0 ==> r == 0 && faults == old(faults)
    {
      data := seq(count, _ => []);
      r := 0;
      asked := asked + 1;
      if count == 0 { return; }
      var ok: bool := *;
      if ok && sector + count <= sectorCount {
        data := disk[sector..sector + count];
        r := count;
      } else {
        var short: int := *;
        r := if short < count then short else -EIO;
        if sector + count <= sectorCount { faults := faults + 1; }
      }
    }

    method Write(sector: nat, data: seq<Sector>) returns (r: int)
      requires Valid()
      modifies this`disk, this`faults
      ensures Valid() && r <= |data| && Confined(old(disk), disk, sector, |data|)
      ensures r == |data| > 0 ==>
                sector + |data| <= sectorCount && disk == Written(old(disk), sector, data) && faults == old(faults)
      ensures r != |data| ==> faults == old(faults) + if sector + |data| <= sectorCount then 1 else 0
      ensures |data| == 0 ==> r == 0 && faults == old(faults)
    {
      r := 0;
      if |data| == 0 { return; }
      var ok: bool := *;
      if ok && sector + |data| <= sectorCount {
        disk := Written(disk, sector, data);
        r := |data|;
      } else {
        var short: int := *;
        r := if short < |data| then short else -EIO;
        if sector + |data| <= sectorCount { faults := faults + 1; }
        var junk: seq<Sector> := *;
        var n := if sector + |data| <= sectorCount then |data| else if sector <= sectorCount then sectorCount - sector
            else 0;
        if |junk| == n && n > 0 { disk := Written(disk, sector, junk); }
      }
    }
  }
}
