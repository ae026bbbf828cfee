/**
 The layout of a FAT12, FAT16, FAT32 or exFAT volume, as pure functions of its sectors:
 where an entry of the file allocation table and a bit of the allocation bitmap live, and
 what changing one byte of them does to all the others. Sectors hold 512 bytes.
 */
module FatLayout {

  const SS := 512

  type Byte = b: int | 0 <= b < 256

  type Sector = s: seq<Byte> | |s| == SS witness seq(SS, _ => 0)

  type Image = seq<Sector>

  type Pos = n: int | 1 <= n witness 1

  const BLANK: Sector := seq(SS, _ => 0)

  datatype Kind = Fat12 | Fat16 | Fat32 | ExFat

  /** What mounting learns about a volume. Cluster numbers run over 2..nFatent-1. */
  datatype Geometry = Geometry(kind: Kind, nFatent: nat, fatbase: nat, fsize: nat, nFats: nat,
                               database: nat, csize: Pos, bitbase: nat, sectors: nat)
  {
    predicate Valid() {
      && 3 <= nFatent <= MaxEntries()
      && 1 <= nFats <= 2 && (kind.ExFat? ==> nFats == 1)
      && 1 <= fatbase
      && fatbase + (if nFats == 2 then 2 * fsize else fsize) <= database
      && FatBytes() <= fsize * SS
      && database <= sectors < 0x1_0000_0000_0000_0000
      && (kind.ExFat? ==> database <= bitbase && bitbase + BitSectors() <= sectors)
    }

    /** The data area holds every cluster. */
    predicate Roomy() {
      2 <= nFatent && Start(this, nFatent) <= sectors
    }

    /** The largest table the mount accepts; one less on exFAT, so that "end of chain" is no successor. */
    function MaxEntries(): nat {
      match kind
      case Fat12 => 0xFF7
      case Fat16 => 0xFFF7
      case Fat32 => 0x0FFF_FFF7
      case ExFat => 0x7FFF_FFFE
    }

    /** Bytes the table needs. */
    function FatBytes(): nat {
      match kind
      case Fat12 => nFatent * 3 / 2 + nFatent % 2
      case Fat16 => nFatent * 2
      case Fat32 => nFatent * 4
      case ExFat => nFatent * 4
    }

    function BitSectors(): nat
      requires 2 <= nFatent
    {
      (nFatent - 2 + 4095) / 4096
    }

    predicate InFat(s: int) { fatbase <= s < fatbase + fsize }

    /** The second copy of the table, which nothing ever reads. */
    predicate InMirror(s: int) { nFats == 2 && fatbase + fsize <= s < fatbase + 2 * fsize }

    predicate InBitmap(s: int)
      requires 2 <= nFatent
    {
      kind.ExFat? && bitbase <= s < bitbase + BitSectors()
    }

    predicate IsCluster(c: int) { 2 <= c < nFatent }
  }

  // ----- sectors and clusters -----
  // Division by the cluster size is spelled out as repeated subtraction, which keeps it linear.

  /** Cluster, counted from the start of a file, of the file's sector `k` ... */
  function Nth(g: Geometry, k: nat): nat {
    if k < g.csize then 0 else Nth(g, k - g.csize) + 1
  }

  /** ... and the place in that cluster. */
  function Off(g: Geometry, k: nat): nat {
    if k < g.csize then k else Off(g, k - g.csize)
  }

  /** First sector of cluster `c`. */
  function Start(g: Geometry, c: nat): nat {
    if c <= 2 then g.database else Start(g, c - 1) + g.csize
  }

  /** First sector of what may be a cluster; 0 for what is none. */
  function ClusterSector(g: Geometry, clst: nat): nat
    requires 2 <= g.nFatent
  {
    if clst < 2 || g.nFatent - 2 <= clst - 2 then 0 else Start(g, clst)
  }

  /** These are quotient, remainder and product. */
  lemma NthOff(g: Geometry, k: nat)
    ensures k == g.csize * Nth(g, k) + Off(g, k) && Off(g, k) < g.csize
  {
    if g.csize <= k {
      NthOff(g, k - g.csize);
      assert g.csize * (Nth(g, k - g.csize) + 1) == g.csize * Nth(g, k - g.csize) + g.csize;
    }
  }

  lemma OffSmall(g: Geometry, k: nat)
    ensures Off(g, k) < g.csize
  {
  }

  lemma NthMonotone(g: Geometry, a: nat, b: nat)
    requires a <= b
    ensures Nth(g, a) <= Nth(g, b)
  {
    if g.csize <= a { NthMonotone(g, a - g.csize, b - g.csize); }
  }

  /** Stepping on inside a cluster. */
  lemma NthWithin(g: Geometry, k: nat, i: nat)
    requires Off(g, k) + i < g.csize
    ensures Nth(g, k + i) == Nth(g, k) && Off(g, k + i) == Off(g, k) + i
  {
    if g.csize <= k { NthWithin(g, k - g.csize, i); }
  }

  /** The sector before is in the cluster before exactly when this one is the first of its cluster. */
  lemma NthBefore(g: Geometry, k: nat)
    requires k > 0
    ensures Nth(g, k) == if Off(g, k) == 0 then Nth(g, k - 1) + 1 else Nth(g, k - 1)
  {
    if g.csize < k { NthBefore(g, k - g.csize); }
  }

  lemma NthOffInjective(g: Geometry, k: nat, m: nat)
    requires Nth(g, k) == Nth(g, m) && Off(g, k) == Off(g, m)
    ensures k == m
  {
    if g.csize <= k && g.csize <= m { NthOffInjective(g, k - g.csize, m - g.csize); }
  }

  lemma StartIs(g: Geometry, c: nat)
    requires 2 <= c
    ensures Start(g, c) == g.database + g.csize * (c - 2)
  {
    if c > 2 {
      StartIs(g, c - 1);
      assert g.csize * (c - 2) == g.csize * (c - 3) + g.csize;
    }
  }

  /** Clusters follow each other from the start of the data area on, and no other number has sectors. */
  lemma ClusterSectorIs(g: Geometry, c: nat)
    requires 2 <= g.nFatent && 0 < g.database
    ensures ClusterSector(g, c) == if 2 <= c < g.nFatent then g.database + g.csize * (c - 2) else 0
    ensures ClusterSector(g, c) != 0 <==> g.IsCluster(c)
  {
    if 2 <= c {
      StartIs(g, c);
      assert g.csize * (c - 2) >= 0;
    }
  }

  lemma StartApart(g: Geometry, c: nat, d: nat)
    requires 2 <= c < d
    ensures g.database <= Start(g, c) && Start(g, c) + g.csize <= Start(g, d)
  {
    if c + 1 < d { StartApart(g, c, d - 1); }
  }

  lemma StartInside(g: Geometry, c: nat)
    requires g.Valid() && g.Roomy() && g.IsCluster(c)
    ensures g.database <= Start(g, c) && Start(g, c) + g.csize <= g.sectors
  {
    StartApart(g, c, g.nFatent);
  }

  /** What storing `val` in an entry leaves to be read back. */
  function Stored(kind: Kind, val: nat): nat {
    match kind
    case Fat12 => val % 0x1000
    case Fat16 => val % 0x1_0000
    case Fat32 => val % 0x1000_0000
    case ExFat => val % 0x8000_0000
  }

  /** The volume as the file system sees it: the disk with the window laid over it and the second
      table copy blanked out. */
  function ViewOf(g: Geometry, disk: Image, win: Sector, winsect: nat): (v: Image)
    ensures |v| == |disk|
  {
    seq(|disk|, s requires 0 <= s < |disk| =>
      if g.InMirror(s) then BLANK else if s == winsect then win else disk[s])
  }

  // ----- the table as a string of bytes -----

  function ByteOffset(kind: Kind, c: nat): nat {
    match kind
    case Fat12 => c + c / 2
    case Fat16 => 2 * c
    case Fat32 => 4 * c
    case ExFat => 4 * c
  }

  function EntryBytes(kind: Kind): nat {
    if kind.Fat12? || kind.Fat16? then 2 else 4
  }

  predicate Holds(kind: Kind, t: seq<Byte>, c: nat) {
    ByteOffset(kind, c) + EntryBytes(kind) <= |t|
  }

  /** A table of `FatBytes` bytes holds all entries, and no shorter one does. */
  lemma TableFits(g: Geometry, t: seq<Byte>)
    requires 1 <= g.nFatent
    ensures g.FatBytes() <= |t| <==> forall c: nat :: c < g.nFatent ==> Holds(g.kind, t, c)
  {
    if forall c: nat :: c < g.nFatent ==> Holds(g.kind, t, c) { assert Holds(g.kind, t, g.nFatent - 1); }
  }

  /** The sectors of the bitmap have a bit for every cluster, and one sector less has not. */
  lemma BitmapFits(g: Geometry)
    requires 2 <= g.nFatent
    ensures g.nFatent - 2 <= 4096 * g.BitSectors()
    ensures 0 < g.BitSectors() ==> 4096 * (g.BitSectors() - 1) < g.nFatent - 2
  {
  }

  function Word32(b0: Byte, b1: Byte, b2: Byte, b3: Byte): (w: nat)
    ensures w < 0x1_0000_0000
  {
    b0 + 0x100 * (b1 + 0x100 * (b2 + 0x100 * b3))
  }

  function WordAt(t: seq<Byte>, k: nat): (w: nat)
    requires k + 4 <= |t|
    ensures w < 0x1_0000_0000
  {
    Word32(t[k], t[k + 1], t[k + 2], t[k + 3])
  }

  /** A FAT12 entry from the 16-bit word at its two bytes. */
  function Read12(c: nat, p: Byte, q: Byte): (e: nat)
    ensures e == if c % 2 == 1 then p / 16 + 16 * q else p + 0x100 * (q % 16)
  {
    var wc: int := p + 0x100 * q;
    Remainder(wc, 0x1000, q / 16, p + 0x100 * (q % 16));
    Remainder(wc, 16, p / 16 + 16 * q, p % 16);
    if c % 2 == 1 then wc / 16 else wc % 0x1000
  }

  /** Odd FAT12 entries own the high half of their first byte, even ones the low half of their second. */
  function Decode(kind: Kind, t: seq<Byte>, c: nat): nat
    requires Holds(kind, t, c)
  {
    var k := ByteOffset(kind, c);
    match kind
    case Fat12 => if c % 2 == 1 then t[k] / 16 + 16 * t[k + 1] else t[k] + 0x100 * (t[k + 1] % 16)
    case Fat16 => t[k] + 0x100 * t[k + 1]
    case Fat32 => Stored(kind, WordAt(t, k))
    case ExFat => Stored(kind, WordAt(t, k))
  }

  /** Half a byte of the table, the low half first. */
  function Nibble(t: seq<Byte>, n: nat): nat
    requires n / 2 < |t|
  {
    if n % 2 == 0 then t[n / 2] % 16 else t[n / 2] / 16
  }

  /** `n` half bytes from `k` on, as a number, the lowest digit first. */
  function Number(t: seq<Byte>, k: nat, n: nat): (x: nat)
    requires k + n <= 2 * |t|
    decreases n
  {
    if n == 0 then 0 else Nibble(t, k) + 16 * Number(t, k + 1, n - 1)
  }

  /** The format of a table: entry `c` is the number in three half bytes from `3 * c` on, in four from `4 * c` on,
      in seven, or seven and three bits of another one, from `8 * c` on. */
  lemma EntryIsNumber(kind: Kind, t: seq<Byte>, c: nat)
    requires Holds(kind, t, c)
    ensures kind.Fat12? ==> Decode(kind, t, c) == Number(t, 3 * c, 3)
    ensures kind.Fat16? ==> Decode(kind, t, c) == Number(t, 4 * c, 4)
    ensures kind.Fat32? ==> Decode(kind, t, c) == Number(t, 8 * c, 7)
    ensures kind.ExFat? ==> Decode(kind, t, c) == Number(t, 8 * c, 7) + 0x1000_0000 * (Nibble(t, 8 * c + 7) % 8)
  {
    hide Number, WordAt;
    match kind
    case Fat12 =>
      ThreeNibbles(t, 3 * c);
    case Fat16 => FourNibbles(t, 2 * c);
    case Fat32 => EightNibbles(t, 4 * c);
    case ExFat => EightNibbles(t, 4 * c);
  }

  lemma ThreeNibbles(t: seq<Byte>, k: nat)
    requires k + 3 <= 2 * |t|
    ensures Number(t, k, 3) == Nibble(t, k) + 16 * Nibble(t, k + 1) + 0x100 * Nibble(t, k + 2)
  {
    hide Nibble;
    assert Number(t, k + 2, 1) == Nibble(t, k + 2) + 16 * Number(t, k + 3, 0);
    assert Number(t, k + 1, 2) == Nibble(t, k + 1) + 16 * Number(t, k + 2, 1);
  }

  lemma TwoNibbles(t: seq<Byte>, k: nat, n: nat)
    requires k < |t| && 2 * k + 2 + n <= 2 * |t|
    ensures Number(t, 2 * k, n + 2) == t[k] + 0x100 * Number(t, 2 * k + 2, n)
    ensures Nibble(t, 2 * k) == t[k] % 16 && Nibble(t, 2 * k + 1) == t[k] / 16
  {
    assert Number(t, 2 * k, n + 2) == Nibble(t, 2 * k) + 16 * Number(t, 2 * k + 1, n + 1);
    assert Number(t, 2 * k + 1, n + 1) == Nibble(t, 2 * k + 1) + 16 * Number(t, 2 * k + 2, n);
  }

  lemma FourNibbles(t: seq<Byte>, k: nat)
    requires k + 2 <= |t|
    ensures Number(t, 2 * k, 4) == t[k] as nat + 0x100 * t[k + 1] as nat
  {
    TwoNibbles(t, k, 2);
    TwoNibbles(t, k + 1, 0);
  }

  lemma EightNibbles(t: seq<Byte>, k: nat)
    requires k + 4 <= |t|
    ensures WordAt(t, k) % 0x1000_0000 == Number(t, 2 * k, 7)
    ensures WordAt(t, k) % 0x8000_0000 == Number(t, 2 * k, 7) + 0x1000_0000 * (Nibble(t, 2 * k + 7) % 8)
  {
    hide Number, Nibble;
    TwoNibbles(t, k, 5);
    TwoNibbles(t, k + 1, 3);
    TwoNibbles(t, k + 2, 1);
    TwoNibbles(t, k + 3, 0);
    OneNibble(t, 2 * k + 6);
    TopNibble(t[k], t[k + 1], t[k + 2], t[k + 3], Number(t, 2 * k, 7));
  }

  lemma OneNibble(t: seq<Byte>, k: nat)
    requires k + 1 < 2 * |t|
    ensures Number(t, k, 1) == Nibble(t, k)
  {
  }

  lemma TopNibble(b0: Byte, b1: Byte, b2: Byte, b3: Byte, low: nat)
    requires low == b0 + 0x100 * (b1 + 0x100 * (b2 + 0x100 * (b3 % 16)))
    ensures Word32(b0, b1, b2, b3) % 0x1000_0000 == low
    ensures Word32(b0, b1, b2, b3) % 0x8000_0000 == low + 0x1000_0000 * (b3 / 16 % 8)
  {
    var w: nat, top: nat := Word32(b0, b1, b2, b3), b3 / 16;
    assert w == low + 0x1000_0000 * top;
    Remainder(w, 0x1000_0000, top, low);
    Remainder(w, 0x8000_0000, top / 8, low + 0x1000_0000 * (top % 8));
  }

  /** First and second byte of a FAT12 entry after storing `val` over the bytes `p` and `q`. */
  function Low12(c: nat, val: nat, p: Byte): Byte {
    if c % 2 == 1 then p % 16 + val % 16 * 16 else val % 256
  }

  function High12(c: nat, val: nat, q: Byte): Byte {
    if c % 2 == 1 then val / 16 % 256 else q / 16 * 16 + val / 256 % 16
  }

  /** Byte `i` of a little-endian word. */
  function Digit(val: nat, i: nat): Byte
    requires i < 4
  {
    if i == 0 then val % 0x100
    else if i == 1 then val / 0x100 % 0x100
    else if i == 2 then val / 0x100 / 0x100 % 0x100
    else val / 0x100 / 0x100 / 0x100 % 0x100
  }

  lemma Digits(word: nat)
    ensures Word32(Digit(word, 0), Digit(word, 1), Digit(word, 2), Digit(word, 3)) == word % 0x1_0000_0000
  {
    var q1 := word / 0x100;
    var q2 := q1 / 0x100;
    var q3 := q2 / 0x100;
    var q4 := q3 / 0x100;
    Remainder(word, 0x1_0000_0000, q4, Word32(word % 0x100, q1 % 0x100, q2 % 0x100, q3 % 0x100));
  }

  lemma Remainder(x: nat, d: nat, q: nat, r: nat)
    requires x == d * q + r && r < d
    ensures x % d == r && x / d == q
  {
    var q' := x / d;
    assert x == d * q' + x % d;
    if q' < q {
      MulStep(d, q', q);
    } else if q < q' {
      MulStep(d, q, q');
    }
  }

  lemma MulStep(d: nat, a: nat, b: nat)
    requires a < b
    ensures d * a + d <= d * b
  {
    assert d * b == d * (a + 1) + d * (b - a - 1);
  }

  /** The byte the table holds at offset `ByteOffset(kind, c) + i` after `val` is stored in entry `c`.
      FAT32 keeps the top four bits of the old word; exFAT stores all 32 bits. */
  function NewByte(kind: Kind, t: seq<Byte>, c: nat, val: nat, i: nat): Byte
    requires Holds(kind, t, c) && i < EntryBytes(kind)
  {
    var k := ByteOffset(kind, c);
    match kind
    case Fat12 => if i == 0 then Low12(c, val, t[k]) else High12(c, val, t[k + 1])
    case Fat16 => Digit(val, i)
    case Fat32 => Digit(NewWord(kind, val, WordAt(t, k)), i)
    case ExFat => Digit(NewWord(kind, val, WordAt(t, k)), i)
  }

  function NewWord(kind: Kind, val: nat, was: nat): (w: nat) {
    if kind.Fat32? then val % 0x1000_0000 + was / 0x1000_0000 * 0x1000_0000 else val
  }

  function Encode(kind: Kind, t: seq<Byte>, c: nat, val: nat): (t': seq<Byte>)
    requires Holds(kind, t, c)
    ensures |t'| == |t|
  {
    var k := ByteOffset(kind, c);
    var t2 := t[k := NewByte(kind, t, c, val, 0)][k + 1 := NewByte(kind, t, c, val, 1)];
    if EntryBytes(kind) == 2 then t2
    else t2[k + 2 := NewByte(kind, t, c, val, 2)][k + 3 := NewByte(kind, t, c, val, 3)]
  }

  /** Replacing the first byte of a FAT12 entry disturbs no other entry, even one sharing the byte. */
  lemma FirstByteAlone(t: seq<Byte>, c: nat, val: nat, d: nat)
    requires Holds(Fat12, t, c) && Holds(Fat12, t, d) && c != d
    ensures Decode(Fat12, t[c + c / 2 := Low12(c, val, t[c + c / 2])], d) == Decode(Fat12, t, d)
  {
    if c % 2 == 1 && d == c - 1 {
      assert d + d / 2 + 1 == c + c / 2;
    } else {
      assert c + c / 2 != d + d / 2 && c + c / 2 != d + d / 2 + 1;
    }
  }

  lemma SecondByteAlone(t: seq<Byte>, c: nat, val: nat, d: nat)
    requires Holds(Fat12, t, c) && Holds(Fat12, t, d) && c != d
    ensures Decode(Fat12, t[c + c / 2 + 1 := High12(c, val, t[c + c / 2 + 1])], d) == Decode(Fat12, t, d)
  {
    if c % 2 == 0 && d == c + 1 {
      assert d + d / 2 == c + c / 2 + 1;
    } else {
      assert c + c / 2 + 1 != d + d / 2 && c + c / 2 + 1 != d + d / 2 + 1;
    }
  }

  lemma Encode12(t: seq<Byte>, c: nat, val: nat, d: nat)
    requires Holds(Fat12, t, c) && Holds(Fat12, t, d)
    ensures Decode(Fat12, Encode(Fat12, t, c, val), d) == if d == c then val % 0x1000 else Decode(Fat12, t, d)
  {
    var k := c + c / 2;
    var t1 := t[k := Low12(c, val, t[k])];
    assert Encode(Fat12, t, c, val) == t1[k + 1 := High12(c, val, t1[k + 1])];
    if d != c {
      FirstByteAlone(t, c, val, d);
      SecondByteAlone(t1, c, val, d);
    } else {
      Join12(c, val, t[k], t[k + 1]);
    }
  }

  lemma Join12(c: nat, val: nat, p: Byte, q: Byte)
    ensures c % 2 == 1 ==> Low12(c, val, p) / 16 + 16 * High12(c, val, q) == val % 0x1000
    ensures c % 2 == 0 ==> Low12(c, val, p) + 0x100 * (High12(c, val, q) % 16) == val % 0x1000
  {
    if c % 2 == 1 {
      var l, m := val % 16, val / 16;
      Remainder(p % 16 + l * 16, 16, l, p % 16);
      Remainder(val, 0x1000, m / 256, 16 * (m % 256) + l);
    } else {
      var l, m := val % 256, val / 256;
      Remainder(q / 16 * 16 + m % 16, 16, q / 16, m % 16);
      Remainder(val, 0x1000, m / 16, 256 * (m % 16) + l);
    }
  }

  lemma Encode32(kind: Kind, t: seq<Byte>, c: nat, val: nat, d: nat)
    requires kind.Fat32? || kind.ExFat?
    requires Holds(kind, t, c) && Holds(kind, t, d)
    ensures Decode(kind, Encode(kind, t, c, val), d) == if d == c then Stored(kind, val) else Decode(kind, t, d)
  {
    var k, j := 4 * c, 4 * d;
    var t' := Encode(kind, t, c, val);
    if d == c {
      var was := WordAt(t, k);
      var word := NewWord(kind, val, was);
      assert t'[k] == Digit(word, 0) && t'[k + 1] == Digit(word, 1) && t'[k + 2] == Digit(word, 2)
             && t'[k + 3] == Digit(word, 3);
      Digits(word);
      Wrapped(word);
      if kind.Fat32? {
        Remainder(word, 0x1000_0000, was / 0x1000_0000, val % 0x1000_0000);
      }
    } else {
      assert j + 4 <= k || k + 4 <= j;
      assert t'[j] == t[j] && t'[j + 1] == t[j + 1] && t'[j + 2] == t[j + 2] && t'[j + 3] == t[j + 3];
    }
  }

  lemma Wrapped(word: nat)
    ensures word % 0x1_0000_0000 % 0x8000_0000 == word % 0x8000_0000
    ensures word % 0x1_0000_0000 % 0x1000_0000 == word % 0x1000_0000
  {
    var q, r := word / 0x1_0000_0000, word % 0x1_0000_0000;
    Remainder(word, 0x8000_0000, 2 * q + r / 0x8000_0000, r % 0x8000_0000);
    Remainder(word, 0x1000_0000, 16 * q + r / 0x1000_0000, r % 0x1000_0000);
  }

  /** Storing a value makes exactly its entry read back, and leaves every other entry as it was. */
  lemma EncodeDecodes(kind: Kind, t: seq<Byte>, c: nat, val: nat, d: nat)
    requires Holds(kind, t, c) && Holds(kind, t, d)
    ensures Decode(kind, Encode(kind, t, c, val), d) == if d == c then Stored(kind, val) else Decode(kind, t, d)
  {
    match kind
    case Fat12 => Encode12(t, c, val, d);
    case Fat16 => Encode16(t, c, val, d);
    case _ => Encode32(kind, t, c, val, d);
  }

  lemma Encode16(t: seq<Byte>, c: nat, val: nat, d: nat)
    requires Holds(Fat16, t, c) && Holds(Fat16, t, d)
    ensures Decode(Fat16, Encode(Fat16, t, c, val), d) == if d == c then val % 0x1_0000 else Decode(Fat16, t, d)
  {
  }

  /** The reserved top four bits of a FAT32 entry survive a store. */
  lemma Fat32KeepsTopBits(t: seq<Byte>, c: nat, val: nat)
    requires Holds(Fat32, t, c)
    ensures Encode(Fat32, t, c, val)[4 * c + 3] / 16 == t[4 * c + 3] / 16
  {
    var k := 4 * c;
    TopBits(t[k], t[k + 1], t[k + 2], t[k + 3]);
    TopDigit(val % 0x1000_0000, t[k + 3] / 16);
  }

  lemma TopBits(b0: Byte, b1: Byte, b2: Byte, b3: Byte)
    ensures Word32(b0, b1, b2, b3) / 0x1000_0000 == b3 / 16
  {
    Remainder(Word32(b0, b1, b2, b3), 0x1000_0000, b3 / 16, b0 + 0x100 * (b1 + 0x100 * (b2 + 0x100 * (b3 % 16))));
  }

  lemma TopDigit(low: nat, top: nat)
    requires low < 0x1000_0000 && top < 16
    ensures Digit(low + top * 0x1000_0000, 3) / 16 == top
  {
    assert (low + top * 0x1000_0000) / 0x100 == low / 0x100 + top * 0x10_0000;
    assert (low + top * 0x1000_0000) / 0x100 / 0x100 == low / 0x100 / 0x100 + top * 0x1000;
    assert (low + top * 0x1000_0000) / 0x100 / 0x100 / 0x100 == low / 0x100 / 0x100 / 0x100 + top * 0x10;
  }

  // ----- table entries on the volume -----

  predicate Fits(g: Geometry, v: Image) {
    g.Valid() && |v| == g.sectors
  }

  function TableOf(g: Geometry, v: Image): (t: seq<Byte>)
    requires Fits(g, v)
    ensures |t| == g.fsize * SS
  {
    seq(g.fsize * SS, k requires 0 <= k < g.fsize * SS => v[g.fatbase + k / SS][k % SS])
  }

  lemma EntryHolds(g: Geometry, t: seq<Byte>, c: nat)
    requires g.Valid() && |t| == g.fsize * SS && c < g.nFatent
    ensures Holds(g.kind, t, c)
  {
    match g.kind
    case Fat12 => LastEntryFits(c, g.nFatent);
    case _ =>
  }

  lemma LastEntryFits(c: nat, n: nat)
    requires c < n
    ensures c + c / 2 + 1 < n * 3 / 2 + n % 2
  {
    var m := n / 2;
    assert n * 3 / 2 == 3 * m + n % 2;
    assert c / 2 <= m;
  }

  function Entry(g: Geometry, v: Image, c: nat): (e: nat)
    requires Fits(g, v) && c < g.nFatent
  {
    EntryHolds(g, TableOf(g, v), c);
    Decode(g.kind, TableOf(g, v), c)
  }

  function FatOf(g: Geometry, v: Image): (fat: seq<nat>)
    requires Fits(g, v)
    ensures |fat| == g.nFatent
  {
    seq(g.nFatent, c requires 0 <= c < g.nFatent => Entry(g, v, c))
  }

  /** The view with one byte of the table replaced. */
  function WithFatByte(g: Geometry, v: Image, k: int, b: Byte): (v': Image)
    requires Fits(g, v) && 0 <= k < g.fsize * SS
    ensures Fits(g, v')
    ensures TableOf(g, v') == TableOf(g, v)[k := b]
  {
    var v' := v[g.fatbase + k / SS := v[g.fatbase + k / SS][k % SS := b]];
    assert forall j :: 0 <= j < g.fsize * SS && j != k ==> j / SS != k / SS || j % SS != k % SS;
    v'
  }

  lemma TableStores(g: Geometry, v: Image, w: Image, c: nat, val: nat)
    requires Fits(g, v) && Fits(g, w) && c < g.nFatent
    requires Holds(g.kind, TableOf(g, v), c) && TableOf(g, w) == Encode(g.kind, TableOf(g, v), c, val)
    ensures FatOf(g, w) == FatOf(g, v)[c := Stored(g.kind, val)]
  {
    forall d: nat | d < g.nFatent
      ensures Entry(g, w, d) == if d == c then Stored(g.kind, val) else Entry(g, v, d)
    {
      EntryHolds(g, TableOf(g, v), d);
      EncodeDecodes(g.kind, TableOf(g, v), c, val, d);
    }
  }

  // ----- the allocation bitmap -----

  predicate Bit(b: nat, j: nat) {
    if j == 0 then b % 2 == 1 else Bit(b / 2, j - 1)
  }

  function Flip(b: nat, j: nat): nat {
    if j == 0 then if b % 2 == 1 then b - 1 else b + 1
    else b % 2 + 2 * Flip(b / 2, j - 1)
  }

  function Pow2(n: nat): (p: nat)
    ensures p >= 1
  {
    if n == 0 then 1 else 2 * Pow2(n - 1)
  }

  lemma {:induction false} FlipBelow(b: nat, j: nat, n: nat)
    requires j < n && b < Pow2(n)
    ensures Flip(b, j) < Pow2(n)
  {
    var h, half := b / 2, Pow2(n - 1);
    assert b == 2 * h + b % 2 && Pow2(n) == 2 * half && h < half;
    if j > 0 {
      FlipBelow(h, j - 1, n - 1);
      assert Flip(b, j) == b % 2 + 2 * Flip(h, j - 1);
    }
  }

  function FlipByte(b: Byte, j: nat): (r: Byte)
    requires j < 8
  {
    assert Pow2(8) == 256 by { assert Pow2(3) == 8 && Pow2(5) == 32 && Pow2(7) == 128; }
    FlipBelow(b, j, 8);
    Flip(b, j)
  }

  /** Bit `j` is the binary digit of weight 2^j, and it is 1 for what is allocated. */
  lemma {:induction false} BitIs(b: nat, j: nat)
    ensures Bit(b, j) <==> b / Pow2(j) % 2 == 1
  {
    if j > 0 {
      BitIs(b / 2, j - 1);
      HalfFirst(b, Pow2(j - 1));
    }
  }

  lemma HalfFirst(b: nat, p: nat)
    requires p >= 1
    ensures b / 2 / p == b / (2 * p)
  {
    var h := b / 2;
    var q := h / p;
    assert h == p * q + h % p && b == 2 * h + b % 2;
    assert b == 2 * p * q + (2 * (h % p) + b % 2) by { assert 2 * (p * q) == 2 * p * q; }
    Remainder(b, 2 * p, q, 2 * (h % p) + b % 2);
  }

  lemma {:induction false} FlipOnlyOne(b: nat, j: nat, i: nat)
    ensures Bit(Flip(b, j), i) == if i == j then !Bit(b, j) else Bit(b, i)
  {
    if j > 0 && i > 0 {
      FlipOnlyOne(b / 2, j - 1, i - 1);
    }
  }

  /** Bit `k` of the bitmap, which stands for cluster `k + 2`. */
  predicate MapBit(g: Geometry, v: Image, k: nat)
    requires Fits(g, v) && g.kind.ExFat? && k < g.nFatent - 2
  {
    Bit(v[g.bitbase + k / 4096][k / 8 % SS], k % 8)
  }

  lemma MapBitIs(g: Geometry, v: Image, k: nat)
    requires Fits(g, v) && g.kind.ExFat? && k < g.nFatent - 2
    ensures MapBit(g, v, k) <==> v[g.bitbase + k / 4096][k / 8 % SS] / Pow2(k % 8) % 2 == 1
  {
    BitIs(v[g.bitbase + k / 4096][k / 8 % SS], k % 8);
  }

  /** The clusters free for allocation: zero entries of the table, or clear bits on exFAT. */
  ghost predicate IsFree(g: Geometry, v: Image, c: nat)
    requires Fits(g, v) && g.IsCluster(c)
  {
    if g.kind.ExFat? then !MapBit(g, v, c - 2) else Entry(g, v, c) == 0
  }

  ghost function FreeOf(g: Geometry, v: Image): set<nat>
    requires Fits(g, v)
  {
    set c: nat | 2 <= c < g.nFatent && IsFree(g, v, c)
  }

  function WithBit(g: Geometry, v: Image, k: nat): (v': Image)
    requires Fits(g, v) && g.kind.ExFat? && k < g.nFatent - 2
  {
    var s := g.bitbase + k / 4096;
    v[s := v[s][k / 8 % SS := FlipByte(v[s][k / 8 % SS], k % 8)]]
  }

  lemma WithBitFlips(g: Geometry, v: Image, k: nat, i: nat)
    requires Fits(g, v) && g.kind.ExFat? && k < g.nFatent - 2 && i < g.nFatent - 2
    ensures MapBit(g, WithBit(g, v, k), i) == if i == k then !MapBit(g, v, k) else MapBit(g, v, i)
  {
    var s, o := g.bitbase + k / 4096, k / 8 % SS;
    FlipOnlyOne(v[s][o], k % 8, i % 8);
    BitPlace(i, k);
  }

  lemma BitPlace(i: nat, k: nat)
    ensures i / 4096 == k / 4096 && i / 8 % SS == k / 8 % SS && i % 8 == k % 8 <==> i == k
  {
    assert i / 4096 == i / 8 / SS && k / 4096 == k / 8 / SS;
  }

  // ----- what depends on which sectors -----

  lemma TableFrame(g: Geometry, v: Image, w: Image)
    requires Fits(g, v) && Fits(g, w)
    requires forall s :: 0 <= s < |v| && g.InFat(s) ==> v[s] == w[s]
    ensures FatOf(g, v) == FatOf(g, w)
  {
    forall k | 0 <= k < g.fsize * SS
      ensures TableOf(g, v)[k] == TableOf(g, w)[k]
    {
      assert g.InFat(g.fatbase + k / SS);
    }
    assert TableOf(g, v) == TableOf(g, w);
  }

  lemma BitmapFrame(g: Geometry, v: Image, w: Image)
    requires Fits(g, v) && Fits(g, w) && g.kind.ExFat?
    requires forall s :: 0 <= s < |v| && g.InBitmap(s) ==> v[s] == w[s]
    ensures forall k: nat :: k < g.nFatent - 2 ==> MapBit(g, v, k) == MapBit(g, w, k)
    ensures FreeOf(g, v) == FreeOf(g, w)
  {
    forall k: nat | k < g.nFatent - 2
      ensures MapBit(g, v, k) == MapBit(g, w, k)
    {
      assert g.InBitmap(g.bitbase + k / 4096);
    }
    assert forall c: nat :: 2 <= c < g.nFatent ==> IsFree(g, v, c) == IsFree(g, w, c);
  }

  /** `w` is `v` with nothing but table entries in `own` changed. */
  ghost predicate TableOnly(g: Geometry, v: Image, w: Image, own: set<nat>) {
    && Fits(g, v) && Fits(g, w)
    && (forall s :: 0 <= s < |v| && !g.InFat(s) ==> v[s] == w[s])
    && (forall c: nat :: c < g.nFatent && c !in own ==> FatOf(g, w)[c] == FatOf(g, v)[c])
  }

  lemma TableOnlyTwice(g: Geometry, u: Image, v: Image, w: Image, own: set<nat>, c: nat)
    requires TableOnly(g, u, v, own) && TableOnly(g, v, w, {c}) && c in own
    ensures TableOnly(g, u, w, own)
  {
    hide FatOf;
  }

  lemma TableOnlyMore(g: Geometry, v: Image, w: Image, own: set<nat>, more: set<nat>)
    requires TableOnly(g, v, w, own) && own <= more
    ensures TableOnly(g, v, w, more)
  {
    hide FatOf;
  }

  lemma TableOnlyNothing(g: Geometry, v: Image, own: set<nat>)
    requires Fits(g, v)
    ensures TableOnly(g, v, v, own)
  {
  }

  /** A FAT12 store that got no further than the first byte disturbs no other entry. */
  lemma HalfStored(g: Geometry, v: Image, w: Image, c: nat, val: nat)
    requires Fits(g, v) && Fits(g, w) && g.kind.Fat12? && c < g.nFatent && Holds(g.kind, TableOf(g, v), c)
    requires TableOf(g, w) == TableOf(g, v)[c + c / 2 := Low12(c, val, TableOf(g, v)[c + c / 2])]
    requires forall s :: 0 <= s < |v| && !g.InFat(s) ==> v[s] == w[s]
    ensures TableOnly(g, v, w, {c})
  {
    hide TableOf, Decode, Low12;
    forall d: nat | d < g.nFatent && d != c
      ensures FatOf(g, w)[d] == FatOf(g, v)[d]
    {
      EntryHolds(g, TableOf(g, v), d);
      FirstByteAlone(TableOf(g, v), c, val, d);
    }
  }
}
