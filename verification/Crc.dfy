/**
 The checksums of the SD-card driver in their fast forms, against shift registers that take
 one bit at a time.
 */
module Crc {

  // ----- CRC-7, polynomial x^7 + x^3 + 1 -----

  const POLY: bv8 := 0x89

  /** The register, kept in the upper seven bits, moves one place. */
  function Bit7(c: bv8): bv8 {
    if c & 0x80 != 0 then (c << 1) ^ (POLY << 1) else c << 1
  }

  function Xor(a: bv8, b: bv8): bv8 { a ^ b }

  /** One place up, and one place down. */
  function Up(c: bv8): bv8 { c << 1 }

  function Down(c: bv8): bv8 { c >> 1 }

  function Bits7(c: bv8, n: nat): bv8 {
    if n == 0 then c else Bit7(Bits7(c, n - 1))
  }

  /** The register after a message, bit by bit. */
  function Register7(m: seq<bv8>): bv8 {
    if m == [] then 0 else Bits7(Xor(Register7(m[..|m| - 1]), m[|m| - 1]), 8)
  }

  function Serial7(m: seq<bv8>): bv8 { Down(Register7(m)) }

  /** One step in making a table entry, which is kept in the lower seven bits. */
  function Shift(e: bv8): bv8 {
    if (e << 1) & 0x80 != 0 then (e << 1) ^ POLY else e << 1
  }

  function Shifts(e: bv8, n: nat): bv8 {
    if n == 0 then e else Shift(Shifts(e, n - 1))
  }

  function First(i: bv8): bv8 { if i & 0x80 != 0 then i ^ POLY else i }

  function Entry(i: bv8): bv8 { Shifts(First(i), 7) }

  lemma OneShift(e: bv8)
    requires e < 0x80
    ensures Shift(e) << 1 == Bit7(e << 1) && Shift(e) < 0x80
  {
  }

  lemma FirstShift(i: bv8)
    ensures First(i) << 1 == Bit7(i) && First(i) < 0x80
  {
  }

  lemma {:induction false} ShiftsAreBits(i: bv8, n: nat)
    ensures Shifts(First(i), n) << 1 == Bits7(i, n + 1) && Shifts(First(i), n) < 0x80
  {
    hide Shift, Bit7, First;
    if n == 0 {
      FirstShift(i);
      assert Bits7(i, 1) == Bit7(i) by { assert Bits7(i, 0) == i; }
    } else {
      ShiftsAreBits(i, n - 1);
      OneShift(Shifts(First(i), n - 1));
    }
  }

  /** A table entry is eight bits of the serial form, one place lower. */
  lemma EntryIsByte(i: bv8)
    ensures Up(Entry(i)) == Bits7(i, 8) && Low7(Entry(i))
  {
    ShiftsAreBits(i, 7);
  }

  /** The table holds for each byte what the register makes of it. */
  ghost predicate Generated(table: seq<bv8>) {
    |table| == 256 && forall x: bv8 :: table[x as nat] == Entry(x)
  }

  /** The generator of the table, for builds that keep it in RAM. */
  method GenerateTable() returns (table: seq<bv8>)
    ensures Generated(table)
  {
    hide Shift, First;
    table := [];
    for i := 0 to 256
      invariant |table| == i && forall k :: 0 <= k < i ==> table[k] == Entry(k as bv8)
    {
      var e := First(i as bv8);
      for j := 1 to 8
        invariant e == Shifts(First(i as bv8), j - 1)
      {
        e := Shift(e);
      }
      table := table + [e];
    }
    forall x: bv8
      ensures table[x as nat] == Entry(x)
    {
      IndexBack(x);
    }
  }

  /** The table that is compiled into the driver, in rows of sixteen. */
  function RomRow(r: nat): (row: seq<bv8>)
    ensures |row| == 16
  {
    match r
    case 0 => [0x00, 0x09, 0x12, 0x1B, 0x24, 0x2D, 0x36, 0x3F, 0x48, 0x41, 0x5A, 0x53, 0x6C, 0x65, 0x7E, 0x77]
    case 1 => [0x19, 0x10, 0x0B, 0x02, 0x3D, 0x34, 0x2F, 0x26, 0x51, 0x58, 0x43, 0x4A, 0x75, 0x7C, 0x67, 0x6E]
    case 2 => [0x32, 0x3B, 0x20, 0x29, 0x16, 0x1F, 0x04, 0x0D, 0x7A, 0x73, 0x68, 0x61, 0x5E, 0x57, 0x4C, 0x45]
    case 3 => [0x2B, 0x22, 0x39, 0x30, 0x0F, 0x06, 0x1D, 0x14, 0x63, 0x6A, 0x71, 0x78, 0x47, 0x4E, 0x55, 0x5C]
    case 4 => [0x64, 0x6D, 0x76, 0x7F, 0x40, 0x49, 0x52, 0x5B, 0x2C, 0x25, 0x3E, 0x37, 0x08, 0x01, 0x1A, 0x13]
    case 5 => [0x7D, 0x74, 0x6F, 0x66, 0x59, 0x50, 0x4B, 0x42, 0x35, 0x3C, 0x27, 0x2E, 0x11, 0x18, 0x03, 0x0A]
    case 6 => [0x56, 0x5F, 0x44, 0x4D, 0x72, 0x7B, 0x60, 0x69, 0x1E, 0x17, 0x0C, 0x05, 0x3A, 0x33, 0x28, 0x21]
    case 7 => [0x4F, 0x46, 0x5D, 0x54, 0x6B, 0x62, 0x79, 0x70, 0x07, 0x0E, 0x15, 0x1C, 0x23, 0x2A, 0x31, 0x38]
    case 8 => [0x41, 0x48, 0x53, 0x5A, 0x65, 0x6C, 0x77, 0x7E, 0x09, 0x00, 0x1B, 0x12, 0x2D, 0x24, 0x3F, 0x36]
    case 9 => [0x58, 0x51, 0x4A, 0x43, 0x7C, 0x75, 0x6E, 0x67, 0x10, 0x19, 0x02, 0x0B, 0x34, 0x3D, 0x26, 0x2F]
    case 10 => [0x73, 0x7A, 0x61, 0x68, 0x57, 0x5E, 0x45, 0x4C, 0x3B, 0x32, 0x29, 0x20, 0x1F, 0x16, 0x0D, 0x04]
    case 11 => [0x6A, 0x63, 0x78, 0x71, 0x4E, 0x47, 0x5C, 0x55, 0x22, 0x2B, 0x30, 0x39, 0x06, 0x0F, 0x14, 0x1D]
    case 12 => [0x25, 0x2C, 0x37, 0x3E, 0x01, 0x08, 0x13, 0x1A, 0x6D, 0x64, 0x7F, 0x76, 0x49, 0x40, 0x5B, 0x52]
    case 13 => [0x3C, 0x35, 0x2E, 0x27, 0x18, 0x11, 0x0A, 0x03, 0x74, 0x7D, 0x66, 0x6F, 0x50, 0x59, 0x42, 0x4B]
    case 14 => [0x17, 0x1E, 0x05, 0x0C, 0x33, 0x3A, 0x21, 0x28, 0x5F, 0x56, 0x4D, 0x44, 0x7B, 0x72, 0x69, 0x60]
    case _ => [0x0E, 0x07, 0x1C, 0x15, 0x2A, 0x23, 0x38, 0x31, 0x46, 0x4F, 0x54, 0x5D, 0x62, 0x6B, 0x70, 0x79]
  }

  const ROM: seq<bv8> := seq(256, i requires 0 <= i < 256 => RomRow(i / 16)[i % 16])

  lemma EntryIsSeven(i: bv8)
    ensures Entry(i) == Shift(Shift(Shift(Shift(Shift(Shift(Shift(First(i))))))))
  {
    hide Shift, First;
    var f := First(i);
    assert Shifts(f, 0) == f;
    assert Shifts(f, 2) == Shift(Shifts(f, 1));
    assert Shifts(f, 4) == Shift(Shifts(f, 3));
    assert Shifts(f, 6) == Shift(Shifts(f, 5));
  }

  lemma LowerRows(i: bv8)
    requires i < 0x80
    ensures RomRow((i >> 4) as nat)[(i & 15) as nat] == Shift(Shift(Shift(Shift(Shift(Shift(Shift(First(i))))))))
  {
  }

  lemma UpperRows(i: bv8)
    requires i >= 0x80
    ensures RomRow((i >> 4) as nat)[(i & 15) as nat] == Shift(Shift(Shift(Shift(Shift(Shift(Shift(First(i))))))))
  {
  }

  lemma RowAndColumn(i: bv8)
    ensures (i as nat) / 16 == (i >> 4) as nat && (i as nat) % 16 == (i & 15) as nat
  {
  }

  lemma RomEntry(i: bv8)
    ensures |ROM| == 256 && ROM[i as nat] == Entry(i)
  {
    hide Shift, First, RomRow, Entry;
    EntryIsSeven(i);
    RowAndColumn(i);
    if i < 0x80 {
      LowerRows(i);
    } else {
      UpperRows(i);
    }
  }

  /** The compiled table is the one that the generator would make. */
  lemma RomIsGenerated()
    ensures Generated(ROM)
  {
    hide Entry, RomRow;
    forall x: bv8
      ensures ROM[x as nat] == Entry(x)
    {
      RomEntry(x);
    }
  }

  /** The checksum as the driver is built: by the compiled table. */
  method Crc7(m: seq<bv8>) returns (crc: bv8)
    ensures crc == Serial7(m)
  {
    hide Generated;
    RomIsGenerated();
    crc := Crc7Table(ROM, m);
  }

  /** The checksum of the command that resets a card, which is sent as 0x95: seven bits and an end bit. */
  lemma ResetCommand()
    ensures Serial7([]) == 0 && Serial7([0x40, 0, 0, 0, 0]) == 0x4A
  {
    hide Register7, Xor;
    var m: seq<bv8> := [0x40, 0, 0, 0, 0];
    Next7(m, 0, 0, 0xC8);
    Next7(m, 1, 0xC8, 0xDA);
    Next7(m, 2, 0xDA, 0xCC);
    Next7(m, 3, 0xCC, 0x92);
    Next7(m, 4, 0x92, 0x94);
    assert m[..5] == m;
  }

  /** The register after the first `k` bytes and after one more. */
  lemma Next7(m: seq<bv8>, k: nat, c: bv8, d: bv8)
    requires k < |m| && (if k == 0 then c == 0 else Register7(m[..k]) == c)
    requires d == Bit7(Bit7(Bit7(Bit7(Bit7(Bit7(Bit7(Bit7(c ^ m[k]))))))))
    ensures Register7(m[..k + 1]) == d && Register7([]) == 0
  {
    hide Bit7;
    EightBits(c ^ m[k]);
    assert m[..k + 1][..k] == m[..k];
  }

  lemma EightBits(c: bv8)
    ensures Bits7(c, 8) == Bit7(Bit7(Bit7(Bit7(Bit7(Bit7(Bit7(Bit7(c))))))))
  {
    hide Bit7;
    assert Bits7(c, 0) == c;
    assert Bits7(c, 2) == Bit7(Bits7(c, 1));
    assert Bits7(c, 4) == Bit7(Bits7(c, 3));
    assert Bits7(c, 6) == Bit7(Bits7(c, 5));
  }

  /** The checksum by table. */
  method Crc7Table(table: seq<bv8>, m: seq<bv8>) returns (crc: bv8)
    requires Generated(table)
    ensures crc == Serial7(m)
  {
    hide Entry, Bits7, Xor, Up, Down, Low7;
    crc := 0;
    StartsAtZero();
    for i := 0 to |m|
      invariant Low7(crc) && Up(crc) == Register7(m[..i])
    {
      var x := Xor(Up(crc), m[i]);
      EntryIsByte(x);
      assert m[..i + 1][..i] == m[..i];
      crc := table[x as nat];
    }
    LowerSeven(crc);
    assert m[..|m|] == m;
  }

  predicate Low7(c: bv8) { c < 0x80 }

  lemma LowerSeven(c: bv8)
    requires Low7(c)
    ensures Down(Up(c)) == c
  {
  }

  lemma StartsAtZero()
    ensures Up(0) == 0 && Low7(0)
  {
  }

  lemma IndexBack(x: bv8)
    ensures (x as nat) < 256 && (x as nat) as bv8 == x
  {
  }

  /** The checksum without a table. */
  method Crc7Runtime(m: seq<bv8>) returns (crc: bv8)
    ensures crc == Serial7(m)
  {
    hide Bit7, Xor, Down;
    crc := 0;
    for i := 0 to |m|
      invariant crc == Register7(m[..i])
    {
      assert m[..i + 1][..i] == m[..i];
      crc := Xor(crc, m[i]);
      ghost var c := crc;
      for j := 0 to 8
        invariant crc == Bits7(c, j)
      {
        crc := Bit7(crc);
      }
    }
    assert m[..|m|] == m;
    crc := Down(crc);
  }

  // ----- CRC-16, polynomial x^16 + x^12 + x^5 + 1 -----

  /** The 16-bit register moves one place, and the bit that falls out is fed back at 0, 5 and 12. */
  function Bit16(c: bv32): bv32 {
    ((c << 1) ^ (c >> 15) ^ ((c >> 15) << 5) ^ ((c >> 15) << 12)) & 0xFFFF
  }

  function Bits16(c: bv32, n: nat): bv32 {
    if n == 0 then c else Bit16(Bits16(c, n - 1))
  }

  /** A byte enters the register at the top. */
  function Enter(c: bv32, b: bv8): bv32 { c ^ ((b as bv32) << 8) }

  function Byte16(c: bv32, b: bv8): bv32 { Bits16(Enter(c, b), 8) }

  /** The checksum bit by bit. */
  function Serial16(m: seq<bv8>): bv32 {
    if m == [] then 0 else Byte16(Serial16(m[..|m| - 1]), m[|m| - 1])
  }

  /** One step of the word-at-a-time form, on a 32-bit register that is never masked. */
  function WordStep(poly: bv32, lo: bv8, hi: bv8): bv32 {
    var w := (lo as bv32) | ((hi as bv32) << 8);
    var di := ((w << 8) & 0xFF00) | ((w >> 8) & 0xFF);
    var p1 := poly ^ (((poly ^ di) >> 4) & 0x0F00);
    var p2 := p1 ^ (((p1 ^ di) >> 4) & 0x00F0);
    var p3 := p2 ^ (((p2 ^ di) >> 11) & 0x001F);
    var p4 := p3 ^ (((p3 ^ di) >> 4) & 0x000F);
    var p5 := p4 ^ di;
    p5 ^ (p5 << 5) ^ (p5 << 12)
  }

  function Low(p: bv32): bv32 { p & 0xFFFF }

  predicate Low16(c: bv32) { c <= 0xFFFF }

  /** Four places at once. */
  function Nibble(c: bv32): bv32 {
    ((c << 4) ^ (c >> 12) ^ ((c >> 12) << 5) ^ ((c >> 12) << 12)) & 0xFFFF
  }

  lemma FourBits(c: bv32)
    requires Low16(c)
    ensures Bit16(Bit16(Bit16(Bit16(c)))) == Nibble(c)
  {
  }

  lemma NibbleLow(c: bv32)
    ensures Low16(Nibble(c)) && Low16(Low(c))
  {
  }

  lemma EnterLow(c: bv32, b: bv8)
    requires Low16(c)
    ensures Low16(Enter(c, b))
  {
  }

  lemma BitsNibble(c: bv32, n: nat)
    requires Low16(Bits16(c, n))
    ensures Bits16(c, n + 4) == Nibble(Bits16(c, n))
  {
    hide Bit16, Nibble, Low16;
    FourBits(Bits16(c, n));
    assert Bits16(c, n + 2) == Bit16(Bits16(c, n + 1));
  }

  /** A byte in two nibbles. */
  function Fold(c: bv32, e: bv8): bv32 {
    var x := c ^ ((e as bv32) << 8);
    var a := ((x << 4) ^ (x >> 12) ^ ((x >> 12) << 5) ^ ((x >> 12) << 12)) & 0xFFFF;
    ((a << 4) ^ (a >> 12) ^ ((a >> 12) << 5) ^ ((a >> 12) << 12)) & 0xFFFF
  }

  lemma FoldOut(c: bv32, e: bv8)
    ensures
      var x := c ^ ((e as bv32) << 8);
      var a := ((x << 4) ^ (x >> 12) ^ ((x >> 12) << 5) ^ ((x >> 12) << 12)) & 0xFFFF;
      Enter(c, e) == x && Nibble(x) == a && Fold(c, e) == Nibble(a)
  {
  }

  lemma FoldIs(c: bv32, e: bv8)
    ensures Fold(c, e) == Nibble(Nibble(Enter(c, e)))
  {
    hide *;
    FoldOut(c, e);
  }

  lemma FoldIsByte(c: bv32, e: bv8)
    requires Low16(c)
    ensures Fold(c, e) == Byte16(c, e) && Low16(Byte16(c, e))
  {
    hide Fold, Nibble, Enter, Low16, Bit16;
    var x := Enter(c, e);
    EnterLow(c, e);
    assert Bits16(x, 0) == x;
    BitsNibble(x, 0);
    NibbleLow(x);
    BitsNibble(x, 4);
    NibbleLow(Nibble(x));
    FoldIs(c, e);
  }

  /** The step over a word written out beside two bytes in nibbles. */
  lemma WrittenOut(poly: bv32, lo: bv8, hi: bv8)
    ensures
      var w := (lo as bv32) | ((hi as bv32) << 8);
      var di := ((w << 8) & 0xFF00) | ((w >> 8) & 0xFF);
      var p1 := poly ^ (((poly ^ di) >> 4) & 0x0F00);
      var p2 := p1 ^ (((p1 ^ di) >> 4) & 0x00F0);
      var p3 := p2 ^ (((p2 ^ di) >> 11) & 0x001F);
      var p4 := p3 ^ (((p3 ^ di) >> 4) & 0x000F);
      var p5 := p4 ^ di;
      var x := (poly & 0xFFFF) ^ ((lo as bv32) << 8);
      var a := ((x << 4) ^ (x >> 12) ^ ((x >> 12) << 5) ^ ((x >> 12) << 12)) & 0xFFFF;
      var b := ((a << 4) ^ (a >> 12) ^ ((a >> 12) << 5) ^ ((a >> 12) << 12)) & 0xFFFF;
      var y := b ^ ((hi as bv32) << 8);
      var c := ((y << 4) ^ (y >> 12) ^ ((y >> 12) << 5) ^ ((y >> 12) << 12)) & 0xFFFF;
      var d := ((c << 4) ^ (c >> 12) ^ ((c >> 12) << 5) ^ ((c >> 12) << 12)) & 0xFFFF;
      && Low(p5 ^ (p5 << 5) ^ (p5 << 12)) == d && WordStep(poly, lo, hi) == p5 ^ (p5 << 5) ^ (p5 << 12)
      && Fold(poly & 0xFFFF, lo) == b && Fold(b, hi) == d && Low(poly) == poly & 0xFFFF
  {
  }

  lemma WordFolds(poly: bv32, lo: bv8, hi: bv8)
    ensures Low(WordStep(poly, lo, hi)) == Fold(Fold(Low(poly), lo), hi)
  {
    hide *;
    WrittenOut(poly, lo, hi);
  }

  /** A step over a little-endian word is two bytes of the serial form, and the upper half of the register has
      no effect on it. */
  lemma WordIsTwoBytes(poly: bv32, lo: bv8, hi: bv8)
    ensures Low(WordStep(poly, lo, hi)) == Byte16(Byte16(Low(poly), lo), hi)
  {
    hide WordStep, Byte16, Low, Fold, Low16;
    NibbleLow(poly);
    WordFolds(poly, lo, hi);
    FoldIsByte(Low(poly), lo);
    FoldIsByte(Byte16(Low(poly), lo), hi);
  }

  lemma {:induction false} SerialPair(m: seq<bv8>, i: nat)
    requires i + 1 < |m|
    ensures Serial16(m[..i + 2]) == Byte16(Byte16(Serial16(m[..i]), m[i]), m[i + 1])
  {
    hide Byte16;
    assert m[..i + 2][..i + 1] == m[..i + 1] && m[..i + 1][..i] == m[..i];
  }

  lemma Nothing()
    ensures Low(0) == 0 && Serial16([]) == 0
  {
  }

  lemma Next16(m: seq<bv8>, k: nat, c: bv32, d: bv32)
    requires k < |m| && (if k == 0 then c == 0 else Serial16(m[..k]) == c) && Low16(c) && Fold(c, m[k]) == d
    ensures Serial16(m[..k + 1]) == d
  {
    hide Fold, Byte16;
    FoldIsByte(c, m[k]);
    assert m[..k + 1][..k] == m[..k];
  }

  /** The checksum of the digits 1 to 9, by which this polynomial is commonly told from others. */
  lemma NineDigits()
    ensures Serial16([0x31, 0x32, 0x33, 0x34, 0x35, 0x36, 0x37, 0x38, 0x39]) == 0x31C3
  {
    hide Serial16;
    var m: seq<bv8> := [0x31, 0x32, 0x33, 0x34, 0x35, 0x36, 0x37, 0x38, 0x39];
    Next16(m, 0, 0, 0x2672);
    Next16(m, 1, 0x2672, 0x20B5);
    Next16(m, 2, 0x20B5, 0x9752);
    Next16(m, 3, 0x9752, 0xD789);
    Next16(m, 4, 0xD789, 0x546C);
    Next16(m, 5, 0x546C, 0x20E4);
    Next16(m, 6, 0x20E4, 0x86D6);
    Next16(m, 7, 0x86D6, 0x9015);
    Next16(m, 8, 0x9015, 0x31C3);
    assert m[..9] == m;
  }

  /** The checksum as the driver computes it; an odd last byte is left out. */
  method Crc16(m: seq<bv8>) returns (crc: bv32)
    ensures crc == Serial16(m[..2 * (|m| / 2)])
  {
    hide Low, Byte16, WordStep, Serial16;
    var poly: bv32 := 0;
    var i := 0;
    Nothing();
    assert m[..0] == [];
    while i < |m| / 2
      invariant 0 <= i <= |m| / 2 && Low(poly) == Serial16(m[..2 * i])
    {
      WordIsTwoBytes(poly, m[2 * i], m[2 * i + 1]);
      SerialPair(m, 2 * i);
      poly := WordStep(poly, m[2 * i], m[2 * i + 1]);
      i := i + 1;
    }
    crc := Low(poly);
  }
}
