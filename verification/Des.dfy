/**
 The DES block cipher of the SMB client, with its round function left open: what makes it
 invertible does not depend on the S-boxes.
 */
module Des {

  type Block = b: seq<bv8> | |b| == 8 witness [0, 0, 0, 0, 0, 0, 0, 0]

  type Key = (bv32, bv32)

  type Words = (bv32, bv32)

  // ----- moving bits between words -----

  /** Swaps the bits of `b` under a mask with those of `a` under the mask moved up, for each shift and mask that
      is used; doing it twice undoes it. */
  function Perm1(a: bv32, b: bv32): Words {
    var t := ((a >> 1) ^ b) & 0x55555555;
    (a ^ (t << 1), b ^ t)
  }

  lemma Twice1(a: bv32, b: bv32)
    ensures var p := Perm1(a, b); Perm1(p.0, p.1).0 == a
    ensures var p := Perm1(a, b); Perm1(p.0, p.1).1 == b
  {
  }

  function Perm2(a: bv32, b: bv32): Words {
    var t := ((a >> 2) ^ b) & 0x33333333;
    (a ^ (t << 2), b ^ t)
  }

  lemma Twice2(a: bv32, b: bv32)
    ensures var p := Perm2(a, b); Perm2(p.0, p.1).0 == a
    ensures var p := Perm2(a, b); Perm2(p.0, p.1).1 == b
  {
  }

  function Perm4(a: bv32, b: bv32): Words {
    var t := ((a >> 4) ^ b) & 0x0f0f0f0f;
    (a ^ (t << 4), b ^ t)
  }

  lemma Twice4(a: bv32, b: bv32)
    ensures var p := Perm4(a, b); Perm4(p.0, p.1).0 == a
    ensures var p := Perm4(a, b); Perm4(p.0, p.1).1 == b
  {
  }

  function Perm8(a: bv32, b: bv32): Words {
    var t := ((a >> 8) ^ b) & 0x00ff00ff;
    (a ^ (t << 8), b ^ t)
  }

  lemma Twice8(a: bv32, b: bv32)
    ensures var p := Perm8(a, b); Perm8(p.0, p.1).0 == a
    ensures var p := Perm8(a, b); Perm8(p.0, p.1).1 == b
  {
  }

  function Perm16(a: bv32, b: bv32): Words {
    var t := ((a >> 16) ^ b) & 0x0000ffff;
    (a ^ (t << 16), b ^ t)
  }

  lemma Twice16(a: bv32, b: bv32)
    ensures var p := Perm16(a, b); Perm16(p.0, p.1).0 == a
    ensures var p := Perm16(a, b); Perm16(p.0, p.1).1 == b
  {
  }

  /** The initial permutation, on the words of a block, as five swaps. */
  function Initial(x: Words): Words {
    var (r1, l1) := Perm4(x.1, x.0);
    var (l2, r2) := Perm16(l1, r1);
    var (r3, l3) := Perm2(r2, l2);
    var (l4, r4) := Perm8(l3, r3);
    var (r5, l5) := Perm1(r4, l4);
    (l5, r5)
  }

  /** The final permutation: the same swaps in the opposite order. */
  function Final(x: Words): Words {
    var (r1, l1) := Perm1(x.1, x.0);
    var (l2, r2) := Perm8(l1, r1);
    var (r3, l3) := Perm2(r2, l2);
    var (l4, r4) := Perm16(l3, r3);
    var (r5, l5) := Perm4(r4, l4);
    (l5, r5)
  }

  lemma FinalUndoesInitial(x: Words)
    ensures Final(Initial(x)) == x
  {
    hide Perm1, Perm2, Perm4, Perm8, Perm16;
    var (r1, l1) := Perm4(x.1, x.0);
    var (l2, r2) := Perm16(l1, r1);
    var (r3, l3) := Perm2(r2, l2);
    var (l4, r4) := Perm8(l3, r3);
    Twice4(x.1, x.0);
    Twice16(l1, r1);
    Twice2(r2, l2);
    Twice8(l3, r3);
    Twice1(r4, l4);
  }

  lemma InitialUndoesFinal(x: Words)
    ensures Initial(Final(x)) == x
  {
    hide Perm1, Perm2, Perm4, Perm8, Perm16;
    var (r1, l1) := Perm1(x.1, x.0);
    var (l2, r2) := Perm8(l1, r1);
    var (r3, l3) := Perm2(r2, l2);
    var (l4, r4) := Perm16(l3, r3);
    Twice1(x.1, x.0);
    Twice8(l1, r1);
    Twice2(r2, l2);
    Twice16(l3, r3);
    Twice4(r4, l4);
  }

  // ----- the permutations of FIPS 46-3, bit by bit -----

  function Bit(w: bv32, k: bv32): bool
    requires k < 32
  {
    (w >> k) & 1 == 1
  }

  /** Bits are numbered from the high end of the first byte on. */
  function BlockBit(m: Block, i: bv32): bool
    requires i < 64
  {
    (m[(i >> 3) as nat] >> (7 - (i & 7))) & 1 == 1
  }

  function IpRow(r: nat): (row: seq<bv32>)
    ensures |row| == 8
  {
    match r
    case 0 => [58, 50, 42, 34, 26, 18, 10, 2]
    case 1 => [60, 52, 44, 36, 28, 20, 12, 4]
    case 2 => [62, 54, 46, 38, 30, 22, 14, 6]
    case 3 => [64, 56, 48, 40, 32, 24, 16, 8]
    case 4 => [57, 49, 41, 33, 25, 17, 9, 1]
    case 5 => [59, 51, 43, 35, 27, 19, 11, 3]
    case 6 => [61, 53, 45, 37, 29, 21, 13, 5]
    case _ => [63, 55, 47, 39, 31, 23, 15, 7]
  }

  function FpRow(r: nat): (row: seq<bv32>)
    ensures |row| == 8
  {
    match r
    case 0 => [40, 8, 48, 16, 56, 24, 64, 32]
    case 1 => [39, 7, 47, 15, 55, 23, 63, 31]
    case 2 => [38, 6, 46, 14, 54, 22, 62, 30]
    case 3 => [37, 5, 45, 13, 53, 21, 61, 29]
    case 4 => [36, 4, 44, 12, 52, 20, 60, 28]
    case 5 => [35, 3, 43, 11, 51, 19, 59, 27]
    case 6 => [34, 2, 42, 10, 50, 18, 58, 26]
    case _ => [33, 1, 41, 9, 49, 17, 57, 25]
  }

  /** Bit `j` after the initial permutation is bit `IP(j)` before it, counted from 1 as in the standard. */
  function IP(j: bv32): bv32
    requires j < 64
  {
    IpRow((j >> 3) as nat)[(j & 7) as nat]
  }

  function FP(j: bv32): bv32
    requires j < 64
  {
    FpRow((j >> 3) as nat)[(j & 7) as nat]
  }

  function Pick(x: Words, first: bool): bv32 { if first then x.0 else x.1 }

  /** Where a bit of the two words comes from: from the other word if it is one of those that change places. */
  function Back(u: bool, k: bv32, n: bv32): (bool, bv32) {
    if u == (k & n != 0) then (!u, k ^ n) else (u, k)
  }

  lemma Perm1Bits(x: Words, u: bool, k: bv32)
    requires k < 32
    ensures
      var (v, m) := Back(u, k, 1);
      m < 32 && Bit(Pick(Perm1(x.1, x.0), u), k) == Bit(Pick(x, !v), m)
  {
  }

  lemma Perm2Bits(x: Words, u: bool, k: bv32)
    requires k < 32
    ensures
      var (v, m) := Back(u, k, 2);
      m < 32 && Bit(Pick(Perm2(x.1, x.0), u), k) == Bit(Pick(x, !v), m)
  {
  }

  lemma Perm4Bits(x: Words, u: bool, k: bv32)
    requires k < 32
    ensures
      var (v, m) := Back(u, k, 4);
      m < 32 && Bit(Pick(Perm4(x.1, x.0), u), k) == Bit(Pick(x, !v), m)
  {
  }

  lemma Perm8Bits(x: Words, u: bool, k: bv32)
    requires k < 32
    ensures
      var (v, m) := Back(u, k, 8);
      m < 32 && Bit(Pick(Perm8(x.1, x.0), u), k) == Bit(Pick(x, !v), m)
  {
  }

  lemma Perm16Bits(x: Words, u: bool, k: bv32)
    requires k < 32
    ensures
      var (v, m) := Back(u, k, 16);
      m < 32 && Bit(Pick(Perm16(x.1, x.0), u), k) == Bit(Pick(x, !v), m)
  {
  }

  /** The five swaps, the last one first. The words change places from swap to swap. */
  function Way(u: bool, j: bv32): (bool, bv32) {
    var (u3, k3) := LateWay(u, j);
    var (u4, k4) := Back(!u3, k3, 16);
    Back(!u4, k4, 4)
  }

  function LateWay(u: bool, j: bv32): (bool, bv32) {
    var (u1, k1) := Back(u, j, 1);
    var (u2, k2) := Back(!u1, k1, 8);
    Back(!u2, k2, 2)
  }

  function LateSwaps(x: Words): Words {
    var y := Perm2(x.1, x.0);
    var z := Perm8(y.1, y.0);
    Perm1(z.1, z.0)
  }

  lemma LateBits(x: Words, u: bool, j: bv32)
    requires j < 32
    ensures
      var (v, k) := LateWay(u, j);
      k < 32 && Bit(Pick(LateSwaps(x), u), j) == Bit(Pick(x, !v), k)
  {
    hide Perm1, Perm2, Perm8, Bit, Back, Pick;
    var y := Perm2(x.1, x.0);
    var z := Perm8(y.1, y.0);
    var (u1, k1) := Back(u, j, 1);
    Perm1Bits(z, u, j);
    var (u2, k2) := Back(!u1, k1, 8);
    Perm8Bits(y, !u1, k1);
    Perm2Bits(x, !u2, k2);
  }

  lemma InitialWay(x: Words, u: bool, j: bv32)
    requires j < 32
    ensures
      var (v, k) := Way(u, j);
      k < 32 && Bit(Pick(Initial(x), !u), j) == Bit(Pick(x, !v), k)
  {
    hide Perm1, Perm2, Perm4, Perm8, Perm16, Bit, Back, Pick, LateWay;
    var x1 := Perm4(x.1, x.0);
    var x2 := Perm16(x1.1, x1.0);
    LateBits(x2, u, j);
    var (u3, k3) := LateWay(u, j);
    var (u4, k4) := Back(!u3, k3, 16);
    Perm16Bits(x1, !u3, k3);
    Perm4Bits(x, !u4, k4);
    Exchanged(LateSwaps(x2), u);
  }

  lemma Exchanged(x: Words, u: bool)
    ensures Pick((x.1, x.0), !u) == Pick(x, u)
  {
  }

  lemma WayIs(u: bool, j: bv32)
    requires j < 32
    ensures
      var k := (((j & 3) ^ 3) << 3) | (((j >> 3) ^ 3) << 1);
      Way(u, j) == (j & 4 == 0, if u then k else k | 1)
  {
  }

  /** The bits of a block in the words that it is loaded into. */
  lemma LoadBits(m: Block, i: bv32)
    requires i < 64
    ensures BlockBit(m, i) == Bit(if i < 32 then Load(m).0 else Load(m).1, (i & 24) + (7 - (i & 7)))
  {
  }

  lemma IpIs(j: bv32)
    requires j < 32
    ensures IP(j) - 1 == ((7 - (j & 7)) << 3) + 1 + ((j >> 3) << 1)
    ensures IP(j + 32) - 1 == ((7 - (j & 7)) << 3) + ((j >> 3) << 1)
  {
  }

  lemma FpIs(j: bv32)
    requires j < 64
    ensures 1 <= FP(j) <= 64 && 1 <= IP(j) <= 64 && IP(FP(j) - 1) == j + 1
  {
  }

  function Left1(w: bv32): bv32 { (w << 1) | (w >> 31) }

  function Right1(w: bv32): bv32 { (w >> 1) | (w << 31) }

  lemma RotateBack(w: bv32)
    ensures Right1(Left1(w)) == w && Left1(Right1(w)) == w
  {
  }

  // ----- rounds -----

  function Swap(x: Words): Words { (x.1, x.0) }

  function Xor(a: bv32, b: bv32): bv32 { a ^ b }

  /** Rounds that change the two words in turn, the left one first. */
  function Rounds(f: (bv32, Key) -> bv32, keys: seq<Key>, x: Words): Words {
    if keys == [] then x else Swap(Rounds(f, keys[1..], (x.1, Xor(x.0, f(x.1, keys[0])))))
  }

  /** The last round changes the left word if it comes after an even number of rounds. */
  lemma {:induction false} LastRound(f: (bv32, Key) -> bv32, keys: seq<Key>, k: Key, x: Words)
    ensures
      var y := Rounds(f, keys, x);
      Rounds(f, keys + [k], x) == if |keys| % 2 == 0 then (Xor(y.0, f(y.1, k)), y.1) else (y.0, Xor(y.1, f(y.0, k)))
    decreases |keys|
  {
    hide Xor;
    if keys == [] {
      assert [k][1..] == [];
      assert keys + [k] == [k];
    } else {
      assert (keys + [k])[1..] == keys[1..] + [k];
      LastRound(f, keys[1..], k, (x.1, Xor(x.0, f(x.1, keys[0]))));
    }
  }

  function Reverse(keys: seq<Key>): (r: seq<Key>)
    ensures |r| == |keys|
  {
    if keys == [] then [] else [keys[|keys| - 1]] + Reverse(keys[..|keys| - 1])
  }

  /** Whatever the round function and the keys, the same rounds with the keys in reverse order lead back. */
  lemma {:induction false} RoundsBack(f: (bv32, Key) -> bv32, keys: seq<Key>, x: Words)
    ensures |keys| % 2 == 0 ==> Rounds(f, Reverse(keys), Swap(Rounds(f, keys, x))) == Swap(x)
    ensures |keys| % 2 == 1 ==> Rounds(f, Reverse(keys), Rounds(f, keys, x)) == x
    decreases |keys|
  {
    hide Xor;
    if keys != [] {
      var n := |keys| - 1;
      var front, k := keys[..n], keys[n];
      assert keys == front + [k];
      LastRound(f, front, k, x);
      RoundsBack(f, front, x);
      var y, z := Rounds(f, front, x), Rounds(f, keys, x);
      assert Reverse(keys)[1..] == Reverse(front);
      if n % 2 == 0 {
        Cancel(y.0, f(y.1, k));
      } else {
        Cancel(y.1, f(y.0, k));
      }
    }
  }

  lemma Cancel(a: bv32, b: bv32)
    ensures Xor(Xor(a, b), b) == a
  {
  }

  // ----- blocks -----

  function Word(b: seq<bv8>): bv32
    requires |b| == 4
  {
    (b[0] as bv32) | ((b[1] as bv32) << 8) | ((b[2] as bv32) << 16) | ((b[3] as bv32) << 24)
  }

  function Bytes(w: bv32): (b: seq<bv8>)
    ensures |b| == 4
  {
    [(w & 0xff) as bv8, ((w >> 8) & 0xff) as bv8, ((w >> 16) & 0xff) as bv8, ((w >> 24) & 0xff) as bv8]
  }

  lemma WordBytes(w: bv32)
    ensures Word(Bytes(w)) == w
  {
  }

  lemma BytesWord(b: seq<bv8>)
    requires |b| == 4
    ensures Bytes(Word(b)) == b
  {
    assert b == [b[0], b[1], b[2], b[3]];
  }

  function Load(b: Block): Words { (Word(b[..4]), Word(b[4..])) }

  function Store(x: Words): Block { Bytes(x.0) + Bytes(x.1) }

  lemma LoadStore(x: Words, b: Block)
    ensures Load(Store(x)) == x && Store(Load(b)) == b
  {
    hide Word, Bytes;
    WordBytes(x.0);
    WordBytes(x.1);
    assert Store(x)[..4] == Bytes(x.0) && Store(x)[4..] == Bytes(x.1);
    BytesWord(b[..4]);
    BytesWord(b[4..]);
    assert b[..4] + b[4..] == b;
  }

  /** The cipher between its permutations: both words turned left and exchanged, rounds, turned right. */
  function Core(f: (bv32, Key) -> bv32, keys: seq<Key>, x: Words): Words {
    var y := Rounds(f, keys, (Left1(x.1), Left1(x.0)));
    (Right1(y.0), Right1(y.1))
  }

  function Encipher(f: (bv32, Key) -> bv32, keys: seq<Key>, message: Block): Block {
    Store(Final(Core(f, keys, Initial(Load(message)))))
  }

  lemma CoreBack(f: (bv32, Key) -> bv32, keys: seq<Key>, x: Words)
    requires |keys| % 2 == 0
    ensures Core(f, Reverse(keys), Core(f, keys, x)) == x
  {
    hide Rounds, Left1, Right1;
    var s := (Left1(x.1), Left1(x.0));
    var y := Rounds(f, keys, s);
    RoundsBack(f, keys, s);
    RotateBack(y.0);
    RotateBack(y.1);
    RotateBack(x.0);
    RotateBack(x.1);
    assert Swap(y) == (Left1(Right1(y.1)), Left1(Right1(y.0)));
  }

  /** Enciphering again with the keys in reverse order gives the message back. */
  lemma Deciphers(f: (bv32, Key) -> bv32, keys: seq<Key>, message: Block)
    requires |keys| == 16
    ensures Encipher(f, Reverse(keys), Encipher(f, keys, message)) == message
  {
    hide Core, Initial, Final, Load, Store;
    var x := Initial(Load(message));
    var y := Core(f, keys, x);
    LoadStore(Final(y), message);
    InitialUndoesFinal(y);
    CoreBack(f, keys, x);
    FinalUndoesInitial(Load(message));
  }

  /** So different messages have different ciphers under any key. */
  lemma Injective(f: (bv32, Key) -> bv32, keys: seq<Key>, m: Block, n: Block)
    requires |keys| == 16 && Encipher(f, keys, m) == Encipher(f, keys, n)
    ensures m == n
  {
    hide Encipher;
    Deciphers(f, keys, m);
    Deciphers(f, keys, n);
  }

  // ----- the cipher as the standard defines it -----

  /** Bit `i` of two halves put side by side. */
  function HalvesBit(x: Words, i: bv32): bool
    requires i < 64
  {
    if i < 32 then Bit(x.0, i) else Bit(x.1, i - 32)
  }

  /** The rounds of FIPS 46-3: the right half becomes the left one, and the left one, changed by the round function,
      the right one. */
  function Feistel(g: (bv32, Key) -> bv32, keys: seq<Key>, x: Words): Words {
    if keys == [] then x
    else
      var n := |keys| - 1;
      var (l, r) := Feistel(g, keys[..n], x);
      (r, Xor(l, g(r, keys[n])))
  }

  ghost predicate IsIP(m: Block, x: Words) {
    forall j: bv32 :: j < 64 ==> 1 <= IP(j) <= 64 && HalvesBit(x, j) == BlockBit(m, IP(j) - 1)
  }

  ghost predicate IsFP(x: Words, c: Block) {
    forall j: bv32 :: j < 64 ==> 1 <= FP(j) <= 64 && BlockBit(c, j) == HalvesBit(x, FP(j) - 1)
  }

  /** `c` is the cipher of `m`: initial permutation, rounds, the halves exchanged, final permutation. */
  ghost predicate Fips(g: (bv32, Key) -> bv32, keys: seq<Key>, m: Block, c: Block) {
    exists x: Words :: IsIP(m, x) && IsFP(Swap(Feistel(g, keys, x)), c)
  }

  /** The round function of the program works on halves turned left by one place. */
  function Turned(f: (bv32, Key) -> bv32): (bv32, Key) -> bv32 {
    (r: bv32, k: Key) => Right1(f(Left1(r), k))
  }

  /** The program leaves the halves in place, so that they are exchanged after an odd number of rounds. */
  lemma {:induction false} RoundsFeistel(f: (bv32, Key) -> bv32, keys: seq<Key>, x: Words)
    ensures
      var (l, r) := Feistel(Turned(f), keys, x);
      Rounds(f, keys, (Left1(x.0), Left1(x.1)))
          == if |keys| % 2 == 0 then (Left1(l), Left1(r)) else (Left1(r), Left1(l))
    decreases |keys|
  {
    hide Xor, Left1, Right1;
    if keys != [] {
      var n := |keys| - 1;
      assert keys == keys[..n] + [keys[n]];
      RoundsFeistel(f, keys[..n], x);
      LastRound(f, keys[..n], keys[n], (Left1(x.0), Left1(x.1)));
      var (l, r) := Feistel(Turned(f), keys[..n], x);
      TurnedXor(l, f(Left1(r), keys[n]));
    }
  }

  lemma TurnedXor(l: bv32, z: bv32)
    ensures Left1(Xor(l, Right1(z))) == Xor(Left1(l), z)
  {
  }

  /** The words after the initial swaps are the two halves of the standard, the right one first. */
  lemma InitialIsIP(m: Block)
    ensures
      var y := Initial(Load(m));
      IsIP(m, (y.1, y.0))
  {
    hide Bit, BlockBit, Initial, Load, IP, HalvesBit;
    var y := Initial(Load(m));
    forall j: bv32 | j < 64
      ensures 1 <= IP(j) <= 64 && HalvesBit((y.1, y.0), j) == BlockBit(m, IP(j) - 1)
    {
      InitialHalf(m, j);
    }
  }

  lemma InitialHalf(m: Block, j: bv32)
    requires j < 64
    ensures
      var y := Initial(Load(m));
      1 <= IP(j) <= 64 && HalvesBit((y.1, y.0), j) == BlockBit(m, IP(j) - 1)
  {
    hide Bit, BlockBit, Initial, Load, IP;
    Upper(j);
    if j < 32 {
      InitialBit(m, j);
    } else {
      InitialBit(m, j - 32);
    }
  }

  lemma Upper(j: bv32)
    requires j < 64
    ensures j >= 32 ==> j - 32 < 32 && (j - 32) + 32 == j
  {
  }

  lemma InitialBit(m: Block, j: bv32)
    requires j < 32
    ensures j + 32 < 64 && 1 <= IP(j) <= 64 && 1 <= IP(j + 32) <= 64
    ensures
      var y := Initial(Load(m));
      Bit(y.1, j) == BlockBit(m, IP(j) - 1) && Bit(y.0, j) == BlockBit(m, IP(j + 32) - 1)
  {
    hide Bit, BlockBit, Initial, Load, Way, IP, Pick;
    var x := Load(m);
    FpIs(j);
    IpIs(j);
    InitialWay(x, true, j);
    InitialWay(x, false, j);
    WayIs(true, j);
    WayIs(false, j);
    LoadBits(m, IP(j) - 1);
    LoadBits(m, IP(j + 32) - 1);
    Places(j, IP(j), IP(j + 32));
    Picks(Initial(x));
    Picks(x);
  }

  lemma Picks(x: Words)
    ensures Pick(x, true) == x.0 && Pick(x, false) == x.1
  {
  }

  lemma Places(j: bv32, p: bv32, q: bv32)
    requires j < 32 && p - 1 == ((7 - (j & 7)) << 3) + 1 + ((j >> 3) << 1)
    requires q - 1 == ((7 - (j & 7)) << 3) + ((j >> 3) << 1)
    ensures
      var k := (((j & 3) ^ 3) << 3) | (((j >> 3) ^ 3) << 1);
      && j + 32 < 64 && 1 <= p <= 64 && 1 <= q <= 64
      && ((p - 1 < 32) <==> j & 4 != 0) && ((q - 1 < 32) <==> j & 4 != 0)
      && ((p - 1) & 24) + (7 - ((p - 1) & 7)) == k && ((q - 1) & 24) + (7 - ((q - 1) & 7)) == k | 1
  {
  }

  /** The final swaps are the final permutation, as it undoes the initial one. */
  lemma FinalIsFP(y: Words)
    ensures IsFP((y.1, y.0), Store(Final(y)))
  {
    hide Bit, BlockBit, Initial, Final, Load, Store, IP, FP;
    var c := Store(Final(y));
    LoadStore(Final(y), c);
    InitialUndoesFinal(y);
    InitialIsIP(c);
    forall j: bv32 | j < 64
      ensures 1 <= FP(j) <= 64 && BlockBit(c, j) == HalvesBit((y.1, y.0), FP(j) - 1)
    {
      FpIs(j);
      LessOne(FP(j), j, IP(FP(j) - 1));
    }
  }

  lemma LessOne(p: bv32, j: bv32, q: bv32)
    requires 1 <= p <= 64 && j < 64 && q == j + 1
    ensures p - 1 < 64 && q - 1 == j && 1 <= q <= 64
  {
  }

  /** The program's cipher is that of the standard. */
  lemma EncipherIsFips(f: (bv32, Key) -> bv32, keys: seq<Key>, m: Block)
    requires |keys| == 16
    ensures Fips(Turned(f), keys, m, Encipher(f, keys, m))
  {
    hide Initial, Final, Load, Store, IsIP, IsFP, Rounds, Feistel, Left1, Right1;
    var y := Initial(Load(m));
    var x := (y.1, y.0);
    InitialIsIP(m);
    RoundsFeistel(f, keys, x);
    var z := Feistel(Turned(f), keys, x);
    RotateBack(z.0);
    RotateBack(z.1);
    FinalIsFP(Core(f, keys, y));
    assert Core(f, keys, y) == z;
    assert IsIP(m, x) && IsFP(Swap(Feistel(Turned(f), keys, x)), Encipher(f, keys, m));
  }

  function Octet(w: bv32, n: bv32): bv32
    requires n <= 24
  {
    (w >> n) & 0xff
  }

  lemma SameQuarter(a: bv32, b: bv32, n: bv32)
    requires (n == 0 || n == 8 || n == 16 || n == 24) && forall k: bv32 :: k < 32 ==> Bit(a, k) == Bit(b, k)
    ensures Octet(a, n) == Octet(b, n)
  {
    assert Bit(a, n + 0) == Bit(b, n + 0);
    assert Bit(a, n + 1) == Bit(b, n + 1);
    assert Bit(a, n + 2) == Bit(b, n + 2);
    assert Bit(a, n + 3) == Bit(b, n + 3);
    assert Bit(a, n + 4) == Bit(b, n + 4);
    assert Bit(a, n + 5) == Bit(b, n + 5);
    assert Bit(a, n + 6) == Bit(b, n + 6);
    assert Bit(a, n + 7) == Bit(b, n + 7);
  }

  lemma SameBits(a: bv32, b: bv32)
    requires forall k: bv32 :: k < 32 ==> Bit(a, k) == Bit(b, k)
    ensures a == b
  {
    hide Bit, Octet;
    SameQuarter(a, b, 0);
    SameQuarter(a, b, 8);
    SameQuarter(a, b, 16);
    SameQuarter(a, b, 24);
    Quarters(a, b);
  }

  lemma Quarters(a: bv32, b: bv32)
    requires Octet(a, 0) == Octet(b, 0) && Octet(a, 8) == Octet(b, 8)
    requires Octet(a, 16) == Octet(b, 16) && Octet(a, 24) == Octet(b, 24)
    ensures a == b
  {
  }

  lemma SameByte(m: Block, c: Block, n: bv32)
    requires n < 8 && forall i: bv32 :: i < 64 ==> BlockBit(m, i) == BlockBit(c, i)
    ensures m[n as nat] == c[n as nat]
  {
    assert BlockBit(m, 8 * n + 0) == BlockBit(c, 8 * n + 0);
    assert BlockBit(m, 8 * n + 1) == BlockBit(c, 8 * n + 1);
    assert BlockBit(m, 8 * n + 2) == BlockBit(c, 8 * n + 2);
    assert BlockBit(m, 8 * n + 3) == BlockBit(c, 8 * n + 3);
    assert BlockBit(m, 8 * n + 4) == BlockBit(c, 8 * n + 4);
    assert BlockBit(m, 8 * n + 5) == BlockBit(c, 8 * n + 5);
    assert BlockBit(m, 8 * n + 6) == BlockBit(c, 8 * n + 6);
    assert BlockBit(m, 8 * n + 7) == BlockBit(c, 8 * n + 7);
  }

  lemma SameBlock(m: Block, c: Block)
    requires forall i: bv32 :: i < 64 ==> BlockBit(m, i) == BlockBit(c, i)
    ensures m == c
  {
    hide BlockBit;
    SameByte(m, c, 0);
    SameByte(m, c, 1);
    SameByte(m, c, 2);
    SameByte(m, c, 3);
    SameByte(m, c, 4);
    SameByte(m, c, 5);
    SameByte(m, c, 6);
    SameByte(m, c, 7);
  }

  /** The standard leaves no choice: a message has one cipher. */
  lemma FipsOnce(g: (bv32, Key) -> bv32, keys: seq<Key>, m: Block, c: Block, d: Block)
    requires Fips(g, keys, m, c) && Fips(g, keys, m, d)
    ensures c == d
  {
    hide Feistel, BlockBit, Bit, IP, FP, IsIP, IsFP;
    var x :| IsIP(m, x) && IsFP(Swap(Feistel(g, keys, x)), c);
    var y :| IsIP(m, y) && IsFP(Swap(Feistel(g, keys, y)), d);
    SameHalves(m, x, y);
    SameCipher(Swap(Feistel(g, keys, x)), c, d);
  }

  lemma SameHalves(m: Block, x: Words, y: Words)
    requires IsIP(m, x) && IsIP(m, y)
    ensures x == y
  {
    hide BlockBit, Bit, IP;
    forall k: bv32 | k < 32
      ensures Bit(x.0, k) == Bit(y.0, k) && Bit(x.1, k) == Bit(y.1, k)
    {
      assert HalvesBit(x, k) == HalvesBit(y, k);
      Lower(k);
      assert HalvesBit(x, k + 32) == HalvesBit(y, k + 32);
    }
    SameBits(x.0, y.0);
    SameBits(x.1, y.1);
  }

  lemma Lower(k: bv32)
    requires k < 32
    ensures 32 <= k + 32 < 64 && k + 32 - 32 == k
  {
  }

  lemma SameCipher(x: Words, c: Block, d: Block)
    requires IsFP(x, c) && IsFP(x, d)
    ensures c == d
  {
    hide BlockBit, HalvesBit, FP;
    SameBlock(c, d);
  }

  /** The cipher as the program runs it, two rounds at a time. */
  method Des(f: (bv32, Key) -> bv32, keys: seq<Key>, message: Block) returns (cipher: Block)
    requires |keys| == 16
    ensures cipher == Encipher(f, keys, message) && Fips(Turned(f), keys, message, cipher)
  {
    hide Perm1, Perm2, Perm4, Perm8, Perm16, Word, Bytes, Left1, Right1, Rounds, Xor;
    var l, r := Word(message[..4]), Word(message[4..]);
    var p := Perm4(r, l);
    r, l := p.0, p.1;
    p := Perm16(l, r);
    l, r := p.0, p.1;
    p := Perm2(r, l);
    r, l := p.0, p.1;
    p := Perm8(l, r);
    l, r := p.0, p.1;
    p := Perm1(r, l);
    r, l := p.0, p.1;
    var t := Left1(r);
    r := Left1(l);
    l := t;
    ghost var x := (l, r);
    var i := 0;
    NoRounds(f, keys, x);
    while i < 16
      invariant 0 <= i <= 16 && i % 2 == 0 && (l, r) == Rounds(f, keys[..i], x)
      decreases 16 - i
    {
      TwoRounds(f, keys, x, i);
      l := Xor(l, f(r, keys[i]));
      r := Xor(r, f(l, keys[i + 1]));
      i := i + 2;
    }
    assert keys[..16] == keys;
    l := Right1(l);
    r := Right1(r);
    p := Perm1(r, l);
    r, l := p.0, p.1;
    p := Perm8(l, r);
    l, r := p.0, p.1;
    p := Perm2(r, l);
    r, l := p.0, p.1;
    p := Perm16(l, r);
    l, r := p.0, p.1;
    p := Perm4(r, l);
    r, l := p.0, p.1;
    cipher := Bytes(l) + Bytes(r);
    EncipherIsFips(f, keys, message);
  }

  lemma NoRounds(f: (bv32, Key) -> bv32, keys: seq<Key>, x: Words)
    ensures Rounds(f, keys[..0], x) == x
  {
  }

  lemma TwoRounds(f: (bv32, Key) -> bv32, keys: seq<Key>, x: Words, i: nat)
    requires i + 1 < |keys| && i % 2 == 0
    ensures
      var y := Rounds(f, keys[..i], x);
      var l := Xor(y.0, f(y.1, keys[i]));
      Rounds(f, keys[..i + 2], x) == (l, Xor(y.1, f(l, keys[i + 1])))
  {
    hide Xor, Rounds;
    assert keys[..i + 1] == keys[..i] + [keys[i]];
    assert keys[..i + 2] == keys[..i + 1] + [keys[i + 1]];
    LastRound(f, keys[..i], keys[i], x);
    LastRound(f, keys[..i + 1], keys[i + 1], x);
  }
}
