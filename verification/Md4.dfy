/**
 The MD4 digest of the SMB client: the loop over 64-byte blocks with its padded tail, against
 the definition by padding the whole message. The compression function is left open.
 */
module Md4 {

  type Byte = b: int | 0 <= b < 256

  type Context = (bv32, bv32, bv32, bv32)

  const INIT: Context := (0x67452301, 0xEFCDAB89, 0x98BADCFE, 0x10325476)

  function Zeros(n: nat): (z: seq<Byte>)
    ensures |z| == n && forall i :: 0 <= i < n ==> z[i] == 0
  {
    seq(n, _ => 0)
  }

  /** `n` bytes of `x`, low-order first. */
  function LittleEndian(x: nat, n: nat): (b: seq<Byte>)
    ensures |b| == n
  {
    if n == 0 then [] else [x % 256] + LittleEndian(x / 256, n - 1)
  }

  function Power(n: nat): (p: nat)
    ensures p > 0
  {
    if n == 0 then 1 else 256 * Power(n - 1)
  }

  lemma {:induction false} LittleEndianAt(x: nat, n: nat, i: nat)
    requires i < n
    ensures LittleEndian(x, n)[i] == x / Power(i) % 256
  {
    if i > 0 {
      LittleEndianAt(x / 256, n - 1, i - 1);
      DivideTwice(x, Power(i - 1));
    }
  }

  lemma DivideTwice(x: nat, p: nat)
    requires p > 0
    ensures x / 256 / p == x / (256 * p)
  {
    var a, b := x / 256, x / 256 / p;
    assert a == b * p + a % p && x == 256 * a + x % 256;
    assert 256 * (b * p) == b * (256 * p);
    var r := 256 * (a % p) + x % 256;
    assert x == b * (256 * p) + r && 0 <= r < 256 * p;
    QuotientIs(x, 256 * p, b, r);
  }

  lemma QuotientIs(x: nat, d: nat, q: nat, r: nat)
    requires x == q * d + r && r < d
    ensures x / d == q
  {
    var e := x / d - q;
    assert x == (x / d) * d + x % d && (x / d) * d == q * d + e * d;
  }

  /** The registers begin with the bytes 01 23 45 67 89 ab cd ef fe dc ba 98 76 54 32 10, low-order first (RFC
      1320, section 3.3). */
  lemma InitialBytes()
    ensures LittleEndian(INIT.0 as nat, 4) + LittleEndian(INIT.1 as nat, 4)
            == [0x01, 0x23, 0x45, 0x67, 0x89, 0xAB, 0xCD, 0xEF]
    ensures LittleEndian(INIT.2 as nat, 4) + LittleEndian(INIT.3 as nat, 4)
            == [0xFE, 0xDC, 0xBA, 0x98, 0x76, 0x54, 0x32, 0x10]
  {
    FourBytes(0x67452301);
    FourBytes(0xEFCDAB89);
    FourBytes(0x98BADCFE);
    FourBytes(0x10325476);
  }

  lemma FourBytes(b: nat)
    ensures LittleEndian(b, 4) == [b % 256, b / 256 % 256, b / 256 / 256 % 256, b / 256 / 256 / 256 % 256]
  {
    FourMore(b, 0);
  }

  /** Zero bytes between the mark and the length: they bring the message to 56 modulo 64. */
  function PadLength(n: nat): nat {
    (119 - n % 64) % 64
  }

  /** The message with its mark, zeros and a 64-bit length field. */
  function Padded(m: seq<Byte>, bits: nat): seq<Byte> {
    m + [0x80] + Zeros(PadLength(|m|)) + LittleEndian(bits, 8)
  }

  lemma PaddedSize(m: seq<Byte>, bits: nat)
    ensures |Padded(m, bits)| % 64 == 0
  {
    var n := |m|;
    assert n == 64 * (n / 64) + n % 64;
    if n % 64 < 56 {
      assert PadLength(n) == 55 - n % 64;
    } else {
      assert PadLength(n) == 119 - n % 64;
    }
  }

  /** Folds the compression function over the 64-byte blocks of `p`. */
  function Digest(t: (Context, seq<Byte>) -> Context, c: Context, p: seq<Byte>): Context
    decreases |p|
  {
    if |p| < 64 then c else Digest(t, t(c, p[..64]), p[64..])
  }

  /** MD4 by its definition, up to the order of bytes in the result. */
  function Reference(t: (Context, seq<Byte>) -> Context, m: seq<Byte>): Context {
    Digest(t, INIT, Padded(m, 8 * |m| % 0x1_0000_0000_0000_0000))
  }

  /** What the program pads with: its length field is a 32-bit word. */
  function Field(n: nat): nat {
    8 * n % 0x1_0000_0000
  }

  lemma {:induction false} LittleEndianInjective(x: nat, y: nat, n: nat)
    requires LittleEndian(x, n) == LittleEndian(y, n) && x < Power(n) && y < Power(n)
    ensures x == y
  {
    if n > 0 {
      assert LittleEndian(x, n)[0] == LittleEndian(y, n)[0];
      assert LittleEndian(x, n)[1..] == LittleEndian(x / 256, n - 1)
             && LittleEndian(y, n)[1..] == LittleEndian(y / 256, n - 1);
      LittleEndianInjective(x / 256, y / 256, n - 1);
    }
  }

  /** The program pads as the definition demands exactly if the message is shorter than 2^29 bytes. */
  lemma PadsAsDefined(m: seq<Byte>)
    requires |m| < 0x2000_0000_0000_0000
    ensures Padded(m, Field(|m|)) == Padded(m, 8 * |m| % 0x1_0000_0000_0000_0000) <==> |m| < 0x2000_0000
  {
    var a, b := Field(|m|), 8 * |m| % 0x1_0000_0000_0000_0000;
    assert b == 8 * |m|;
    var p, q := Padded(m, a), Padded(m, b);
    if p == q {
      var k := |m| + 1 + PadLength(|m|);
      assert p[k..] == LittleEndian(a, 8) && q[k..] == LittleEndian(b, 8);
      EightBytes();
      LittleEndianInjective(a, b, 8);
    }
  }

  lemma EightBytes()
    ensures Power(8) == 0x1_0000_0000_0000_0000
  {
    assert Power(4) == 0x1_0000_0000 by { assert Power(2) == 0x1_0000; }
    assert Power(6) == 0x1_0000_0000_0000;
  }

  lemma WordAndZeros(b: nat)
    requires b < 0x1_0000_0000
    ensures LittleEndian(b, 8) == LittleEndian(b, 4) + Zeros(4)
  {
    var c := b / 256 / 256 / 256 / 256;
    assert c == 0;
    assert LittleEndian(b, 8) == [b % 256, b / 256 % 256, b / 256 / 256 % 256, b / 256 / 256 / 256 % 256]
           + LittleEndian(c, 4) by {
      FourMore(b, 4);
    }
    FourMore(b, 0);
    FourZeros();
  }

  lemma FourMore(b: nat, n: nat)
    ensures LittleEndian(b, n + 4) == [b % 256, b / 256 % 256, b / 256 / 256 % 256, b / 256 / 256 / 256 % 256]
                + LittleEndian(b / 256 / 256 / 256 / 256, n)
  {
    var b1, b2, b3 := b / 256, b / 256 / 256, b / 256 / 256 / 256;
    assert LittleEndian(b, n + 4) == [b % 256] + LittleEndian(b1, n + 3);
    assert LittleEndian(b1, n + 3) == [b1 % 256] + LittleEndian(b2, n + 2);
    assert LittleEndian(b2, n + 2) == [b2 % 256] + LittleEndian(b3, n + 1);
    assert LittleEndian(b3, n + 1) == [b3 % 256] + LittleEndian(b3 / 256, n);
  }

  lemma FourZeros()
    ensures LittleEndian(0, 4) == Zeros(4)
  {
    FourMore(0, 0);
  }

  /** What is left of the padded message when only a tail of at most 64 bytes is left of the message. */
  lemma TailBlocks(m: seq<Byte>, k: nat, bits: nat)
    requires k % 64 == 0 && k <= |m| <= k + 64 && bits < 0x1_0000_0000
    ensures
      var tail, p := m[k..], Padded(m, bits)[k..];
      && (|tail| < 56 ==> p == tail + [0x80] + Zeros(55 - |tail|) + LittleEndian(bits, 4) + Zeros(4))
      && (|tail| >= 56 ==> p == tail + [0x80] + Zeros(119 - |tail|) + LittleEndian(bits, 4) + Zeros(4))
  {
    var tail := m[k..];
    WordAndZeros(bits);
    assert |m| == k + |tail|;
    TailPad(k, |tail|);
    assert Padded(m, bits)[k..] == tail + [0x80] + Zeros(PadLength(|m|)) + LittleEndian(bits, 8);
  }

  lemma TailPad(k: nat, n: nat)
    requires k % 64 == 0 && n <= 64
    ensures PadLength(k + n) == if n < 56 then 55 - n else 119 - n
  {
    assert (k + n) % 64 == n % 64;
  }

  lemma DigestStep(t: (Context, seq<Byte>) -> Context, c: Context, p: seq<Byte>, k: nat)
    requires k + 64 <= |p|
    ensures Digest(t, c, p[k..]) == Digest(t, t(c, p[k..k + 64]), p[k + 64..])
  {
    assert p[k..][..64] == p[k..k + 64] && p[k..][64..] == p[k + 64..];
  }

  lemma DigestTwo(t: (Context, seq<Byte>) -> Context, c: Context, p: seq<Byte>)
    ensures |p| == 64 ==> Digest(t, c, p) == t(c, p)
    ensures |p| == 128 ==> Digest(t, c, p) == t(t(c, p[..64]), p[64..])
  {
    if |p| == 64 {
      assert p[..64] == p && Digest(t, t(c, p), p[64..]) == t(c, p);
    } else if |p| == 128 {
      var q := p[64..];
      assert q[..64] == q && Digest(t, t(t(c, p[..64]), q), q[64..]) == t(t(c, p[..64]), q);
    }
  }

  /** The digest as the program computes it. */
  method Md4(t: (Context, seq<Byte>) -> Context, message: seq<Byte>) returns (c: Context)
    requires |message| < 0x8000_0000
    ensures c == Digest(t, INIT, Padded(message, Field(|message|)))
    ensures |message| < 0x2000_0000 ==> c == Reference(t, message)
  {
    hide Digest, Padded, LittleEndian;
    var b := 8 * |message| % 0x1_0000_0000;
    var at: nat, len: nat := 0, |message|;
    ghost var p := Padded(message, b);
    PaddedPrefix(message, b);
    c := INIT;
    assert p[0..] == p;
    while len > 64
      invariant at % 64 == 0 && at + len == |message| && Digest(t, c, p[at..]) == Digest(t, INIT, p)
      decreases len
    {
      DigestStep(t, c, p, at);
      assert p[at..at + 64] == message[at..at + 64];
      c := t(c, message[at..at + 64]);
      at, len := at + 64, len - 64;
    }
    var buffer: seq<Byte> := message[at..] + Zeros(128 - len);
    buffer := buffer[len := 0x80];
    TailBlocks(message, at, b);
    TailBuffer(message[at..], b);
    DigestTwo(t, c, p[at..]);
    if len < 56 {
      buffer := buffer[..56] + LittleEndian(b, 4) + buffer[60..];
      c := t(c, buffer[..64]);
    } else {
      buffer := buffer[..120] + LittleEndian(b, 4) + buffer[124..];
      c := t(c, buffer[..64]);
      c := t(c, buffer[64..]);
    }
    PadsAsDefined(message);
  }

  lemma PaddedPrefix(m: seq<Byte>, bits: nat)
    ensures m <= Padded(m, bits)
  {
  }

  /** The buffer after zeroing, copying, marking and storing the length. */
  lemma TailBuffer(tail: seq<Byte>, b: nat)
    requires |tail| <= 64
    ensures
      var buffer := (tail + Zeros(128 - |tail|))[|tail| := 0x80];
      && (|tail| < 56 ==>
            (buffer[..56] + LittleEndian(b, 4) + buffer[60..])[..64]
            == tail + [0x80] + Zeros(55 - |tail|) + LittleEndian(b, 4) + Zeros(4))
      && (|tail| >= 56 ==>
            buffer[..120] + LittleEndian(b, 4) + buffer[124..]
            == tail + [0x80] + Zeros(119 - |tail|) + LittleEndian(b, 4) + Zeros(4))
  {
  }
}
