/**
 The text conversions of the SMB client between UTF-8 strings and 16-bit units.
 */
module Utf {

  type Byte = b: int | 0 <= b < 256

  type Unit = u: int | 0 <= u < 0x1_0000

  datatype Option<T> = None | Some(value: T)

  // ----- one unit -----

  function EncodeUnit(u: Unit): (b: seq<Byte>)
    ensures 1 <= |b| <= 3
  {
    if u < 0x80 then [u]
    else if u < 0x800 then [0xC0 + u / 64, 0x80 + u % 64]
    else [0xE0 + u / 4096, 0x80 + u / 64 % 64, 0x80 + u % 64]
  }

  /** Length of the sequence that a lead byte announces; anything else stands alone. */
  function SequenceLength(lead: Byte): (n: nat)
    ensures 1 <= n <= 3
  {
    if lead < 0x80 then 1 else if lead / 32 == 6 then 2 else if lead / 16 == 14 then 3 else 1
  }

  /** The unit of the sequence at the start of `s`; a lead byte that is not supported gives '?'. */
  function DecodeUnit(s: seq<Byte>): Unit
    requires s != [] && SequenceLength(s[0]) <= |s|
  {
    if s[0] < 0x80 then s[0]
    else if s[0] / 32 == 6 then Two(s[0], s[1])
    else if s[0] / 16 == 14 then Three(s[0], s[1], s[2])
    else 0x3F
  }

  function Two(a: int, b: int): Unit {
    a % 32 * 64 + b % 64
  }

  function Three(a: int, b: int, c: int): Unit {
    a % 16 * 4096 + b % 64 * 64 + c % 64
  }

  lemma UnitThere(u: Unit, rest: seq<Byte>)
    requires u != 0
    ensures
      var s := EncodeUnit(u) + rest;
      s[0] != 0 && SequenceLength(s[0]) == |EncodeUnit(u)| && DecodeUnit(s) == u && s[|EncodeUnit(u)|..] == rest
  {
    var s := EncodeUnit(u) + rest;
    if 0x80 <= u < 0x800 {
      assert s[0] == 0xC0 + u / 64 && s[1] == 0x80 + u % 64;
      assert s[0] % 32 == u / 64 && s[1] % 64 == u % 64;
    } else if 0x800 <= u {
      assert s[0] == 0xE0 + u / 4096 && s[1] == 0x80 + u / 64 % 64 && s[2] == 0x80 + u % 64;
      assert s[0] % 16 == u / 4096 && s[1] % 64 == u / 64 % 64 && s[2] % 64 == u % 64;
      assert u == u / 4096 * 4096 + u / 64 % 64 * 64 + u % 64 by { assert u / 4096 == u / 64 / 64; }
    }
  }

  /** A letter of one byte, one of two and a sign of three, as RFC 3629, section 3, encodes them. */
  lemma KnownUnits()
    ensures EncodeUnit(0x41) == [0x41] && EncodeUnit(0xE9) == [0xC3, 0xA9] && EncodeUnit(0x20AC) == [0xE2, 0x82, 0xAC]
    ensures DecodeUnit([0xC3, 0xA9]) == 0xE9 && DecodeUnit([0xE2, 0x82, 0xAC]) == 0x20AC
  {
  }

  // ----- strings -----

  function Encode(us: seq<Unit>): seq<Byte> {
    if us == [] then [] else EncodeUnit(us[0]) + Encode(us[1..])
  }

  /** A string before its terminator, as units; none if the conversion would run past the terminator. */
  function Decode(s: seq<Byte>): Option<seq<Unit>> {
    if s == [] then Some([])
    else if |s| < SequenceLength(s[0]) then None
    else
      var rest := Decode(s[SequenceLength(s[0])..]);
      if rest.None? then None else Some([DecodeUnit(s)] + rest.value)
  }

  /** A byte that cannot lead a sequence of one to three bytes stands for one question mark, whatever follows. */
  lemma UnsupportedLead(s: seq<Byte>)
    requires s != [] && (0x80 <= s[0] < 0xC0 || 0xF0 <= s[0])
    ensures Decode(s).Some? <==> Decode(s[1..]).Some?
    ensures Decode(s).Some? ==> Decode(s).value == [0x3F] + Decode(s[1..]).value
  {
    assert SequenceLength(s[0]) == 1;
  }

  /** From units to a string and back. */
  lemma {:induction false} ThereAndBack(us: seq<Unit>)
    requires forall i :: 0 <= i < |us| ==> us[i] != 0
    ensures Decode(Encode(us)) == Some(us) && forall i :: 0 <= i < |Encode(us)| ==> Encode(us)[i] != 0
  {
    if us != [] {
      UnitThere(us[0], Encode(us[1..]));
      ThereAndBack(us[1..]);
      assert us == [us[0]] + us[1..];
      NonZero(us[0]);
    }
  }

  lemma NonZero(u: Unit)
    requires u != 0
    ensures forall i :: 0 <= i < |EncodeUnit(u)| ==> EncodeUnit(u)[i] != 0
  {
  }

  predicate Continues(b: Byte) { 0x80 <= b < 0xC0 }

  /** Sequences of one to three bytes, each the shortest for its unit, and no zero byte. */
  predicate Shortest(s: seq<Byte>) {
    s == [] || (
      && s[0] != 0 && SequenceLength(s[0]) <= |s|
      && (s[0] < 0x80
          || (0xC2 <= s[0] < 0xE0 && Continues(s[1]))
          || (0xE0 <= s[0] < 0xF0 && Continues(s[1]) && Continues(s[2]) && (s[0] == 0xE0 ==> 0xA0 <= s[1])))
      && Shortest(s[SequenceLength(s[0])..]))
  }

  lemma UnitBack(s: seq<Byte>)
    requires s != [] && Shortest(s)
    ensures EncodeUnit(DecodeUnit(s)) == s[..SequenceLength(s[0])] && DecodeUnit(s) != 0
  {
    hide Two, Three, EncodeUnit;
    if s[0] < 0x80 {
      OneBack(s[0]);
      assert s[..1] == [s[0]];
    } else if s[0] < 0xE0 {
      TwoBack(s[0], s[1]);
      assert s[..2] == [s[0], s[1]];
    } else {
      ThreeBack(s[0], s[1], s[2]);
      assert s[..3] == [s[0], s[1], s[2]];
    }
  }

  lemma OneBack(a: Byte)
    requires a < 0x80
    ensures EncodeUnit(a) == [a]
  {
  }

  lemma TwoBack(a: Byte, b: Byte)
    requires 0xC2 <= a < 0xE0 && Continues(b)
    ensures Two(a, b) != 0 && EncodeUnit(Two(a, b)) == [a, b]
  {
    var u := Two(a, b);
    assert a % 32 == a - 0xC0 && b % 64 == b - 0x80;
    assert u == (a - 0xC0) * 64 + (b - 0x80);
    assert u / 64 == a - 0xC0 && u % 64 == b - 0x80;
  }

  lemma ThreeBack(a: Byte, b: Byte, c: Byte)
    requires 0xE0 <= a < 0xF0 && Continues(b) && Continues(c) && (a == 0xE0 ==> 0xA0 <= b)
    ensures Three(a, b, c) != 0 && EncodeUnit(Three(a, b, c)) == [a, b, c]
  {
    var u := Three(a, b, c);
    assert a % 16 == a - 0xE0 && b % 64 == b - 0x80 && c % 64 == c - 0x80;
    assert u == (a - 0xE0) * 4096 + (b - 0x80) * 64 + (c - 0x80);
    ThreeDigits(a - 0xE0, b - 0x80, c - 0x80);
  }

  lemma ThreeDigits(a: nat, b: nat, c: nat)
    requires a < 16 && b < 64 && c < 64
    ensures
      var u := a * 4096 + b * 64 + c;
      u / 4096 == a && u / 64 % 64 == b && u % 64 == c
  {
    var u := a * 4096 + b * 64 + c;
    assert u / 64 == a * 64 + b;
  }

  /** From a well-formed string to units and back. */
  lemma {:induction false} BackAndThere(s: seq<Byte>)
    requires Shortest(s)
    ensures Decode(s).Some? && Encode(Decode(s).value) == s
    ensures forall i :: 0 <= i < |Decode(s).value| ==> Decode(s).value[i] != 0
    decreases |s|
  {
    hide EncodeUnit, DecodeUnit, SequenceLength, Continues;
    if s != [] {
      var n := SequenceLength(s[0]);
      BackAndThere(s[n..]);
      UnitBack(s);
      assert s == s[..n] + s[n..];
      assert Decode(s).value[1..] == Decode(s[n..]).value;
    }
  }

  /** What the encoder makes is well formed. */
  lemma {:induction false} EncodesShortest(us: seq<Unit>)
    requires forall i :: 0 <= i < |us| ==> us[i] != 0
    ensures Shortest(Encode(us))
  {
    if us != [] {
      EncodesShortest(us[1..]);
      UnitThere(us[0], Encode(us[1..]));
      UnitShortest(us[0]);
    }
  }

  lemma UnitShortest(u: Unit)
    requires u != 0
    ensures
      var b := EncodeUnit(u);
      && (|b| == 1 ==> 0 < b[0] < 0x80) && (|b| == 2 ==> 0xC2 <= b[0] < 0xE0 && Continues(b[1]))
      && (|b| == 3 ==> 0xE0 <= b[0] < 0xF0 && Continues(b[1]) && Continues(b[2]) && (b[0] == 0xE0 ==> 0xA0 <= b[1]))
  {
  }

  // ----- the loops -----

  /** The units of a little-endian buffer, up to the first zero or its end. */
  function UnitsOf(buffer: seq<Byte>): (us: seq<Unit>)
    ensures forall i :: 0 <= i < |us| ==> us[i] != 0
  {
    if |buffer| < 2 || Word(buffer[0], buffer[1]) == 0 then [] else [Word(buffer[0], buffer[1])] + UnitsOf(buffer[2..])
  }

  function Word(lo: int, hi: int): Unit
    requires 0 <= lo < 256 && 0 <= hi < 256
  {
    lo + 256 * hi
  }

  function BufferOf(us: seq<Unit>): (b: seq<Byte>)
    ensures |b| == 2 * |us|
  {
    if us == [] then [] else [us[0] % 256, us[0] / 256] + BufferOf(us[1..])
  }

  lemma BufferFirst(us: seq<Unit>, rest: seq<Byte>)
    requires us != []
    ensures
      var b := BufferOf(us) + rest;
      2 <= |b| && b[0] == us[0] % 256 && b[1] == us[0] / 256 && b[2..] == BufferOf(us[1..]) + rest
  {
    TwoFirst(us[0] % 256, us[0] / 256, BufferOf(us[1..]), rest);
  }

  lemma TwoFirst(x: Byte, y: Byte, m: seq<Byte>, rest: seq<Byte>)
    ensures
      var b := [x, y] + m + rest;
      2 <= |b| && b[0] == x && b[1] == y && b[2..] == m + rest
  {
  }

  lemma {:induction false} BufferUnits(us: seq<Unit>, rest: seq<Byte>)
    requires (forall i :: 0 <= i < |us| ==> us[i] != 0) && 2 <= |rest| && rest[0] == rest[1] == 0
    ensures UnitsOf(BufferOf(us) + rest) == us
  {
    if us != [] {
      BufferFirst(us, rest);
      BufferUnits(us[1..], rest);
      assert us == [us[0]] + us[1..];
    } else {
      assert BufferOf(us) + rest == rest;
    }
  }

  method Utf16ToAscii(input: seq<Byte>) returns (out: seq<Byte>, len: nat)
    ensures out == Encode(UnitsOf(input)) && len == |out| + 1
  {
    hide Encode, EncodeUnit;
    out := [];
    var i: nat := 0;
    NothingEncoded();
    assert input[0..] == input;
    while i + 2 <= |input|
      invariant i <= |input| && Encode(UnitsOf(input)) == out + Encode(UnitsOf(input[i..]))
    {
      var wc := Word(input[i], input[i + 1]);
      var rest := input[i..];
      assert rest[0] == input[i] && rest[1] == input[i + 1] && rest[2..] == input[i + 2..];
      if wc == 0 { break; }
      EncodeOne(wc, UnitsOf(rest[2..]));
      out := out + EncodeUnit(wc);
      i := i + 2;
    }
    assert UnitsOf(input[i..]) == [];
    len := |out| + 1;
  }

  lemma NothingEncoded()
    ensures Encode([]) == []
  {
  }

  lemma EncodeOne(u: Unit, us: seq<Unit>)
    ensures Encode([u] + us) == EncodeUnit(u) + Encode(us)
  {
    assert ([u] + us)[1..] == us;
  }

  /** Converts a terminated string; fails if it would read past the terminator. */
  method AsciiToUtf16(s: seq<Byte>) returns (ok: bool, out: seq<Byte>, len: nat)
    requires forall i :: 0 <= i < |s| ==> s[i] != 0
    ensures ok <==> Decode(s).Some?
    ensures ok ==> out == BufferOf(Decode(s).value) + [0, 0] && len == 2 * |Decode(s).value| + 2 == |out|
  {
    hide DecodeUnit, SequenceLength, BufferOf, Decode, SoFar;
    var us: seq<Unit> := [];
    var i: nat := 0;
    out, len := [], 0;
    SoFarNothing(s);
    NoBuffer();
    while i < |s|
      invariant i <= |s| && out == BufferOf(us) && len == |out| && SoFar(s, us, i)
      decreases |s| - i
    {
      var n := SequenceLength(s[i]);
      SoFarMore(s, us, i);
      if |s| < i + n { return false, out, len; }
      var wc := DecodeUnit(s[i..]);
      BufferMore(us, wc);
      out := out + [wc % 256, wc / 256];
      us := us + [wc];
      len := len + 2;
      i := i + n;
    }
    SoFarAll(s, us);
    out := out + [0, 0];
    len := len + 2;
    ok := true;
  }

  /** `us` are the units of the first `i` bytes. */
  ghost predicate SoFar(s: seq<Byte>, us: seq<Unit>, i: nat) {
    && i <= |s| && (Decode(s).Some? <==> Decode(s[i..]).Some?)
    && (Decode(s).Some? ==> Decode(s).value == us + Decode(s[i..]).value)
  }

  lemma SoFarNothing(s: seq<Byte>)
    ensures SoFar(s, [], 0)
  {
    assert s[0..] == s;
  }

  lemma SoFarMore(s: seq<Byte>, us: seq<Unit>, i: nat)
    requires SoFar(s, us, i) && i < |s|
    ensures
      var n := SequenceLength(s[i]);
      if |s| < i + n then Decode(s).None? else SoFar(s, us + [DecodeUnit(s[i..])], i + n)
  {
    hide DecodeUnit, SequenceLength;
    var rest, n := s[i..], SequenceLength(s[i]);
    assert rest[0] == s[i];
    if i + n <= |s| { assert rest[n..] == s[i + n..]; }
  }

  lemma SoFarAll(s: seq<Byte>, us: seq<Unit>)
    requires SoFar(s, us, |s|)
    ensures Decode(s) == Some(us)
  {
    assert s[|s|..] == [] && us + [] == us;
  }

  lemma NoBuffer()
    ensures BufferOf([]) == []
  {
  }

  lemma {:induction false} BufferMore(us: seq<Unit>, u: Unit)
    ensures BufferOf(us + [u]) == BufferOf(us) + [u % 256, u / 256]
  {
    if us != [] {
      assert (us + [u])[1..] == us[1..] + [u];
      BufferMore(us[1..], u);
    } else {
      assert us + [u] == [u];
    }
  }

  /** Both conversions one after the other give back the buffer they began with. */
  method RoundTrip(us: seq<Unit>) returns (ok: bool, out: seq<Byte>)
    requires forall i :: 0 <= i < |us| ==> us[i] != 0
    ensures ok && out == BufferOf(us) + [0, 0]
  {
    hide Encode, Decode, UnitsOf, BufferOf;
    var s, len := Utf16ToAscii(BufferOf(us) + [0, 0]);
    BufferUnits(us, [0, 0]);
    ThereAndBack(us);
    ok, out, len := AsciiToUtf16(s);
  }
}
