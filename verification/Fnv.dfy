/** The 64-bit FNV-1a hash, and what it tells apart. */
module Fnv {
  import opened Pixels

  const M: nat := 0x1_0000_0000_0000_0000
  const PRIME: nat := 0x100_0000_01b3
  const OFFSET: Hash := 0xcbf2_9ce4_8422_2325

  type Hash = h: nat | h < 0x1_0000_0000_0000_0000

  /** Exclusive or of the low `n` bits. */
  function Xor(x: nat, y: nat, n: nat): nat {
    if n == 0 then 0 else 2 * Xor(x / 2, y / 2, n - 1) + (x + y) % 2
  }

  lemma {:induction false} XorFits(x: nat, y: nat, n: nat)
    ensures Xor(x, y, n) < Power(n)
  {
    if n > 0 {
      XorFits(x / 2, y / 2, n - 1);
    }
  }

  function Power(n: nat): nat {
    if n == 0 then 1 else 2 * Power(n - 1)
  }

  function XorByte(x: Byte, y: Byte): Byte {
    XorFits(x, y, 8);
    assert Power(8) == 256 by {
      assert Power(4) == 16;
    }
    Xor(x, y, 8)
  }

  predicate Bit(x: nat, k: nat) {
    if k == 0 then x % 2 == 1 else Bit(x / 2, k - 1)
  }

  /** A bit of an exclusive or is set exactly when it is in one and not in the other. */
  lemma {:induction false} XorBits(x: nat, y: nat, n: nat, k: nat)
    ensures Bit(Xor(x, y, n), k) <==> k < n && Bit(x, k) != Bit(y, k)
  {
    if n == 0 {
      NoBits(k);
    } else {
      var rest, low := Xor(x / 2, y / 2, n - 1), (x + y) % 2;
      Doubled(rest, low);
      if k == 0 {
        Parity(x, y);
      } else {
        XorBits(x / 2, y / 2, n - 1, k - 1);
        hide Xor;
        assert Bit(2 * rest + low, k) == Bit(rest, k - 1);
      }
    }
  }

  lemma Doubled(rest: nat, low: nat)
    requires low < 2
    ensures (2 * rest + low) / 2 == rest && (2 * rest + low) % 2 == low
  {}

  lemma Parity(x: nat, y: nat)
    ensures (x + y) % 2 == 1 <==> (x % 2 == 1) != (y % 2 == 1)
  {}

  lemma NoBits(k: nat)
    ensures !Bit(0, k)
  {}

  /** Exclusive or with a byte touches only the low byte. */
  function XorLow(h: Hash, b: Byte): (x: Hash)
    ensures x / 256 == h / 256 && x % 256 == XorByte(h % 256, b)
  {
    h / 256 * 256 + XorByte(h % 256, b)
  }

  /** One step, multiplying modulo 2^64. */
  function Step(h: Hash, b: Byte): Hash {
    XorLow(h, b) * PRIME % M
  }

  /** The hash of some bytes, from a state. */
  function From(h: Hash, data: seq<Byte>): Hash {
    if data == [] then h else Step(From(h, data[..|data| - 1]), data[|data| - 1])
  }

  method Fnv1a(data: seq<Byte>) returns (hash: Hash)
    ensures hash == From(OFFSET, data)
  {
    hash := OFFSET;
    for i := 0 to |data|
      invariant hash == From(OFFSET, data[..i])
    {
      assert data[..i + 1][..i] == data[..i];
      hash := XorLow(hash, data[i]);
      hash := hash * PRIME % M;
    }
    assert data[..|data|] == data;
  }

  lemma {:induction false} XorInjective(x: nat, b: nat, c: nat, n: nat)
    requires b < Power(n) && c < Power(n) && Xor(x, b, n) == Xor(x, c, n)
    ensures b == c
  {
    if n > 0 {
      SameParity(x, b, c, Xor(x / 2, b / 2, n - 1), Xor(x / 2, c / 2, n - 1));
      XorInjective(x / 2, b / 2, c / 2, n - 1);
    }
  }

  lemma SameParity(x: nat, b: nat, c: nat, p: nat, q: nat)
    requires 2 * p + (x + b) % 2 == 2 * q + (x + c) % 2
    ensures p == q && b % 2 == c % 2
  {}

  lemma {:induction false} XorCommutes(x: nat, y: nat, n: nat)
    ensures Xor(x, y, n) == Xor(y, x, n)
  {
    if n > 0 {
      XorCommutes(x / 2, y / 2, n - 1);
    }
  }

  lemma XorByteInjective(x: Byte, y: Byte, b: Byte, c: Byte)
    ensures XorByte(x, b) == XorByte(x, c) ==> b == c
    ensures XorByte(x, b) == XorByte(y, b) ==> x == y
  {
    hide Xor;
    assert Power(8) == 256 by {
      assert Power(4) == 16;
    }
    if XorByte(x, b) == XorByte(x, c) {
      XorInjective(x, b, c, 8);
    }
    if XorByte(x, b) == XorByte(y, b) {
      XorCommutes(x, b, 8);
      XorCommutes(y, b, 8);
      XorInjective(b, x, y, 8);
    }
  }

  /** An odd multiplier can be undone modulo a power of two. */
  const INVERSE: nat := 0xce96_5057_aff6_957b

  lemma MultiplyInjective(x: Hash, y: Hash)
    requires x * PRIME % M == y * PRIME % M
    ensures x == y
  {
    var q := x * PRIME / M - y * PRIME / M;
    assert (x - y) * PRIME == q * M;
    var k := (PRIME * INVERSE - 1) / M;
    assert PRIME * INVERSE == k * M + 1;
    Undo(x - y, PRIME, INVERSE, k, q, M);
    OnlyZero(x - y, q * INVERSE - k * (x - y), M);
  }

  lemma Undo(d: int, p: int, inverse: int, k: int, q: int, m: int)
    requires d * p == q * m && p * inverse == k * m + 1
    ensures d == (q * inverse - k * d) * m
  {
    calc {
      d;
      d * (p * inverse) - d * (k * m);
      { assert d * (p * inverse) == (d * p) * inverse; }
      (q * m) * inverse - d * (k * m);
      (q * inverse - k * d) * m;
    }
  }

  lemma OnlyZero(d: int, q: int, m: int)
    requires m > 0 && d == q * m && -m < d < m
    ensures d == 0
  {
    TimesAtLeast(q, m);
  }

  lemma TimesAtLeast(q: int, m: int)
    requires m > 0
    ensures q >= 1 ==> q * m >= m
    ensures q <= -1 ==> q * m <= -m
  {}

  /** A step loses nothing about the state, nor about the byte. */
  lemma StepInjective(h: Hash, g: Hash, b: Byte, c: Byte)
    ensures Step(h, b) == Step(g, b) ==> h == g
    ensures Step(h, b) == Step(h, c) ==> b == c
  {
    hide XorByte;
    XorByteInjective(h % 256, g % 256, b, c);
    if Step(h, b) == Step(g, b) {
      MultiplyInjective(XorLow(h, b), XorLow(g, b));
    }
    if Step(h, b) == Step(h, c) {
      MultiplyInjective(XorLow(h, b), XorLow(h, c));
    }
  }

  lemma {:induction false} FromInjective(h: Hash, g: Hash, data: seq<Byte>)
    ensures From(h, data) == From(g, data) ==> h == g
  {
    if data != [] {
      StepInjective(From(h, data[..|data| - 1]), From(g, data[..|data| - 1]), data[|data| - 1], 0);
      FromInjective(h, g, data[..|data| - 1]);
    }
  }

  lemma {:induction false} FromTogether(h: Hash, a: seq<Byte>, b: seq<Byte>)
    ensures From(h, a + b) == From(From(h, a), b)
  {
    if b == [] {
      assert a + b == a;
    } else {
      assert (a + b)[..|a + b| - 1] == a + b[..|b| - 1];
      FromTogether(h, a, b[..|b| - 1]);
    }
  }

  /** The states after two different bytes differ above their low byte: by a small multiple of the
      prime, which is too large for one byte and too small to wrap to one. */
  lemma ApartAboveLow(h: Hash, b: Byte, c: Byte)
    requires b != c
    ensures Step(h, b) / 256 != Step(h, c) / 256
  {
    hide XorByte;
    var x, y := XorLow(h, b), XorLow(h, c);
    XorByteInjective(h % 256, h % 256, b, c);
    var d := x - y;
    assert -256 < d < 256 && d != 0;
    var q := x * PRIME / M - y * PRIME / M;
    assert Step(h, b) - Step(h, c) == d * PRIME - q * M;
    NotNearWrap(d, q);
  }

  lemma NotNearWrap(d: int, q: int)
    requires -256 < d < 256 && d != 0
    ensures !(-256 < d * PRIME - q * M < 256)
  {}

  /** Two adjacent bytes are never hashed to the same state as two others. */
  lemma PairInjective(h: Hash, b0: Byte, b1: Byte, c0: Byte, c1: Byte)
    requires Step(Step(h, b0), b1) == Step(Step(h, c0), c1)
    ensures b0 == c0 && b1 == c1
  {
    hide XorByte, Step;
    if b0 == c0 {
      StepInjective(Step(h, b0), 0, b1, c1);
    } else {
      ApartAboveLow(h, b0, c0);
      MultipliedSame(Step(h, b0), Step(h, c0), b1, c1);
    }
  }

  lemma MultipliedSame(h: Hash, g: Hash, b: Byte, c: Byte)
    requires Step(h, b) == Step(g, c)
    ensures h / 256 == g / 256
  {
    hide XorByte;
    MultiplyInjective(XorLow(h, b), XorLow(g, c));
  }

  /** Two blocks of the same length that differ only within two adjacent bytes hash differently. */
  lemma PairSeparates(a: seq<Byte>, b: seq<Byte>, at: nat)
    requires |a| == |b| && at + 2 <= |a| && a != b
    requires forall i :: 0 <= i < |a| && i != at && i != at + 1 ==> a[i] == b[i]
    ensures From(OFFSET, a) != From(OFFSET, b)
  {
    hide From, Step;
    var before, after := a[..at], a[at + 2..];
    assert a == before + [a[at], a[at + 1]] + after;
    assert b == before + [b[at], b[at + 1]] + after;
    FromTogether(OFFSET, before + [a[at], a[at + 1]], after);
    FromTogether(OFFSET, before + [b[at], b[at + 1]], after);
    FromTogether(OFFSET, before, [a[at], a[at + 1]]);
    FromTogether(OFFSET, before, [b[at], b[at + 1]]);
    var h := From(OFFSET, before);
    TwoSteps(h, a[at], a[at + 1]);
    TwoSteps(h, b[at], b[at + 1]);
    FromInjective(From(h, [a[at], a[at + 1]]), From(h, [b[at], b[at + 1]]), after);
    if From(OFFSET, a) == From(OFFSET, b) {
      PairInjective(h, a[at], a[at + 1], b[at], b[at + 1]);
    }
  }

  lemma TwoSteps(h: Hash, x: Byte, y: Byte)
    ensures From(h, [x, y]) == Step(Step(h, x), y)
  {
    hide Step;
    assert [x, y][..1] == [x] && [x][..0] == [];
    assert From(h, [x]) == Step(From(h, []), x);
  }

  /** So do two that differ in a single byte. */
  lemma ByteSeparates(a: seq<Byte>, b: seq<Byte>, at: nat)
    requires |a| == |b| && at < |a| && a[at] != b[at] && forall i :: 0 <= i < |a| && i != at ==> a[i] == b[i]
    ensures From(OFFSET, a) != From(OFFSET, b)
  {
    if at + 2 <= |a| {
      PairSeparates(a, b, at);
    } else {
      assert a == a[..at] + [a[at]] && b == a[..at] + [b[at]];
      StepInjective(From(OFFSET, a[..at]), 0, a[at], b[at]);
    }
  }

  /** The hash of the letter "a", as published with the algorithm. */
  lemma HashExample()
    ensures From(OFFSET, [0x61]) == 0xaf63_dc4c_8601_ec8c
  {
    XorExample();
    hide XorByte, Xor;
    assert XorLow(OFFSET, 0x61) == 0xcbf2_9ce4_8422_2344;
    assert Step(OFFSET, 0x61) == 0xaf63_dc4c_8601_ec8c;
    assert [0x61][..0] == [];
  }

  lemma XorExample()
    ensures XorByte(0x25, 0x61) == 0x44
  {
    assert Xor(0, 1, 2) == 1;
    assert Xor(2, 6, 4) == 4;
    assert Xor(9, 24, 6) == 17;
  }
}
