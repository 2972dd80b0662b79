/** REAL values with a binary mantissa: conversion to a double and the normal form. */
module RealBinary {
  import opened Bits
  import opened Integers
  import opened Octets
  import opened Ieee
  import opened RealNearest

  // ---- S x N x 2^e2 to a double ----

  lemma BitLengthIs(v: nat, len: nat)
    requires len > 0 && Pow2(len - 1) <= v < Pow2(len)
    ensures BitLength(v) == len
  {
    hide Pow2, BitLength;
    BitLengthBounds(v);
    Pow2Positive(len - 1);
    var l := BitLength(v);
    if l < len { Pow2Mono(l, len - 1); }
    if l > len { Pow2Mono(len, l - 1); }
  }

  lemma Pow2Positive(n: nat)
    ensures Pow2(n) >= 1
  {
  }

  lemma NumberLength(n: seq<Byte>)
    requires n != [] && n[0] != 0
    ensures BitLength(BigEndian(n)) == 8 * (|n| - 1) + BitLength(n[0])
    ensures BigEndian(n) > 0 && BitLength(n[0]) > 0
  {
    hide Pow2, BitLength, BigEndian;
    var r: nat := 8 * (|n| - 1);
    assert n == [n[0]] + n[1..];
    BigEndianCons(n[0], n[1..]);
    BigEndianBound(n[1..]);
    LeadingLength(n[0], BigEndian(n[1..]), r);
  }

  // A number `b` above `r` further bits.
  lemma LeadingLength(b: nat, t: nat, r: nat)
    requires b > 0 && t < Pow2(r)
    ensures BitLength(b * Pow2(r) + t) == r + BitLength(b)
    ensures b * Pow2(r) + t > 0 && BitLength(b) > 0
  {
    hide Pow2, BitLength;
    var l := BitLength(b);
    BitLengthBounds(b);
    Pow2Sum(l - 1, r);
    Pow2Sum(l, r);
    MulMono(Pow2(r), Pow2(l - 1), b);
    MulMonoPlus(Pow2(r), b, Pow2(l));
    MulMono(Pow2(r), 1, b);
    BitLengthIs(b * Pow2(r) + t, r + l);
  }

  lemma LowTop(v: nat, i: nat)
    ensures Low(v, i + 1) == Low(v, i) + Shr(v, i) % 2 * Pow2(i)
  {
    hide Shr, Low, Pow2;
    ShrLow(v, i);
    ShrLow(v, i + 1);
    ShrStep(v, i);
    Pow2Step(i);
    var a, b, p := Shr(v, i + 1), Shr(v, i) % 2, Pow2(i);
    assert (2 * a + b) * p == a * (2 * p) + b * p;
  }

  // The bits of `n` from `shift` up, most significant first.
  method KeepBits(n: seq<Byte>, bitsN: nat, shift: nat) returns (kept: nat)
    requires bitsN <= 8 * |n| && BigEndian(n) < Pow2(bitsN) && shift <= bitsN
    ensures kept == Shr(BigEndian(n), shift)
  {
    hide Pow2, Shr, BigEndian;
    ghost var v := BigEndian(n);
    NothingAbove(v, bitsN);
    kept := 0;
    var i := bitsN;
    while i > shift
      invariant shift <= i <= bitsN && kept == Shr(v, i)
    {
      i := i - 1;
      BitAtIsBit(n, i);
      ShrStep(v, i);
      kept := 2 * kept + (if BitAt(n, i) then 1 else 0);
    }
  }

  lemma NothingAbove(v: nat, len: nat)
    requires v < Pow2(len)
    ensures Shr(v, len) == 0
  {
    ShrBelowExactly(v, 0, len);
  }

  // Whether any of the lowest `count` bits is set.
  method Sticky(n: seq<Byte>, count: nat) returns (sticky: bool)
    requires count <= 8 * |n|
    ensures sticky <==> Low(BigEndian(n), count) != 0
  {
    hide Pow2, Shr, BigEndian, Low;
    ghost var v := BigEndian(n);
    sticky := false;
    var i := 0;
    assert Low(v, 0) == 0 by { LowOfNone(v); }
    while i < count && !sticky
      invariant i <= count && (sticky <==> Low(v, i) != 0)
    {
      BitAtIsBit(n, i);
      LowTop(v, i);
      Pow2Positive(i);
      sticky := BitAt(n, i);
      i := i + 1;
    }
    if sticky { LowGrows(v, i, count); }
  }

  lemma LowOfNone(v: nat)
    ensures Low(v, 0) == 0
  {
  }

  lemma {:induction false} LowGrows(v: nat, i: nat, j: nat)
    requires i <= j
    ensures Low(v, i) <= Low(v, j)
  {
    hide Pow2, Shr, Low;
    if i < j {
      LowGrows(v, i, j - 1);
      LowTop(v, j - 1);
    }
  }

  // Rounding half to even from the round and sticky bits.
  lemma RoundBits(v: nat, shift: nat)
    requires shift > 0
    ensures var round, sticky, q := Shr(v, shift - 1) % 2 == 1, Low(v, shift - 1) != 0, Shr(v, shift);
            && (Low(v, shift) == 0 <==> !round && !sticky)
            && RoundShift(v, shift) == (if round && (sticky || q % 2 == 1) then q + 1 else q)
  {
    hide Pow2, Shr, Low;
    Pow2Step(shift - 1);
    LowTop(v, shift - 1);
    LowBelow(v, shift - 1);
  }

  lemma LowBelow(v: nat, n: nat)
    ensures Low(v, n) < Pow2(n)
  {
  }

  function SignedPattern(negative: bool, code: nat): nat {
    if negative then code + SIGN_BIT else code
  }

  method RoundOff(n: seq<Byte>, bitsN: nat, shift: nat) returns (kept: nat, exact: bool)
    requires bitsN <= 8 * |n| && BigEndian(n) < Pow2(bitsN) && 0 < shift <= bitsN
    ensures kept == RoundShift(BigEndian(n), shift) && (exact <==> Low(BigEndian(n), shift) == 0)
  {
    hide Pow2, Shr, BigEndian, Low, RoundShift;
    kept := KeepBits(n, bitsN, shift);
    BitAtIsBit(n, shift - 1);
    var round := BitAt(n, shift - 1);
    var sticky := Sticky(n, shift - 1);
    RoundBits(BigEndian(n), shift);
    exact := !round && !sticky;
    if round && (sticky || kept % 2 == 1) { kept := kept + 1; }
  }

  method RealFromBinary(negative: bool, n: seq<Byte>, e2: int) returns (bits: nat, exact: bool)
    requires n != [] && n[0] != 0
    ensures BigEndian(n) > 0
    ensures bits == SignedPattern(negative, Nearest(BigEndian(n), e2).code) && exact == Nearest(BigEndian(n), e2).exact
  {
    hide Pow2, Shr, BigEndian, Low, RoundShift, BitLength;
    NumberLength(n);
    BitLengthBounds(BigEndian(n));
    BitLengthBounds(n[0]);
    OctetLength(n[0]);
    var bitsN := 8 * (|n| - 1) + BitLength(n[0]);
    var eMsb := e2 + bitsN - 1;
    if eMsb > 1023 { return SignedPattern(negative, INFINITY), false; }
    if eMsb < -1075 { return SignedPattern(negative, 0), false; }
    KeptBounds(BigEndian(n), e2);
    var unit := if eMsb - 52 > -1074 then eMsb - 52 else -1074;
    var shift := unit - e2;
    var kept := 0;
    exact := true;
    if shift <= 0 {
      kept := KeepBits(n, bitsN, 0);
      ShrNone(BigEndian(n));
      kept := kept * Pow2(-shift);
    } else {
      kept, exact := RoundOff(n, bitsN, shift);
    }
    assert kept == Kept(BigEndian(n), e2) && exact == IsExact(BigEndian(n), e2);
    if kept == SIG_END { kept, unit := HIDDEN, unit + 1; }
    if kept == 0 { return SignedPattern(negative, 0), false; }
    if kept < HIDDEN {
      bits := kept;
    } else {
      var biased := unit + 52 + 1023;
      if biased >= 2047 { return SignedPattern(negative, INFINITY), false; }
      bits := biased * HIDDEN + (kept - HIDDEN);
    }
    bits := SignedPattern(negative, bits);
  }

  lemma OctetLength(b: Byte)
    ensures BitLength(b) <= 8
  {
    hide Pow2;
    BitLengthBounds(b);
    Pow2Of8();
    if BitLength(b) > 8 { Pow2Mono(8, BitLength(b) - 1); }
  }

  // ---- the normal form ----

  // A binary REAL: `Double` when a double holds it, otherwise its exact parts
  // and the nearest double.  A decimal one keeps its digits.
  datatype Real =
    | Double(bits: nat)
    | Binary(negative: bool, mantissa: seq<Byte>, exponent: int, nearest: nat)
    | Decimal(negative: bool, digits: seq<Byte>, exponent: int)

  // Trailing zero bits.
  function Tz(n: nat): (t: nat)
    requires n > 0
  {
    if n % 2 == 1 then 0 else 1 + Tz(n / 2)
  }

  function Odd(n: nat): (o: nat)
    requires n > 0
    ensures o % 2 == 1
  {
    if n % 2 == 1 then n else Odd(n / 2)
  }

  lemma {:induction false} OddPart(n: nat)
    requires n > 0
    ensures n == Odd(n) * Pow2(Tz(n)) && Odd(n) == Shr(n, Tz(n))
  {
    if n % 2 == 0 {
      OddPart(n / 2);
      MulDouble(Odd(n / 2), Pow2(Tz(n / 2)));
    }
  }

  lemma {:induction false} OddPartUnique(o: nat, t: nat)
    requires o % 2 == 1
    ensures o * Pow2(t) > 0 && Odd(o * Pow2(t)) == o && Tz(o * Pow2(t)) == t
  {
    if t > 0 {
      OddPartUnique(o, t - 1);
      MulDouble(o, Pow2(t - 1));
    }
  }

  // The octets of a number without leading zeros.
  function MinOctets(o: nat): seq<Byte> {
    ToOctets(o, UOctets(o))
  }

  lemma MinOctetsIs(m: seq<Byte>)
    requires m != [] && m[0] != 0
    ensures m == MinOctets(BigEndian(m))
  {
    hide BigEndian, Pow2, ToOctets, UOctets;
    var v := BigEndian(m);
    FirstOctetBound(m);
    BigEndianBound(m);
    UOctetsLeast(v, |m|);
    if |m| > 1 { UOctetsLeast(v, |m| - 1); }
    ToOctetsBigEndian(m);
  }

  // The octets of a number, and their number.
  lemma MinOctetsNumber(o: nat)
    requires o > 0
    ensures MinOctets(o) != [] && MinOctets(o)[0] != 0 && BigEndian(MinOctets(o)) == o
  {
    hide BigEndian, Pow2, ToOctets, UOctets;
    UOctetsBounds(o);
    UOctetsPositive(o);
    BigEndianToOctets(o, UOctets(o));
    FirstOctetBound(MinOctets(o));
    if UOctets(o) == 1 { assert Pow2(0) == 1 by { Pow2Zero(); } }
  }

  lemma UOctetsPositive(o: nat)
    ensures UOctets(o) >= 1
  {
  }

  // The value S x n x 2^e2 in its normal form.
  function BinaryReal(negative: bool, n: nat, e2: int): Real {
    if n == 0 then Double(SignedPattern(negative, 0))
    else
      var o, e := Odd(n), e2 + Tz(n);
      var nd := Nearest(o, e);
      if nd.exact then Double(SignedPattern(negative, nd.code))
      else Binary(negative, MinOctets(o), e, SignedPattern(negative, nd.code))
  }

  method StripLeadingZeros(mantissa: seq<Byte>) returns (m: seq<Byte>)
    ensures BigEndian(m) == BigEndian(mantissa) && (m != [] ==> m[0] != 0)
  {
    hide BigEndian, Pow2;
    m := mantissa;
    while m != [] && m[0] == 0
      invariant BigEndian(m) == BigEndian(mantissa)
      decreases |m|
    {
      assert m == [m[0]] + m[1..];
      BigEndianCons(m[0], m[1..]);
      m := m[1..];
    }
  }

  // `x` followed by `z` zero octets.
  function WithZeroOctets(x: nat, z: nat): nat {
    x * Pow2(8 * z)
  }

  lemma OneMoreZeroOctet(x: nat, z: nat)
    ensures WithZeroOctets(x * 256, z) == WithZeroOctets(x, z + 1)
  {
    hide Pow2;
    EightMore(z);
    Regroup(x, Pow2(8 * z), Pow2(8 * z + 8), x * 256);
    assert 8 * (z + 1) == 8 * z + 8;
  }

  lemma Regroup(x: nat, p: nat, p': nat, y: nat)
    requires p' == p * 256 && y == x * 256
    ensures y * p == x * p'
  {
  }

  method StripTrailingZeros(m: seq<Byte>) returns (k: seq<Byte>, zeroOctets: nat)
    requires m != [] && m[0] != 0
    ensures k != [] && k[0] != 0 && k[|k| - 1] != 0
    ensures BigEndian(m) == WithZeroOctets(BigEndian(k), zeroOctets)
  {
    hide BigEndian, WithZeroOctets;
    zeroOctets := 0;
    assert m[..|m| - 0] == m;
    NoZeroOctets(BigEndian(m));
    while m[|m| - 1 - zeroOctets] == 0
      invariant zeroOctets < |m|
      invariant BigEndian(m) == WithZeroOctets(BigEndian(m[..|m| - zeroOctets]), zeroOctets)
      decreases |m| - zeroOctets
    {
      ghost var front := m[..|m| - zeroOctets - 1];
      assert m[..|m| - zeroOctets] == front + [0];
      BigEndianSnoc(front, 0);
      OneMoreZeroOctet(BigEndian(front), zeroOctets);
      zeroOctets := zeroOctets + 1;
    }
    k := m[..|m| - zeroOctets];
  }

  lemma NoZeroOctets(x: nat)
    ensures WithZeroOctets(x, 0) == x
  {
    Pow2Zero();
  }

  lemma ShrUnique(v: nat, r: nat, q: nat, l: nat)
    requires v == q * Pow2(r) + l && l < Pow2(r)
    ensures Shr(v, r) == q && Low(v, r) == l
  {
    hide Shr, Low, Pow2;
    ShrLow(v, r);
    LowBelow(v, r);
    ModUnique(v, Pow2(r), q, l);
    ModUnique(v, Pow2(r), Shr(v, r), Low(v, r));
  }

  lemma CarryArithmetic(sx: nat, lx: nat, sb: nat, lb: nat, p: nat, q: nat)
    requires p * q == 256
    ensures (sx * p + lx) * 256 + (sb * p + lb) == (sx * 256 + lx * q + sb) * p + lb
  {
    assert lx * q * p == lx * (p * q);
  }

  // One octet shifted right by `r` with the carry of the one before.
  lemma ShiftOctet(x: nat, b: Byte, r: nat)
    requires r < 8
    ensures Low(x, r) * Pow2(8 - r) + Shr(b, r) < 256
    ensures Shr(x * 256 + b, r) == Shr(x, r) * 256 + (Low(x, r) * Pow2(8 - r) + Shr(b, r))
    ensures Low(x * 256 + b, r) == Low(b, r)
  {
    hide Shr, Low, Pow2;
    var p, q := Pow2(r), Pow2(8 - r);
    Pow2Of8();
    Pow2Sum(r, 8 - r);
    ShrLow(x, r);
    ShrLow(b, r);
    LowBelow(x, r);
    LowBelow(b, r);
    CarryArithmetic(Shr(x, r), Low(x, r), Shr(b, r), Low(b, r), p, q);
    ShrUnique(x * 256 + b, r, Shr(x, r) * 256 + Low(x, r) * q + Shr(b, r), Low(b, r));
    ShrBelowExactly(b, 8 - r, r);
    MulMonoPlus(q, Low(x, r), p);
  }

  // Shifts a big-endian number right by `r` bits, carrying across octets.
  method ShiftRight(m: seq<Byte>, r: nat) returns (out: seq<Byte>)
    requires r < 8
    ensures |out| == |m| && BigEndian(out) == Shr(BigEndian(m), r)
  {
    hide BigEndian, Pow2, Shr, Low;
    out := [];
    var carry := 0;
    assert m[..0] == [];
    ZeroShifted(r);
    for k := 0 to |m|
      invariant |out| == k && BigEndian(out) == Shr(BigEndian(m[..k]), r)
      invariant carry == Low(BigEndian(m[..k]), r) * Pow2(8 - r)
    {
      assert m[..k + 1] == m[..k] + [m[k]];
      BigEndianSnoc(m[..k], m[k]);
      ShiftOctet(BigEndian(m[..k]), m[k], r);
      var o: Byte := carry + Shr(m[k], r);
      BigEndianSnoc(out, o);
      out := out + [o];
      carry := Low(m[k], r) * Pow2(8 - r);
    }
    assert m[..|m|] == m;
  }

  lemma ZeroShifted(r: nat)
    ensures BigEndian([]) == 0 && Shr(0, r) == 0 && Low(0, r) == 0
  {
    hide Shr, Low, Pow2;
    Pow2Positive(r);
    ShrUnique(0, r, 0, 0);
  }

  lemma {:induction false} TzOfSum(a: nat, b: nat, k: nat)
    requires 0 < b < Pow2(k)
    ensures Pow2(k) * a + b > 0 && Tz(Pow2(k) * a + b) == Tz(b) && Tz(b) < k
  {
    var x := Pow2(k - 1) * a;
    assert Pow2(k) * a == 2 * x;
    if b % 2 == 0 {
      assert (2 * x + b) / 2 == x + b / 2;
      TzOfSum(a, b / 2, k - 1);
    }
  }

  lemma LastOctetTz(k: seq<Byte>)
    requires k != [] && k[|k| - 1] != 0
    ensures BigEndian(k) > 0 && Tz(BigEndian(k)) == Tz(k[|k| - 1]) < 8
  {
    Pow2Of8();
    var b := k[|k| - 1];
    assert k == k[..|k| - 1] + [b];
    BigEndianSnoc(k[..|k| - 1], b);
    TzOfSum(BigEndian(k[..|k| - 1]), b, 8);
  }

  lemma ShiftedTwice(v: nat, w: nat, z: nat)
    requires v > 0 && w == v * Pow2(z)
    ensures w > 0 && Odd(w) == Odd(v) && Tz(w) == Tz(v) + z
  {
    hide Pow2, Odd, Tz;
    OddPart(v);
    Pow2Sum(Tz(v), z);
    Product(Odd(v), Pow2(Tz(v)), Pow2(z));
    OddIsOdd(v);
    OddPartUnique(Odd(v), Tz(v) + z);
  }

  lemma Product(o: nat, p: nat, q: nat)
    ensures o * p * q == o * (p * q)
  {
  }

  lemma OddIsOdd(v: nat)
    requires v > 0
    ensures Odd(v) % 2 == 1
  {
  }

  // A shift by fewer than eight bits leaves at most one leading zero octet.
  lemma OneLeadingZero(k: seq<Byte>, out: seq<Byte>, r: nat)
    requires k != [] && k[0] != 0 && r < 8 && |out| == |k| && BigEndian(out) == Shr(BigEndian(k), r) > 0
    ensures |out| == 1 ==> out[0] != 0
    ensures |out| > 1 && out[0] == 0 ==> out[1] != 0 && BigEndian(out[1..]) == BigEndian(out)
  {
    hide BigEndian, Pow2, Shr;
    FirstOctetBound(out);
    FirstOctetBound(k);
    Pow2Zero();
    if |out| > 1 && out[0] == 0 {
      assert out == [out[0]] + out[1..];
      BigEndianCons(out[0], out[1..]);
      FirstOctetBound(out[1..]);
      ShrBelowExactly(BigEndian(k), 8 * (|k| - 2), r);
      Pow2Mono(8 * (|k| - 2) + r, 8 * (|k| - 1));
    }
  }

  method OddMantissa(k: seq<Byte>) returns (m: seq<Byte>, r: nat)
    requires k != [] && k[0] != 0 && k[|k| - 1] != 0
    ensures BigEndian(k) > 0
    ensures m != [] && m[0] != 0 && BigEndian(m) == Odd(BigEndian(k)) && r == Tz(BigEndian(k))
  {
    hide BigEndian, Pow2, Shr, Odd, Tz;
    LastOctetTz(k);
    r := Tz(k[|k| - 1]);
    m := ShiftRight(k, r);
    OddPart(BigEndian(k));
    OddIsOdd(BigEndian(k));
    OneLeadingZero(k, m, r);
    if |m| > 1 && m[0] == 0 { m := m[1..]; }
  }

  method MakeBinary(negative: bool, mantissa: seq<Byte>, exponent: int) returns (r: Real)
    ensures r == BinaryReal(negative, BigEndian(mantissa), exponent)
  {
    hide BigEndian, Pow2, Shr, Odd, Tz, MinOctets, Nearest;
    var stripped := StripLeadingZeros(mantissa);
    if stripped == [] {
      assert BigEndian([]) == 0 by { ZeroShifted(0); }
      return Double(SignedPattern(negative, 0));
    }
    var k, zeroOctets := StripTrailingZeros(stripped);
    var m, shift := OddMantissa(k);
    ShiftedTwice(BigEndian(k), BigEndian(stripped), 8 * zeroOctets);
    MinOctetsIs(m);
    var e := exponent + 8 * zeroOctets + shift;
    var bits, exact := RealFromBinary(negative, m, e);
    r := if exact then Double(bits) else Binary(negative, m, e, bits);
  }

  // ---- what the normal form means ----

  function Negative(r: Real): bool {
    match r
    case Double(bits) => bits >= SIGN_BIT
    case Binary(negative, _, _, _) => negative
    case Decimal(negative, _, _) => negative
  }

  function Code(bits: nat): nat {
    if bits >= SIGN_BIT then bits - SIGN_BIT else bits
  }

  predicate Finite(r: Real) {
    !r.Decimal? && (r.Double? ==> Code(r.bits) < INFINITY)
  }

  function Magnitude(r: Real): real
    requires Finite(r)
  {
    match r
    case Double(bits) => ValueOf(Code(bits))
    case Binary(_, mantissa, exponent, _) => Value(BigEndian(mantissa), exponent)
  }

  // An odd mantissa with a non-zero first octet, of a value no double holds.
  ghost predicate Normal(r: Real)
    requires r.Binary?
  {
    && r.mantissa != [] && r.mantissa[0] != 0 && BigEndian(r.mantissa) % 2 == 1
    && (forall c {:trigger ValueOf(c)} :: 0 <= c < INFINITY ==> ValueOf(c) != Value(BigEndian(r.mantissa), r.exponent))
    && r.nearest == SignedPattern(r.negative, Nearest(BigEndian(r.mantissa), r.exponent).code)
  }

  // Normalising keeps the value and gives the normal form.
  lemma BinaryRealKeepsValue(negative: bool, n: nat, e2: int)
    requires n > 0
    ensures var r := BinaryReal(negative, n, e2);
            && Finite(r) && Magnitude(r) == Value(n, e2) && Negative(r) == negative
            && (r.Binary? ==> Normal(r))
  {
    hide Pow2, Odd, Tz, MinOctets, Nearest, BigEndian, Value, ValueOf;
    var o, e := Odd(n), e2 + Tz(n);
    OddPart(n);
    OddIsOdd(n);
    ValueShift(o, e2, Tz(n));
    MinOctetsNumber(o);
    NearestIsNearest(o, e, 0);
    Overflow(o, e);
    forall c | 0 <= c < INFINITY && ValueOf(c) == Value(o, e) ensures Nearest(o, e).exact {
      NearestIsNearest(o, e, c);
    }
  }

  // Two mantissas and exponents give the same REAL exactly when they stand for
  // the same value.
  lemma NormalFormUnique(negative: bool, n: nat, e: int, n': nat, e': int)
    requires n > 0 && n' > 0
    ensures BinaryReal(negative, n, e) == BinaryReal(negative, n', e') <==> Value(n, e) == Value(n', e')
  {
    hide BinaryReal, Magnitude, Value, Pow2, Normal, Finite;
    BinaryRealKeepsValue(negative, n, e);
    BinaryRealKeepsValue(negative, n', e');
    if Value(n, e) == Value(n', e') {
      if e <= e' { SameValue(n, e, n', e'); } else { SameValue(n', e', n, e); }
      SameNormalForm(negative, n, e, n', e');
    }
  }

  lemma SameNormalForm(negative: bool, n: nat, e: int, n': nat, e': int)
    requires n > 0 && n' > 0 && Odd(n) == Odd(n') && e + Tz(n) == e' + Tz(n')
    ensures BinaryReal(negative, n, e) == BinaryReal(negative, n', e')
  {
    hide Odd, Tz, Nearest, MinOctets, SignedPattern;
  }

  lemma SameValue(n: nat, e: int, n': nat, e': int)
    requires n > 0 && n' > 0 && e <= e' && Value(n, e) == Value(n', e')
    ensures Odd(n) == Odd(n') && e + Tz(n) == e' + Tz(n')
  {
    hide Pow2, Odd, Tz, Value;
    ValueShift(n', e, e' - e);
    assert e + (e' - e) == e';
    ValueOrder(n, n' * Pow2(e' - e), e);
    ShiftedTwice(n', n, e' - e);
  }
}
