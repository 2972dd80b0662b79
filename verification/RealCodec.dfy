/** The contents octets of a REAL: encoding, decoding, and that decoding undoes encoding. */
module RealCodec {
  import opened Bits
  import opened Options
  import opened Integers
  import opened Octets
  import opened Ieee
  import opened RealNearest
  import opened RealBinary
  import opened RealDecimal

  // ---- encoding ----

  // Base 2, no scaling: information octet, exponent, mantissa.
  function BinaryContents(negative: bool, mantissa: seq<Byte>, exponent: int): seq<Byte> {
    var exp := SignedOctets(exponent);
    var info := if negative then 0xC0 else 0x80;
    (if |exp| <= 3 then [info + |exp| - 1] else [info + 3, |exp| % 256]) + (exp + mantissa)
  }

  function EncodeReal(r: Real): seq<Byte> {
    match r
    case Double(bits) =>
      var c := Code(bits);
      if c == 0 then if Negative(r) then [0x43] else []
      else if c == INFINITY then if Negative(r) then [0x41] else [0x40]
      else if c > INFINITY then [0x42]
      else BinaryContents(Negative(r), MinOctets(Odd(Sig(c))), Exp(c) + Tz(Sig(c)))
    case Binary(negative, mantissa, exponent, _) => BinaryContents(negative, mantissa, exponent)
    case Decimal(negative, digits, exponent) =>
      [3] + ((if negative then [MINUS] else []) + (digits + ([DOT] + ([UPPER_E] + ExponentText(exponent)))))
  }

  method PutBinary(negative: bool, mantissa: seq<Byte>, exponent: int, width: nat) returns (out: seq<Byte>)
    requires 0 < width <= 8 && FitsOctets(exponent, width)
    ensures out == BinaryContents(negative, mantissa, exponent)
  {
    hide SignedOctets, FitsOctets, SOctets;
    var exp := PutSigned(exponent, width);
    ExponentLength(exponent, width);
    var info: Byte := 0x80 + (if negative then 0x40 else 0);
    if |exp| <= 3 { out := [info + |exp| - 1]; } else { out := [info + 3, |exp|]; }
    out := out + (exp + mantissa);
  }

  lemma ExponentLength(e: int, width: nat)
    requires width > 0 && FitsOctets(e, width)
    ensures |SignedOctets(e)| == SOctets(e) && 1 <= SOctets(e) <= width
  {
    SOctetsLeast(e, width);
  }

  method EncodeRealExact(r: Real) returns (out: seq<Byte>)
    requires r.Binary? || r.Decimal?
    requires I64_MIN <= r.exponent <= I64_MAX
    ensures out == EncodeReal(r)
  {
    hide BinaryContents, FitsOctets;
    if r.Decimal? {
      out := [3];
      var t := if r.negative then [MINUS] else [];
      t := t + (r.digits + ([DOT] + ([UPPER_E] + ExponentText(r.exponent))));
      out := out + t;
    } else {
      I64FitsOctets(r.exponent);
      out := PutBinary(r.negative, r.mantissa, r.exponent, 8);
    }
  }

  // The mantissa and exponent of a double, without trailing zero bits.
  method OddSignificand(c: nat) returns (m: nat, e: int)
    requires 0 < c < INFINITY
    ensures Sig(c) > 0 && m == Odd(Sig(c)) && e == Exp(c) + Tz(Sig(c))
  {
    var biased := c / HIDDEN;
    e := if biased != 0 then biased - 1023 - 52 else -1074;
    m := c % HIDDEN + (if biased != 0 then HIDDEN else 0);
    assert m == Sig(c) && e == Exp(c);
    while m % 2 == 0
      invariant m > 0 && Odd(m) == Odd(Sig(c)) && e + Tz(m) == Exp(c) + Tz(Sig(c))
      decreases m
    {
      m := m / 2;
      e := e + 1;
    }
  }

  lemma SigPositive(c: nat)
    ensures c > 0 ==> Sig(c) > 0
  {
  }

  method BytesOf(v: nat) returns (out: seq<Byte>)
    requires v > 0
    ensures out == MinOctets(v)
  {
    hide ToOctets, UOctets;
    out := [];
    var rest: nat := v;
    FirstOctets(v);
    while rest > 0
      invariant rest > 0 ==> MinOctets(v) == MinOctets(rest) + out
      invariant rest == 0 ==> MinOctets(v) == out
      decreases rest
    {
      MinOctetsStep(rest);
      assert MinOctets(rest / 256) + ([rest % 256] + out) == (MinOctets(rest / 256) + [rest % 256]) + out;
      out := [rest % 256] + out;
      rest := rest / 256;
    }
  }

  lemma FirstOctets(v: nat)
    ensures MinOctets(v) == MinOctets(v) + []
  {
  }

  lemma MinOctetsStep(v: nat)
    requires v > 0
    ensures MinOctets(v) == if v < 256 then [v % 256] else MinOctets(v / 256) + [v % 256]
  {
    if v < 256 { assert ToOctets(v / 256, 0) == []; }
  }

  lemma DoubleExponentFits(c: nat)
    requires 0 < c < INFINITY
    ensures Sig(c) > 0 && FitsOctets(Exp(c) + Tz(Sig(c)), 3)
  {
    SigPositive(c);
    TzBound(Sig(c));
    Pow2Values();
    Pow2Step(16);
    Pow2Mono(17, 23);
  }

  lemma TzBound(n: nat)
    requires 0 < n < SIG_END
    ensures Tz(n) < 53
  {
    hide Odd, Tz, Pow2;
    OddPart(n);
    OddIsOdd(n);
    HiddenIsPow2();
    MulMono(Pow2(Tz(n)), 1, Odd(n));
    if Tz(n) >= 53 { Pow2Mono(53, Tz(n)); }
  }

  method EncodeDouble(bits: nat) returns (out: seq<Byte>)
    ensures out == EncodeReal(Double(bits))
  {
    hide BinaryContents, Odd, Tz, Sig, Exp, MinOctets, FitsOctets;
    var negative := bits >= SIGN_BIT;
    var c := if negative then bits - SIGN_BIT else bits;
    if c == 0 { return if negative then [0x43] else []; }
    if c == INFINITY { return if negative then [0x41] else [0x40]; }
    if c > INFINITY { return [0x42]; }
    var m, e := OddSignificand(c);
    DoubleExponentFits(c);
    OddPositive(Sig(c));
    var mantissa := BytesOf(m);
    out := PutBinary(negative, mantissa, e, 3);
  }

  lemma OddPositive(n: nat)
    requires n > 0
    ensures Odd(n) > 0
  {
  }

  // ---- decoding ----

  // Binary digits per step of the exponent; 0 is reserved.
  function Log2Base(info: Byte): nat {
    match (info / 16) % 4
    case 0 => 1
    case 1 => 3
    case 2 => 4
    case _ => 0
  }

  // The number in the exponent octets `exp` and mantissa octets `n`.
  function DecodeParts(info: Byte, exp: seq<Byte>, n: seq<Byte>): Option<Real> {
    var negative := (info / 64) % 2 == 1;
    if BigEndian(n) == 0 then Some(Double(SignedPattern(negative, 0)))
    else if SOctets(SignedBig(exp)) > 7 then None
    else Some(BinaryReal(negative, BigEndian(n), SignedBig(exp) * Log2Base(info) + (info / 4) % 4))
  }

  function DecodeBinary(info: Byte, rest: seq<Byte>): Option<Real> {
    if Log2Base(info) == 0 then None
    else if info % 4 == 3 then
      if rest == [] || rest[0] == 0 || |rest| - 1 < rest[0] then None
      else DecodeParts(info, rest[1..1 + rest[0]], rest[1 + rest[0]..])
    else if |rest| < info % 4 + 1 then None
    else DecodeParts(info, rest[..info % 4 + 1], rest[info % 4 + 1..])
  }

  function DecodeSpecial(info: Byte): Option<Real> {
    if info == 0x40 then Some(Double(INFINITY))
    else if info == 0x41 then Some(Double(SignedPattern(true, INFINITY)))
    else if info == 0x42 then Some(Double(QUIET_NAN))
    else if info == 0x43 then Some(Double(SignedPattern(true, 0)))
    else None
  }

  function DecodeReal(value: seq<Byte>): Option<Real> {
    if value == [] then Some(Double(0))
    else
      var info := value[0];
      if 0x40 <= info < 0x80 then if |value| == 1 then DecodeSpecial(info) else None
      else if info < 0x80 then if 1 <= info <= 3 then ParseDecimal(info, value[1..]) else None
      else DecodeBinary(info, value[1..])
  }

  // The value of exponent octets that fit in 56 bits.
  method ReadExponentOctets(exp: seq<Byte>) returns (e: Option<int>)
    requires exp != []
    ensures e == if SOctets(SignedBig(exp)) > 7 then None else Some(SignedBig(exp))
  {
    hide SOctets, BigEndian, SignedOctets;
    var k := SkipSign(exp);
    if |exp| - k > 7 { return None; }
    ghost var m := exp[k..];
    var v: int := if exp[0] >= 128 then -1 else 0;
    SignSame(exp, k);
    var i := k;
    while i < |exp|
      invariant k <= i <= |exp|
      invariant v == if i == k then (if m[0] >= 128 then -1 else 0) else SignedBig(m[..i - k])
    {
      FirstSigned(m, i - k);
      assert m[..i - k + 1] == m[..i - k] + [exp[i]];
      if i > k { SignedSnoc(m[..i - k], exp[i]); }
      v := v * 256 + exp[i];
      i := i + 1;
    }
    assert m[..|m|] == m;
    e := Some(v);
  }

  // Dropping sign octets keeps the sign bit.
  lemma SignSame(exp: seq<Byte>, k: nat)
    requires k < |exp| && SignedBig(exp[k..]) == SignedBig(exp)
    ensures exp[0] >= 128 <==> exp[k] >= 128
  {
    SignOf(exp);
    SignOf(exp[k..]);
  }

  lemma SignOf(m: seq<Byte>)
    requires m != []
    ensures m[0] >= 128 <==> SignedBig(m) < 0
  {
    BigEndianBound(m);
  }

  // Sign extension of the first octet.
  lemma FirstSigned(m: seq<Byte>, j: nat)
    requires j < |m|
    ensures j == 0 ==> SignedBig(m[..j + 1]) + (if m[0] >= 128 then 256 else 0) == m[0]
  {
    if j == 0 {
      assert m[..1] == [m[0]];
      BigEndianOne(m[0]);
      Pow2Of8();
    }
  }

  // ---- the 64-bit path ----

  // `m` x 2^lsb, `m` odd: what a double can hold.
  predicate Fits(m: nat, lsb: int) {
    m < SIG_END && lsb >= MIN_EXP && Msb(m, lsb) <= 1023
  }

  // The pattern the 64-bit path assembles.
  function FastPattern(m: nat, lsb: int): nat
    requires m > 0 && Fits(m, lsb)
  {
    var width, msb := BitLength(m), Msb(m, lsb);
    if msb >= -1022 then
      WidthBound(m);
      (msb + 1023) * HIDDEN + (m * Pow2(53 - width)) % HIDDEN
    else m * Pow2(lsb + 1074)
  }

  lemma WidthBound(m: nat)
    ensures m < SIG_END <==> BitLength(m) <= 53
  {
    hide Pow2;
    BitLengthBounds(m);
    HiddenIsPow2();
    if BitLength(m) <= 53 { Pow2Mono(BitLength(m), 53); }
    else { Pow2Mono(53, BitLength(m) - 1); assert m > 0 by { BitLengthPositive(m); } }
  }

  lemma BitLengthPositive(m: nat)
    ensures BitLength(m) > 0 ==> m > 0
  {
  }

  lemma FastNormal(m: nat, lsb: int)
    requires m > 0 && Fits(m, lsb) && Msb(m, lsb) >= -1022
    ensures FastPattern(m, lsb) < INFINITY && ValueOf(FastPattern(m, lsb)) == Value(m, lsb)
  {
    hide Pow2, BitLength, Value, ValueOf;
    BitLengthBounds(m);
    HiddenIsPow2();
    WidthBound(m);
    var width := BitLength(m);
    var kept, unit := m * Pow2(53 - width), lsb - (53 - width);
    Pow2Cross(width, 53 - width, m);
    Pow2Cross(width - 1, 53 - width, m);
    PatternValue(kept, unit);
    ModUnique(kept, HIDDEN, 1, kept - HIDDEN);
    ValueShift(m, unit, 53 - width);
    assert unit + (53 - width) == lsb;
  }

  lemma FastSubnormal(m: nat, lsb: int)
    requires m > 0 && Fits(m, lsb) && Msb(m, lsb) < -1022
    ensures FastPattern(m, lsb) < INFINITY && ValueOf(FastPattern(m, lsb)) == Value(m, lsb)
  {
    hide Pow2, BitLength, Value, ValueOf;
    BitLengthBounds(m);
    HiddenIsPow2();
    var width, kept := BitLength(m), m * Pow2(lsb + 1074);
    Pow2Cross(width, lsb + 1074, m);
    Pow2Mono(width + (lsb + 1074), 52);
    PatternValue(kept, MIN_EXP);
    ValueShift(m, MIN_EXP, lsb + 1074);
    assert MIN_EXP + (lsb + 1074) == lsb;
  }

  // The assembled pattern stands for exactly the value.
  lemma FastPatternExact(m: nat, lsb: int)
    requires m > 0 && Fits(m, lsb)
    ensures FastPattern(m, lsb) < INFINITY && ValueOf(FastPattern(m, lsb)) == Value(m, lsb)
  {
    hide FastPattern, ValueOf, Value, Fits;
    if Msb(m, lsb) >= -1022 { FastNormal(m, lsb); } else { FastSubnormal(m, lsb); }
  }

  // The conditions of the 64-bit path are exactly that some double is the value.
  lemma FitsExactly(m: nat, lsb: int)
    requires m % 2 == 1
    ensures Fits(m, lsb) <==> Nearest(m, lsb).exact
    ensures Fits(m, lsb) ==> Nearest(m, lsb).code == FastPattern(m, lsb)
  {
    hide Pow2, BitLength, Value, ValueOf, Nearest, FastPattern, Fits;
    if Fits(m, lsb) {
      FastPatternExact(m, lsb);
      NearestIsNearest(m, lsb, FastPattern(m, lsb));
    } else if Nearest(m, lsb).exact {
      NearestIsNearest(m, lsb, 0);
      ExactFits(m, lsb, Nearest(m, lsb).code);
      assert false;
    }
  }

  lemma ExactFits(m: nat, lsb: int, c: nat)
    requires m % 2 == 1 && c < INFINITY && ValueOf(c) == Value(m, lsb)
    ensures Fits(m, lsb)
  {
    hide Pow2, BitLength, Value, Odd, Tz;
    var s := Sig(c);
    ZeroIs(m, lsb);
    ZeroIs(0, Exp(c));
    assert s > 0;
    if Exp(c) <= lsb { SameValue(s, Exp(c), m, lsb); } else { SameValue(m, lsb, s, Exp(c)); }
    OddOfOdd(m);
    OddPart(s);
    Pow2Positive(Tz(s));
    MulMono(m, 1, Pow2(Tz(s)));
    LargestDouble(c);
    ValueBounds(m, lsb);
    TopValues();
    if Msb(m, lsb) > 1023 { ValueMono(1, 1024, Msb(m, lsb)); }
  }

  lemma OddOfOdd(m: nat)
    requires m % 2 == 1
    ensures Odd(m) == m && Tz(m) == 0
  {
  }

  // At most eight octets: assembled in 64-bit arithmetic when a double holds
  // the value, otherwise by the general conversion.
  method FastDouble(negative: bool, n: seq<Byte>, e2: int) returns (r: Option<nat>)
    requires n != [] && |n| <= 8 && BigEndian(n) > 0
    ensures r.Some? <==> BinaryReal(negative, BigEndian(n), e2).Double?
    ensures r.Some? ==> BinaryReal(negative, BigEndian(n), e2) == Double(r.value)
  {
    hide Pow2, BitLength, Odd, Tz, Nearest, BigEndian;
    var m := 0;
    assert n[..0] == [];
    ZeroShifted(0);
    for i := 0 to |n|
      invariant m == BigEndian(n[..i])
    {
      assert n[..i + 1] == n[..i] + [n[i]];
      BigEndianSnoc(n[..i], n[i]);
      m := m * 256 + n[i];
    }
    assert n[..|n|] == n;
    var tz := Tz(m);
    OddPart(m);
    OddIsOdd(m);
    m := Shr(m, tz);
    var lsb := e2 + tz;
    FitsExactly(m, lsb);
    var width := BitLength(m);
    var msb := lsb + width - 1;
    WidthBound(m);
    if width <= 53 && lsb >= -1074 && msb <= 1023 {
      var bits := if msb >= -1022 then (msb + 1023) * HIDDEN + (m * Pow2(53 - width)) % HIDDEN else m * Pow2(lsb + 1074);
      r := Some(SignedPattern(negative, bits));
    } else {
      r := None;
    }
  }

  method DecodeNumber(info: Byte, exp: seq<Byte>, n: seq<Byte>) returns (r: Option<Real>)
    requires exp != []
    ensures r == DecodeParts(info, exp, n)
  {
    hide SOctets, BigEndian, SignedBig, BinaryReal;
    var negative := (info / 64) % 2 == 1;
    var m := StripLeadingZeros(n);
    NumberOfStripped(m);
    if m == [] { return Some(Double(SignedPattern(negative, 0))); }
    var e := ReadExponentOctets(exp);
    if e.None? { return None; }
    var e2 := e.value * Log2Base(info) + (info / 4) % 4;
    if |m| <= 8 {
      var bits := FastDouble(negative, m, e2);
      if bits.Some? { return Some(Double(bits.value)); }
    }
    var slow := MakeBinary(negative, m, e2);
    r := Some(slow);
  }

  lemma NumberOfStripped(m: seq<Byte>)
    requires m != [] ==> m[0] != 0
    ensures BigEndian(m) == 0 <==> m == []
  {
    if m != [] { FirstOctetBound(m); }
  }

  method DecodeRealContents(value: seq<Byte>) returns (r: Option<Real>)
    ensures r == DecodeReal(value)
  {
    hide ParseDecimal, DecodeParts;
    if value == [] { return Some(Double(0)); }
    var info := value[0];
    if (info / 64) % 4 == 1 { return if |value| == 1 then DecodeSpecial(info) else None; }
    if info < 0x80 {
      var form := info % 64;
      if form < 1 || form > 3 { return None; }
      r := ReadDecimal(form, value[1..]);
      return;
    }
    if Log2Base(info) == 0 { return None; }
    var rest, expLen := value[1..], info % 4 + 1;
    if info % 4 == 3 {
      if rest == [] { return None; }
      expLen := rest[0];
      rest := rest[1..];
      if expLen == 0 { return None; }
      assert |rest| >= expLen ==> rest[..expLen] == value[1..][1..1 + expLen] && rest[expLen..] == value[1..][1 + expLen..];
    }
    if |rest| < expLen { return None; }
    r := DecodeNumber(info, rest[..expLen], rest[expLen..]);
  }

  // ---- decoding undoes encoding ----

  // The information octet of an exponent of `k` octets.
  function InfoOctet(negative: bool, k: nat): (info: Byte)
    requires k >= 1
    ensures info >= 128 && Log2Base(info) == 1 && (info / 4) % 4 == 0
    ensures ((info / 64) % 2 == 1 <==> negative) && info % 4 == (if k <= 3 then k - 1 else 3)
  {
    (if negative then 0xC0 else 0x80) + (if k <= 3 then k - 1 else 3)
  }

  lemma Halves(a: seq<Byte>, b: seq<Byte>)
    ensures (a + b)[..|a|] == a && (a + b)[|a|..] == b
  {
  }

  // The information octet leads back to the exponent and the mantissa.
  lemma ContentsSplit(negative: bool, mantissa: seq<Byte>, exponent: int)
    requires SOctets(exponent) < 256
    ensures DecodeReal(BinaryContents(negative, mantissa, exponent))
         == DecodeParts(InfoOctet(negative, SOctets(exponent)), SignedOctets(exponent), mantissa)
  {
    hide SOctets, DecodeParts, InfoOctet, ToOctets, Log2Base;
    var exp, value := SignedOctets(exponent), BinaryContents(negative, mantissa, exponent);
    SOctetsPositive(exponent);
    var info := InfoOctet(negative, |exp|);
    InfoOctetIs(negative, |exp|);
    assert value[0] == info;
    if |exp| <= 3 {
      assert value[1..] == exp + mantissa;
      Halves(exp, mantissa);
    } else {
      assert value[1..] == [|exp|] + (exp + mantissa);
      SplitCounted(|exp|, exp, mantissa, value[1..]);
    }
  }

  lemma InfoOctetIs(negative: bool, k: nat)
    requires k >= 1
    ensures InfoOctet(negative, k) == (if negative then 0xC0 else 0x80) + (if k <= 3 then k - 1 else 3)
  {
  }

  lemma SplitCounted(k: Byte, exp: seq<Byte>, mantissa: seq<Byte>, rest: seq<Byte>)
    requires |exp| == k && rest == [k] + (exp + mantissa)
    ensures rest[1..1 + k] == exp && rest[1 + k..] == mantissa
  {
  }

  lemma SOctetsPositive(e: int)
    ensures SOctets(e) >= 1
  {
  }

  lemma SignedOctetsNumber(e: int)
    ensures SignedBig(SignedOctets(e)) == e
  {
    SOctetsBounds(e);
    SignedToOctets(e, SOctets(e));
  }

  lemma ContentsReadBack(negative: bool, mantissa: seq<Byte>, exponent: int)
    requires SOctets(exponent) < 256 && BigEndian(mantissa) > 0
    ensures DecodeReal(BinaryContents(negative, mantissa, exponent))
         == if SOctets(exponent) > 7 then None else Some(BinaryReal(negative, BigEndian(mantissa), exponent))
  {
    hide SOctets, SignedBig, SignedOctets, BinaryReal, BigEndian, BinaryContents, DecodeReal;
    ContentsSplit(negative, mantissa, exponent);
    SignedOctetsNumber(exponent);
  }

  // Every double comes back bit for bit; a NaN as the quiet one.
  lemma DoubleReadBack(bits: nat)
    requires bits < 2 * SIGN_BIT
    ensures DecodeReal(EncodeReal(Double(bits))) == Some(Double(if Code(bits) > INFINITY then QUIET_NAN else bits))
  {
    hide Odd, Tz, Sig, Exp, MinOctets, BinaryContents, Nearest, BigEndian, ValueOf, SOctets;
    var c := Code(bits);
    if 0 < c < INFINITY {
      SigPositive(c);
      FiniteReadBack(bits >= SIGN_BIT, c);
    }
  }

  lemma FiniteReadBack(negative: bool, c: nat)
    requires 0 < c < INFINITY && Sig(c) > 0
    ensures DecodeReal(BinaryContents(negative, MinOctets(Odd(Sig(c))), Exp(c) + Tz(Sig(c)))) == Some(Double(SignedPattern(negative, c)))
  {
    hide Odd, Tz, Sig, Exp, MinOctets, BinaryContents, Nearest, BigEndian, Value, SOctets, DecodeReal, FitsOctets, Pow2;
    var s, o, e := Sig(c), Odd(Sig(c)), Exp(c) + Tz(Sig(c));
    OddPositive(s);
    OddIsOdd(s);
    OddOfOdd(o);
    MinOctetsNumber(o);
    DoubleExponentFits(c);
    SOctetsLeast(e, 3);
    ContentsReadBack(negative, MinOctets(o), e);
    OddPart(s);
    ValueShift(o, Exp(c), Tz(s));
    NearestIsNearest(o, e, c);
  }

  // A value no double holds comes back exactly when its exponent has at most
  // 56 bits; otherwise its own encoding is refused.
  lemma BinaryReadBack(r: Real)
    requires r.Binary? && Normal(r) && I64_MIN <= r.exponent <= I64_MAX
    ensures DecodeReal(EncodeReal(r)) == if FitsOctets(r.exponent, 7) then Some(r) else None
  {
    hide BinaryContents, BigEndian, SOctets, DecodeReal, FitsOctets, MinOctets, Nearest, Value, ValueOf, Odd, Tz, Pow2;
    I64FitsOctets(r.exponent);
    SOctetsLeast(r.exponent, 8);
    SOctetsLeast(r.exponent, 7);
    ContentsReadBack(r.negative, r.mantissa, r.exponent);
    var o := BigEndian(r.mantissa);
    OddOfOdd(o);
    MinOctetsIs(r.mantissa);
    NearestIsNearest(o, r.exponent, 0);
  }

  // A decimal value comes back unless its exponent is the least int64.
  lemma DecimalReadBack(r: Real)
    requires NormalDecimal(r) && I64_MIN <= r.exponent <= I64_MAX
    ensures DecodeReal(EncodeReal(r)) == if r.exponent > I64_MIN then Some(r) else None
  {
    hide ParseExponent, ParseDecimal, DecimalReal;
    var sign := if r.negative then [MINUS] else [];
    var text := sign + (r.digits + ([DOT] + ([UPPER_E] + ExponentText(r.exponent))));
    Nr3Read(0, sign, r.digits, DOT, [], ExponentText(r.exponent), UPPER_E);
    assert seq(0, _ => SPACE) + text == text;
    assert [] + ([UPPER_E] + ExponentText(r.exponent)) == [UPPER_E] + ExponentText(r.exponent);
    assert r.digits + [] == r.digits;
    assert EncodeReal(r)[1..] == text;
    ExponentReadBack(r.exponent);
    NormalStays(r.negative, r.digits, r.exponent);
  }

  // 2^(2^55) needs an exponent of eight octets, and 10^(-2^63) the least int64:
  // both are written and then refused.
  lemma ExponentsRefused()
    ensures BinaryReal(false, 1, 0x80_0000_0000_0000).Binary?
    ensures DecodeReal(EncodeReal(BinaryReal(false, 1, 0x80_0000_0000_0000))) == None
    ensures DecodeReal(EncodeReal(Decimal(false, [49], I64_MIN))) == None
  {
    hide DecodeReal, EncodeReal, FitsOctets;
    var e := 0x80_0000_0000_0000;
    PowerReal(e);
    assert !FitsOctets(e, 7) by { EightOctets(); }
    hide BinaryReal, Normal;
    BinaryReadBack(BinaryReal(false, 1, e));
    DecimalReadBack(Decimal(false, [49], I64_MIN));
  }

  // A power of two beyond the doubles is its own normal form.
  lemma PowerReal(e: int)
    requires e > 1023
    ensures var r := BinaryReal(false, 1, e); r.Binary? && Normal(r) && r.exponent == e
  {
    hide Normal, Kept, Unit, Pattern, IsExact;
    assert Odd(1) == 1 && Tz(1) == 0;
    assert BitLength(1) == 1;
    BinaryRealKeepsValue(false, 1, e);
  }

  lemma EightOctets()
    ensures Pow2(55) == 0x80_0000_0000_0000
    ensures !FitsOctets(0x80_0000_0000_0000, 7)
  {
    Pow2Of8();
    Pow2Values();
    hide Pow2;
    Pow2Sum(8, 55);
  }
}
