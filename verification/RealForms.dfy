/**
 * What REAL contents octets are worth in every form section 8.5 of X.690 has,
 * not only those the encoder writes: bases 2, 8 and 16 with a scale factor,
 * exponents and mantissas of any length, and decimal text.
 */
module RealForms {
  import opened Bits
  import opened Options
  import opened Integers
  import opened Octets
  import opened Ieee
  import opened RealBinary
  import opened RealDecimal
  import opened RealCodec

  // ---- the binary forms ----

  // b^n, by repeated multiplication.
  function Power(b: nat, n: nat): nat {
    if n == 0 then 1 else b * Power(b, n - 1)
  }

  lemma {:induction false} PowerPositive(b: nat, n: nat)
    requires b > 0
    ensures Power(b, n) > 0
  {
    if n > 0 {
      PowerPositive(b, n - 1);
      MulMono(b, 1, Power(b, n - 1));
    }
  }

  // A power of 2, 8 or 16 as a power of two.
  lemma {:induction false} PowerOfTwo(base: nat, digits: nat, n: nat)
    requires base == Pow2(digits)
    ensures Power(base, n) == Pow2(n * digits)
  {
    if n > 0 {
      hide Pow2;
      PowerOfTwo(base, digits, n - 1);
      Pow2Sum(digits, (n - 1) * digits);
      assert digits + (n - 1) * digits == n * digits;
    } else {
      Pow2Zero();
    }
  }

  // One, three or four binary digits to a step of the exponent.
  function BaseDigits(base: nat): nat {
    if base == 2 then 1 else if base == 8 then 3 else 4
  }

  // The bits of the information octet for the base: 2, 8 or 16.
  function BaseBits(base: nat): nat {
    if base == 2 then 0 else if base == 8 then 16 else 32
  }

  // One binary encoding: sign, base, scale factor, exponent octets and
  // mantissa octets; `counted` when the exponent's octets are counted.
  datatype BinaryForm = BinaryForm(negative: bool, base: nat, scale: nat, counted: bool, exp: seq<Byte>, n: seq<Byte>) {
    predicate Wf() {
      (base == 2 || base == 8 || base == 16) && scale < 4 && 1 <= |exp| <= (if counted then 255 else 3)
    }

    function Info(): Byte
      requires Wf()
    {
      128 + (if negative then 64 else 0) + BaseBits(base) + 4 * scale + (if counted then 3 else |exp| - 1)
    }

    function Contents(): seq<Byte>
      requires Wf()
    {
      [Info()] + ((if counted then [|exp|] else []) + (exp + n))
    }

    // The number in the mantissa octets, and the exponent.
    function N(): nat {
      BigEndian(n)
    }

    function E(): int {
      SignedBig(exp)
    }
  }

  lemma InfoBits(f: BinaryForm)
    requires f.Wf()
    ensures f.Info() >= 128 && ((f.Info() / 64) % 2 == 1 <==> f.negative)
    ensures Log2Base(f.Info()) == BaseDigits(f.base) && (f.Info() / 4) % 4 == f.scale
    ensures f.Info() % 4 == if f.counted then 3 else |f.exp| - 1
  {
    OctetParts(if f.negative then 1 else 0, BaseBits(f.base) / 16, f.scale, if f.counted then 3 else |f.exp| - 1, f.Info());
  }

  // The fields of an octet whose top bit is set.
  lemma OctetParts(sign: nat, base: nat, scale: nat, len: nat, info: nat)
    requires sign < 2 && base < 4 && scale < 4 && len < 4 && info == 128 + 64 * sign + 16 * base + 4 * scale + len
    ensures info < 256 && (info / 64) % 2 == sign && (info / 16) % 4 == base && (info / 4) % 4 == scale && info % 4 == len
  {
    assert info / 4 == 32 + 16 * sign + 4 * base + scale;
    assert info / 16 == 8 + 4 * sign + base;
    assert info / 64 == 2 + sign;
  }

  lemma FormSplit(f: BinaryForm)
    requires f.Wf()
    ensures DecodeReal(f.Contents()) == DecodeParts(f.Info(), f.exp, f.n)
  {
    hide DecodeParts, Log2Base, BaseDigits, BaseBits;
    InfoBits(f);
    var value := f.Contents();
    assert BaseDigits(f.base) > 0 by { BaseDigitsPositive(f.base); }
    if f.counted {
      assert value[1..] == [|f.exp|] + (f.exp + f.n);
      SplitCounted(|f.exp|, f.exp, f.n, value[1..]);
    } else {
      assert value[1..] == f.exp + f.n;
      Halves(f.exp, f.n);
    }
  }

  lemma BaseDigitsPositive(base: nat)
    ensures BaseDigits(base) > 0
  {
  }

  lemma BaseIsPower(base: nat)
    requires base == 2 || base == 8 || base == 16
    ensures base == Pow2(BaseDigits(base))
  {
    assert Pow2(1) == 2 && Pow2(3) == 8 && Pow2(4) == 16;
  }

  // The binary exponent of base^e, for both signs of e.
  lemma ExponentOfPower(base: nat, e: int)
    requires base == 2 || base == 8 || base == 16
    ensures e >= 0 ==> RPow2(e * BaseDigits(base)) == Power(base, e) as real
    ensures e < 0 ==> RPow2(e * BaseDigits(base)) * Power(base, -e) as real == 1.0
  {
    hide Pow2, BaseDigits;
    BaseIsPower(base);
    var d := BaseDigits(base);
    if e >= 0 {
      PowerOfTwo(base, d, e);
      assert e * d >= 0;
    } else {
      PowerOfTwo(base, d, -e);
      assert (-e) * d == -(e * d);
      NegativePower((-e) * d);
    }
  }

  lemma NegativePower(n: nat)
    ensures RPow2(-(n as int)) * Pow2(n) as real == 1.0
  {
  }

  // A number other than zero whose exponent fits in 56 bits is decoded as
  // sign x N x 2^F x B^E, in its normal form; with a larger exponent it is
  // refused.
  lemma BinaryMeaning(f: BinaryForm) returns (e: int)
    requires f.Wf() && f.N() > 0
    ensures DecodeReal(f.Contents()) == if FitsOctets(f.E(), 7) then Some(BinaryReal(f.negative, f.N(), e)) else None
    ensures RPow2(e) == Pow2(f.scale) as real * RPow2(e - f.scale)
    ensures f.E() >= 0 ==> RPow2(e - f.scale) == Power(f.base, f.E()) as real
    ensures f.E() < 0 ==> RPow2(e - f.scale) * Power(f.base, -f.E()) as real == 1.0
  {
    hide BigEndian, SignedBig, Pow2, RPow2, BinaryReal, FitsOctets, BaseDigits, DecodeReal, Power;
    BinaryDecoded(f);
    e := f.E() * BaseDigits(f.base) + f.scale;
    ExponentOfPower(f.base, f.E());
    RPow2Add(f.E() * BaseDigits(f.base), f.scale);
  }

  lemma BinaryDecoded(f: BinaryForm)
    requires f.Wf() && f.N() > 0
    ensures DecodeReal(f.Contents())
         == if FitsOctets(f.E(), 7) then Some(BinaryReal(f.negative, f.N(), f.E() * BaseDigits(f.base) + f.scale)) else None
  {
    hide BigEndian, SignedBig, SOctets, BinaryReal, FitsOctets, Log2Base, BaseDigits, DecodeReal;
    InfoBits(f);
    FormSplit(f);
    SOctetsLeast(f.E(), 7);
  }

  // What is decoded has exactly that sign and magnitude.
  lemma BinaryWorth(f: BinaryForm)
    requires f.Wf() && f.N() > 0 && FitsOctets(f.E(), 7)
    ensures DecodeReal(f.Contents()).Some?
    ensures var r := DecodeReal(f.Contents()).value;
            && Finite(r) && Negative(r) == f.negative && (r.Binary? ==> Normal(r))
            && (f.E() >= 0 ==> Magnitude(r) == f.N() as real * (Pow2(f.scale) as real * Power(f.base, f.E()) as real))
            && (f.E() < 0 ==> Magnitude(r) * Power(f.base, -f.E()) as real == f.N() as real * Pow2(f.scale) as real)
  {
    hide Pow2, RPow2, BigEndian, SignedBig, FitsOctets, BinaryReal, DecodeReal, Power, Finite, Magnitude, Normal;
    var e := BinaryMeaning(f);
    BinaryRealKeepsValue(f.negative, f.N(), e);
    var r := BinaryReal(f.negative, f.N(), e);
    assert Magnitude(r) == f.N() as real * RPow2(e);
    if f.E() < 0 {
      Regrouped(f.N() as real, Pow2(f.scale) as real, RPow2(e - f.scale), Power(f.base, -f.E()) as real);
    }
  }

  lemma Regrouped(n: real, s: real, p: real, q: real)
    requires p * q == 1.0
    ensures (n * (s * p)) * q == n * s
  {
    assert (n * (s * p)) * q == (n * s) * (p * q);
  }

  // Without a mantissa the value is zero, whatever the exponent.
  lemma BinaryZero(f: BinaryForm)
    requires f.Wf() && f.N() == 0
    ensures DecodeReal(f.Contents()) == Some(Double(if f.negative then SIGN_BIT else 0))
  {
    hide BigEndian, SignedBig, DecodeReal;
    InfoBits(f);
    FormSplit(f);
  }

  // Nothing else whose first bit is set is decoded.
  lemma BinaryFormOnly(value: seq<Byte>) returns (f: BinaryForm)
    requires value != [] && value[0] >= 128 && DecodeReal(value).Some?
    ensures f.Wf() && f.Contents() == value
  {
    hide DecodeParts, DecodeBinary;
    var info := value[0];
    var counted, exp, n := BinarySplit(info, value[1..]);
    var base := if (info / 16) % 4 == 0 then 2 else if (info / 16) % 4 == 1 then 8 else 16;
    f := BinaryForm((info / 64) % 2 == 1, base, (info / 4) % 4, counted, exp, n);
    InfoParts(info, f);
    assert value == [info] + value[1..];
  }

  lemma BinarySplit(info: Byte, rest: seq<Byte>) returns (counted: bool, exp: seq<Byte>, n: seq<Byte>)
    requires DecodeBinary(info, rest).Some?
    ensures (info / 16) % 4 < 3 && 1 <= |exp| <= (if counted then 255 else 3)
    ensures info % 4 == if counted then 3 else |exp| - 1
    ensures rest == (if counted then [|exp|] else []) + (exp + n)
  {
    hide DecodeParts;
    counted := info % 4 == 3;
    if counted {
      exp, n := rest[1..1 + rest[0]], rest[1 + rest[0]..];
      assert rest == [rest[0]] + (exp + n);
    } else {
      exp, n := rest[..info % 4 + 1], rest[info % 4 + 1..];
      assert rest == [] + (exp + n);
    }
  }

  lemma InfoParts(info: Byte, f: BinaryForm)
    requires info >= 128 && f.Wf() && (info / 16) % 4 < 3
    requires f.negative == ((info / 64) % 2 == 1) && f.scale == (info / 4) % 4
    requires f.base == if (info / 16) % 4 == 0 then 2 else if (info / 16) % 4 == 1 then 8 else 16
    requires info % 4 == if f.counted then 3 else |f.exp| - 1
    ensures f.Info() == info
  {
    assert info == 128 + 64 * (info / 64 % 2) + 16 * (info / 16 % 4) + 4 * (info / 4 % 4) + info % 4;
  }

  // ---- what is written ----

  // The encoder writes base 2 without a scale factor, and counts exponents of
  // more than three octets.
  lemma WrittenForm(negative: bool, mantissa: seq<Byte>, exponent: int) returns (f: BinaryForm)
    requires SOctets(exponent) < 256
    ensures f == BinaryForm(negative, 2, 0, SOctets(exponent) > 3, SignedOctets(exponent), mantissa)
    ensures f.Wf() && f.E() == exponent && f.Contents() == BinaryContents(negative, mantissa, exponent)
  {
    hide SOctets, SignedBig, ToOctets;
    SOctetsPositive(exponent);
    SignedOctetsNumber(exponent);
    f := BinaryForm(negative, 2, 0, SOctets(exponent) > 3, SignedOctets(exponent), mantissa);
  }

  // No encoding in base 2 of the same mantissa and exponent is shorter.
  lemma WrittenShortest(negative: bool, n: nat, exponent: int, f: BinaryForm)
    requires n > 0 && SOctets(exponent) < 256
    requires f.Wf() && f.N() == n && f.E() == exponent
    ensures |BinaryContents(negative, MinOctets(n), exponent)| <= |f.Contents()|
  {
    hide SOctets, SignedBig, BigEndian, ToOctets, UOctets, FitsOctets, Pow2;
    var w := WrittenForm(negative, MinOctets(n), exponent);
    SignedFits(f.exp);
    SOctetsLeast(exponent, |f.exp|);
    BigEndianBound(f.n);
    assert f.n != [] by { NoMantissa(f.n); }
    UOctetsLeast(n, |f.n|);
  }

  lemma NoMantissa(n: seq<Byte>)
    ensures n == [] ==> BigEndian(n) == 0
  {
  }

  // ---- decimal text ----

  // An ISO 6093 number: spaces, a sign, digits with or without a decimal mark
  // among them, and for NR3 an exponent.
  datatype DecimalForm = DecimalForm(spaces: nat, sign: seq<Byte>, a: seq<Byte>, mark: Option<Byte>, b: seq<Byte>, exponent: Option<(Byte, seq<Byte>)>) {
    predicate Wf(form: nat) {
      && (sign == [] || sign == [PLUS] || sign == [MINUS])
      && AllDigits(a) && AllDigits(b) && a + b != []
      && (mark.None? ==> b == []) && (mark.Some? ==> mark.value == DOT || mark.value == COMMA)
      && (form == 1 ==> mark.None?) && (form == 2 ==> mark.Some?)
      && (exponent.Some? <==> form == 3)
      && (exponent.Some? ==> (exponent.value.0 == UPPER_E || exponent.value.0 == LOWER_E) && ParseExponent(exponent.value.1).Some?)
    }

    function Tail(): seq<Byte> {
      if exponent.Some? then [exponent.value.0] + exponent.value.1 else []
    }

    function Number(): seq<Byte> {
      if mark.Some? then a + ([mark.value] + (b + Tail())) else a + Tail()
    }

    function Text(): seq<Byte> {
      seq(spaces, _ => SPACE) + (sign + Number())
    }

    // The exponent of the last digit.
    function Scale(): int {
      (if exponent.Some? && ParseExponent(exponent.value.1).Some? then ParseExponent(exponent.value.1).value else 0) - |b|
    }
  }

  lemma FormScans(form: nat, f: DecimalForm)
    requires 1 <= form <= 3 && f.Wf(form)
    ensures Scan(form, f.Number(), false) == Scanned(f.a + f.b, |f.b|, f.mark.Some?, f.Tail())
  {
    if f.mark.Some? {
      ScanMarked(form, f.a, f.mark.value, f.b, f.Tail());
    } else {
      assert f.b == [];
      ScanRun(form, f.a, f.Tail(), false);
      assert f.a + [] == f.a;
    }
  }

  lemma FormNumber(form: nat, f: DecimalForm)
    requires 1 <= form <= 3 && f.Wf(form)
    ensures f.Number() != [] && (IsDigit(f.Number()[0]) || f.Number()[0] == DOT || f.Number()[0] == COMMA)
  {
    if f.a != [] { assert f.Number()[0] == f.a[0]; } else { assert f.Number()[0] == f.mark.value; }
  }

  // Such a text is the number of its digits, scaled by its exponent less the
  // digits behind the mark, and refused when that is below the least int64.
  lemma DecimalRead(form: nat, f: DecimalForm)
    requires 1 <= form <= 3 && f.Wf(form)
    ensures DecodeReal([form] + f.Text())
         == if f.Scale() < I64_MIN then None else Some(DecimalReal(f.sign == [MINUS], f.a + f.b, f.Scale()))
  {
    hide ParseDecimal, DecimalReal, ParseExponent;
    FormParsed(form, f);
    assert ([form] + f.Text())[1..] == f.Text();
  }

  lemma FormParsed(form: nat, f: DecimalForm)
    requires 1 <= form <= 3 && f.Wf(form)
    ensures ParseDecimal(form, f.Text())
         == if f.Scale() < I64_MIN then None else Some(DecimalReal(f.sign == [MINUS], f.a + f.b, f.Scale()))
  {
    hide DecimalReal, Scan, ParseExponent, SkipSpaces, Unsigned;
    FormNumber(form, f);
    FormScans(form, f);
    SignedBody(f.spaces, f.sign, f.Number());
    if f.exponent.Some? { assert f.Tail()[1..] == f.exponent.value.1; }
  }

  // What is decoded is worth exactly that, if its exponent has room for the
  // trailing zeros dropped.
  lemma DecimalWorth(form: nat, f: DecimalForm) returns (z: nat)
    requires 1 <= form <= 3 && f.Wf(form) && f.Scale() >= I64_MIN && DecNat(f.a + f.b) > 0
    ensures DecodeReal([form] + f.Text()).Some?
    ensures var r := DecodeReal([form] + f.Text()).value;
            && NormalDecimal(r) && r.negative == (f.sign == [MINUS])
            && DecNat(f.a + f.b) == DecNat(r.digits) * Pow10(z)
            && (r.exponent == f.Scale() + z <==> f.Scale() + z <= I64_MAX)
  {
    hide DecimalReal, ParseExponent, DecNat;
    DecimalRead(form, f);
    assert f.Scale() <= I64_MAX by { ScaleBound(f); }
    z := DecimalKeepsValue(f.sign == [MINUS], f.a + f.b, f.Scale());
  }

  lemma ScaleBound(f: DecimalForm)
    ensures f.Scale() <= I64_MAX
  {
  }

  // An exponent is a number of at most 63 bits with or without a sign.
  lemma ExponentAnyForm(sign: seq<Byte>, ds: seq<Byte>)
    requires (sign == [] || sign == [PLUS] || sign == [MINUS]) && AllDigits(ds) && ds != []
    ensures ParseExponent(sign + ds)
         == if DecNat(ds) > I64_MAX then None else if sign == [MINUS] then Some(-(DecNat(ds) as int)) else Some(DecNat(ds))
  {
    hide DecNat;
    assert Unsigned(sign + ds) == ds by {
      if sign == [] { assert sign + ds == ds; assert IsDigit(ds[0]); } else { assert (sign + ds)[1..] == ds; }
    }
    if sign == [] { assert (sign + ds)[0] == ds[0]; assert IsDigit(ds[0]); }
  }

  // No other text is decoded.
  lemma DecimalFormOnly(value: seq<Byte>) returns (f: DecimalForm)
    requires value != [] && value[0] < 64 && DecodeReal(value).Some?
    ensures 1 <= value[0] <= 3 && f.Wf(value[0]) && value == [value[0]] + f.Text()
  {
    hide ParseDecimal;
    var form, text := value[0], value[1..];
    var spaces := LeadingSpaces(text);
    f := BodyParts(form, text, spaces);
    assert value == [form] + text;
  }

  lemma BodyParts(form: nat, text: seq<Byte>, spaces: nat) returns (f: DecimalForm)
    requires 1 <= form <= 3 && ParseDecimal(form, text).Some? && text == seq(spaces, _ => SPACE) + SkipSpaces(text)
    ensures f.Wf(form) && text == f.Text()
  {
    hide DecimalValue, ParseExponent, Scan, SkipSpaces;
    var t := SkipSpaces(text);
    var body := Unsigned(t);
    var rest := Scan(form, body, false).rest;
    var a, mark, b := ScanParts(form, body);
    var sign := t[..|t| - |body|];
    f := DecimalForm(spaces, sign, a, mark, b, if form == 3 then Some((rest[0], rest[1..])) else None);
    assert rest == f.Tail();
    assert t == sign + body;
  }

  lemma {:induction false} LeadingSpaces(text: seq<Byte>) returns (n: nat)
    ensures text == seq(n, _ => SPACE) + SkipSpaces(text)
  {
    if text != [] && text[0] == SPACE {
      var m := LeadingSpaces(text[1..]);
      n := m + 1;
      assert text == [SPACE] + text[1..];
      assert seq(n, _ => SPACE) == [SPACE] + seq(m, _ => SPACE);
    } else {
      n := 0;
      assert text == [] + text;
    }
  }

  // What the scanner took: digits, a mark if there was one, and digits.
  lemma {:induction false} ScanParts(form: nat, t: seq<Byte>) returns (a: seq<Byte>, mark: Option<Byte>, b: seq<Byte>)
    ensures var s := Scan(form, t, false);
            && AllDigits(a) && AllDigits(b) && s.digits == a + b && (s.marked <==> mark.Some?)
            && (mark.None? ==> b == [] && t == a + s.rest)
            && (mark.Some? ==> form >= 2 && (mark.value == DOT || mark.value == COMMA) && t == a + ([mark.value] + (b + s.rest)))
    decreases |t|
  {
    a, mark, b := [], None, [];
    if t == [] {
    } else if IsDigit(t[0]) {
      var a' : seq<Byte>;
      a', mark, b := ScanParts(form, t[1..]);
      a := [t[0]] + a';
      assert t == [t[0]] + t[1..];
    } else if (t[0] == DOT || t[0] == COMMA) && form >= 2 {
      mark := Some(t[0]);
      b := ScanMore(form, t[1..]);
      assert t == [t[0]] + t[1..];
    }
  }

  lemma {:induction false} ScanMore(form: nat, t: seq<Byte>) returns (b: seq<Byte>)
    ensures var s := Scan(form, t, true); AllDigits(b) && s.digits == b && s.marked && t == b + s.rest
    decreases |t|
  {
    if t != [] && IsDigit(t[0]) {
      var b' := ScanMore(form, t[1..]);
      b := [t[0]] + b';
      assert t == [t[0]] + t[1..];
    } else {
      b := [];
      assert t == [] + t;
    }
  }

  // Nor is any other exponent parsed.
  lemma ExponentFormOnly(t: seq<Byte>) returns (sign: seq<Byte>, ds: seq<Byte>)
    requires ParseExponent(t).Some?
    ensures (sign == [] || sign == [PLUS] || sign == [MINUS]) && AllDigits(ds) && ds != [] && t == sign + ds
  {
    hide DecNat;
    ds := Unsigned(t);
    sign := t[..|t| - |ds|];
    assert t == sign + ds;
  }

  // ---- decimal text that is written ----

  // NR3 with the digits in front of the mark; an exponent of zero is "+0" and
  // the others have neither a plus sign nor leading zeros.
  lemma WrittenDecimal(negative: bool, digits: seq<Byte>, exponent: int) returns (f: DecimalForm)
    requires NormalDecimal(Decimal(negative, digits, exponent)) && I64_MIN < exponent <= I64_MAX
    ensures f.Wf(3) && EncodeReal(Decimal(negative, digits, exponent)) == [3] + f.Text()
    ensures f.spaces == 0 && f.sign == (if negative then [MINUS] else []) && f.a == digits && f.mark == Some(DOT) && f.b == []
    ensures f.exponent.value.0 == UPPER_E && f.Scale() == exponent
    ensures var x := f.exponent.value.1;
            if exponent == 0 then x == [PLUS, ZERO]
            else if exponent < 0 then |x| > 1 && x[0] == MINUS && x[1] != ZERO
            else |x| > 0 && x[0] != PLUS && x[0] != ZERO
  {
    hide ParseExponent, DecNat;
    f := DecimalForm(0, if negative then [MINUS] else [], digits, Some(DOT), [], Some((UPPER_E, ExponentText(exponent))));
    ExponentReadBack(exponent);
    assert f.Tail() == [UPPER_E] + ExponentText(exponent);
    assert [] + f.Tail() == f.Tail();
    assert seq(0, _ => SPACE) + (f.sign + f.Number()) == f.sign + f.Number();
    NoLeadingZero(if exponent < 0 then -exponent else exponent);
  }

  lemma {:induction false} NoLeadingZero(n: nat)
    ensures n > 0 ==> IsDigit(DecText(n)[0]) && DecText(n)[0] != ZERO
  {
    if n >= 10 { NoLeadingZero(n / 10); }
  }
}
