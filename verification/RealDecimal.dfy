/** REAL values in base 10: ISO 6093 text, its normal form and what it keeps. */
module RealDecimal {
  import opened Bits
  import opened Options
  import opened Integers
  import opened RealBinary

  const ZERO: Byte := 48
  const NINE: Byte := 57
  const PLUS: Byte := 43
  const MINUS: Byte := 45
  const DOT: Byte := 46
  const COMMA: Byte := 44
  const SPACE: Byte := 32
  const UPPER_E: Byte := 69
  const LOWER_E: Byte := 101

  predicate IsDigit(c: Byte) {
    ZERO <= c <= NINE
  }

  predicate AllDigits(t: seq<Byte>) {
    forall i :: 0 <= i < |t| ==> IsDigit(t[i])
  }

  function DecNat(t: seq<Byte>): nat
    requires AllDigits(t)
  {
    if t == [] then 0 else DecNat(t[..|t| - 1]) * 10 + (t[|t| - 1] - ZERO)
  }

  lemma DecNatSnoc(t: seq<Byte>, c: Byte)
    requires AllDigits(t) && IsDigit(c)
    ensures AllDigits(t + [c]) && DecNat(t + [c]) == DecNat(t) * 10 + (c - ZERO)
  {
    assert (t + [c])[..|t|] == t;
  }

  // ---- exponents ----

  function Unsigned(t: seq<Byte>): seq<Byte> {
    if t != [] && (t[0] == PLUS || t[0] == MINUS) then t[1..] else t
  }

  // An optionally signed number of at most 63 bits.
  function ParseExponent(t: seq<Byte>): Option<int> {
    var ds := Unsigned(t);
    if ds != [] && AllDigits(ds) && DecNat(ds) <= I64_MAX then
      var v: int := DecNat(ds);
      Some(if t[0] == MINUS then -v else v)
    else None
  }

  lemma {:induction false} DecNatGrows(t: seq<Byte>, k: nat)
    requires AllDigits(t) && k <= |t|
    ensures DecNat(t[..k]) <= DecNat(t)
  {
    if k < |t| {
      DecNatGrows(t[..|t| - 1], k);
      assert t[..|t| - 1][..k] == t[..k];
    } else {
      assert t[..k] == t;
    }
  }

  lemma TooLarge(t: seq<Byte>, k: nat)
    requires k < |t| && AllDigits(t[..k + 1]) && DecNat(t[..k + 1]) > I64_MAX
    ensures AllDigits(t) ==> DecNat(t) > I64_MAX
  {
    if AllDigits(t) { DecNatGrows(t, k + 1); }
  }

  // The overflow test made before each digit.
  lemma DigitOverflows(v: nat, d: nat)
    requires d <= 9
    ensures v > (I64_MAX - d) / 10 <==> v * 10 + d > I64_MAX
  {
  }

  method ReadExponent(t: seq<Byte>) returns (r: Option<int>)
    ensures r == ParseExponent(t)
  {
    hide DecNat;
    var ds, neg := t, false;
    if t != [] && (t[0] == PLUS || t[0] == MINUS) { neg, ds := t[0] == MINUS, t[1..]; }
    if ds == [] { return None; }
    var v := 0;
    NoDigits();
    assert ds[..0] == [];
    var i := 0;
    while i < |ds|
      invariant i <= |ds| && AllDigits(ds[..i]) && v == DecNat(ds[..i]) <= I64_MAX
    {
      if ds[i] < ZERO || ds[i] > NINE { return None; }
      var d := ds[i] - ZERO;
      assert ds[..i + 1] == ds[..i] + [ds[i]];
      DecNatSnoc(ds[..i], ds[i]);
      DigitOverflows(v, d);
      if v > (I64_MAX - d) / 10 {
        TooLarge(ds, i);
        return None;
      }
      v := v * 10 + d;
      i := i + 1;
    }
    assert ds[..|ds|] == ds;
    r := Some(if neg then -v else v);
  }

  lemma NoDigits()
    ensures AllDigits([]) && DecNat([]) == 0
  {
  }

  // Decimal digits of a number.
  function DecText(n: nat): (t: seq<Byte>)
    ensures t != []
  {
    if n < 10 then [ZERO + n] else DecText(n / 10) + [ZERO + n % 10]
  }

  lemma {:induction false} DecTextReads(n: nat)
    ensures AllDigits(DecText(n)) && DecNat(DecText(n)) == n
  {
    if n < 10 {
      NoDigits();
      DecNatSnoc([], ZERO + n);
      assert [] + [ZERO + n] == [ZERO + n];
    } else {
      DecTextReads(n / 10);
      DecNatSnoc(DecText(n / 10), ZERO + n % 10);
    }
  }

  // The exponent of the normal form: "+0" for zero.
  function ExponentText(e: int): seq<Byte> {
    if e == 0 then [PLUS, ZERO] else if e < 0 then [MINUS] + DecText(-e) else DecText(e)
  }

  // It is read back unless it is the one number without an opposite.
  lemma ExponentReadBack(e: int)
    requires I64_MIN <= e <= I64_MAX
    ensures ParseExponent(ExponentText(e)) == if e > I64_MIN then Some(e) else None
  {
    var t := ExponentText(e);
    DecTextReads(if e < 0 then -e else e);
    if e == 0 {
      assert Unsigned(t) == [ZERO];
      assert DecText(0) == [ZERO];
    } else if e < 0 {
      assert Unsigned(t) == DecText(-e);
    } else {
      assert IsDigit(t[0]);
      assert Unsigned(t) == t;
    }
  }

  // ---- the normal form ----

  function StripLeft(ds: seq<Byte>): (r: seq<Byte>)
    ensures r != [] ==> r[0] != ZERO
  {
    if ds != [] && ds[0] == ZERO then StripLeft(ds[1..]) else ds
  }

  // Drops trailing zeros, counting them into an exponent that saturates.
  function StripRight(ds: seq<Byte>, e: int): (r: (seq<Byte>, int))
    requires ds != [] && ds[0] != ZERO
    ensures r.0 != [] && r.0[0] != ZERO && r.0[|r.0| - 1] != ZERO
  {
    if ds[|ds| - 1] == ZERO then StripRight(ds[..|ds| - 1], if e < I64_MAX then e + 1 else e) else (ds, e)
  }

  function DecimalReal(negative: bool, digits: seq<Byte>, exponent: int): Real {
    var ds := StripLeft(digits);
    if ds == [] then Double(SignedPattern(negative, 0))
    else
      var (d, e) := StripRight(ds, exponent);
      Decimal(negative, d, e)
  }

  method MakeDecimal(negative: bool, digits: seq<Byte>, exponent: int) returns (r: Real)
    ensures r == DecimalReal(negative, digits, exponent)
  {
    var ds, e := digits, exponent;
    while ds != [] && ds[0] == ZERO
      invariant StripLeft(ds) == StripLeft(digits)
      decreases |ds|
    {
      ds := ds[1..];
    }
    if ds == [] { return Double(SignedPattern(negative, 0)); }
    ghost var stripped := ds;
    while ds[|ds| - 1] == ZERO
      invariant ds != [] && ds[0] != ZERO
      invariant StripRight(ds, e) == StripRight(stripped, exponent)
      decreases |ds|
    {
      ds := ds[..|ds| - 1];
      if e < I64_MAX { e := e + 1; }
    }
    r := Decimal(negative, ds, e);
  }

  function Pow10(n: nat): (p: nat)
    ensures p > 0
  {
    if n == 0 then 1 else 10 * Pow10(n - 1)
  }

  lemma {:induction false} StripLeftKeeps(ds: seq<Byte>)
    requires AllDigits(ds)
    ensures AllDigits(StripLeft(ds)) && DecNat(StripLeft(ds)) == DecNat(ds)
  {
    if ds != [] && ds[0] == ZERO {
      LeadingZero(ds);
      StripLeftKeeps(ds[1..]);
    }
  }

  lemma {:induction false} LeadingZero(ds: seq<Byte>)
    requires AllDigits(ds) && ds != [] && ds[0] == ZERO
    ensures DecNat(ds[1..]) == DecNat(ds)
    decreases |ds|
  {
    if |ds| == 1 {
      assert ds[1..] == [] && ds[..0] == [];
    } else {
      LeadingZero(ds[..|ds| - 1]);
      assert ds[..|ds| - 1][1..] == ds[1..][..|ds| - 2];
    }
  }

  lemma {:induction false} StripRightKeeps(ds: seq<Byte>, e: int) returns (z: nat)
    requires AllDigits(ds) && ds != [] && ds[0] != ZERO && e <= I64_MAX
    ensures var r := StripRight(ds, e);
            && AllDigits(r.0) && DecNat(ds) == DecNat(r.0) * Pow10(z)
            && r.1 == if e + z <= I64_MAX then e + z else I64_MAX
  {
    if ds[|ds| - 1] == ZERO {
      var y := StripRightKeeps(ds[..|ds| - 1], if e < I64_MAX then e + 1 else e);
      z := y + 1;
      TimesTen(DecNat(StripRight(ds, e).0), Pow10(y));
    } else {
      z := 0;
    }
  }

  lemma TimesTen(x: nat, p: nat)
    ensures x * (10 * p) == (x * p) * 10
  {
  }

  lemma {:induction false} NonZero(ds: seq<Byte>)
    requires AllDigits(ds) && ds != [] && ds[0] != ZERO
    ensures DecNat(ds) > 0
    decreases |ds|
  {
    if |ds| > 1 { NonZero(ds[..|ds| - 1]); }
  }

  // Normalising drops `z` zeros; the value survives exactly when the exponent
  // has room for them.
  lemma DecimalKeepsValue(negative: bool, digits: seq<Byte>, exponent: int) returns (z: nat)
    requires AllDigits(digits) && exponent <= I64_MAX && DecNat(digits) > 0
    ensures var r := DecimalReal(negative, digits, exponent);
            && NormalDecimal(r) && r.negative == negative
            && DecNat(digits) == DecNat(r.digits) * Pow10(z) && DecNat(r.digits) > 0
            && (r.exponent == exponent + z <==> exponent + z <= I64_MAX)
  {
    StripLeftKeeps(digits);
    NoDigits();
    var ds := StripLeft(digits);
    z := StripRightKeeps(ds, exponent);
    NonZero(StripRight(ds, exponent).0);
  }

  // 100 x 10^(2^63 - 2) has no room for its second zero and loses a factor of ten.
  lemma ExponentSaturates()
    ensures DecimalReal(false, [ZERO + 1, ZERO, ZERO], I64_MAX - 1) == Decimal(false, [ZERO + 1], I64_MAX)
  {
    var ds := [ZERO + 1, ZERO, ZERO];
    assert ds[..2] == [ZERO + 1, ZERO] && ds[..2][..1] == [ZERO + 1];
    assert StripRight([ZERO + 1], I64_MAX) == ([ZERO + 1], I64_MAX);
    assert StripRight(ds[..2], I64_MAX) == ([ZERO + 1], I64_MAX);
  }

  predicate NormalDecimal(r: Real) {
    r.Decimal? && AllDigits(r.digits) && r.digits != [] && r.digits[0] != ZERO && r.digits[|r.digits| - 1] != ZERO
  }

  lemma NormalStays(negative: bool, digits: seq<Byte>, exponent: int)
    requires NormalDecimal(Decimal(negative, digits, exponent))
    ensures DecimalReal(negative, digits, exponent) == Decimal(negative, digits, exponent)
  {
  }

  // ---- ISO 6093 text ----

  // Digits read, how many of them follow the decimal mark, and what is left.
  datatype Scanned = Scanned(digits: seq<Byte>, frac: nat, marked: bool, rest: seq<Byte>)

  function Scan(form: nat, t: seq<Byte>, marked: bool): Scanned {
    if t != [] && IsDigit(t[0]) then
      var r := Scan(form, t[1..], marked);
      Scanned([t[0]] + r.digits, r.frac + (if marked then 1 else 0), r.marked, r.rest)
    else if t != [] && (t[0] == DOT || t[0] == COMMA) && !marked && form >= 2 then Scan(form, t[1..], true)
    else Scanned([], 0, marked, t)
  }

  function SkipSpaces(t: seq<Byte>): seq<Byte> {
    if t != [] && t[0] == SPACE then SkipSpaces(t[1..]) else t
  }

  function DecimalValue(negative: bool, digits: seq<Byte>, exponent: int, frac: nat): Option<Real> {
    if exponent < I64_MIN + frac then None else Some(DecimalReal(negative, digits, exponent - frac))
  }

  // An NR1, NR2 or NR3 number.
  function ParseDecimal(form: nat, text: seq<Byte>): Option<Real> {
    var t := SkipSpaces(text);
    var s := Scan(form, Unsigned(t), false);
    var negative := t != [] && t[0] == MINUS;
    if s.digits == [] || (form == 2 && !s.marked) then None
    else if form == 3 then
      if s.rest == [] || (s.rest[0] != UPPER_E && s.rest[0] != LOWER_E) then None
      else
        var e := ParseExponent(s.rest[1..]);
        if e.None? then None else DecimalValue(negative, s.digits, e.value, s.frac)
    else if s.rest != [] then None
    else DecimalValue(negative, s.digits, 0, s.frac)
  }

  function Onto(digits: seq<Byte>, frac: nat, s: Scanned): Scanned {
    Scanned(digits + s.digits, frac + s.frac, s.marked, s.rest)
  }

  lemma OntoMore(digits: seq<Byte>, frac: nat, c: Byte, f: nat, s: Scanned)
    ensures Onto(digits, frac, Scanned([c] + s.digits, s.frac + f, s.marked, s.rest)) == Onto(digits + [c], frac + f, s)
  {
    assert digits + ([c] + s.digits) == (digits + [c]) + s.digits;
  }

  method ScanDigits(form: nat, t: seq<Byte>) returns (digits: seq<Byte>, frac: nat, marked: bool, at: nat)
    ensures at <= |t| && Scan(form, t, false) == Scanned(digits, frac, marked, t[at..])
  {
    hide Scan;
    digits, frac, marked, at := [], 0, false, 0;
    assert t[0..] == t;
    assert Onto([], 0, Scan(form, t, false)) == Scan(form, t, false);
    while at < |t|
      invariant at <= |t|
      invariant Scan(form, t, false) == Onto(digits, frac, Scan(form, t[at..], marked))
    {
      var c := t[at];
      ScanStep(form, t[at..], marked);
      assert t[at..][1..] == t[at + 1..];
      if c >= ZERO && c <= NINE {
        OntoMore(digits, frac, c, if marked then 1 else 0, Scan(form, t[at + 1..], marked));
        digits := digits + [c];
        if marked { frac := frac + 1; }
      } else if (c == DOT || c == COMMA) && !marked && form >= 2 {
        marked := true;
      } else {
        break;
      }
      at := at + 1;
    }
    ScanStop(form, t[at..], marked);
  }

  lemma ScanStep(form: nat, t: seq<Byte>, marked: bool)
    requires t != []
    ensures var s := Scan(form, t, marked);
            if IsDigit(t[0]) then
              var r := Scan(form, t[1..], marked);
              s == Scanned([t[0]] + r.digits, r.frac + (if marked then 1 else 0), r.marked, r.rest)
            else if (t[0] == DOT || t[0] == COMMA) && !marked && form >= 2 then s == Scan(form, t[1..], true)
            else s == Scanned([], 0, marked, t)
  {
  }

  lemma ScanStop(form: nat, t: seq<Byte>, marked: bool)
    ensures t == [] ==> Scan(form, t, marked) == Scanned([], 0, marked, t)
  {
  }

  method ReadDecimal(form: nat, text: seq<Byte>) returns (r: Option<Real>)
    ensures r == ParseDecimal(form, text)
  {
    hide Scan, DecimalReal, ParseExponent;
    var i := 0;
    assert text[0..] == text;
    while i < |text| && text[i] == SPACE
      invariant i <= |text| && SkipSpaces(text[i..]) == SkipSpaces(text)
    {
      assert text[i..][1..] == text[i + 1..];
      i := i + 1;
    }
    assert SkipSpaces(text) == text[i..];
    var negative := false;
    ghost var t := text[i..];
    if i < |text| && (text[i] == PLUS || text[i] == MINUS) {
      negative := text[i] == MINUS;
      assert text[i..][1..] == text[i + 1..];
      i := i + 1;
    }
    assert text[i..] == Unsigned(t);
    var digits, frac, marked, at := ScanDigits(form, text[i..]);
    var rest := text[i..][at..];
    if digits == [] || (form == 2 && !marked) { return None; }
    var exponent := 0;
    if form == 3 {
      if rest == [] || (rest[0] != UPPER_E && rest[0] != LOWER_E) { return None; }
      var e := ReadExponent(rest[1..]);
      if e.None? { return None; }
      exponent := e.value;
    } else if rest != [] {
      return None;
    }
    if exponent < I64_MIN + frac { return None; }
    var value := MakeDecimal(negative, digits, exponent - frac);
    r := Some(value);
  }

  // ---- written numbers are read ----

  // Text that the digit scanner leaves alone.
  predicate Stops(form: nat, t: seq<Byte>, marked: bool) {
    t == [] || (!IsDigit(t[0]) && (marked || form < 2 || (t[0] != DOT && t[0] != COMMA)))
  }

  lemma ScanDigit(form: nat, t: seq<Byte>, marked: bool)
    requires t != [] && IsDigit(t[0])
    ensures var r := Scan(form, t[1..], marked);
            Scan(form, t, marked) == Scanned([t[0]] + r.digits, r.frac + (if marked then 1 else 0), r.marked, r.rest)
  {
  }

  lemma {:induction false} ScanRun(form: nat, ds: seq<Byte>, tail: seq<Byte>, marked: bool)
    requires AllDigits(ds)
    ensures Scan(form, ds + tail, marked)
         == Onto(ds, if marked then |ds| else 0, Scan(form, tail, marked))
  {
    if ds == [] {
      assert ds + tail == tail;
      assert Onto([], 0, Scan(form, tail, marked)) == Scan(form, tail, marked);
    } else {
      ScanDigit(form, ds + tail, marked);
      hide Scan;
      ScanRun(form, ds[1..], tail, marked);
      assert (ds + tail)[1..] == ds[1..] + tail;
      var s := Scan(form, tail, marked);
      assert ds + s.digits == [ds[0]] + (ds[1..] + s.digits);
    }
  }

  // `a`, a decimal mark and `b`.
  lemma ScanMarked(form: nat, a: seq<Byte>, mark: Byte, b: seq<Byte>, tail: seq<Byte>)
    requires AllDigits(a) && AllDigits(b) && (mark == DOT || mark == COMMA) && form >= 2 && Stops(form, tail, true)
    ensures Scan(form, a + ([mark] + (b + tail)), false) == Scanned(a + b, |b|, true, tail)
  {
    ScanRun(form, a, [mark] + (b + tail), false);
    assert ([mark] + (b + tail))[1..] == b + tail;
    ScanRun(form, b, tail, true);
    assert b + [] == b;
  }

  lemma {:induction false} SpacesSkipped(spaces: nat, t: seq<Byte>)
    requires t != [] ==> t[0] != SPACE
    ensures SkipSpaces(seq(spaces, _ => SPACE) + t) == t
  {
    var p := seq(spaces, _ => SPACE);
    if spaces == 0 {
      assert p + t == t;
    } else {
      assert (p + t)[1..] == seq(spaces - 1, _ => SPACE) + t;
      SpacesSkipped(spaces - 1, t);
    }
  }

  // Leading spaces, a sign, digits with a decimal mark, and an exponent: read
  // as those digits, `|b|` of them behind the mark.
  lemma Nr3Read(spaces: nat, sign: seq<Byte>, a: seq<Byte>, mark: Byte, b: seq<Byte>, exponent: seq<Byte>, e: Byte)
    requires sign == [] || sign == [PLUS] || sign == [MINUS]
    requires AllDigits(a) && AllDigits(b) && a + b != [] && (mark == DOT || mark == COMMA) && (e == UPPER_E || e == LOWER_E)
    ensures var text := seq(spaces, _ => SPACE) + (sign + (a + ([mark] + (b + ([e] + exponent)))));
            var x := ParseExponent(exponent);
            ParseDecimal(3, text) == if x.None? then None else DecimalValue(sign == [MINUS], a + b, x.value, |b|)
  {
    var body := a + ([mark] + (b + ([e] + exponent)));
    SignedBody(spaces, sign, body);
    ScanMarked(3, a, mark, b, [e] + exponent);
    assert ([e] + exponent)[1..] == exponent;
  }

  lemma Nr2Read(spaces: nat, sign: seq<Byte>, a: seq<Byte>, mark: Byte, b: seq<Byte>)
    requires sign == [] || sign == [PLUS] || sign == [MINUS]
    requires AllDigits(a) && AllDigits(b) && a + b != [] && (mark == DOT || mark == COMMA)
    ensures ParseDecimal(2, seq(spaces, _ => SPACE) + (sign + (a + ([mark] + b))))
         == DecimalValue(sign == [MINUS], a + b, 0, |b|)
  {
    SignedBody(spaces, sign, a + ([mark] + b));
    assert b + [] == b;
    ScanMarked(2, a, mark, b, []);
  }

  lemma Nr1Read(spaces: nat, sign: seq<Byte>, a: seq<Byte>)
    requires sign == [] || sign == [PLUS] || sign == [MINUS]
    requires AllDigits(a) && a != []
    ensures ParseDecimal(1, seq(spaces, _ => SPACE) + (sign + a)) == DecimalValue(sign == [MINUS], a, 0, 0)
  {
    hide DecimalReal;
    SignedBody(spaces, sign, a);
    assert a + [] == a;
    ScanRun(1, a, [], false);
  }

  lemma SignedBody(spaces: nat, sign: seq<Byte>, body: seq<Byte>)
    requires sign == [] || sign == [PLUS] || sign == [MINUS]
    requires body != [] && (IsDigit(body[0]) || body[0] == DOT || body[0] == COMMA)
    ensures SkipSpaces(seq(spaces, _ => SPACE) + (sign + body)) == sign + body
    ensures Unsigned(sign + body) == body && ((sign + body)[0] == MINUS <==> sign == [MINUS])
  {
    SpacesSkipped(spaces, sign + body);
    if sign == [] { assert sign + body == body; } else { assert (sign + body)[1..] == body; }
  }
}
