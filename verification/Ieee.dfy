/** IEEE 754 double precision: the finite values and rounding to nearest, ties to even. */
module Ieee {
  import opened Bits
  import opened Integers

  // ---- powers of two, as reals ----

  function RPow2(e: int): (p: real)
    ensures p > 0.0
  {
    if e >= 0 then Pow2(e) as real else 1.0 / Pow2(-e) as real
  }

  lemma RPow2Double(e: int)
    ensures RPow2(e + 1) == 2.0 * RPow2(e)
  {
    if e >= 0 {
      assert Pow2(e + 1) == 2 * Pow2(e);
    } else {
      assert Pow2(-e) == 2 * Pow2(-e - 1);
    }
  }

  lemma {:induction false} RPow2Add(e: int, n: nat)
    ensures RPow2(e + n) == Pow2(n) as real * RPow2(e)
  {
    hide RPow2, Pow2;
    if n == 0 {
      assert Pow2(0) == 1 by { Pow2Zero(); }
    } else {
      var m: nat := n - 1;
      RPow2Add(e, m);
      RPow2Double(e + m);
      Pow2Step(m);
      Scale(2, Pow2(m), RPow2(e));
      assert e + n == e + m + 1;
    }
  }

  lemma Scale(a: nat, b: nat, r: real)
    ensures (a * b) as real * r == a as real * (b as real * r)
  {
  }

  // m x 2^e
  function Value(m: nat, e: int): (v: real)
    ensures v >= 0.0
  {
    m as real * RPow2(e)
  }

  lemma ValueShift(m: nat, e: int, k: nat)
    ensures Value(m, e + k) == Value(m * Pow2(k), e)
  {
    hide RPow2, Pow2;
    RPow2Add(e, k);
    Scale(m, Pow2(k), RPow2(e));
  }

  lemma ValueOrder(a: nat, b: nat, e: int)
    ensures Value(a, e) < Value(b, e) <==> a < b
    ensures Value(a, e) == Value(b, e) <==> a == b
  {
    hide RPow2;
    RMul(a as real, b as real, RPow2(e));
    RMul(b as real, a as real, RPow2(e));
  }

  lemma ValueMono(m: nat, e: int, e': int)
    requires e <= e'
    ensures Value(m, e) <= Value(m, e')
  {
    hide RPow2;
    RPow2Mono(e, e');
    RMul2(RPow2(e), RPow2(e'), m as real);
  }

  lemma RMul2(a: real, b: real, p: real)
    requires p >= 0.0 && a <= b
    ensures p * a <= p * b
  {
  }

  lemma {:induction false} RPow2Mono(a: int, b: int)
    requires a <= b
    ensures RPow2(a) <= RPow2(b)
    decreases b - a
  {
    hide RPow2;
    if a < b {
      RPow2Double(b - 1);
      RPow2Mono(a, b - 1);
    }
  }

  lemma RMul(a: real, b: real, p: real)
    requires p > 0.0
    ensures a < b ==> a * p < b * p
    ensures a <= b ==> a * p <= b * p
    ensures a * p == b * p <==> a == b
  {
    if a * p == b * p { assert (a - b) * p == 0.0; }
  }

  function Abs(x: real): real {
    if x < 0.0 then -x else x
  }

  function Dist(a: int, b: int): nat {
    if a < b then b - a else a - b
  }

  lemma ValueDist(a: nat, b: nat, e: int)
    ensures Abs(Value(a, e) - Value(b, e)) == Value(Dist(a, b), e)
  {
    hide RPow2;
    ValueOrder(a, b, e);
    assert a as real * RPow2(e) - b as real * RPow2(e) == (a - b) as real * RPow2(e);
  }

  // ---- finite doubles ----

  const HIDDEN: nat := 0x10_0000_0000_0000  // 2^52
  const SIG_END: nat := 0x20_0000_0000_0000  // 2^53
  const MIN_EXP: int := -1074
  const INFINITY: nat := 0x7FF0_0000_0000_0000
  const SIGN_BIT: nat := 0x8000_0000_0000_0000
  const QUIET_NAN: nat := 0x7FF8_0000_0000_0000

  lemma HiddenIsPow2()
    ensures Pow2(52) == HIDDEN && Pow2(53) == SIG_END && Pow2(63) == SIGN_BIT && Pow2(64) == 2 * SIGN_BIT
  {
    Pow2Values();
    Pow2Sum(31, 21);
    assert Pow2(10) == 1024;
    Pow2Sum(10, 11);
    assert Pow2(11) == 2 * Pow2(10);
    assert Pow2(53) == 2 * Pow2(52);
  }

  // The significand and the exponent of its unit, for a sign-less bit pattern.
  function Sig(c: nat): (s: nat)
    ensures s < SIG_END && (c >= HIDDEN ==> s >= HIDDEN)
  {
    if c < HIDDEN then c else HIDDEN + c % HIDDEN
  }

  function Exp(c: nat): (e: int)
    ensures e >= MIN_EXP && (c < HIDDEN ==> e == MIN_EXP)
  {
    if c < HIDDEN then MIN_EXP else c / HIDDEN - 1075
  }

  // The magnitude a finite pattern stands for.
  function ValueOf(c: nat): real
    requires c < INFINITY
  {
    Value(Sig(c), Exp(c))
  }

  // The pattern of a significand and its unit, carrying into the next binade.
  function Pattern(kept: nat, unit: int): nat
    requires kept <= SIG_END && unit >= MIN_EXP && (kept < HIDDEN ==> unit == MIN_EXP)
  {
    if kept == SIG_END then (unit + 1 + 1075) * HIDDEN
    else if kept < HIDDEN then kept
    else (unit + 1075) * HIDDEN + (kept - HIDDEN)
  }

  lemma PatternValue(kept: nat, unit: int)
    requires kept <= SIG_END && unit >= MIN_EXP && (kept < HIDDEN ==> unit == MIN_EXP)
    ensures var c := Pattern(kept, unit);
            && (c < INFINITY <==> unit + (if kept == SIG_END then 1 else 0) <= 971)
            && (c < INFINITY ==> ValueOf(c) == Value(kept, unit) && (Sig(c) % 2 == 0 <==> kept % 2 == 0))
  {
    hide Value;
    var c := Pattern(kept, unit);
    if kept == SIG_END {
      ModUnique(c, HIDDEN, unit + 1 + 1075, 0);
      ValueShift(HIDDEN, unit, 1);
      assert Pow2(1) == 2;
    } else if kept >= HIDDEN {
      ModUnique(c, HIDDEN, unit + 1075, kept - HIDDEN);
    }
  }

  // A larger unit dominates: its significand has the hidden bit.
  lemma HigherExponentIsLarger(c: nat, c': nat)
    requires c < INFINITY && c' < INFINITY && Exp(c) < Exp(c')
    ensures ValueOf(c) < ValueOf(c')
  {
    hide Value, Pow2;
    var n := Exp(c') - Exp(c);
    ValueShift(Sig(c'), Exp(c), n);
    Pow2Step(n - 1);
    MulMono(Sig(c'), 2, Pow2(n));
    ValueOrder(Sig(c), Sig(c') * Pow2(n), Exp(c));
  }

  // Each finite value has one pattern.
  lemma PatternUnique(c: nat, c': nat)
    requires c < INFINITY && c' < INFINITY && ValueOf(c) == ValueOf(c')
    ensures c == c'
  {
    hide Value;
    if Exp(c) < Exp(c') { HigherExponentIsLarger(c, c'); }
    else if Exp(c') < Exp(c) { HigherExponentIsLarger(c', c); }
    else { ValueOrder(Sig(c), Sig(c'), Exp(c)); }
  }

  // ---- rounding a number to a multiple of 2^k ----

  function BitLength(n: nat): nat {
    if n == 0 then 0 else 1 + BitLength(n / 2)
  }

  lemma {:induction false} BitLengthBounds(n: nat)
    ensures n < Pow2(BitLength(n)) && (n > 0 ==> BitLength(n) > 0 && Pow2(BitLength(n) - 1) <= n)
  {
    if n > 0 { BitLengthBounds(n / 2); }
  }

  // n / 2^k to the nearest integer, halves to even.
  function RoundShift(n: nat, k: nat): nat {
    var q, r := Shr(n, k), Low(n, k);
    if 2 * r > Pow2(k) || (2 * r == Pow2(k) && q % 2 == 1) then q + 1 else q
  }

  lemma MulDiff(a: int, b: int, p: int)
    ensures a * p - b * p == (a - b) * p
  {
  }

  lemma DistToMultiple(n: nat, p: nat, q: nat, r: nat, m: nat)
    requires r < p && n == q * p + r
    ensures m <= q ==> Dist(n, m * p) >= r && (m < q ==> Dist(n, m * p) >= r + p)
    ensures m > q ==> Dist(n, m * p) >= p - r && (m > q + 1 ==> Dist(n, m * p) >= p - r + p)
    ensures Dist(n, q * p) == r && Dist(n, (q + 1) * p) == p - r
  {
    MulDiff(q, m, p);
    MulDiff(m, q, p);
    assert (q + 1) * p == q * p + p;
    if m < q { MulAtLeast(p, q - m); }
    if m > q { MulAtLeast(p, m - q); }
    if m > q + 1 { MulAtLeast(p, m - q - 1); assert (m - q) * p == (m - q - 1) * p + p; }
  }

  // The rounded multiple is nearest, and even when another is as near.
  lemma RoundShiftNearest(n: nat, k: nat, m: nat)
    ensures Dist(n, RoundShift(n, k) * Pow2(k)) <= Dist(n, m * Pow2(k))
    ensures m != RoundShift(n, k) && Dist(n, RoundShift(n, k) * Pow2(k)) == Dist(n, m * Pow2(k)) ==> RoundShift(n, k) % 2 == 0
    ensures Low(n, k) == 0 <==> n == RoundShift(n, k) * Pow2(k)
  {
    hide Pow2, Shr, Low, NatOf, BitsOf;
    ShrLow(n, k);
    var q, r, p := Shr(n, k), Low(n, k), Pow2(k);
    DistToMultiple(n, p, q, r, m);
  }

  lemma HalfBelow(n: nat, p: nat, q: nat, r: nat, t: nat)
    requires r < p && n == q * p + r && t > 0
    ensures q >= t ==> 2 * n >= (2 * t - 1) * p
    ensures q + 1 == t ==> (2 * n >= (2 * t - 1) * p <==> 2 * r >= p)
    ensures q + 1 < t ==> 2 * n < (2 * t - 1) * p
  {
    var x := t * p;
    assert (2 * t - 1) * p == 2 * x - p;
    MulDiff(q, t, p);
    MulDiff(t, q, p);
    if q > t { MulAtLeast(p, q - t); }
    if q + 1 < t { MulAtLeast(p, t - q - 1); assert (t - q) * p == (t - q - 1) * p + p; }
    if q + 1 == t { assert (t - q) * p == p; }
  }

  // Rounding reaches an even bound from half a unit below it.
  lemma RoundShiftReaches(n: nat, k: nat, t: nat)
    requires t > 0 && t % 2 == 0
    ensures RoundShift(n, k) >= t <==> 2 * n >= (2 * t - 1) * Pow2(k)
  {
    hide Pow2, Shr, Low, NatOf, BitsOf;
    ShrLow(n, k);
    HalfBelow(n, Pow2(k), Shr(n, k), Low(n, k), t);
  }
}
