/** The nearest double to N x 2^e2, as the REAL decoder computes it, and why it is nearest. */
module RealNearest {
  import opened Bits
  import opened Integers
  import opened Ieee

  // A sign-less bit pattern and whether it equals the value.
  datatype NearestDouble = NearestDouble(code: nat, exact: bool)

  function Msb(n: nat, e2: int): int {
    e2 + BitLength(n) - 1
  }

  // The unit of the result's last significand bit.
  function Unit(n: nat, e2: int): (u: int)
    ensures u >= MIN_EXP && u >= Msb(n, e2) - 52
  {
    if Msb(n, e2) - 52 > MIN_EXP then Msb(n, e2) - 52 else MIN_EXP
  }

  function Kept(n: nat, e2: int): nat {
    var shift := Unit(n, e2) - e2;
    if shift <= 0 then n * Pow2(-shift) else RoundShift(n, shift)
  }

  lemma Pow2Cross(a: nat, b: nat, n: nat)
    ensures n < Pow2(a) ==> n * Pow2(b) < Pow2(a + b)
    ensures n >= Pow2(a) ==> n * Pow2(b) >= Pow2(a + b)
  {
    hide Pow2;
    Pow2Sum(a, b);
    if n < Pow2(a) { MulMono(Pow2(b), n + 1, Pow2(a)); } else { MulMono(Pow2(b), Pow2(a), n); }
  }

  lemma ShrBelowExactly(n: nat, m: nat, k: nat)
    ensures Shr(n, k) < Pow2(m) <==> n < Pow2(m + k)
  {
    hide Shr, Low, Pow2;
    ShrLow(n, k);
    Pow2Cross(m, k, Shr(n, k));
    if Shr(n, k) < Pow2(m) {
      MulMono(Pow2(k), Shr(n, k) + 1, Pow2(m));
      Pow2Sum(m, k);
    }
  }

  // `kept` is a significand, or one past the largest.
  lemma KeptBounds(n: nat, e2: int)
    requires n > 0 && Msb(n, e2) >= MIN_EXP - 1
    ensures Kept(n, e2) <= SIG_END && (Unit(n, e2) > MIN_EXP ==> Kept(n, e2) >= HIDDEN)
    ensures Unit(n, e2) <= e2 ==> Kept(n, e2) < SIG_END
  {
    hide Shr, Low, Pow2;
    BitLengthBounds(n);
    HiddenIsPow2();
    var len, shift := BitLength(n), Unit(n, e2) - e2;
    if shift <= 0 {
      Pow2Cross(len, -shift, n);
      Pow2Cross(len - 1, -shift, n);
      Pow2Mono(len - shift, 53);
      if Unit(n, e2) > MIN_EXP { assert len - 1 - shift == 52; }
    } else {
      ShrBelowExactly(n, len - shift, shift);
      Pow2Mono(len - shift, 53);
      if Unit(n, e2) > MIN_EXP {
        assert len - shift == 53;
        ShrBelowExactly(n, 52, shift);
      }
    }
  }

  function Nearest(n: nat, e2: int): NearestDouble
    requires n > 0
  {
    if Msb(n, e2) > 1023 then NearestDouble(INFINITY, false)
    else if Msb(n, e2) < MIN_EXP - 1 then NearestDouble(0, false)
    else
      KeptBounds(n, e2);
      var kept := Kept(n, e2);
      var c := Pattern(kept, Unit(n, e2));
      if kept == 0 then NearestDouble(0, false)
      else if c >= INFINITY then NearestDouble(INFINITY, false)
      else NearestDouble(c, IsExact(n, e2))
  }

  // ---- the grid of multiples of the unit ----

  lemma GridNearest(n: nat, e2: int, shift: nat, m: nat)
    ensures var v, kept, unit := Value(n, e2), RoundShift(n, shift), e2 + shift;
            && Abs(v - Value(kept, unit)) <= Abs(v - Value(m, unit))
            && (m != kept && Abs(v - Value(kept, unit)) == Abs(v - Value(m, unit)) ==> kept % 2 == 0)
            && (Low(n, shift) == 0 <==> v == Value(kept, unit))
  {
    hide Value, Pow2, RoundShift, Dist, Abs, Low;
    var kept := RoundShift(n, shift);
    ValueShift(kept, e2, shift);
    ValueShift(m, e2, shift);
    ValueDist(n, kept * Pow2(shift), e2);
    ValueDist(n, m * Pow2(shift), e2);
    RoundShiftNearest(n, shift, m);
    ValueOrder(Dist(n, kept * Pow2(shift)), Dist(n, m * Pow2(shift)), e2);
    ValueOrder(Dist(n, m * Pow2(shift)), Dist(n, kept * Pow2(shift)), e2);
    ValueOrder(n, kept * Pow2(shift), e2);
  }

  // Without bits to drop, the value is a multiple of the unit.
  lemma OnGrid(n: nat, e2: int)
    requires Unit(n, e2) <= e2
    ensures Value(n, e2) == Value(Kept(n, e2), Unit(n, e2))
  {
    hide Value, Pow2, Unit;
    var unit := Unit(n, e2);
    ValueShift(n, unit, e2 - unit);
    assert unit + (e2 - unit) == e2;
  }

  predicate IsExact(n: nat, e2: int) {
    Unit(n, e2) <= e2 || Low(n, Unit(n, e2) - e2) == 0
  }

  // Among the multiples of the unit, `kept` is nearest; ties go to even; the
  // exact flag says the value is one of them.
  lemma NearestMultiple(n: nat, e2: int, m: nat)
    ensures var v, kept, unit := Value(n, e2), Kept(n, e2), Unit(n, e2);
            && Abs(v - Value(kept, unit)) <= Abs(v - Value(m, unit))
            && (m != kept && Abs(v - Value(kept, unit)) == Abs(v - Value(m, unit)) ==> kept % 2 == 0)
            && (IsExact(n, e2) <==> v == Value(kept, unit))
  {
    hide Value, Pow2, RoundShift, Unit, Low;
    var unit := Unit(n, e2);
    if unit <= e2 {
      OnGrid(n, e2);
      ValueOrder(m, Kept(n, e2), unit);
    } else {
      GridNearest(n, e2, unit - e2, m);
      assert e2 + (unit - e2) == unit;
    }
  }

  // The value's binade.
  lemma ValueBounds(n: nat, e2: int)
    requires n > 0
    ensures Value(1, Msb(n, e2)) <= Value(n, e2) < Value(1, Msb(n, e2) + 1)
  {
    hide Value, Pow2, BitLength;
    BitLengthBounds(n);
    var len := BitLength(n);
    ValueShift(1, e2, len - 1);
    ValueShift(1, e2, len);
    assert e2 + (len - 1) == Msb(n, e2) && e2 + len == Msb(n, e2) + 1;
    ValueOrder(n, Pow2(len - 1), e2);
    ValueOrder(n, Pow2(len), e2);
  }

  lemma BelowScale(c: nat, e: int)
    requires c < INFINITY && Exp(c) <= e
    ensures ValueOf(c) <= Value(SIG_END - 1, e)
  {
    hide Value;
    ValueOrder(SIG_END - 1, Sig(c), Exp(c));
    ValueMono(SIG_END - 1, Exp(c), e);
  }

  // A double is a multiple of the unit or lies below the unit's binade.
  lemma DoubleOnGrid(c: nat, unit: int) returns (m: nat)
    requires c < INFINITY
    ensures Exp(c) >= unit ==> ValueOf(c) == Value(m, unit)
    ensures Exp(c) < unit ==> ValueOf(c) < Value(HIDDEN, unit)
  {
    hide Value, Pow2, Sig, Exp;
    if Exp(c) >= unit {
      m := Sig(c) * Pow2(Exp(c) - unit);
      ValueShift(Sig(c), unit, Exp(c) - unit);
      assert unit + (Exp(c) - unit) == Exp(c);
    } else {
      m := 0;
      BelowScale(c, unit - 1);
      DoubleUnit(HIDDEN, unit - 1);
      ValueOrder(SIG_END - 1, 2 * HIDDEN, unit - 1);
    }
  }

  lemma DoubleUnit(m: nat, e: int)
    ensures Value(m, e + 1) == Value(2 * m, e)
  {
    hide Value;
    ValueShift(m, e, 1);
    assert Pow2(1) == 2;
    assert m * 2 == 2 * m;
  }

  lemma UnitBinade(n: nat, e2: int)
    requires n > 0 && Unit(n, e2) > MIN_EXP
    ensures Value(HIDDEN, Unit(n, e2)) <= Value(n, e2)
  {
    hide Value, Pow2;
    ValueBounds(n, e2);
    HiddenIsPow2();
    ValueShift(1, Unit(n, e2), 52);
    assert Unit(n, e2) + 52 == Msb(n, e2);
  }

  lemma KeptNearest(n: nat, e2: int, c: nat)
    requires n > 0 && Msb(n, e2) >= MIN_EXP - 1 && c < INFINITY
    ensures var v, k := Value(n, e2), Value(Kept(n, e2), Unit(n, e2));
            && Abs(v - k) <= Abs(v - ValueOf(c))
            && (ValueOf(c) != k && Abs(v - k) == Abs(v - ValueOf(c)) ==> Kept(n, e2) % 2 == 0)
            && (ValueOf(c) == v ==> k == v)
  {
    hide Value, Pow2, Sig, Exp, Kept, ValueOf, IsExact;
    var m := DoubleOnGrid(c, Unit(n, e2));
    if Exp(c) >= Unit(n, e2) {
      NearestMultiple(n, e2, m);
    } else {
      assert Unit(n, e2) > MIN_EXP by { assert Exp(c) >= MIN_EXP; }
      UnitBinade(n, e2);
      NearestMultiple(n, e2, HIDDEN);
    }
  }

  // ---- the theorem ----

  // The rounding bound of IEEE 754: half a unit above the largest double.
  function Halfway(): real {
    Value(2 * SIG_END - 1, 970)
  }

  lemma Overflow(n: nat, e2: int)
    requires n > 0
    ensures Nearest(n, e2).code <= INFINITY
    ensures Nearest(n, e2).code == INFINITY <==> Value(n, e2) >= Halfway()
  {
    hide Value, Pow2, RoundShift;
    var msb := Msb(n, e2);
    ValueBounds(n, e2);
    if msb > 1023 {
      ValueMono(1, 1024, msb);
      TopValues();
    } else if msb < 1023 {
      ValueMono(1, msb + 1, 1023);
      TopValues();
      if msb >= MIN_EXP - 1 {
        KeptBounds(n, e2);
        PatternValue(Kept(n, e2), Unit(n, e2));
      }
    } else {
      KeptBounds(n, e2);
      PatternValue(Kept(n, e2), Unit(n, e2));
      assert Unit(n, e2) == 971;
      if e2 >= 971 { NotHalfway(n, e2); } else { HalfwayReached(n, e2); }
    }
  }

  lemma TopValues()
    ensures Value(1, 1023) < Halfway() < Value(1, 1024)
  {
    hide Value, Pow2;
    HiddenIsPow2();
    Pow2Step(53);
    ValueShift(1, 970, 53);
    ValueShift(1, 970, 54);
    ValueOrder(SIG_END, 2 * SIG_END - 1, 970);
    ValueOrder(2 * SIG_END - 1, 2 * SIG_END, 970);
  }

  lemma NotHalfway(n: nat, e2: int)
    requires n > 0 && Unit(n, e2) == 971 <= e2 && Kept(n, e2) < SIG_END
    ensures Value(n, e2) < Halfway()
  {
    hide Value, Pow2, RoundShift, Kept;
    OnGrid(n, e2);
    DoubleUnit(Kept(n, e2), 970);
    ValueOrder(2 * Kept(n, e2), 2 * SIG_END - 1, 970);
  }

  lemma HalfwayReached(n: nat, e2: int)
    requires n > 0 && Unit(n, e2) == 971 > e2
    ensures Kept(n, e2) >= SIG_END <==> Value(n, e2) >= Halfway()
  {
    hide Value, Pow2, RoundShift;
    var shift, t := 971 - e2, 2 * SIG_END - 1;
    RoundShiftReaches(n, shift, SIG_END);
    DoubleUnit(n, e2 - 1);
    ValueShift(t, e2 - 1, shift);
    assert e2 - 1 + shift == 970;
    ValueOrder(2 * n, t * Pow2(shift), e2 - 1);
  }

  lemma SmallestDouble(c: nat)
    requires 0 < c < INFINITY
    ensures ValueOf(c) >= Value(1, MIN_EXP)
  {
    hide Value;
    ValueMono(1, MIN_EXP, Exp(c));
    ValueOrder(Sig(c), 1, Exp(c));
  }

  // Below half of the smallest double, zero is nearest.
  lemma Underflow(n: nat, e2: int, c: nat)
    requires n > 0 && Msb(n, e2) < MIN_EXP - 1 && 0 < c < INFINITY
    ensures 0.0 < Value(n, e2) < ValueOf(c) - Value(n, e2)
  {
    hide Value, Pow2, RPow2;
    ValueBounds(n, e2);
    ValueMono(1, Msb(n, e2) + 1, MIN_EXP - 1);
    DoubleUnit(1, MIN_EXP - 1);
    TwoOf(MIN_EXP - 1);
    ZeroIs(n, e2);
    SmallestDouble(c);
  }

  lemma TwoOf(e: int)
    ensures Value(2, e) == Value(1, e) + Value(1, e)
  {
  }

  lemma ZeroIs(n: nat, e: int)
    ensures Value(0, e) == 0.0 && (n > 0 ==> Value(n, e) > 0.0)
  {
    hide RPow2;
    ValueOrder(0, n, e);
  }

  // What the rounding branch returns stands for `kept` units.
  lemma RoundedValue(n: nat, e2: int)
    requires n > 0 && MIN_EXP - 1 <= Msb(n, e2) <= 1023 && Nearest(n, e2).code < INFINITY
    ensures ValueOf(Nearest(n, e2).code) == Value(Kept(n, e2), Unit(n, e2))
    ensures Sig(Nearest(n, e2).code) % 2 == 0 <==> Kept(n, e2) % 2 == 0
    ensures Nearest(n, e2).exact <==> Value(n, e2) == Value(Kept(n, e2), Unit(n, e2))
  {
    hide Value, Pow2, RoundShift, Kept, Low;
    KeptBounds(n, e2);
    PatternValue(Kept(n, e2), Unit(n, e2));
    NearestMultiple(n, e2, 0);
    ZeroIs(n, e2);
    ZeroIs(0, Unit(n, e2));
    ZeroIs(0, MIN_EXP);
  }

  // The result is a nearest double; when another one is as near, its
  // significand is even; it is exact exactly when some double is the value.
  lemma NearestIsNearest(n: nat, e2: int, c: nat)
    requires n > 0 && c < INFINITY
    ensures var r, v := Nearest(n, e2), Value(n, e2);
            && (r.code < INFINITY ==> Abs(v - ValueOf(r.code)) <= Abs(v - ValueOf(c)))
            && (r.code < INFINITY && c != r.code && Abs(v - ValueOf(r.code)) == Abs(v - ValueOf(c)) ==> Sig(r.code) % 2 == 0)
            && (r.exact ==> r.code < INFINITY && ValueOf(r.code) == v)
            && (ValueOf(c) == v ==> r.exact && r.code == c)
  {
    hide Pow2, RoundShift, Kept, Value, ValueOf, Sig, Exp;
    var r, msb := Nearest(n, e2), Msb(n, e2);
    Overflow(n, e2);
    if r.code == INFINITY {
      LargestDouble(c);
    } else if msb < MIN_EXP - 1 {
      ZeroPattern();
      ZeroIs(n, e2);
      if c > 0 { Underflow(n, e2, c); }
    } else {
      KeptNearest(n, e2, c);
      RoundedValue(n, e2);
      if ValueOf(c) == ValueOf(r.code) { PatternUnique(c, r.code); }
    }
  }

  lemma ZeroPattern()
    ensures ValueOf(0) == 0.0
  {
  }

  lemma LargestDouble(c: nat)
    requires c < INFINITY
    ensures ValueOf(c) < Halfway()
  {
    hide Value, ValueOf;
    assert Exp(c) <= 971;
    BelowScale(c, 971);
    DoubleUnit(SIG_END - 1, 970);
    ValueOrder(2 * (SIG_END - 1), 2 * SIG_END - 1, 970);
  }
}
