/** Whole numbers and length determinants: what is written is read back, in the fewest octets. */
module PerNumbers {
  import opened Bits
  import opened Integers
  import opened PerTypes
  import opened PerEncode
  import opened PerDecode

  // ---- octet strings of known length ----

  lemma GetOctet(k: nat, s: Bits)
    requires k < 256
    ensures Get(8, BitsOf(k, 8) + s) == Ok(k, s)
  {
    Pow2Of8();
    GetPut(k, 8, s);
  }

  lemma ShiftIn(acc: nat, hi: nat, lo: nat, p: nat)
    ensures (acc * 256 + hi) * p + lo == acc * (256 * p) + (hi * p + lo)
  {
  }

  lemma AccBelow(acc: nat, v: nat, p: nat, limit: nat)
    requires p >= 256
    requires acc * p + v < 256 * limit
    ensures acc < limit
  {
    MulMono(acc, 256, p);
  }

  // One octet of a longer field.
  lemma OctetStep(acc: nat, v: nat, k: nat, limit: nat, s: Bits)
    requires k > 0 && acc < limit
    ensures GetOctetsOnto(acc, k, limit, BitsOf(v, 8 * k) + s)
         == GetOctetsOnto(acc * 256 + NatOf(BitsOf(Shr(v, 8 * (k - 1)), 8)), k - 1, limit, BitsOf(v, 8 * (k - 1)) + s)
  {
    hide BitsOf, Shr, NatOf;
    var n := 8 * (k - 1);
    var b := BitsOf(v, 8 * k) + s;
    BitsOfSplit(v, 8, n);
    assert b[..8] == BitsOf(Shr(v, n), 8);
    assert b[8..] == BitsOf(v, n) + s;
  }

  lemma OctetArithmetic(acc: nat, v: nat, k: nat) returns (acc': nat, lo: nat)
    requires k > 0 && v < Pow2(8 * k)
    ensures acc' == acc * 256 + NatOf(BitsOf(Shr(v, 8 * (k - 1)), 8))
    ensures lo == Low(v, 8 * (k - 1))
    ensures acc' * Pow2(8 * (k - 1)) + lo == acc * Pow2(8 * k) + v
    ensures Pow2(8 * k) >= 256
  {
    var n := 8 * (k - 1);
    Pow2Of8();
    Pow2Sum(8, n);
    var hi := Shr(v, n);
    lo := Low(v, n);
    ShrLow(v, n);
    ShrBound(v, 8, n);
    NatOfBitsOfSmall(hi, 8);
    acc' := acc * 256 + hi;
    ShiftIn(acc, hi, lo, Pow2(n));
  }

  lemma {:induction false} OctetsRoundTrip(acc: nat, v: nat, k: nat, limit: nat, s: Bits)
    requires v < Pow2(8 * k)
    requires k > 0 ==> acc * Pow2(8 * k) + v < 256 * limit
    ensures GetOctetsOnto(acc, k, limit, BitsOf(v, 8 * k) + s) == Ok(acc * Pow2(8 * k) + v, s)
    decreases k
  {
    if k == 0 {
      assert BitsOf(v, 8 * k) + s == s;
    } else {
      var acc', lo := OctetArithmetic(acc, v, k);
      AccBelow(acc, v, Pow2(8 * k), limit);
      OctetStep(acc, v, k, limit, s);
      BitsOfLow(v, 8 * (k - 1));
      OctetsRoundTrip(acc', lo, k - 1, limit, s);
    }
  }

  lemma ReadCounted(k: nat, u: nat, s: Bits, b: Bits)
    requires k < 256 && u < Pow2(8 * k) && b == (BitsOf(k, 8) + BitsOf(u, 8 * k)) + s
    ensures Get(8, b) == Ok(k, BitsOf(u, 8 * k) + s)
    ensures Get(8 * k, BitsOf(u, 8 * k) + s) == Ok(u, s)
  {
    Assoc(BitsOf(k, 8), BitsOf(u, 8 * k), s);
    GetOctet(k, BitsOf(u, 8 * k) + s);
    GetPut(u, 8 * k, s);
  }

  lemma ReadUnconstrained(k: nat, u: nat, s: Bits)
    requires 1 <= k <= 8 && u < Pow2(8 * k)
    ensures GetUnconstrained((BitsOf(k, 8) + BitsOf(u, 8 * k)) + s)
         == Ok(if u >= Pow2(8 * k - 1) then u - Pow2(8 * k) else u, s)
  {
    hide BitsOf, NatOf, Pow2, Get;
    ReadCounted(k, u, s, (BitsOf(k, 8) + BitsOf(u, 8 * k)) + s);
  }

  // Every int64 written in the unconstrained form is read back; the length
  // octet is the least one possible.
  lemma UnconstrainedRoundTrip(v: int, s: Bits)
    requires I64_MIN <= v <= I64_MAX
    ensures GetUnconstrained(PutUnconstrained(v) + s) == Ok(v, s)
    ensures SOctets(v) <= 8
  {
    var k := SOctets(v);
    assert k <= 8 by { I64FitsOctets(v); SOctetsLeast(v, 8); }
    SOctetsBounds(v);
    TwosComplement(v, k);
    ReadUnconstrained(k, v % Pow2(8 * k), s);
  }

  lemma U64FitsOctets(v: nat)
    requires v < U64
    ensures v < Pow2(8 * 8) && v < 256 * TOP_OCTET_64
  {
    Pow2Values();
  }

  lemma OctetsFromZero(v: nat, k: nat, limit: nat, s: Bits)
    requires v < Pow2(8 * k) && v < 256 * limit
    ensures GetOctetsOnto(0, k, limit, BitsOf(v, 8 * k) + s) == Ok(v, s)
  {
    OctetsRoundTrip(0, v, k, limit, s);
  }

  lemma ReadSemi(v: nat, k: nat, s: Bits)
    requires 1 <= k < 256 && v < Pow2(8 * k) && v < 256 * TOP_OCTET_64
    ensures GetSemi((BitsOf(k, 8) + BitsOf(v, 8 * k)) + s) == Ok(v, s)
  {
    var b, tail := (BitsOf(k, 8) + BitsOf(v, 8 * k)) + s, BitsOf(v, 8 * k) + s;
    assert Get(8, b) == Ok(k, tail) by {
      Assoc(BitsOf(k, 8), BitsOf(v, 8 * k), s);
      GetOctet(k, tail);
    }
    assert GetOctetsOnto(0, k, TOP_OCTET_64, tail) == Ok(v, s) by { OctetsFromZero(v, k, TOP_OCTET_64, s); }
  }

  lemma SemiRoundTrip(offset: nat, s: Bits)
    requires offset < U64
    ensures GetSemi(PutSemi(offset) + s) == Ok(offset, s)
    ensures UOctets(offset) <= 8
  {
    U64FitsOctets(offset);
    UOctetsBounds(offset);
    UOctetsLeast(offset, 8);
    ReadSemi(offset, UOctets(offset), s);
  }

  lemma LengthRoundTrip(n: nat, s: Bits)
    requires n < FRAGMENT
    ensures GetLength(PutLength(n) + s) == Ok(n, s)
  {
    if n <= 127 {
      GetOctet(n, s);
    } else {
      Assoc(BitsOf(0x80 + n / 256, 8), BitsOf(n % 256, 8), s);
      GetOctet(0x80 + n / 256, BitsOf(n % 256, 8) + s);
      GetOctet(n % 256, s);
    }
  }

  lemma GetSix(n: nat, s: Bits)
    requires n < 64
    ensures Get(6, BitsOf(n, 6) + s) == Ok(n, s)
  {
    assert Pow2(6) == 64;
    GetPut(n, 6, s);
  }

  lemma AfterFlag(x: bool, a: Bits, s: Bits)
    ensures (([x] + a) + s)[0] == x && (([x] + a) + s)[1..] == a + s
  {
  }

  lemma NsLengthRoundTrip(n: nat, s: Bits)
    requires n < FRAGMENT
    ensures GetNsLength(PutNsLength(n) + s) == Ok(n, s)
  {
    if 1 <= n <= 64 {
      AfterFlag(false, BitsOf(n - 1, 6), s);
      GetSix(n - 1, s);
    } else {
      AfterFlag(true, PutLength(n), s);
      LengthRoundTrip(n, s);
    }
  }

  lemma ReadNsNumber(n: nat, k: nat, s: Bits)
    requires 1 <= k < FRAGMENT && n < Pow2(8 * k) && n < 256 * TOP_OCTET_INT
    ensures GetNsNumber(([true] + (PutLength(k) + BitsOf(n, 8 * k))) + s) == Ok(n, s)
  {
    AfterFlag(true, PutLength(k) + BitsOf(n, 8 * k), s);
    Assoc(PutLength(k), BitsOf(n, 8 * k), s);
    LengthRoundTrip(k, BitsOf(n, 8 * k) + s);
    OctetsRoundTrip(0, n, k, TOP_OCTET_INT, s);
  }

  // Every non-negative int travels as a normally small number.
  lemma NsNumberRoundTrip(n: nat, s: Bits)
    requires n < INT_LIMIT
    ensures GetNsNumber(PutNsNumber(n) + s) == Ok(n, s)
  {
    if n <= 63 {
      AfterFlag(false, BitsOf(n, 6), s);
      GetSix(n, s);
    } else {
      UOctetsOfInt(n);
      UOctetsBounds(n);
      ReadNsNumber(n, UOctets(n), s);
    }
  }

  // A normally small number never exceeds int.
  lemma NsNumberInRange(b: Bits)
    ensures GetNsNumber(b).Ok? ==> GetNsNumber(b).v < INT_LIMIT
  {
    Pow2Values();
    if b != [] && b[0] {
      var len := GetLength(b[1..]);
      if len.Ok? && len.v > 0 { OctetsOntoBound(0, len.v, TOP_OCTET_INT, len.rest); }
    }
  }

  lemma {:induction false} OctetsOntoBound(v: nat, k: nat, limit: nat, b: Bits)
    requires k > 0
    ensures GetOctetsOnto(v, k, limit, b).Ok? ==> GetOctetsOnto(v, k, limit, b).v < 256 * limit
    decreases k
  {
    Pow2Of8();
    if v < limit && |b| >= 8 && k > 1 { OctetsOntoBound(v * 256 + NatOf(b[..8]), k - 1, limit, b[8..]); }
  }

  // ---- INTEGER ----

  // When an INTEGER field recovers its value.  Outside a non-extensible range
  // the offset is cut to the field width without a diagnosis.
  predicate IntFits(c: Bounds, i: int) {
    match c
    case Unbounded => true
    case Semi(lo, ext) => ext || lo <= i
    case Range(lo, hi, bits, ext) => (ext && !(lo <= i <= hi)) || WrapU(i - lo) < Pow2(bits)
  }

  lemma WrapAdd(lo: int, i: int)
    ensures WrapS(lo + WrapU(i - lo)) == WrapS(i)
    ensures WrapU(lo + WrapU(i - lo)) == WrapU(i)
  {
    var q := (i - lo) / U64;
    assert i - lo == U64 * q + WrapU(i - lo);
    var w := i % U64;
    assert i == U64 * (i / U64) + w;
    ModUnique(lo + WrapU(i - lo), U64, i / U64 - q, w);
  }

  lemma WrapSId(i: int)
    requires I64_MIN <= i <= I64_MAX
    ensures WrapS(i) == i
  {
    if i < 0 { ModUnique(i, U64, -1, i + U64); } else { ModUnique(i, U64, 0, i); }
  }

  lemma WrapUS(i: int)
    requires 0 <= i < U64
    ensures WrapU(i) == i && WrapU(WrapS(i)) == i
  {
    ModUnique(i, U64, 0, i);
    if i > I64_MAX { ModUnique(i - U64, U64, -1, i); }
  }

  lemma TwoOffsets(lo: int, a: nat, b: nat)
    requires a < U64 && b < U64 && WrapU(lo + a) == WrapU(lo + b)
    ensures a == b
  {
    var x, y := lo + a, lo + b;
    assert x == U64 * (x / U64) + WrapU(x) && y == U64 * (y / U64) + WrapU(y);
    assert a - b == U64 * (x / U64 - y / U64);
    var q := x / U64 - y / U64;
    if q > 0 { MulAtLeast(U64, q); } else if q < 0 { MulAtLeast(U64, -q); }
  }

  lemma FlagAfter(present: bool, x: bool, s: Bits)
    ensures GetFlag(present, (if present then [x] else []) + s) == Ok(present && x, s)
  {
    var b := (if present then [x] else []) + s;
    if present { assert b[1..] == s; } else { assert b == s; }
  }

  lemma Pow2AtMost64(bits: nat)
    requires bits <= 64
    ensures Pow2(bits) <= U64
  {
    Pow2Values();
    Pow2Mono(bits, 64);
  }

  // Cutting an offset to `bits` bits keeps the value exactly when it fits.
  lemma RangeOffsetS(lo: int, i: int, bits: nat)
    requires I64_MIN <= i <= I64_MAX && bits <= 64
    ensures WrapS(lo + WrapU(i - lo) % Pow2(bits)) == i <==> WrapU(i - lo) < Pow2(bits)
  {
    var u := WrapU(i - lo);
    WrapAdd(lo, i);
    WrapSId(i);
    ModSmall(u, Pow2(bits));
    Pow2AtMost64(bits);
    if WrapS(lo + u % Pow2(bits)) == i { TwoOffsets(lo, u % Pow2(bits), u); }
  }

  lemma RangeOffsetU(lo: int, i: int, bits: nat)
    requires 0 <= i < U64 && bits <= 64
    ensures WrapU(lo + WrapU(i - lo) % Pow2(bits)) == i <==> WrapU(i - lo) < Pow2(bits)
  {
    var u := WrapU(i - lo);
    WrapAdd(lo, i);
    WrapUS(i);
    ModSmall(u, Pow2(bits));
    Pow2AtMost64(bits);
    if WrapU(lo + u % Pow2(bits)) == i { TwoOffsets(lo, u % Pow2(bits), u); }
  }

  // The storage check of a semi-constrained field passes exactly above `lo`.
  lemma SemiOffset(lo: int, i: int, max: int)
    requires lo <= max && i <= max && max - lo < U64 && lo - i < U64 && U64 > max - i
    ensures WrapU(max - lo) == max - lo
    ensures WrapU(i - lo) <= max - lo <==> lo <= i
  {
    ModUnique(max - lo, U64, 0, max - lo);
    if lo <= i { ModUnique(i - lo, U64, 0, i - lo); } else { ModUnique(i - lo, U64, -1, i - lo + U64); }
  }

  lemma IntSemiBody(c: Bounds, i: int, u: nat, s: Bits)
    requires c.Semi? && u == WrapU(i - c.lo)
    requires I64_MIN <= i <= I64_MAX && I64_MIN <= c.lo <= I64_MAX
    ensures c.lo <= i <==> GetIntBody(c, false, PutSemi(u) + s) == Ok(i, s)
    ensures c.lo > i ==> GetIntBody(c, false, PutSemi(u) + s).Err?
  {
    hide PutSemi;
    SemiRoundTrip(u, s);
    SemiOffset(c.lo, i, I64_MAX);
    assert WrapS(c.lo + u) == i by { WrapAdd(c.lo, i); WrapSId(i); }
  }

  lemma UIntSemiBody(c: Bounds, i: int, u: nat, s: Bits)
    requires c.Semi? && u == WrapU(i - c.lo)
    requires 0 <= i < U64 && 0 <= c.lo < U64
    ensures c.lo <= i <==> GetUIntBody(c, false, PutSemi(u) + s) == Ok(i, s)
  {
    hide PutSemi;
    SemiRoundTrip(u, s);
    SemiOffset(c.lo, i, U64 - 1);
    assert WrapU(c.lo + u) == i by { WrapAdd(c.lo, i); WrapUS(i); }
  }

  lemma IntRangeBody(c: Bounds, i: int, u: nat, s: Bits)
    requires c.Range? && u == WrapU(i - c.lo) && I64_MIN <= i <= I64_MAX && c.bits <= 64
    ensures u < Pow2(c.bits) <==> GetIntBody(c, false, BitsOf(u, c.bits) + s) == Ok(i, s)
  {
    var field := u % Pow2(c.bits);
    assert Get(c.bits, BitsOf(u, c.bits) + s) == Ok(field, s) by { GetAfterPut(u, c.bits, s); }
    assert WrapS(c.lo + field) == i <==> u < Pow2(c.bits) by { RangeOffsetS(c.lo, i, c.bits); }
  }

  lemma UIntRangeBody(c: Bounds, i: int, u: nat, s: Bits)
    requires c.Range? && u == WrapU(i - c.lo) && 0 <= i < U64 && c.bits <= 64
    ensures u < Pow2(c.bits) <==> GetUIntBody(c, false, BitsOf(u, c.bits) + s) == Ok(i, s)
  {
    var field := u % Pow2(c.bits);
    assert Get(c.bits, BitsOf(u, c.bits) + s) == Ok(field, s) by { GetAfterPut(u, c.bits, s); }
    assert WrapU(c.lo + field) == i <==> u < Pow2(c.bits) by { RangeOffsetU(c.lo, i, c.bits); }
  }

  lemma IntBodyRoundTrip(c: Bounds, i: int, s: Bits)
    requires I64_MIN <= i <= I64_MAX && BoundsWf(c, I64_MIN, I64_MAX)
    ensures IntFits(c, i) <==> GetIntBody(c, HasIntFlag(c) && !InRoot(c, i), PutIntBody(c, i) + s) == Ok(i, s)
  {
    WrapSId(i);
    if c.Unbounded? || (c.ext && !InRoot(c, i)) { UnconstrainedRoundTrip(i, s); }
    else if c.Semi? { IntSemiBody(c, i, WrapU(i - c.lo), s); }
    else { IntRangeBody(c, i, WrapU(i - c.lo), s); }
  }

  lemma UIntBodyRoundTrip(c: Bounds, i: int, s: Bits)
    requires 0 <= i < U64 && BoundsWf(c, 0, U64 - 1)
    ensures IntFits(c, i) <==> GetUIntBody(c, HasIntFlag(c) && !InRoot(c, i), PutIntBody(c, i) + s) == Ok(i, s)
  {
    WrapUS(i);
    if c.Unbounded? || (c.ext && !InRoot(c, i)) { UnconstrainedRoundTrip(WrapS(i), s); }
    else if c.Semi? { UIntSemiBody(c, i, WrapU(i - c.lo), s); }
    else { UIntRangeBody(c, i, WrapU(i - c.lo), s); }
  }

  // The int64 handler returns the value it was given exactly when it fits.
  lemma IntRoundTrip(c: Bounds, i: int, s: Bits)
    requires I64_MIN <= i <= I64_MAX && BoundsWf(c, I64_MIN, I64_MAX)
    ensures IntFits(c, i) <==> GetInt(c, PutInt(c, i) + s) == Ok(i, s)
  {
    var x := !InRoot(c, i);
    Assoc(if HasIntFlag(c) then [x] else [], PutIntBody(c, i), s);
    FlagAfter(HasIntFlag(c), x, PutIntBody(c, i) + s);
    IntBodyRoundTrip(c, i, s);
  }

  // The uint64 handler likewise.
  lemma UIntRoundTrip(c: Bounds, i: int, s: Bits)
    requires 0 <= i < U64 && BoundsWf(c, 0, U64 - 1)
    ensures IntFits(c, i) <==> GetUInt(c, PutInt(c, i) + s) == Ok(i, s)
  {
    var x := !InRoot(c, i);
    Assoc(if HasIntFlag(c) then [x] else [], PutIntBody(c, i), s);
    FlagAfter(HasIntFlag(c), x, PutIntBody(c, i) + s);
    UIntBodyRoundTrip(c, i, s);
  }

  // Whatever the bits, a decoded INTEGER is inside its storage type.
  lemma IntegersInStorage(c: Bounds, b: Bits)
    ensures GetInt(c, b).Ok? ==> I64_MIN <= GetInt(c, b).v <= I64_MAX
    ensures GetUInt(c, b).Ok? ==> 0 <= GetUInt(c, b).v < U64
  {
    UnconstrainedInStorage(b);
    if GetFlag(HasIntFlag(c), b).Ok? { UnconstrainedInStorage(GetFlag(HasIntFlag(c), b).rest); }
  }

  lemma UnconstrainedInStorage(b: Bits)
    ensures GetUnconstrained(b).Ok? ==> I64_MIN <= GetUnconstrained(b).v <= I64_MAX
  {
    hide NatOf;
    var len := Get(8, b);
    if len.Ok? && 0 < len.v <= 8 {
      Pow2Values();
      Pow2Mono(8 * len.v - 1, 63);
      assert Pow2(8 * len.v) == 2 * Pow2(8 * len.v - 1);
    }
  }
}
