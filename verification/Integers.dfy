/** Machine integers and the octets that hold whole numbers. */
module Integers {
  import opened Bits

  const U64: nat := 0x1_0000_0000_0000_0000
  const I64_MAX: int := 0x7FFF_FFFF_FFFF_FFFF
  const I64_MIN: int := -0x8000_0000_0000_0000

  // The conversions of C++ between int64_t and uint64_t.
  function WrapU(x: int): (u: nat)
    ensures u < U64
  {
    x % U64
  }

  function WrapS(x: int): (s: int)
    ensures I64_MIN <= s <= I64_MAX
  {
    var u := x % U64;
    if u > I64_MAX then u - U64 else u
  }

  const INT_LIMIT: nat := 0x8000_0000

  // An `int` sum, on the two's complement hardware that carries it out.
  function WrapInt(x: int): (i: int)
    ensures -(INT_LIMIT as int) <= i < INT_LIMIT
  {
    (x + INT_LIMIT) % (2 * INT_LIMIT) - INT_LIMIT
  }

  // A sum of two non-negative ints turns negative exactly when it overflows.
  lemma IntSum(a: nat, b: nat)
    requires a < INT_LIMIT && b < INT_LIMIT
    ensures WrapInt(a + b) == if a + b < INT_LIMIT then a + b else a + b - 2 * INT_LIMIT
  {
    ModUnique(a + b + INT_LIMIT, 2 * INT_LIMIT, if a + b < INT_LIMIT then 0 else 1,
              if a + b < INT_LIMIT then a + b + INT_LIMIT else a + b - INT_LIMIT);
  }

  lemma Pow2Values()
    ensures Pow2(6) == 64 && Pow2(8) == 256 && Pow2(16) == 65536 && Pow2(31) == 0x8000_0000
    ensures Pow2(63) == I64_MAX + 1 && Pow2(64) == U64
  {
    assert Pow2(6) == 64 && Pow2(8) == 256 by { SmallPowers(); Pow2Of8(); Pow2Sum(3, 3); }
    assert Pow2(16) == 65536 by { Pow2Of8(); Pow2Sum(8, 8); }
    assert Pow2(15) == 32768 by { SmallPowers(); Pow2Of8(); Pow2Sum(8, 7); }
    assert Pow2(31) == 0x8000_0000 by { hide Pow2; Pow2Sum(16, 15); }
    assert Pow2(32) == 0x1_0000_0000 by { hide Pow2; Pow2Sum(16, 16); }
    assert Pow2(63) == I64_MAX + 1 by { hide Pow2; Pow2Sum(32, 31); }
    assert Pow2(64) == U64 by { hide Pow2; Pow2Sum(32, 32); }
  }

  lemma SmallPowers()
    ensures Pow2(3) == 8 && Pow2(7) == 128
  {
    assert Pow2(3) == 8;
    assert Pow2(4) == 16;
    Pow2Sum(4, 3);
  }

  lemma ModSmall(u: nat, p: nat)
    requires p > 0
    ensures u % p == u <==> u < p
  {
    if u < p { ModUnique(u, p, 0, u); }
  }

  // ---- fewest octets ----

  // Fewest octets holding a non-negative number, one for 0.
  function UOctets(v: nat): (k: nat)
    ensures k >= 1
  {
    if v < 256 then 1 else 1 + UOctets(v / 256)
  }

  lemma {:induction false} UOctetsBounds(v: nat)
    ensures v < Pow2(8 * UOctets(v))
    ensures UOctets(v) > 1 ==> v >= Pow2(8 * (UOctets(v) - 1))
  {
    Pow2Of8();
    if v >= 256 {
      UOctetsBounds(v / 256);
      var k := UOctets(v / 256);
      Pow2Sum(8, 8 * k);
      if k > 1 { Pow2Sum(8, 8 * (k - 1)); }
    }
  }

  // UOctets is the fewest octets that hold `v`.
  lemma UOctetsLeast(v: nat, k: nat)
    requires k >= 1
    ensures v < Pow2(8 * k) <==> UOctets(v) <= k
  {
    UOctetsBounds(v);
    var least := UOctets(v);
    if least <= k { Pow2Mono(8 * least, 8 * k); } else { Pow2Mono(8 * k, 8 * (least - 1)); }
  }

  // Fewest octets holding a two's-complement number.
  function SOctets(v: int): (k: nat)
    ensures k >= 1
    decreases if v < 0 then -v else v
  {
    if -128 <= v < 128 then 1 else 1 + SOctets(v / 256)
  }

  // A two's-complement number fits in `k` octets.
  predicate FitsOctets(v: int, k: nat)
    requires k >= 1
  {
    -(Pow2(8 * k - 1) as int) <= v < Pow2(8 * k - 1)
  }

  lemma {:induction false} SOctetsBounds(v: int)
    ensures FitsOctets(v, SOctets(v))
    ensures SOctets(v) > 1 ==> !FitsOctets(v, SOctets(v) - 1)
    decreases if v < 0 then -v else v
  {
    assert Pow2(7) == 128 by { Pow2Of8(); assert Pow2(8) == 2 * Pow2(7); }
    if !(-128 <= v < 128) {
      SOctetsBounds(v / 256);
      var k := SOctets(v / 256);
      Pow2Of8();
      Pow2Sum(8, 8 * k - 1);
      if k > 1 { Pow2Sum(8, 8 * (k - 1) - 1); }
    }
  }

  // SOctets is the fewest octets that hold `v`.
  lemma SOctetsLeast(v: int, k: nat)
    requires k >= 1
    ensures FitsOctets(v, k) <==> SOctets(v) <= k
  {
    SOctetsBounds(v);
    var least := SOctets(v);
    if least <= k { Pow2Mono(8 * least - 1, 8 * k - 1); } else { Pow2Mono(8 * k - 1, 8 * (least - 1) - 1); }
  }

  // Two's complement in `k` octets.
  lemma TwosComplement(v: int, k: nat)
    requires k >= 1 && FitsOctets(v, k)
    ensures v % Pow2(8 * k) == if v < 0 then v + Pow2(8 * k) else v
    ensures v < 0 <==> v % Pow2(8 * k) >= Pow2(8 * k - 1)
  {
    var p := Pow2(8 * k);
    assert p == 2 * Pow2(8 * k - 1);
    if v < 0 { ModUnique(v, p, -1, v + p); } else { ModUnique(v, p, 0, v); }
  }

  lemma I64FitsOctets(v: int)
    requires I64_MIN <= v <= I64_MAX
    ensures FitsOctets(v, 8)
  {
    Pow2Values();
  }

  // ---- redundant sign octets ----

  // Octet `i` of a number, counted from the least significant one.
  function Octet(v: nat, i: nat): (o: nat)
    ensures o < 256
  {
    Shr(v, 8 * i) % 256
  }

  lemma ShrBelow(v: nat, m: nat, n: nat)
    ensures Shr(v, n) < Pow2(m) <==> v < Pow2(m + n)
  {
    if v < Pow2(m + n) { ShrBound(v, m, n); }
    else {
      ShrLow(v, n);
      Pow2Sum(m, n);
      if Shr(v, n) < Pow2(m) {
        MulMonoPlus(Pow2(n), Shr(v, n), Pow2(m));
      }
    }
  }

  // Two leading octets of a non-negative number are redundant exactly when it
  // fits in one octet less.
  lemma TopOctets(x: nat, len: nat)
    requires len > 1 && x < Pow2(8 * len - 1)
    ensures Octet(x, len - 1) == 0 && Octet(x, len - 2) < 128 <==> x < Pow2(8 * (len - 1) - 1)
  {
    var n := 8 * (len - 2);
    var y := Shr(x, n);
    ShrShr(x, n, 8);
    Shr8(y);
    ShrBelow(x, 15, n);
    ShrBelow(x, 7, n);
    Pow2Of8();
    assert Pow2(8) == 2 * Pow2(7);
    Pow2Sum(7, 8);
    assert y / 256 < 128;
  }

  lemma {:induction false} ShrComplement(c: nat, m: nat, n: nat)
    requires c < Pow2(m) && n <= m
    ensures Shr(Pow2(m) - 1 - c, n) == Pow2(m - n) - 1 - Shr(c, n)
  {
    if n > 0 { ShrComplement(c / 2, m - 1, n - 1); }
  }

  lemma OctetComplement(c: nat, i: nat)
    requires c < Pow2(64) && i < 8
    ensures Octet(Pow2(64) - 1 - c, i) == 255 - Octet(c, i)
  {
    hide Pow2, Shr;
    ShrComplement(c, 64, 8 * i);
    var k := 64 - 8 * i;
    Pow2Of8();
    Pow2Sum(8, k - 8);
    var p, x := Pow2(k - 8), Shr(c, 8 * i);
    ModUnique(Pow2(k) - 1 - x, 256, p - 1 - x / 256, 255 - x % 256);
  }

  predicate Redundant(value: int, u: nat, len: nat)
    requires len > 1
  {
    if value >= 0 then Octet(u, len - 1) == 0x00 && Octet(u, len - 2) < 0x80
    else Octet(u, len - 1) == 0xFF && Octet(u, len - 2) >= 0x80
  }

  lemma RedundantExactly(value: int, u: nat, len: nat)
    requires I64_MIN <= value <= I64_MAX && u == WrapU(value)
    requires 1 < len <= 8 && FitsOctets(value, len)
    ensures Redundant(value, u, len) <==> FitsOctets(value, len - 1)
  {
    hide Pow2, Shr;
    Pow2Values();
    if value >= 0 {
      ModUnique(value, U64, 0, value);
      TopOctets(value, len);
    } else {
      var c := -value - 1;
      ModUnique(value, U64, -1, value + U64);
      OctetComplement(c, len - 1);
      OctetComplement(c, len - 2);
      TopOctets(c, len);
    }
  }

  lemma LowOctetsOf(value: int, u: nat, len: nat)
    requires u == WrapU(value) && len <= 8
    ensures BitsOf(u, 8 * len) == BitsOf(value % Pow2(8 * len), 8 * len)
  {
    hide Pow2, BitsOf, NatOf;
    var n := 8 * len;
    var p, q := Pow2(n), Pow2(64 - n);
    Pow2Values();
    Pow2Sum(n, 64 - n);
    var a, b := value / U64, u / p;
    assert value == U64 * a + u && u == p * b + u % p;
    assert value == p * (q * a + b) + u % p by { assert p * (q * a + b) == p * q * a + p * b; }
    ModUnique(value, p, q * a + b, u % p);
    NatOfBitsOf(u, n);
    BitsOfNatOf(BitsOf(u, n));
  }

  lemma LeastOctets(value: int, len: nat)
    requires 1 <= len && FitsOctets(value, len) && (len > 1 ==> !FitsOctets(value, len - 1))
    ensures len == SOctets(value)
  {
    SOctetsLeast(value, len);
    if len > 1 { SOctetsLeast(value, len - 1); }
  }

  // Drops the redundant sign octets of the eight octets of an int64.
  method TrimSignOctets(value: int, u: nat) returns (len: nat)
    requires I64_MIN <= value <= I64_MAX && u == WrapU(value)
    ensures len == SOctets(value) && len <= 8
  {
    len := 8;
    I64FitsOctets(value);
    while len > 1 && Redundant(value, u, len)
      invariant 1 <= len <= 8 && FitsOctets(value, len)
    {
      RedundantExactly(value, u, len);
      len := len - 1;
    }
    if len > 1 { RedundantExactly(value, u, len); }
    LeastOctets(value, len);
  }
}
