/** Bit strings, written most significant bit first, and the numbers they hold. */
module Bits {

  type Bits = seq<bool>
  type Byte = x: nat | x < 256

  function Pow2(n: nat): (p: nat)
    ensures p > 0
  {
    if n == 0 then 1 else 2 * Pow2(n - 1)
  }

  lemma DoubleMul(a: nat, b: nat)
    ensures 2 * (a * b) == (2 * a) * b
  {
  }

  lemma {:induction false} Pow2Sum(m: nat, n: nat)
    ensures Pow2(m + n) == Pow2(m) * Pow2(n)
  {
    if m > 0 {
      Pow2Sum(m - 1, n);
      DoubleMul(Pow2(m - 1), Pow2(n));
    }
  }

  lemma {:induction false} Pow2Mono(m: nat, n: nat)
    requires m <= n
    ensures Pow2(m) <= Pow2(n)
  {
    if m < n { Pow2Mono(m, n - 1); }
  }

  // The low `n` bits of `v`.
  function BitsOf(v: nat, n: nat): (b: Bits)
    ensures |b| == n
  {
    if n == 0 then [] else BitsOf(v / 2, n - 1) + [v % 2 == 1]
  }

  function NatOf(b: Bits): (v: nat)
    ensures v < Pow2(|b|)
  {
    if b == [] then 0
    else 2 * NatOf(b[..|b| - 1]) + (if b[|b| - 1] then 1 else 0)
  }

  // Writing a number and reading it back keeps exactly its low bits.
  lemma {:induction false} NatOfBitsOf(v: nat, n: nat)
    ensures NatOf(BitsOf(v, n)) == v % Pow2(n)
  {
    if n > 0 {
      NatOfBitsOf(v / 2, n - 1);
      assert BitsOf(v, n)[..n - 1] == BitsOf(v / 2, n - 1);
      ModDouble(v, Pow2(n - 1));
    }
  }

  lemma ModDouble(v: nat, m: nat)
    requires m > 0
    ensures v % (2 * m) == 2 * (v / 2 % m) + v % 2
  {
    var h := v / 2;
    var q, r := h / m, h % m;
    assert v == (2 * m) * q + (2 * r + v % 2);
    ModUnique(v, 2 * m, q, 2 * r + v % 2);
  }

  lemma MulAtLeast(m: nat, k: int)
    requires k >= 1
    ensures m * k >= m
  {
    assert m * k == m * (k - 1) + m;
    assert m * (k - 1) >= 0;
  }

  // Quotient and remainder are determined by their defining equation.
  lemma ModUnique(v: int, m: nat, q: int, r: nat)
    requires m > 0 && r < m && v == m * q + r
    ensures v % m == r && v / m == q
  {
    var q', r' := v / m, v % m;
    if q' < q {
      assert m * (q - q') == m * q - m * q';
      MulAtLeast(m, q - q');
    } else if q < q' {
      assert m * (q' - q) == m * q' - m * q;
      MulAtLeast(m, q' - q);
    }
  }

  lemma {:induction false} BitsOfNatOf(b: Bits)
    ensures BitsOf(NatOf(b), |b|) == b
  {
    if b != [] { BitsOfNatOf(b[..|b| - 1]); }
  }

  // `v` shifted right by `n` bits, and the bits shifted out.
  function Shr(v: nat, n: nat): nat {
    if n == 0 then v else Shr(v / 2, n - 1)
  }

  function Low(v: nat, n: nat): (r: nat)
    ensures r < Pow2(n)
  {
    NatOf(BitsOf(v, n))
  }

  lemma {:induction false} ShrLow(v: nat, n: nat)
    ensures v == Shr(v, n) * Pow2(n) + Low(v, n)
  {
    if n > 0 {
      ShrLow(v / 2, n - 1);
      LowStep(v, n);
      MulDouble(Shr(v, n), Pow2(n - 1));
    }
  }

  lemma LowStep(v: nat, n: nat)
    requires n > 0
    ensures Low(v, n) == 2 * Low(v / 2, n - 1) + v % 2
  {
    NatOfSnoc(BitsOf(v / 2, n - 1), v % 2 == 1);
  }

  lemma {:induction false} ShrBound(v: nat, m: nat, n: nat)
    requires v < Pow2(m + n)
    ensures Shr(v, n) < Pow2(m)
  {
    if n > 0 { ShrBound(v / 2, m, n - 1); }
  }

  lemma BitsOfLow(v: nat, n: nat)
    ensures BitsOf(Low(v, n), n) == BitsOf(v, n)
  {
    BitsOfNatOf(BitsOf(v, n));
  }

  lemma NatOfBitsOfSmall(v: nat, n: nat)
    requires v < Pow2(n)
    ensures NatOf(BitsOf(v, n)) == v
  {
    NatOfBitsOf(v, n);
  }

  lemma {:induction false} BitsOfSplit(v: nat, m: nat, n: nat)
    ensures BitsOf(v, m + n) == BitsOf(Shr(v, n), m) + BitsOf(v, n)
  {
    if n > 0 { BitsOfSplit(v / 2, m, n - 1); }
  }

  lemma MulDouble(x: nat, p: nat)
    ensures x * (2 * p) == 2 * (x * p)
  {
  }

  lemma NatOfSnoc(a: Bits, last: bool)
    ensures NatOf(a + [last]) == 2 * NatOf(a) + (if last then 1 else 0)
  {
    assert (a + [last])[..|a|] == a;
  }

  lemma {:induction false} NatOfConcat(a: Bits, b: Bits)
    ensures NatOf(a + b) == NatOf(a) * Pow2(|b|) + NatOf(b)
  {
    if b == [] {
      assert a + b == a;
    } else {
      var b', last := b[..|b| - 1], b[|b| - 1];
      assert b == b' + [last];
      assert a + b == (a + b') + [last];
      NatOfConcat(a, b');
      NatOfSnoc(a + b', last);
      NatOfSnoc(b', last);
      MulDouble(NatOf(a), Pow2(|b'|));
    }
  }

  lemma Pow2Of8()
    ensures Pow2(8) == 256
  {
    assert Pow2(4) == 16;
    Pow2Sum(4, 4);
  }

  lemma Assoc(a: Bits, b: Bits, s: Bits)
    ensures (a + b) + s == a + (b + s)
  {
  }

  lemma MulMono(p: nat, a: nat, b: nat)
    requires a <= b
    ensures p * a <= p * b
  {
    assert p * b == p * a + p * (b - a);
    assert p * (b - a) >= 0;
  }

  lemma MulMonoPlus(p: nat, a: nat, b: nat)
    requires a < b
    ensures a * p + p <= b * p
  {
    MulMono(p, a + 1, b);
  }

  lemma {:induction false} ShrShr(v: nat, m: nat, n: nat)
    ensures Shr(Shr(v, m), n) == Shr(v, m + n)
  {
    if m > 0 { ShrShr(v / 2, m - 1, n); }
  }

  lemma Shr8(v: nat)
    ensures Shr(v, 8) == v / 256
  {
    Pow2Of8();
    ShrLow(v, 8);
    ModUnique(v, 256, Shr(v, 8), Low(v, 8));
  }

  lemma {:induction false} NatOfCons(x: bool, b: Bits)
    ensures NatOf([x] + b) == (if x then Pow2(|b|) else 0) + NatOf(b)
  {
    if b == [] {
      assert [x] + b == [] + [x];
      NatOfSnoc([], x);
    } else {
      var b', last := b[..|b| - 1], b[|b| - 1];
      NatOfCons(x, b');
      assert b == b' + [last];
      assert [x] + b == ([x] + b') + [last];
      NatOfSnoc([x] + b', last);
      NatOfSnoc(b', last);
    }
  }

  lemma Pow2Step(n: nat)
    ensures Pow2(n + 1) == 2 * Pow2(n)
  {
  }

  lemma Pow2Zero()
    ensures Pow2(0) == 1
  {
  }

  lemma ShrNone(v: nat)
    ensures Shr(v, 0) == v
  {
  }

  // The bits of one octet and of a string of octets.
  function ByteBits(x: Byte): (b: Bits)
    ensures |b| == 8
  {
    BitsOf(x, 8)
  }

  function BytesBits(s: seq<Byte>): (b: Bits)
    ensures |b| == 8 * |s|
  {
    if s == [] then [] else ByteBits(s[0]) + BytesBits(s[1..])
  }

  lemma {:induction false} BytesBitsConcat(a: seq<Byte>, b: seq<Byte>)
    ensures BytesBits(a + b) == BytesBits(a) + BytesBits(b)
  {
    if a == [] {
      assert a + b == b;
    } else {
      assert (a + b)[1..] == a[1..] + b;
      BytesBitsConcat(a[1..], b);
    }
  }

  // The result of reading from the front of a bit string.
  datatype Read<+T> = Ok(v: T, rest: Bits) | Err

  function Get(n: nat, b: Bits): (r: Read<nat>)
    ensures r.Ok? <==> n <= |b|
    ensures r.Ok? ==> r.v < Pow2(n) && r.rest == b[n..]
  {
    if n <= |b| then Ok(NatOf(b[..n]), b[n..]) else Err
  }

  lemma GetAfterPut(v: nat, n: nat, s: Bits)
    ensures Get(n, BitsOf(v, n) + s) == Ok(v % Pow2(n), s)
  {
    var b := BitsOf(v, n) + s;
    assert b[..n] == BitsOf(v, n);
    assert b[n..] == s;
    NatOfBitsOf(v, n);
  }

  lemma GetPut(v: nat, n: nat, s: Bits)
    requires v < Pow2(n)
    ensures Get(n, BitsOf(v, n) + s) == Ok(v, s)
  {
    GetAfterPut(v, n, s);
  }
}
