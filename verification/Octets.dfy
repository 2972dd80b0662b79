/** Big-endian octet strings and the numbers they hold. */
module Octets {
  import opened Bits
  import opened Integers

  function BigEndian(m: seq<Byte>): (v: nat)
    ensures v < Pow2(8 * |m|)
  {
    if m == [] then 0
    else
      SnocBound(BigEndian(m[..|m| - 1]), m[|m| - 1], 8 * (|m| - 1));
      BigEndian(m[..|m| - 1]) * 256 + m[|m| - 1]
  }

  lemma SnocBound(hi: nat, lo: Byte, n: nat)
    requires hi < Pow2(n)
    ensures hi * 256 + lo < Pow2(n + 8)
  {
    Pow2Of8();
    Pow2Sum(n, 8);
    MulMonoPlus(256, hi, Pow2(n));
  }

  lemma BigEndianBound(m: seq<Byte>)
    ensures BigEndian(m) < Pow2(8 * |m|)
  {
  }

  lemma BigEndianSnoc(m: seq<Byte>, b: Byte)
    ensures BigEndian(m + [b]) == BigEndian(m) * 256 + b
  {
    assert (m + [b])[..|m|] == m;
  }

  lemma ShiftSum(x: nat, p: nat, y: nat, l: nat)
    ensures (x * p + y) * 256 + l == x * (p * 256) + (y * 256 + l)
  {
  }

  lemma EightMore(n: nat)
    ensures Pow2(8 * n + 8) == Pow2(8 * n) * 256
  {
    Pow2Of8();
    Pow2Sum(8 * n, 8);
  }

  lemma {:induction false} BigEndianConcat(a: seq<Byte>, b: seq<Byte>)
    ensures BigEndian(a + b) == BigEndian(a) * Pow2(8 * |b|) + BigEndian(b)
  {
    if b == [] {
      assert a + b == a;
    } else {
      hide BigEndian, Pow2;
      var b', last := b[..|b| - 1], b[|b| - 1];
      assert a + b == (a + b') + [last] && b == b' + [last];
      BigEndianConcat(a, b');
      BigEndianSnoc(a + b', last);
      BigEndianSnoc(b', last);
      EightMore(|b'|);
      ShiftSum(BigEndian(a), Pow2(8 * |b'|), BigEndian(b'), last);
    }
  }

  lemma BigEndianOne(b: Byte)
    ensures BigEndian([b]) == b
  {
    assert [b][..0] == [];
  }

  lemma BigEndianCons(b: Byte, m: seq<Byte>)
    ensures BigEndian([b] + m) == b * Pow2(8 * |m|) + BigEndian(m)
  {
    hide BigEndian, Pow2;
    BigEndianConcat([b], m);
    BigEndianOne(b);
  }

  // The low `k` octets of `v`.
  function ToOctets(v: nat, k: nat): (m: seq<Byte>)
    ensures |m| == k
  {
    if k == 0 then [] else ToOctets(v / 256, k - 1) + [v % 256]
  }

  lemma {:induction false} BigEndianToOctets(v: nat, k: nat)
    requires v < Pow2(8 * k)
    ensures BigEndian(ToOctets(v, k)) == v
  {
    if k > 0 {
      Pow2Of8();
      Pow2Sum(8, 8 * (k - 1));
      BigEndianToOctets(v / 256, k - 1);
      BigEndianSnoc(ToOctets(v / 256, k - 1), v % 256);
    }
  }

  lemma {:induction false} ToOctetsBigEndian(m: seq<Byte>)
    ensures ToOctets(BigEndian(m), |m|) == m
  {
    if m != [] {
      ToOctetsBigEndian(m[..|m| - 1]);
      assert m == m[..|m| - 1] + [m[|m| - 1]];
    }
  }

  // The first octet decides whether the number needs all octets.
  lemma FirstOctetBound(m: seq<Byte>)
    requires m != []
    ensures m[0] != 0 <==> BigEndian(m) >= Pow2(8 * (|m| - 1))
    ensures m[0] >= 128 <==> BigEndian(m) >= Pow2(8 * |m| - 1)
  {
    hide BigEndian, Pow2;
    var rest := m[1..];
    assert m == [m[0]] + rest;
    BigEndianCons(m[0], rest);
    BigEndianBound(rest);
    Pow2Sum(7, 8 * |rest|);
    Pow2Of7();
    DigitBound(m[0], BigEndian(rest), Pow2(8 * |rest|), 1);
    DigitBound(m[0], BigEndian(rest), Pow2(8 * |rest|), 128);
    assert 8 * |m| - 1 == 7 + 8 * |rest| && 8 * (|m| - 1) == 8 * |rest|;
  }

  lemma DigitBound(a: nat, t: nat, p: nat, b: nat)
    requires t < p
    ensures a >= b <==> a * p + t >= b * p
  {
    if a >= b { MulMono(p, b, a); } else { MulMonoPlus(p, a, b); }
  }

  lemma Pow2Of7()
    ensures Pow2(7) == 128
  {
    Pow2Of8();
    assert Pow2(8) == 2 * Pow2(7);
  }

  // Two's complement.
  function SignedBig(m: seq<Byte>): int {
    BigEndian(m) - (if m != [] && m[0] >= 128 then Pow2(8 * |m|) else 0)
  }

  lemma SignedToOctets(v: int, k: nat)
    requires k >= 1 && FitsOctets(v, k)
    ensures SignedBig(ToOctets(v % Pow2(8 * k), k)) == v
  {
    var u := v % Pow2(8 * k);
    TwosComplement(v, k);
    BigEndianToOctets(u, k);
    FirstOctetBound(ToOctets(u, k));
  }

  lemma SignedFits(m: seq<Byte>)
    requires m != []
    ensures FitsOctets(SignedBig(m), |m|)
  {
    FirstOctetBound(m);
    assert Pow2(8 * |m|) == 2 * Pow2(8 * |m| - 1);
  }

  // One more octet below.
  lemma SignedSnoc(m: seq<Byte>, b: Byte)
    requires m != []
    ensures SignedBig(m + [b]) == SignedBig(m) * 256 + b
  {
    BigEndianSnoc(m, b);
    Pow2Of8();
    Pow2Sum(8 * |m|, 8);
  }

  // ---- bits of a number ----

  lemma {:induction false} LowBitOfSum(a: nat, b: nat, k: nat, i: nat)
    requires i < k
    ensures Shr(Pow2(k) * a + b, i) % 2 == Shr(b, i) % 2
  {
    var x := Pow2(k - 1) * a;
    assert Pow2(k) * a == 2 * x;
    if i > 0 {
      assert (2 * x + b) / 2 == x + b / 2;
      LowBitOfSum(a, b / 2, k - 1, i - 1);
    }
  }

  // Bit `i` of a big-endian number, counted from its least significant one.
  predicate BitAt(m: seq<Byte>, i: nat)
    requires i < 8 * |m|
  {
    Shr(m[|m| - 1 - i / 8], i % 8) % 2 == 1
  }

  lemma {:induction false} BitAtIsBit(m: seq<Byte>, i: nat)
    requires i < 8 * |m|
    ensures BitAt(m, i) <==> Shr(BigEndian(m), i) % 2 == 1
    decreases |m|
  {
    hide Pow2, Shr, BigEndian;
    var m', last := m[..|m| - 1], m[|m| - 1];
    assert m == m' + [last];
    BigEndianSnoc(m', last);
    if i < 8 {
      Pow2Of8();
      LowBitOfSum(BigEndian(m'), last, 8, i);
    } else {
      BitAtIsBit(m', i - 8);
      ShrShr(BigEndian(m), 8, i - 8);
      Shr8(BigEndian(m));
      assert (i - 8) / 8 == i / 8 - 1 && (i - 8) % 8 == i % 8;
    }
  }

  lemma ShrStep(v: nat, i: nat)
    ensures Shr(v, i) == 2 * Shr(v, i + 1) + Shr(v, i) % 2
  {
    ShrShr(v, i, 1);
    assert Shr(Shr(v, i), 1) == Shr(v, i) / 2;
  }

  // ---- minimal two's complement ----

  function SignedOctets(v: int): seq<Byte> {
    var k := SOctets(v);
    ToOctets(v % Pow2(8 * k), k)
  }

  // The first octet only repeats the sign of the second.
  predicate SignRepeats(m: seq<Byte>)
    requires |m| > 1
  {
    (m[0] == 0 && m[1] < 128) || (m[0] == 255 && m[1] >= 128)
  }

  lemma SignRepeatsExactly(m: seq<Byte>)
    requires |m| > 1
    ensures SignRepeats(m) <==> FitsOctets(SignedBig(m), |m| - 1)
    ensures SignRepeats(m) ==> SignedBig(m[1..]) == SignedBig(m)
  {
    hide BigEndian, Pow2;
    var t, n := m[1..], 8 * (|m| - 1);
    assert m == [m[0]] + t;
    BigEndianCons(m[0], t);
    FirstOctetBound(t);
    BigEndianBound(t);
    EightMore(|t|);
    Pow2Step(n - 1);
    assert 8 * |t| + 8 == 8 * |m|;
    TopOctet(m[0], BigEndian(t), Pow2(n - 1));
  }

  lemma TopOctet(a: Byte, t: nat, h: nat)
    requires t < 2 * h
    ensures var s := a * (2 * h) + t - (if a >= 128 then 256 * (2 * h) else 0);
            && ((a == 0 && t < h) || (a == 255 && t >= h) <==> -(h as int) <= s < h)
            && (a == 0 ==> s == t) && (a == 255 ==> s == t - 2 * h)
  {
    var p := 2 * h;
    if 0 < a < 128 { MulMono(p, 1, a); }
    if 128 <= a < 255 { MulMono(p, a, 254); }
  }

  lemma SignedOctetsIs(m: seq<Byte>)
    requires m != [] && (|m| > 1 ==> !SignRepeats(m))
    ensures m == SignedOctets(SignedBig(m)) && SOctets(SignedBig(m)) == |m|
  {
    hide BigEndian, Pow2, SOctets, ToOctets;
    var v := SignedBig(m);
    SignedFits(m);
    if |m| > 1 { SignRepeatsExactly(m); }
    LeastOctets(v, |m|);
    BigEndianBound(m);
    Wrapped(BigEndian(m), Pow2(8 * |m|), v);
    ToOctetsBigEndian(m);
  }

  lemma Wrapped(u: nat, p: nat, v: int)
    requires u < p && (v == u || v == u - p)
    ensures v % p == u
  {
    ModUnique(v, p, if v == u then 0 else -1, u);
  }

  // Skips octets that only repeat the sign.
  method SkipSign(m: seq<Byte>) returns (k: nat)
    requires m != []
    ensures k < |m| && SignedBig(m[k..]) == SignedBig(m) && m[k..] == SignedOctets(SignedBig(m))
    ensures SOctets(SignedBig(m)) == |m| - k
  {
    hide SignedBig, SOctets, SignedOctets;
    k := 0;
    assert m[0..] == m;
    while k + 1 < |m| && ((m[k] == 0 && m[k + 1] < 128) || (m[k] == 255 && m[k + 1] >= 128))
      invariant k < |m| && SignedBig(m[k..]) == SignedBig(m)
    {
      SignRepeatsExactly(m[k..]);
      assert m[k..][1..] == m[k + 1..];
      k := k + 1;
    }
    SignedOctetsIs(m[k..]);
  }

  // `v` in the fewest octets, from a buffer of `width` octets.
  method PutSigned(v: int, width: nat) returns (out: seq<Byte>)
    requires width > 0 && FitsOctets(v, width)
    ensures out == SignedOctets(v)
  {
    hide SignedBig, SOctets, SignedOctets, FitsOctets;
    ghost var u := v % Pow2(8 * width);
    var buf: seq<Byte> := [];
    var rest := v;
    for i := 0 to width
      invariant |buf| == i && rest == Shifted(v, i)
      invariant ToOctets(u, width) == ToOctets(Shr(u, 8 * i), width - i) + buf
    {
      OctetOfSigned(v, width, i);
      buf := [rest % 256] + buf;
      rest := rest / 256;
    }
    assert buf == ToOctets(u, width);
    SignedToOctets(v, width);
    var k := SkipSign(buf);
    out := buf[k..];
  }

  // `v` shifted right by `i` octets, rounding down.
  function Shifted(v: int, i: nat): int {
    if i == 0 then v else Shifted(v, i - 1) / 256
  }

  lemma {:induction false} ShiftedValue(v: int, i: nat, w: nat) returns (q: int)
    requires i <= w
    ensures Shifted(v, i) == q * Pow2(8 * (w - i)) + Shr(v % Pow2(8 * w), 8 * i)
  {
    hide Pow2;
    var u := v % Pow2(8 * w);
    if i == 0 {
      q := v / Pow2(8 * w);
      ShrNone(u);
    } else {
      q := ShiftedValue(v, i - 1, w);
      var b := Shr(u, 8 * (i - 1));
      EightMore(w - i);
      ShrShr(u, 8 * (i - 1), 8);
      Shr8(b);
      DivOfSum(q, Pow2(8 * (w - i)), b);
    }
  }

  lemma DivOfSum(q: int, a: nat, b: nat)
    ensures (q * (a * 256) + b) / 256 == q * a + b / 256
  {
    assert q * (a * 256) == (q * a) * 256;
    assert ((q * a) * 256 + b) / 256 == q * a + b / 256;
  }

  lemma OctetOfSigned(v: int, w: nat, i: nat)
    requires i < w
    ensures var u := v % Pow2(8 * w);
            ToOctets(Shr(u, 8 * i), w - i) == ToOctets(Shr(u, 8 * (i + 1)), w - (i + 1)) + [Shifted(v, i) % 256]
  {
    hide Pow2, Shr;
    var u := v % Pow2(8 * w);
    ShrShr(u, 8 * i, 8);
    Shr8(Shr(u, 8 * i));
    var q := ShiftedValue(v, i, w);
    var b := Shr(u, 8 * i);
    EightMore(w - i - 1);
    var a := Pow2(8 * (w - i - 1));
    assert q * (a * 256) == (q * a) * 256;
    ModUnique(Shifted(v, i), 256, q * a + b / 256, b % 256);
  }
}
