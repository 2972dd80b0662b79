/**
 * What the PER decoder makes of forms its own encoder never writes: longer
 * length determinants, numbers with leading zero octets, indices beyond their
 * tables.
 */
module PerAnyForm {
  import opened Bits
  import opened Options
  import opened Integers
  import opened PerTypes
  import opened PerEncode
  import opened PerDecode
  import opened PerNumbers
  import opened PerItems

  // One octet below 128, or two that start with the bits 10, whatever the
  // number; the bits 11 announce a fragment.
  lemma LengthAnyForm(n: nat, s: Bits)
    ensures n < 128 ==> GetLength(BitsOf(n, 8) + s) == Ok(n, s)
    ensures n < 16384 ==> GetLength(([true, false] + BitsOf(n, 14)) + s) == Ok(n, s)
    ensures n < 64 ==> GetLength(([true, true] + BitsOf(n, 6)) + s).Err?
  {
    hide BitsOf, GetLength;
    if n < 128 { OneOctetLength(n, s); }
    if n < 16384 {
      TwoOctets(n);
      TwoOctetLength(n / 256, n % 256, s);
    }
    if n < 64 {
      HeaderOctet(n);
      HeaderRefused(n, s);
    }
  }

  lemma OneOctetLength(n: nat, s: Bits)
    requires n < 128
    ensures GetLength(BitsOf(n, 8) + s) == Ok(n, s)
  {
    hide BitsOf, NatOf;
    GetOctet(n, s);
  }

  lemma TwoOctetLength(hi: nat, lo: nat, s: Bits)
    requires hi < 64 && lo < 256
    ensures GetLength((BitsOf(0x80 + hi, 8) + BitsOf(lo, 8)) + s) == Ok(hi * 256 + lo, s)
  {
    hide BitsOf, NatOf, Get;
    Assoc(BitsOf(0x80 + hi, 8), BitsOf(lo, 8), s);
    GetOctet(0x80 + hi, BitsOf(lo, 8) + s);
    GetOctet(lo, s);
  }

  lemma HeaderRefused(n: nat, s: Bits)
    requires n < 64
    ensures GetLength(BitsOf(0xC0 + n, 8) + s).Err?
  {
    hide BitsOf, NatOf;
    GetOctet(0xC0 + n, s);
  }

  // The high bits of an octet.
  lemma TopBits(x: bool, y: bool, n: nat)
    requires n < 64
    ensures BitsOf((if x then 128 else 0) + (if y then 64 else 0) + n, 8) == [x, y] + BitsOf(n, 6)
  {
    hide BitsOf, NatOf, Pow2, Shr;
    var h := (if x then 2 else 0) + (if y then 1 else 0);
    var v := h * 64 + n;
    BitsOfSplit(v, 2, 6);
    ShrLow(v, 6);
    assert Pow2(6) == 64 by { Pow2Values(); }
    ModUnique(v, 64, Shr(v, 6), Low(v, 6));
    ModUnique(v, 64, h, n);
    BitsOfLow(v, 6);
    TwoBits(h);
  }

  lemma TwoBits(h: nat)
    requires h < 4
    ensures BitsOf(h, 2) == [h >= 2, h % 2 == 1]
  {
    assert BitsOf(h / 2, 1) == BitsOf(h / 2 / 2, 0) + [h / 2 % 2 == 1];
  }

  lemma HeaderOctet(n: nat)
    requires n < 64
    ensures [true, true] + BitsOf(n, 6) == BitsOf(0xC0 + n, 8)
  {
    TopBits(true, true, n);
  }

  lemma TwoOctets(n: nat)
    requires n < 16384
    ensures [true, false] + BitsOf(n, 14) == BitsOf(0x80 + n / 256, 8) + BitsOf(n % 256, 8)
  {
    hide BitsOf, Shr;
    TopBits(true, false, n / 256);
    BitsOfSplit(n, 6, 8);
    Shr8(n);
    ShrLow(n, 8);
    Pow2Of8();
    ModUnique(n, 256, n / 256, Low(n, 8));
    BitsOfLow(n, 8);
    assert [true, false] + (BitsOf(n / 256, 6) + BitsOf(n % 256, 8)) == ([true, false] + BitsOf(n / 256, 6)) + BitsOf(n % 256, 8);
  }

  // Too large a number is refused, however many octets it has.
  lemma {:induction false} OctetsRefused(acc: nat, v: nat, k: nat, limit: nat, s: Bits)
    requires k > 0 && v < Pow2(8 * k) && acc * Pow2(8 * k) + v >= 256 * limit
    ensures GetOctetsOnto(acc, k, limit, BitsOf(v, 8 * k) + s).Err?
    decreases k
  {
    if acc < limit {
      hide Pow2, BitsOf, GetOctetsOnto;
      var acc', lo := OctetArithmetic(acc, v, k);
      OctetStep(acc, v, k, limit, s);
      BitsOfLow(v, 8 * (k - 1));
      LastOctet(acc, v, k, limit);
      OctetsRefused(acc', lo, k - 1, limit, s);
    }
  }

  // One octet onto a number below the limit stays below 256 times the limit.
  lemma LastOctet(acc: nat, v: nat, k: nat, limit: nat)
    requires k > 0 && acc < limit && v < Pow2(8 * k) && acc * Pow2(8 * k) + v >= 256 * limit
    ensures k > 1
  {
    if k == 1 { Pow2Of8(); }
  }

  lemma OctetsAnyCount(v: nat, k: nat, limit: nat, s: Bits)
    requires k > 0 && v < Pow2(8 * k)
    ensures GetOctetsOnto(0, k, limit, BitsOf(v, 8 * k) + s) == if v < 256 * limit then Ok(v, s) else Err
  {
    hide Pow2, BitsOf, GetOctetsOnto;
    if v < 256 * limit { OctetsFromZero(v, k, limit, s); } else { OctetsRefused(0, v, k, limit, s); }
  }

  // The offset of a semi-constrained number in any number of octets: read when
  // it has 64 bits, else refused.
  lemma SemiAnyForm(v: nat, k: nat, s: Bits)
    requires 1 <= k < 256 && v < Pow2(8 * k)
    ensures GetSemi((BitsOf(k, 8) + BitsOf(v, 8 * k)) + s) == if v < U64 then Ok(v, s) else Err
  {
    hide Pow2, BitsOf, GetOctetsOnto;
    Assoc(BitsOf(k, 8), BitsOf(v, 8 * k), s);
    GetOctet(k, BitsOf(v, 8 * k) + s);
    OctetsAnyCount(v, k, TOP_OCTET_64, s);
  }

  // The index of an addition in any number of octets: read when it is an int.
  lemma NsNumberAnyForm(v: nat, k: nat, s: Bits)
    requires 1 <= k < FRAGMENT && v < Pow2(8 * k)
    ensures GetNsNumber(([true] + (PutLength(k) + BitsOf(v, 8 * k))) + s) == if v < INT_LIMIT then Ok(v, s) else Err
  {
    hide Pow2, BitsOf, GetOctetsOnto, PutLength, GetLength;
    AfterFlag(true, PutLength(k) + BitsOf(v, 8 * k), s);
    Assoc(PutLength(k), BitsOf(v, 8 * k), s);
    LengthRoundTrip(k, BitsOf(v, 8 * k) + s);
    OctetsAnyCount(v, k, TOP_OCTET_INT, s);
  }

  // One to eight octets are a two's complement number, redundant ones among
  // them; none and more than eight are refused.
  lemma UnconstrainedAnyForm(k: nat, u: nat, s: Bits)
    requires k < 256 && u < Pow2(8 * k)
    ensures GetUnconstrained((BitsOf(k, 8) + BitsOf(u, 8 * k)) + s)
         == if 1 <= k <= 8 then Ok(if 2 * u >= Pow2(8 * k) then u - Pow2(8 * k) else u, s) else Err
  {
    hide BitsOf, NatOf, Pow2, Get;
    ReadCounted(k, u, s, (BitsOf(k, 8) + BitsOf(u, 8 * k)) + s);
    if 1 <= k <= 8 {
      ReadUnconstrained(k, u, s);
      Pow2Step(8 * k - 1);
    }
  }

  // ---- indices beyond their tables ----

  lemma RootIndexRead(e: EnumSpec, n: nat, s: Bits)
    requires EnumWf(e) && n < Pow2(RangeBits(e.RootCount()))
    ensures GetEnum(e, ((if e.extensible then [false] else []) + BitsOf(n, RangeBits(e.RootCount()))) + s)
         == if n < (if e.rootCount > 0 then e.rootCount else |e.entries|) then Ok(e.entries[n], s) else Err
  {
    hide BitsOf, RangeBits;
    var flag := if e.extensible then [false] else [];
    Assoc(flag, BitsOf(n, RangeBits(e.RootCount())), s);
    FlagAfter(e.extensible, false, BitsOf(n, RangeBits(e.RootCount())) + s);
    GetPut(n, RangeBits(e.RootCount()), s);
  }

  lemma AlternativeRefused(B: Schema, alts: seq<nat>, bits: nat, more: Option<seq<nat>>, d: nat, n: nat, s: Bits)
    requires |alts| <= n < Pow2(bits)
    ensures DecChoice(B, alts, bits, more, d, ((if more.Some? then [false] else []) + BitsOf(n, bits)) + s).Err?
  {
    hide BitsOf;
    var flag := if more.Some? then [false] else [];
    Assoc(flag, BitsOf(n, bits), s);
    FlagAfter(more.Some?, false, BitsOf(n, bits) + s);
    GetPut(n, bits, s);
  }

  // A character index beyond its alphabet is refused; a numeric code beyond
  // the digits is read as a question mark.
  lemma CharIndexRead(code: CharCode, n: nat, s: Bits)
    requires code.Indexed? && n < Pow2(code.bits) && code.width > 0
    ensures GetChar(code, BitsOf(n, code.bits) + s)
         == if n < |code.alphabet| then Ok(seq(code.width - 1, _ => 0) + [code.alphabet[n]], s) else Err
  {
    GetPut(n, code.bits, s);
  }

  lemma NumericCodeRead(n: nat, s: Bits)
    requires n < 16
    ensures GetChar(Numeric, BitsOf(n, 4) + s) == Ok(if n == 0 then [32] else if n <= 10 then [47 + n] else [63], s)
  {
    GetNibble(n, s);
  }
}
