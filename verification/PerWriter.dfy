/**
 * The encoding side of the unaligned PER codec: a bit stream written into an
 * octet vector, and the handlers that write values onto it.
 */
module PerWriter {
  import opened Bits
  import opened Options
  import opened Integers
  import opened PerTypes
  import opened PerEncode
  import opened PerNumbers
  import opened PerItems
  import opened PerSetOf

  lemma BitsOfHead(v: nat, n: nat)
    requires n > 0
    ensures BitsOf(v, n) == [Shr(v, n - 1) % 2 == 1] + BitsOf(v, n - 1)
  {
    BitsOfSplit(v, 1, n - 1);
  }

  // Setting the first padding bit of a partial octet.
  lemma SetBit(p: Bits, x: bool, k: nat)
    ensures NatOf(p + [x] + Zeros(k)) == NatOf(p + Zeros(k + 1)) + (if x then Pow2(k) else 0)
  {
    NatOfCons(x, Zeros(k));
    NatOfCons(false, Zeros(k));
    assert Zeros(k + 1) == [false] + Zeros(k);
    assert p + [x] + Zeros(k) == p + ([x] + Zeros(k));
    NatOfConcat(p, [x] + Zeros(k));
    NatOfConcat(p, [false] + Zeros(k));
  }

  // What a stream holds: the failure flag and the bits written so far.
  datatype Mark = Mark(failed: bool, written: Bits)

  class PerEncodeStream {
    var buf: seq<Byte>
    var current: nat
    var bits: nat
    var failed: bool
    ghost var pending: Bits  // the bits of the partial octet

    ghost predicate Valid()
      reads this
    {
      bits < 8 && |pending| == bits && current == NatOf(pending + Zeros(8 - bits))
    }

    ghost function Contents(): Bits
      reads this
    {
      BytesBits(buf) + pending
    }

    ghost function State(): Mark
      reads this
    {
      Mark(failed, Contents())
    }

    constructor ()
      ensures Valid() && Contents() == [] && !failed
    {
      buf, current, bits, failed, pending := [], 0, 0, false, [];
      new;
      ZerosValue(8);
      assert [] + Zeros(8) == Zeros(8);
    }

    // Writes the low `n` bits of `value`, most significant first.
    method PutBits(value: nat, n: nat)
      requires Valid()
      modifies this
      ensures Valid() && failed == old(failed)
      ensures Contents() == old(Contents()) + BitsOf(value, n)
    {
      var i := n;
      while i > 0
        invariant 0 <= i <= n && Valid() && failed == old(failed)
        invariant Contents() + BitsOf(value, i) == old(Contents()) + BitsOf(value, n)
      {
        i := i - 1;
        ghost var before := Contents();
        var bit := Shr(value, i) % 2 == 1;
        BitsOfHead(value, i + 1);
        PutBit(bit);
        assert before + ([bit] + BitsOf(value, i)) == (before + [bit]) + BitsOf(value, i);
      }
    }

    method PutBit(bit: bool)
      requires Valid()
      modifies this
      ensures Valid() && failed == old(failed)
      ensures Contents() == old(Contents()) + [bit]
    {
      SetBit(pending, bit, 7 - bits);
      current := current + (if bit then Pow2(7 - bits) else 0);
      pending := pending + [bit];
      bits := bits + 1;
      if bits == 8 {
        CommitOctet();
      }
    }

    method CommitOctet()
      requires bits == 8 && |pending| == 8 && current == NatOf(pending + Zeros(0))
      modifies this
      ensures Valid() && failed == old(failed) && Contents() == old(Contents()) && bits == 0
    {
      assert pending + Zeros(0) == pending;
      Pow2Of8();
      BitsOfNatOf(pending);
      BytesBitsConcat(buf, [current]);
      assert BytesBits([current]) == ByteBits(current) + BytesBits([]);
      buf, current, bits := buf + [current], 0, 0;
      pending := [];
      ZerosValue(8);
      assert [] + Zeros(8) == Zeros(8);
    }

    // Commits the partial octet; an empty stream becomes one zero octet.
    method Flush()
      requires Valid()
      modifies this
      ensures Valid() && failed == old(failed)
      ensures buf == Pack(old(Contents()))
    {
      hide Pack, BytesBits, NatOf, Zeros;
      FlushIsPack(buf, pending);
      if bits > 0 || buf == [] {
        Pow2Of8();
        buf, current, bits := buf + [current], 0, 0;
        pending := [];
        ZerosValue(8);
        assert [] + Zeros(8) == Zeros(8);
      }
    }

    method SetEncodeFailed()
      modifies `failed
      ensures failed
    {
      failed := true;
    }
  }

  lemma {:induction false} ZerosValue(n: nat)
    ensures NatOf(Zeros(n)) == 0
  {
    if n > 0 {
      assert Zeros(n)[..n - 1] == Zeros(n - 1);
      ZerosValue(n - 1);
    }
  }

  lemma PackOctet(o: Byte, rest: Bits)
    requires rest != []
    ensures Pack(ByteBits(o) + rest) == [o] + Pack(rest)
    ensures Pack(ByteBits(o)) == [o]
  {
    hide NatOf, BitsOf, Zeros;
    var head := ByteBits(o);
    Pow2Of8();
    NatOfBitsOfSmall(o, 8);
    assert (head + rest)[..8] == head && (head + rest)[8..] == rest;
    assert head + Zeros(0) == head;
  }

  // Flushing is packing.
  lemma {:induction false} FlushIsPack(octets: seq<Byte>, p: Bits)
    requires |p| < 8
    ensures Pack(BytesBits(octets) + p)
         == if p == [] && octets != [] then octets else octets + [OctetOf(p + Zeros(8 - |p|))]
  {
    hide OctetOf, ByteBits, Zeros;
    var b := BytesBits(octets) + p;
    if octets == [] {
      assert b == p;
    } else {
      var rest := BytesBits(octets[1..]) + p;
      assert octets == [octets[0]] + octets[1..];
      assert b == ByteBits(octets[0]) + rest;
      hide Pack;
      if rest == [] {
        assert octets[1..] == [] && b == ByteBits(octets[0]);
        PackOctet(octets[0], [true]);
      } else {
        PackOctet(octets[0], rest);
        FlushIsPack(octets[1..], p);
      }
    }
  }

  // ---- whole numbers and lengths ----

  // What one handler promises: on failure the flag is raised and the bits are
  // worthless, otherwise exactly `out` is appended.
  ghost predicate After(m0: Mark, m: Mark, out: Option<Bits>) {
    && m.failed == (m0.failed || out.None?)
    && (out.Some? ==> m.written == m0.written + out.value)
  }

  twostate predicate Wrote(s: PerEncodeStream, new out: Option<Bits>)
    reads s
  {
    s.Valid() && After(old(s.State()), s.State(), out)
  }

  lemma Compose(m0: Mark, a: Option<Bits>, m1: Mark, b: Option<Bits>, m2: Mark)
    requires After(m0, m1, a) && After(m1, m2, b)
    ensures After(m0, m2, Cat(a, b))
  {
    if a.Some? && b.Some? { Assoc(m0.written, a.value, b.value); }
  }

  // Part of `total` is written and `rest` remains.
  ghost predicate Progress(m0: Mark, m: Mark, rest: Option<Bits>, total: Option<Bits>) {
    && (m.failed || rest.None?) == (m0.failed || total.None?)
    && (total.Some? ==> rest.Some? && m.written + rest.value == m0.written + total.value)
  }

  lemma Start(m0: Mark, total: Option<Bits>)
    ensures Progress(m0, m0, total, total)
  {
  }

  lemma Step(m0: Mark, m: Mark, rest: Option<Bits>, total: Option<Bits>, step: Option<Bits>, m': Mark, rest': Option<Bits>)
    requires Progress(m0, m, rest, total) && rest == Cat(step, rest') && After(m, m', step)
    ensures Progress(m0, m', rest', total)
  {
    if total.Some? { Assoc(m.written, step.value, rest'.value); }
  }

  lemma Finish(m0: Mark, m: Mark, rest: Option<Bits>, total: Option<Bits>, m': Mark)
    requires Progress(m0, m, rest, total) && After(m, m', rest)
    ensures After(m0, m', total)
  {
  }

  method PutLengthOctets(s: PerEncodeStream, n: nat)
    requires s.Valid() && n < FRAGMENT
    modifies s
    ensures Wrote(s, Some(PutLength(n)))
  {
    hide BitsOf, BytesBits, NatOf, Zeros;
    if n <= 127 {
      s.PutBits(n, 8);
    } else {
      Assoc(s.Contents(), BitsOf(0x80 + n / 256, 8), BitsOf(n % 256, 8));
      s.PutBits(0x80 + n / 256, 8);
      s.PutBits(n % 256, 8);
    }
  }

  method PutNsLengthBits(s: PerEncodeStream, n: nat)
    requires s.Valid() && n < FRAGMENT
    modifies s
    ensures Wrote(s, Some(PutNsLength(n)))
  {
    if 1 <= n <= 64 {
      Assoc(s.Contents(), [false], BitsOf(n - 1, 6));
      s.PutBit(false);
      s.PutBits(n - 1, 6);
    } else {
      Assoc(s.Contents(), [true], PutLength(n));
      s.PutBit(true);
      PutLengthOctets(s, n);
    }
  }

  // Octets `len - 1` down to 0 of a number.
  method PutOctetsOf(s: PerEncodeStream, v: nat, len: nat)
    requires s.Valid()
    modifies s
    ensures Wrote(s, Some(BitsOf(v, 8 * len)))
  {
    hide BitsOf, Shr, NatOf, BytesBits;
    var i := len;
    while i > 0
      invariant 0 <= i <= len && s.Valid() && s.failed == old(s.failed)
      invariant s.Contents() + BitsOf(v, 8 * i) == old(s.Contents()) + BitsOf(v, 8 * len)
    {
      i := i - 1;
      BitsOfSplit(v, 8, 8 * i);
      s.PutBits(Shr(v, 8 * i), 8);
    }
  }

  method PutCountedOctets(s: PerEncodeStream, v: nat, len: nat)
    requires s.Valid()
    modifies s
    ensures Wrote(s, Some(BitsOf(len, 8) + BitsOf(v, 8 * len)))
  {
    Assoc(s.Contents(), BitsOf(len, 8), BitsOf(v, 8 * len));
    s.PutBits(len, 8);
    PutOctetsOf(s, v, len);
  }

  method OctetCount(v: nat) returns (len: nat)
    ensures len == UOctets(v)
  {
    len := 1;
    var rest := v;
    while rest >= 256
      invariant len + UOctets(rest) == 1 + UOctets(v)
    {
      rest := rest / 256;
      len := len + 1;
    }
  }

  method PutNsNumberBits(s: PerEncodeStream, n: nat)
    requires s.Valid() && n < INT_LIMIT
    modifies s
    ensures Wrote(s, Some(PutNsNumber(n)))
  {
    if n <= 63 {
      Assoc(s.Contents(), [false], BitsOf(n, 6));
      s.PutBit(false);
      s.PutBits(n, 6);
    } else {
      var len := OctetCount(n);
      UOctetsOfInt(n);
      Assoc(s.Contents(), [true], PutLength(len) + BitsOf(n, 8 * len));
      Assoc(s.Contents() + [true], PutLength(len), BitsOf(n, 8 * len));
      s.PutBit(true);
      PutLengthOctets(s, len);
      PutOctetsOf(s, n, len);
    }
  }

  // An int64 as its octet count and its octets without redundant sign octets.
  method EncodeUnconstrainedInt(s: PerEncodeStream, value: int)
    requires s.Valid() && I64_MIN <= value <= I64_MAX
    modifies s
    ensures Wrote(s, Some(PutUnconstrained(value)))
  {
    var u := WrapU(value);
    var len := TrimSignOctets(value, u);
    LowOctetsOf(value, u, len);
    PutCountedOctets(s, u, len);
  }

  method EncodeSemiConstrainedInt(s: PerEncodeStream, offset: nat)
    requires s.Valid()
    modifies s
    ensures Wrote(s, Some(PutSemi(offset)))
  {
    var len := OctetCount(offset);
    PutCountedOctets(s, offset, len);
  }

  method EncodeIntegerBody(s: PerEncodeStream, c: Bounds, value: int, inRoot: bool)
    requires s.Valid() && inRoot == InRoot(c, value)
    modifies s
    ensures Wrote(s, Some(PutIntBody(c, value)))
  {
    hide BytesBits, BitsOf, WrapU, WrapS, PutUnconstrained, PutSemi, Pow2;
    if c.Unbounded? || (c.ext && !inRoot) { EncodeUnconstrainedInt(s, WrapS(value)); }
    else if c.Range? { s.PutBits(WrapU(value - c.lo), c.bits); }
    else { EncodeSemiConstrainedInt(s, WrapU(value - c.lo)); }
  }

  // Both INTEGER handlers: they differ only in the type holding the bounds.
  method EncodeInteger(s: PerEncodeStream, c: Bounds, value: int)
    requires s.Valid()
    modifies s
    ensures Wrote(s, Some(PutInt(c, value)))
  {
    hide PutIntBody, BytesBits, BitsOf;
    var inRoot := if c.Range? then c.lo <= value <= c.hi else c.Semi? ==> c.lo <= value;
    Assoc(s.Contents(), if HasIntFlag(c) then [!inRoot] else [], PutIntBody(c, value));
    if !c.Unbounded? && c.ext { s.PutBit(!inRoot); }
    EncodeIntegerBody(s, c, value, inRoot);
  }

  // ---- octets of an open type ----

  lemma OctetItemsFrom(octets: seq<Byte>, from: nat, to: nat)
    requires from < to <= |octets|
    ensures Concat(OctetItems(octets[from..to])) == ByteBits(octets[from]) + Concat(OctetItems(octets[from + 1..to]))
  {
    OctetItemsConcat(octets[from..to]);
    OctetItemsConcat(octets[from + 1..to]);
    assert octets[from..to][1..] == octets[from + 1..to];
  }

  method WriteOctets(s: PerEncodeStream, octets: seq<Byte>, from: nat, to: nat)
    requires s.Valid() && from <= to <= |octets|
    modifies s
    ensures Wrote(s, Some(Concat(OctetItems(octets[from..to]))))
  {
    var i := from;
    while i < to
      invariant from <= i <= to && s.Valid() && s.failed == old(s.failed)
      invariant s.Contents() + Concat(OctetItems(octets[i..to])) == old(s.Contents()) + Concat(OctetItems(octets[from..to]))
    {
      OctetItemsFrom(octets, i, to);
      Assoc(s.Contents(), ByteBits(octets[i]), Concat(OctetItems(octets[i + 1..to])));
      s.PutBits(octets[i], 8);
      i := i + 1;
    }
    assert octets[to..to] == [];
  }

  ghost function OctetsFrom(octets: seq<Byte>, from: nat): Bits
    requires from <= |octets|
  {
    PutItems(OctetItems(octets[from..]))
  }

  ghost function OctetFragment(octets: seq<Byte>, from: nat, to: nat, header: Bits): Bits
    requires from <= to <= |octets|
  {
    header + Concat(OctetItems(octets[from..to]))
  }

  lemma OctetBlock(octets: seq<Byte>, from: nat, to: nat)
    requires from <= to <= |octets| && |octets| - from >= FRAGMENT && to == from + BlockSize(|octets| - from)
    ensures OctetsFrom(octets, from) == OctetFragment(octets, from, to, BlockOctet(|octets| - from)) + OctetsFrom(octets, to)
  {
    var all, m := OctetItems(octets[from..]), to - from;
    assert all[..m] == OctetItems(octets[from..to]);
    assert all[m..] == OctetItems(octets[to..]);
    Assoc(BlockOctet(|all|), Concat(all[..m]), PutItems(all[m..]));
  }

  ghost function Header(remaining: nat): Bits {
    if remaining >= FRAGMENT then BlockOctet(remaining) else PutLength(remaining)
  }

  method WriteOctetFragment(s: PerEncodeStream, octets: seq<Byte>, from: nat, to: nat, remaining: nat)
    requires s.Valid() && from <= to <= |octets|
    modifies s
    ensures Wrote(s, Some(OctetFragment(octets, from, to, Header(remaining))))
  {
    hide PutItems, Concat, BytesBits, OctetItems, BitsOf;
    ghost var m0 := s.State();
    if remaining >= FRAGMENT { s.PutBits(0xC0 + Blocks(remaining), 8); } else { PutLengthOctets(s, remaining); }
    ghost var m1 := s.State();
    WriteOctets(s, octets, from, to);
    Compose(m0, Some(Header(remaining)), m1, Some(Concat(OctetItems(octets[from..to]))), s.State());
  }

  lemma LastOctets(octets: seq<Byte>, from: nat)
    requires from <= |octets| && |octets| - from < FRAGMENT
    ensures OctetsFrom(octets, from) == OctetFragment(octets, from, |octets|, PutLength(|octets| - from))
  {
    assert octets[from..|octets|] == octets[from..];
  }

  // The general length and the octets, in 16K blocks.
  method PutOctets(s: PerEncodeStream, octets: seq<Byte>)
    requires s.Valid()
    modifies s
    ensures Wrote(s, Some(PutItems(OctetItems(octets))))
  {
    hide PutItems, Concat, BytesBits, OctetItems, BitsOf;
    var n, start := |octets|, 0;
    assert octets[0..] == octets;
    ghost var m0, total := s.State(), Some(OctetsFrom(octets, 0));
    while n - start >= FRAGMENT
      invariant 0 <= start <= n && s.Valid() && m0 == old(s.State())
      invariant Progress(m0, s.State(), Some(OctetsFrom(octets, start)), total)
      decreases n - start
    {
      ghost var m := s.State();
      var next := start + BlockSize(n - start);
      OctetBlock(octets, start, next);
      WriteOctetFragment(s, octets, start, next, n - start);
      Step(m0, m, Some(OctetsFrom(octets, start)), total, Some(OctetFragment(octets, start, next, BlockOctet(n - start))),
           s.State(), Some(OctetsFrom(octets, next)));
      start := next;
    }
    ghost var m := s.State();
    WriteOctetFragment(s, octets, start, n, n - start);
    LastOctets(octets, start);
    Finish(m0, m, Some(OctetsFrom(octets, start)), total, s.State());
  }
}
