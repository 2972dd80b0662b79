/**
 * The decoding side of the unaligned PER codec: a cursor over an octet span,
 * and the readers of lengths, numbers and presence bitmaps.
 */
module PerReader {
  import opened Bits
  import opened Options
  import opened Integers
  import opened PerTypes
  import PerEncode
  import opened PerDecode
  import opened PerNumbers
  import PerItems

  lemma BitsOfAt(v: nat, n: nat, k: nat)
    requires k < n
    ensures BitsOf(v, n)[k] == (Shr(v, n - 1 - k) % 2 == 1)
  {
    BitsOfSplit(v, k + 1, n - 1 - k);
  }

  lemma TakeOne(b: Bits, i: nat)
    requires i < |b|
    ensures NatOf(b[..i + 1]) == 2 * NatOf(b[..i]) + (if b[i] then 1 else 0)
  {
    assert b[..i + 1] == b[..i] + [b[i]];
    NatOfSnoc(b[..i], b[i]);
  }

  // The bits of `buf` from bit `q` of octet `p` on.
  ghost function RestAt(buf: seq<Byte>, p: nat, q: nat): Bits
    requires p <= |buf| && q < 8 && (p == |buf| ==> q == 0)
  {
    BytesBits(buf[p..])[q..]
  }

  lemma AdvanceBit(buf: seq<Byte>, p: nat, q: nat)
    requires p < |buf| && q < 8
    ensures RestAt(buf, p, q) != []
    ensures RestAt(buf, p, q)[0] == (Shr(buf[p], 7 - q) % 2 == 1)
    ensures RestAt(buf, p, q)[1..] == if q == 7 then RestAt(buf, p + 1, 0) else RestAt(buf, p, q + 1)
  {
    var head, tail := ByteBits(buf[p]), BytesBits(buf[p + 1..]);
    assert buf[p..][1..] == buf[p + 1..];
    BitsOfAt(buf[p], 8, q);
    Joined(head, tail, q);
  }

  lemma NothingLeft(buf: seq<Byte>)
    ensures RestAt(buf, |buf|, 0) == []
  {
  }

  lemma Joined(head: Bits, tail: Bits, q: nat)
    requires |head| == 8 && q < 8
    ensures (head + tail)[q..] != [] && (head + tail)[q..][0] == head[q]
    ensures (head + tail)[q..][1..] == if q == 7 then tail[0..] else (head + tail)[q + 1..]
  {
  }

  class PerDecodeStream {
    const buf: seq<Byte>
    var bytePos: nat
    var bitPos: nat
    var levels: nat  // constructed levels entered

    ghost predicate Valid()
      reads this
    {
      bitPos < 8 && bytePos <= |buf| && (bytePos == |buf| ==> bitPos == 0)
    }

    // The depth guard still allows `d` constructed levels.
    ghost predicate At(d: nat)
      reads this
    {
      Valid() && levels + d == 256
    }

    // The bits not read yet.
    ghost function Rest(): Bits
      requires Valid()
      reads this
    {
      RestAt(buf, bytePos, bitPos)
    }

    // Bits read so far.
    function Position(): nat
      reads this
    {
      8 * bytePos + bitPos
    }

    lemma PositionOfRest()
      requires Valid()
      ensures Position() + |Rest()| == 8 * |buf|
    {
    }

    constructor (octets: seq<Byte>, depth: nat)
      ensures Valid() && Rest() == BytesBits(octets) && levels == depth
    {
      buf, bytePos, bitPos, levels := octets, 0, 0, depth;
      new;
      assert buf[0..] == buf && BytesBits(buf)[0..] == BytesBits(buf);
    }

    method GetBit() returns (r: Option<bool>)
      requires Valid()
      modifies this
      ensures Valid() && levels == old(levels)
      ensures r.None? <==> old(Rest()) == []
      ensures r.Some? ==> r.value == old(Rest())[0] && Rest() == old(Rest())[1..]
    {
      hide RestAt, Shr, BytesBits;
      if bytePos >= |buf| {
        NothingLeft(buf);
        return None;
      }
      AdvanceBit(buf, bytePos, bitPos);
      r := Some(Shr(buf[bytePos], 7 - bitPos) % 2 == 1);
      bitPos := bitPos + 1;
      if bitPos == 8 { bytePos, bitPos := bytePos + 1, 0; }
    }

    // Reads `n` bits, most significant first.
    method GetBits(n: nat) returns (r: Option<nat>)
      requires Valid()
      modifies this
      ensures Valid() && levels == old(levels)
      ensures r.None? <==> n > |old(Rest())|
      ensures r.Some? ==> r.value == NatOf(old(Rest())[..n]) && Rest() == old(Rest())[n..]
    {
      ghost var b := Rest();
      var result := 0;
      var i := 0;
      while i < n
        invariant Valid() && levels == old(levels) && i <= n && i <= |b|
        invariant result == NatOf(b[..i]) && Rest() == b[i..]
      {
        var bit := GetBit();
        if bit.None? { return None; }
        TakeOne(b, i);
        result := 2 * result + (if bit.value then 1 else 0);
        i := i + 1;
      }
      r := Some(result);
    }
  }

  // What a reader promises: it fails exactly when `spec` does, and otherwise
  // returns its value and leaves its remaining bits.
  twostate predicate Reads<T>(s: PerDecodeStream, new r: Option<T>, new spec: Read<T>)
    reads s
  {
    && s.Valid() && s.levels == old(s.levels)
    && (r.None? <==> spec.Err?)
    && (spec.Ok? ==> r == Some(spec.v) && s.Rest() == spec.rest)
  }

  method ReadField(s: PerDecodeStream, n: nat) returns (r: Option<nat>)
    requires s.Valid()
    modifies s
    ensures Reads(s, r, Get(n, old(s.Rest())))
  {
    r := s.GetBits(n);
  }

  method ReadFlag(s: PerDecodeStream, present: bool) returns (r: Option<bool>)
    requires s.Valid()
    modifies s
    ensures Reads(s, r, GetFlag(present, old(s.Rest())))
  {
    if present { r := s.GetBit(); } else { r := Some(false); }
  }

  // ---- lengths ----

  method ReadLength(s: PerDecodeStream) returns (r: Option<nat>)
    requires s.Valid()
    modifies s
    ensures Reads(s, r, GetLength(old(s.Rest())))
  {
    var first := ReadField(s, 8);
    if first.None? { return None; }
    if first.value < 0x80 { return first; }
    if first.value >= 0xC0 { return None; }
    var second := ReadField(s, 8);
    if second.None? { return None; }
    r := Some((first.value - 0x80) * 256 + second.value);
  }

  method ReadNsLength(s: PerDecodeStream) returns (r: Option<nat>)
    requires s.Valid()
    modifies s
    ensures Reads(s, r, GetNsLength(old(s.Rest())))
  {
    var b := s.GetBit();
    if b.None? { return None; }
    if b.value {
      r := ReadLength(s);
    } else {
      var v := ReadField(s, 6);
      if v.None? { return None; }
      r := Some(v.value + 1);
    }
  }

  // ---- whole numbers ----

  // Octets onto an accumulator, refused once it has reached `limit`.
  method ReadOctetsOnto(s: PerDecodeStream, k: nat, limit: nat) returns (r: Option<nat>)
    requires s.Valid()
    modifies s
    ensures Reads(s, r, GetOctetsOnto(0, k, limit, old(s.Rest())))
  {
    var v: nat := 0;
    for i := 0 to k
      invariant s.Valid() && s.levels == old(s.levels)
      invariant GetOctetsOnto(0, k, limit, old(s.Rest())) == GetOctetsOnto(v, k - i, limit, s.Rest())
    {
      if v >= limit { return None; }
      var o := ReadField(s, 8);
      if o.None? { return None; }
      v := v * 256 + o.value;
    }
    r := Some(v);
  }

  method ReadNsNumber(s: PerDecodeStream) returns (r: Option<nat>)
    requires s.Valid()
    modifies s
    ensures Reads(s, r, GetNsNumber(old(s.Rest())))
  {
    var b := s.GetBit();
    if b.None? { return None; }
    if !b.value {
      r := ReadField(s, 6);
    } else {
      var len := ReadLength(s);
      if len.None? || len.value == 0 { return None; }
      r := ReadOctetsOnto(s, len.value, TOP_OCTET_INT);
    }
  }

  method ReadSemi(s: PerDecodeStream) returns (r: Option<nat>)
    requires s.Valid()
    modifies s
    ensures Reads(s, r, GetSemi(old(s.Rest())))
  {
    var len := ReadField(s, 8);
    if len.None? || len.value == 0 { return None; }
    r := ReadOctetsOnto(s, len.value, TOP_OCTET_64);
  }

  // The two's-complement number in a non-empty bit string.
  function SignedOf(b: Bits): int {
    NatOf(b) - (if b != [] && b[0] then Pow2(|b|) else 0)
  }

  lemma SignedStep(b: Bits, i: nat)
    requires 8 * i + 8 <= |b|
    ensures SignedOf(b[..8 * i + 8])
         == (if i > 0 then SignedOf(b[..8 * i]) else if b[0] then -1 else 0) * 256 + NatOf(b[8 * i..][..8])
  {
    var x, o := b[..8 * i], b[8 * i..][..8];
    assert b[..8 * i + 8] == x + o;
    NatOfConcat(x, o);
    Pow2Of8();
    Pow2Sum(8 * i, 8);
  }

  lemma SignBit(b: Bits)
    requires b != []
    ensures b[0] <==> NatOf(b) >= Pow2(|b| - 1)
  {
    assert b == [b[0]] + b[1..];
    NatOfCons(b[0], b[1..]);
  }

  // The spec reads the number as one field.
  lemma UnconstrainedIsSigned(b: Bits, len: nat)
    requires 0 < len <= 8 && Get(8, b).Ok? && Get(8, b).v == len
    ensures |b| >= 8 * len + 8 ==> GetUnconstrained(b) == Ok(SignedOf(b[8..][..8 * len]), b[8..][8 * len..])
    ensures |b| < 8 * len + 8 ==> GetUnconstrained(b).Err?
  {
    if |b| >= 8 * len + 8 { SignBit(b[8..][..8 * len]); }
  }

  // Sign-extends the first octet, then shifts the others in.
  method ReadSignedOctets(s: PerDecodeStream, len: nat) returns (r: Option<int>)
    requires s.Valid() && len > 0
    modifies s
    ensures s.Valid() && s.levels == old(s.levels)
    ensures r.None? <==> |old(s.Rest())| < 8 * len
    ensures r.Some? ==> r.value == SignedOf(old(s.Rest())[..8 * len]) && s.Rest() == old(s.Rest())[8 * len..]
  {
    ghost var b := s.Rest();
    var value: int := 0;
    for i := 0 to len
      invariant s.Valid() && s.levels == old(s.levels) && 8 * i <= |b|
      invariant s.Rest() == b[8 * i..]
      invariant value == if i > 0 then SignedOf(b[..8 * i]) else 0
    {
      var o := ReadField(s, 8);
      if o.None? { return None; }
      SignedStep(b, i);
      FirstOctetSign(b, i, o.value);
      if i == 0 && o.value >= 0x80 { value := -1; }
      value := value * 256 + o.value;
    }
    r := Some(value);
  }

  lemma FirstOctetSign(b: Bits, i: nat, o: nat)
    requires 8 * i + 8 <= |b| && o == NatOf(b[8 * i..][..8])
    ensures i == 0 ==> (b[0] <==> o >= 0x80)
  {
    if i == 0 {
      SignBit(b[..8]);
      assert b[0..][..8] == b[..8];
      Pow2Of8();
      assert Pow2(8) == 2 * Pow2(7);
    }
  }

  method ReadUnconstrained(s: PerDecodeStream) returns (r: Option<int>)
    requires s.Valid()
    modifies s
    ensures Reads(s, r, GetUnconstrained(old(s.Rest())))
  {
    var len := ReadField(s, 8);
    if len.None? || len.value == 0 || len.value > 8 { return None; }
    UnconstrainedIsSigned(old(s.Rest()), len.value);
    r := ReadSignedOctets(s, len.value);
  }

  // The extension bit of a constrained INTEGER.
  method ReadOutside(s: PerDecodeStream, c: Bounds) returns (r: Option<bool>)
    requires s.Valid()
    modifies s
    ensures Reads(s, r, GetFlag(PerEncode.HasIntFlag(c), old(s.Rest())))
  {
    r := ReadFlag(s, !c.Unbounded? && c.ext);
  }

  method ReadOffset(s: PerDecodeStream, c: Bounds) returns (r: Option<nat>)
    requires s.Valid() && !c.Unbounded?
    modifies s
    ensures Reads(s, r, if c.Semi? then GetSemi(old(s.Rest())) else Get(c.bits, old(s.Rest())))
  {
    if c.Range? { r := ReadField(s, c.bits); } else { r := ReadSemi(s); }
  }

  // Behind the extension bit.
  method ReadIntBody(s: PerDecodeStream, c: Bounds, outside: bool) returns (r: Option<int>)
    requires s.Valid()
    modifies s
    ensures Reads(s, r, GetIntBody(c, outside, old(s.Rest())))
  {
    hide BytesBits, GetSemi, GetUnconstrained, Get, GetFlag, NatOf, Pow2, WrapS, WrapU;
    if c.Unbounded? || outside { r := ReadUnconstrained(s); }
    else {
      var off := ReadOffset(s, c);
      if off.None? || (c.Semi? && off.value > WrapU(I64_MAX - c.lo)) { return None; }
      r := Some(WrapS(c.lo + off.value));
    }
  }

  method ReadInt(s: PerDecodeStream, c: Bounds) returns (r: Option<int>)
    requires s.Valid()
    modifies s
    ensures Reads(s, r, GetInt(c, old(s.Rest())))
  {
    hide BytesBits, GetIntBody, GetFlag;
    var outside := ReadOutside(s, c);
    if outside.None? { return None; }
    r := ReadIntBody(s, c, outside.value);
  }

  method ReadUIntBody(s: PerDecodeStream, c: Bounds, outside: bool) returns (r: Option<int>)
    requires s.Valid()
    modifies s
    ensures Reads(s, r, GetUIntBody(c, outside, old(s.Rest())))
  {
    hide BytesBits, GetSemi, GetUnconstrained, Get, GetFlag, NatOf, Pow2, WrapS, WrapU;
    if c.Unbounded? || outside {
      var v := ReadUnconstrained(s);
      if v.None? { return None; }
      r := Some(WrapU(v.value));
    } else {
      var off := ReadOffset(s, c);
      if off.None? || (c.Semi? && off.value > WrapU(U64 - 1 - c.lo)) { return None; }
      r := Some(WrapU(c.lo + off.value));
    }
  }

  method ReadUInt(s: PerDecodeStream, c: Bounds) returns (r: Option<int>)
    requires s.Valid()
    modifies s
    ensures Reads(s, r, GetUInt(c, old(s.Rest())))
  {
    hide BytesBits, GetUIntBody, GetFlag;
    var outside := ReadOutside(s, c);
    if outside.None? { return None; }
    r := ReadUIntBody(s, c, outside.value);
  }

  // ---- presence bitmaps ----

  const WORD: nat := 64

  // Bits that word `k` holds of `n`.
  function Take(n: nat, k: nat): (take: nat)
    requires WORD * k <= n
    ensures take <= WORD && WORD * k + take <= n
  {
    if n - WORD * k < WORD then n - WORD * k else WORD
  }

  // Word `k` of a bitmap, its bits at the top.
  ghost function WordOf(bits: Bits, k: nat): nat
    requires WORD * k <= |bits|
  {
    var take := Take(|bits|, k);
    NatOf(bits[WORD * k..WORD * k + take]) * Pow2(WORD - take)
  }

  lemma WordRead(b: Bits, count: nat, k: nat, w: nat)
    requires WORD * k <= count <= |b| && w == NatOf(b[WORD * k..][..Take(count, k)])
    ensures w * Pow2(WORD - Take(count, k)) == WordOf(b[..count], k)
  {
    var take := Take(count, k);
    assert b[WORD * k..][..take] == b[..count][WORD * k..WORD * k + take];
  }

  ghost predicate HoldWords(words: seq<nat>, bits: Bits) {
    forall k {:trigger words[k]} :: 0 <= k < |words| ==> WORD * k <= |bits| && words[k] == WordOf(bits, k)
  }

  lemma HoldNone(bits: Bits)
    ensures HoldWords([], bits)
  {
  }

  lemma HoldMore(words: seq<nat>, bits: Bits, w: nat)
    requires HoldWords(words, bits) && WORD * |words| <= |bits| && w == WordOf(bits, |words|)
    ensures HoldWords(words + [w], bits)
  {
    hide WordOf;
  }

  lemma RestAfter(b: Bits, at: nat, take: nat)
    ensures at + take <= |b| ==> b[at..][take..] == b[at + take..]
  {
  }

  // The cursor after `k` words of `count` bits.
  function Reached(count: nat, k: nat): (at: nat)
    ensures at <= count
  {
    if WORD * k < count then WORD * k else count
  }

  lemma ReachedStep(count: nat, k: nat)
    requires WORD * k < count
    ensures Reached(count, k) == WORD * k && Reached(count, k + 1) == WORD * k + Take(count, k)
  {
  }

  lemma ReachedAll(count: nat)
    ensures Reached(count, 0) == 0 && Reached(count, (count + WORD - 1) / WORD) == count
    ensures forall k: nat :: k < (count + WORD - 1) / WORD ==> WORD * k < count
  {
  }

  // Word `k` of `count` presence bits, read from a stream that began as `b`.
  method ReadWord(s: PerDecodeStream, count: nat, k: nat, ghost b: Bits) returns (w: Option<nat>)
    requires s.Valid() && WORD * k < count && Reached(count, k) <= |b| && s.Rest() == b[Reached(count, k)..]
    modifies s
    ensures s.Valid() && s.levels == old(s.levels)
    ensures w.None? ==> count > |b|
    ensures w.Some? ==> Reached(count, k + 1) <= |b| && s.Rest() == b[Reached(count, k + 1)..]
    ensures w.Some? && count <= |b| ==> w.value == WordOf(b[..count], k)
  {
    hide NatOf, BytesBits, WordOf, Pow2, Reached, Take;
    ReachedStep(count, k);
    var take := Take(count, k);
    var bits := s.GetBits(take);
    if bits.None? { return None; }
    if count <= |b| { WordRead(b, count, k, bits.value); }
    RestAfter(b, WORD * k, take);
    w := Some(bits.value * Pow2(WORD - take));
  }

  // Presence bits kept in 64-bit words, the first bit in a word's top bit.
  class PresenceBits {
    var words: seq<nat>
    var n: nat
    ghost var bits: Bits

    ghost predicate Valid()
      reads this
    {
      |bits| == n && |words| == (n + WORD - 1) / WORD && HoldWords(words, bits)
    }

    constructor ()
      ensures Valid() && bits == []
    {
      words, n, bits := [], 0, [];
    }

    // Bit `i`, false past the bits read.
    function Bit(i: nat): bool
      reads this
      requires Valid()
    {
      i < n && Shr(words[i / WORD], WORD - 1 - i % WORD) % 2 == 1
    }

    lemma BitIsWireBit(i: nat)
      requires Valid()
      ensures Bit(i) == (i < |bits| && bits[i])
    {
      if i < n {
        var k, j := i / WORD, i % WORD;
        assert words[k] == WordOf(bits, k);
        WordBit(bits[WORD * k..WORD * k + Take(n, k)], j, words[k]);
      }
    }

    method Read(s: PerDecodeStream, count: nat) returns (ok: bool)
      requires s.Valid()
      modifies this, s
      ensures s.Valid() && s.levels == old(s.levels)
      ensures ok <==> PerDecode.GetBits(count, old(s.Rest())).Ok?
      ensures ok ==> Valid() && bits == PerDecode.GetBits(count, old(s.Rest())).v
                     && s.Rest() == PerDecode.GetBits(count, old(s.Rest())).rest
    {
      hide NatOf, BytesBits, WordOf, Pow2, HoldWords, Reached, Take;
      ghost var b := s.Rest();
      n, words := count, [];
      HoldNone(b[..if count <= |b| then count else 0]);
      var total := (count + WORD - 1) / WORD;
      bits := if count <= |b| then b[..count] else [];
      ReachedAll(count);
      var k := 0;
      while k < total
        invariant s.Valid() && s.levels == old(s.levels) && n == count && |words| == k <= total
        invariant bits == if count <= |b| then b[..count] else []
        invariant Reached(count, k) <= |b| && s.Rest() == b[Reached(count, k)..]
        invariant count <= |b| ==> HoldWords(words, b[..count])
      {
        var w := ReadWord(s, count, k, b);
        if w.None? { return false; }
        if count <= |b| { HoldMore(words, b[..count], w.value); }
        words := words + [w.value];
        k := k + 1;
      }
      ok := true;
    }
  }

  // Bit `j` of a word that holds `b` at its top.
  lemma WordBit(b: Bits, j: nat, w: nat)
    requires |b| <= WORD && j < |b| && w == NatOf(b) * Pow2(WORD - |b|)
    ensures Shr(w, WORD - 1 - j) % 2 == 1 <==> b[j]
  {
    hide Pow2, Shr, NatOf, BitsOf;
    var z := PerEncode.Zeros(WORD - |b|);
    NatOfConcat(b, z);
    ZerosAreNothing(WORD - |b|);
    BitsOfNatOf(b + z);
    BitsOfAt(w, WORD, j);
  }

  lemma {:induction false} ZerosAreNothing(n: nat)
    ensures NatOf(PerEncode.Zeros(n)) == 0
  {
    if n > 0 {
      assert PerEncode.Zeros(n)[..n - 1] == PerEncode.Zeros(n - 1);
      ZerosAreNothing(n - 1);
    }
  }
}
