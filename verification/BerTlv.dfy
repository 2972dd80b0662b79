/** Tag, length and value octets of the basic encoding rules (section 8.1 of X.690). */
module BerTlv {
  import opened Bits
  import opened Octets
  import opened Integers

  const U32: nat := 0x1_0000_0000
  const NO_TAG: nat := 0xFFFF_FFFF  // the reader's mark for a malformed tag

  // Class 0 universal, 1 application, 2 context, 3 private.
  datatype Tag = Tag(cls: nat, number: nat, constructed: bool)

  predicate TagWf(t: Tag) {
    t.cls < 4 && t.number < U32
  }

  // Same class and number; the constructed bit is a detail of the encoding.
  predicate Matches(a: Tag, b: Tag) {
    a.cls == b.cls && a.number == b.number
  }

  // ---- what is written ----

  function Leading(t: Tag, low: nat): Byte
    requires TagWf(t) && low < 32
  {
    t.cls * 64 + (if t.constructed then 32 else 0) + low
  }

  // Seven bits an octet, each with its top bit set.
  function HighSeptets(n: nat): seq<Byte> {
    if n == 0 then [] else HighSeptets(n / 128) + [128 + n % 128]
  }

  function TagOctets(t: Tag): (o: seq<Byte>)
    requires TagWf(t)
    ensures o != []
  {
    if t.number < 31 then [Leading(t, t.number)]
    else [Leading(t, 31)] + (HighSeptets(t.number / 128) + [t.number % 128])
  }

  // The shortest definite form; sizes are 64-bit numbers in the source.
  function LengthOctets(n: nat): (o: seq<Byte>)
    ensures o != []
  {
    if n < 128 then [n] else [(128 + UOctets(n)) % 256] + ToOctets(n, UOctets(n))
  }

  lemma U64Octets(n: nat)
    requires n < U64
    ensures UOctets(n) <= 8
  {
    Pow2Values();
    UOctetsLeast(n, 8);
  }

  function TlvOctets(t: Tag, value: seq<Byte>): seq<Byte>
    requires TagWf(t)
  {
    TagOctets(t) + (LengthOctets(|value|) + value)
  }

  // ---- what is read ----

  datatype Parse<+T> = Parsed(v: T, rest: seq<Byte>) | Failed

  // At most `left` octets of seven bits, in 32-bit arithmetic.
  function ReadSeptets(b: seq<Byte>, left: nat, acc: nat): (r: Parse<nat>)
    ensures r.Parsed? ==> |r.rest| < |b|
  {
    if left == 0 || b == [] then Failed
    else
      var n := (acc * 128 + b[0] % 128) % U32;
      if b[0] < 128 then Parsed(n, b[1..]) else ReadSeptets(b[1..], left - 1, n)
  }

  function ReadTag(b: seq<Byte>): (r: Parse<Tag>)
    ensures r.Parsed? ==> |r.rest| < |b|
  {
    if b == [] then Failed
    else
      var cls, constructed := b[0] / 64, (b[0] / 32) % 2 == 1;
      if b[0] % 32 != 31 then Parsed(Tag(cls, b[0] % 32, constructed), b[1..])
      else
        var n := ReadSeptets(b[1..], 5, 0);
        if n.Failed? || n.v == NO_TAG then Failed else Parsed(Tag(cls, n.v, constructed), n.rest)
  }

  // The next tag, or the mark when there is none.
  function PeekTag(b: seq<Byte>): Tag {
    var r := ReadTag(b);
    if r.Parsed? then r.v else Tag(if SeptetsAreMark(b) then b[0] / 64 else 2, NO_TAG, SeptetsAreMark(b) && (b[0] / 32) % 2 == 1)
  }

  // A tag whose number is the mark itself keeps its class when peeked at.
  predicate SeptetsAreMark(b: seq<Byte>) {
    b != [] && b[0] % 32 == 31 && ReadSeptets(b[1..], 5, 0).Parsed? && ReadSeptets(b[1..], 5, 0).v == NO_TAG
  }

  datatype Length = Definite(n: nat) | Indefinite

  function ReadLength(b: seq<Byte>): (r: Parse<Length>)
    ensures r.Parsed? ==> |r.rest| < |b|
  {
    if b == [] then Failed
    else if b[0] == 0x80 then Parsed(Indefinite, b[1..])
    else if b[0] < 0x80 then Parsed(Definite(b[0]), b[1..])
    else
      var n := b[0] - 0x80;
      if n > 8 || |b| - 1 < n then Failed else Parsed(Definite(BigEndian(b[1..1 + n])), b[1 + n..])
  }

  // Skips to behind the end-of-contents octets that close `depth` open levels.
  function SkipLevels(b: seq<Byte>, depth: nat): (r: Parse<()>)
    ensures r.Parsed? ==> |r.rest| <= |b|
    ensures r.Parsed? && depth > 0 ==> |r.rest| + 2 <= |b|
    decreases |b|
  {
    if depth == 0 then Parsed((), b)
    else if |b| < 2 then Failed
    else if b[0] == 0 && b[1] == 0 then SkipLevels(b[2..], depth - 1)
    else
      var t := ReadTag(b);
      if t.Failed? then Failed else
      var l := ReadLength(t.rest);
      if l.Failed? then Failed
      else if l.v.Indefinite? then if t.v.constructed then SkipLevels(l.rest, depth + 1) else Failed
      else if |l.rest| < l.v.n then Failed
      else SkipLevels(l.rest[l.v.n..], depth)
  }

  datatype Tlv = Tlv(tag: Tag, value: seq<Byte>, indefinite: bool)

  function ReadTlv(b: seq<Byte>): (r: Parse<Tlv>)
    ensures r.Parsed? ==> |r.rest| < |b| && |r.v.value| + |r.rest| < |b|
  {
    var t := ReadTag(b);
    if t.Failed? then Failed else
    var l := ReadLength(t.rest);
    if l.Failed? then Failed
    else if l.v.Definite? then
      if |l.rest| < l.v.n then Failed else Parsed(Tlv(t.v, l.rest[..l.v.n], false), l.rest[l.v.n..])
    else if !t.v.constructed then Failed
    else
      var end := SkipLevels(l.rest, 1);
      if end.Failed? then Failed else Parsed(Tlv(t.v, l.rest[..|l.rest| - |end.rest| - 2], true), end.rest)
  }

  // ---- what follows does not matter ----

  lemma {:induction false} SeptetsLocal(b: seq<Byte>, left: nat, acc: nat, s: seq<Byte>)
    requires ReadSeptets(b, left, acc).Parsed?
    ensures var r := ReadSeptets(b, left, acc); ReadSeptets(b + s, left, acc) == Parsed(r.v, r.rest + s)
    decreases left
  {
    assert (b + s)[1..] == b[1..] + s;
    if b[0] >= 128 { SeptetsLocal(b[1..], left - 1, (acc * 128 + b[0] % 128) % U32, s); }
  }

  lemma TagLocal(b: seq<Byte>, s: seq<Byte>)
    requires ReadTag(b).Parsed?
    ensures ReadTag(b + s) == Parsed(ReadTag(b).v, ReadTag(b).rest + s)
  {
    assert (b + s)[1..] == b[1..] + s;
    if b[0] % 32 == 31 { SeptetsLocal(b[1..], 5, 0, s); }
  }

  lemma LengthLocal(b: seq<Byte>, s: seq<Byte>)
    requires ReadLength(b).Parsed?
    ensures ReadLength(b + s) == Parsed(ReadLength(b).v, ReadLength(b).rest + s)
  {
    assert (b + s)[1..] == b[1..] + s;
    if b[0] > 0x80 {
      var n := b[0] - 0x80;
      assert (b + s)[1..1 + n] == b[1..1 + n] && (b + s)[1 + n..] == b[1 + n..] + s;
    }
  }

  lemma {:induction false} SkipLocal(b: seq<Byte>, depth: nat, s: seq<Byte>)
    requires SkipLevels(b, depth).Parsed?
    ensures SkipLevels(b + s, depth) == Parsed((), SkipLevels(b, depth).rest + s)
    decreases |b|
  {
    hide ReadTag, ReadLength;
    if depth > 0 {
      assert (b + s)[..2] == b[..2];
      if b[0] == 0 && b[1] == 0 {
        assert (b + s)[2..] == b[2..] + s;
        SkipLocal(b[2..], depth - 1, s);
      } else {
        TagLocal(b, s);
        LengthLocal(ReadTag(b).rest, s);
        var l := ReadLength(ReadTag(b).rest);
        if l.v.Indefinite? { SkipLocal(l.rest, depth + 1, s); }
        else {
          assert (l.rest + s)[l.v.n..] == l.rest[l.v.n..] + s;
          SkipLocal(l.rest[l.v.n..], depth, s);
        }
      }
    }
  }

  // A TLV is read the same whatever follows it.
  lemma TlvLocal(b: seq<Byte>, s: seq<Byte>)
    requires ReadTlv(b).Parsed?
    ensures ReadTlv(b + s) == Parsed(ReadTlv(b).v, ReadTlv(b).rest + s)
  {
    hide ReadTag, ReadLength, SkipLevels;
    TagLocal(b, s);
    LengthLocal(ReadTag(b).rest, s);
    var l := ReadLength(ReadTag(b).rest);
    if l.v.Definite? {
      assert (l.rest + s)[..l.v.n] == l.rest[..l.v.n] && (l.rest + s)[l.v.n..] == l.rest[l.v.n..] + s;
    } else {
      SkipLocal(l.rest, 1, s);
      var n := |l.rest| - |SkipLevels(l.rest, 1).rest| - 2;
      assert (l.rest + s)[..n] == l.rest[..n];
    }
  }

  // The octets of one TLV read it by themselves.
  lemma {:induction false} SeptetsCut(b: seq<Byte>, left: nat, acc: nat, n: nat)
    requires ReadSeptets(b, left, acc).Parsed? && |b| - |ReadSeptets(b, left, acc).rest| <= n <= |b|
    ensures var r := ReadSeptets(b, left, acc);
            |r.rest| >= |b| - n && ReadSeptets(b[..n], left, acc) == Parsed(r.v, r.rest[..|r.rest| - (|b| - n)])
    decreases left
  {
    if b[0] < 128 {
      assert b[..n][1..] == b[1..][..n - 1];
    } else {
      assert b[..n][1..] == b[1..][..n - 1];
      SeptetsCut(b[1..], left - 1, (acc * 128 + b[0] % 128) % U32, n - 1);
    }
  }

  lemma TagCut(b: seq<Byte>, n: nat)
    requires ReadTag(b).Parsed? && |b| - |ReadTag(b).rest| <= n <= |b|
    ensures var r := ReadTag(b);
            |r.rest| >= |b| - n && ReadTag(b[..n]) == Parsed(r.v, r.rest[..|r.rest| - (|b| - n)])
  {
    assert b[..n][1..] == b[1..][..n - 1];
    if b[0] % 32 == 31 { SeptetsCut(b[1..], 5, 0, n - 1); }
  }

  lemma LengthCut(b: seq<Byte>, n: nat)
    requires ReadLength(b).Parsed? && |b| - |ReadLength(b).rest| <= n <= |b|
    ensures var r := ReadLength(b);
            |r.rest| >= |b| - n && ReadLength(b[..n]) == Parsed(r.v, r.rest[..|r.rest| - (|b| - n)])
  {
    assert b[..n][1..] == b[1..][..n - 1];
    if b[0] > 0x80 {
      var k := b[0] - 0x80;
      assert b[..n][1..1 + k] == b[1..1 + k] && b[..n][1 + k..] == b[1 + k..][..n - 1 - k];
    }
  }

  // Exactly one TLV.
  predicate IsTlv(b: seq<Byte>) {
    ReadTlv(b).Parsed? && ReadTlv(b).rest == []
  }

  // No TLV is a proper prefix of another.
  lemma TlvPrefixFree(a: seq<Byte>, b: seq<Byte>)
    requires IsTlv(a) && IsTlv(b) && a <= b
    ensures a == b
  {
    hide ReadTlv;
    var s := b[|a|..];
    assert b == a + s;
    TlvLocal(a, s);
    assert [] + s == s;
  }

  // ---- what is written is read ----

  lemma SeptetArithmetic(n: nat)
    ensures (n / 128) * 128 + n % 128 == n
  {
  }

  // Reading the high septets of `n` leaves `n` accumulated.
  lemma {:induction false} HighSeptetsRead(n: nat, left: nat, s: seq<Byte>)
    requires n < U32
    ensures |HighSeptets(n)| <= 5
    ensures left > |HighSeptets(n)| ==> ReadSeptets(HighSeptets(n) + s, left, 0) == ReadSeptets(s, left - |HighSeptets(n)|, n)
  {
    if n == 0 {
      assert HighSeptets(n) + s == s;
    } else {
      HighSeptetsSize(n);
      if left > |HighSeptets(n)| {
        var c := 128 + n % 128;
        HighSeptetsRead(n / 128, left, [c] + s);
        assert HighSeptets(n) + s == HighSeptets(n / 128) + ([c] + s);
        HighSeptetStep(n, left - |HighSeptets(n / 128)|, s);
      }
    }
  }

  lemma HighSeptetStep(n: nat, left: nat, s: seq<Byte>)
    requires n < U32 && left > 0
    ensures ReadSeptets([128 + n % 128] + s, left, n / 128) == ReadSeptets(s, left - 1, n)
  {
    SeptetArithmetic(n);
    assert ([128 + n % 128] + s)[1..] == s;
  }

  lemma HighSeptetsSize(n: nat)
    requires n < U32
    ensures |HighSeptets(n)| <= 5
    ensures n < 0x200_0000 ==> |HighSeptets(n)| <= 4
  {
    var a, b, c, d := n / 128, n / 128 / 128, n / 128 / 128 / 128, n / 128 / 128 / 128 / 128;
    assert d < 128;
    assert |HighSeptets(d)| <= 1;
    assert |HighSeptets(c)| <= 2 && |HighSeptets(b)| <= 3 && |HighSeptets(a)| <= 4;
    if n < 0x200_0000 { assert d == 0; }
  }

  lemma LeadingRead(t: Tag, low: nat)
    requires TagWf(t) && low < 32
    ensures Leading(t, low) / 64 == t.cls && (Leading(t, low) / 32) % 2 == (if t.constructed then 1 else 0) && Leading(t, low) % 32 == low
  {
  }

  // Every 32-bit tag number but the reader's own mark is read back.
  lemma TagReadBack(t: Tag, s: seq<Byte>)
    requires TagWf(t)
    ensures ReadTag(TagOctets(t) + s) == if t.number == NO_TAG then Failed else Parsed(t, s)
  {
    hide ReadSeptets, HighSeptets;
    var b := TagOctets(t) + s;
    if t.number < 31 {
      LeadingRead(t, t.number);
      assert b[1..] == s;
    } else {
      LeadingRead(t, 31);
      var last := t.number % 128;
      HighSeptetsSize(t.number / 128);
      HighSeptetsRead(t.number / 128, 5, [last] + s);
      assert b[1..] == HighSeptets(t.number / 128) + ([last] + s);
      LastSeptet(t.number, 5 - |HighSeptets(t.number / 128)|, s);
    }
  }

  lemma LastSeptet(n: nat, left: nat, s: seq<Byte>)
    requires n < U32 && left > 0
    ensures ReadSeptets([n % 128] + s, left, n / 128) == Parsed(n, s)
  {
    SeptetArithmetic(n);
    assert ([n % 128] + s)[1..] == s;
  }

  lemma LengthReadBack(n: nat, s: seq<Byte>)
    requires n < U64
    ensures ReadLength(LengthOctets(n) + s) == Parsed(Definite(n), s)
  {
    hide ToOctets, BigEndian;
    var b := LengthOctets(n) + s;
    if n < 128 {
      assert b[1..] == s;
    } else {
      var k := UOctets(n);
      U64Octets(n);
      UOctetsBounds(n);
      BigEndianToOctets(n, k);
      assert b[1..1 + k] == ToOctets(n, k) && b[1 + k..] == s;
    }
  }

  lemma TlvReadBack(t: Tag, value: seq<Byte>, s: seq<Byte>)
    requires TagWf(t) && t.number != NO_TAG && |value| < U64
    ensures ReadTlv(TlvOctets(t, value) + s) == Parsed(Tlv(t, value, false), s)
    ensures ReadTag(TlvOctets(t, value) + s).Parsed? && ReadTag(TlvOctets(t, value) + s).v == t
  {
    hide ReadTag, ReadLength, TagOctets, LengthOctets;
    var body := LengthOctets(|value|) + value;
    assert TlvOctets(t, value) + s == TagOctets(t) + (LengthOctets(|value|) + (value + s)) by {
      assert body + s == LengthOctets(|value|) + (value + s);
      assert (TagOctets(t) + body) + s == TagOctets(t) + (body + s);
    }
    TagReadBack(t, LengthOctets(|value|) + (value + s));
    LengthReadBack(|value|, value + s);
    assert (value + s)[..|value|] == value && (value + s)[|value|..] == s;
  }

  // ---- replacing a tag ----

  // Identifier octets counted from the octets alone.
  function TagSize(b: seq<Byte>): nat
    requires b != []
  {
    if b[0] % 32 != 31 then 1 else 1 + SeptetCount(b[1..])
  }

  function SeptetCount(b: seq<Byte>): (n: nat)
    ensures n <= |b|
  {
    if b == [] then 0 else if b[0] < 128 then 1 else 1 + SeptetCount(b[1..])
  }

  // A long tag number has a last octet, the first one below 128.
  predicate TagComplete(b: seq<Byte>) {
    b != [] && (b[0] % 32 == 31 ==> 1 < TagSize(b) <= |b| && b[TagSize(b) - 1] < 128)
  }

  lemma {:induction false} HighSeptetsHigh(n: nat)
    ensures forall i :: 0 <= i < |HighSeptets(n)| ==> HighSeptets(n)[i] >= 128
  {
    if n > 0 { HighSeptetsHigh(n / 128); }
  }

  lemma {:induction false} CountHigh(h: seq<Byte>, last: Byte, s: seq<Byte>)
    requires last < 128 && forall i :: 0 <= i < |h| ==> h[i] >= 128
    ensures SeptetCount(h + ([last] + s)) == |h| + 1
  {
    if h == [] {
      assert h + ([last] + s) == [last] + s;
    } else {
      assert (h + ([last] + s))[1..] == h[1..] + ([last] + s);
      CountHigh(h[1..], last, s);
    }
  }

  // The count recognises exactly the octets of a written tag, for every
  // 32-bit tag number.
  lemma TagSizeExact(t: Tag, s: seq<Byte>)
    requires TagWf(t)
    ensures TagSize(TagOctets(t) + s) == |TagOctets(t)| && TagComplete(TagOctets(t) + s)
  {
    hide HighSeptets, SeptetCount;
    var b := TagOctets(t) + s;
    if t.number < 31 {
      LeadingRead(t, t.number);
    } else {
      LeadingRead(t, 31);
      assert b[1..] == HighSeptets(t.number / 128) + ([t.number % 128] + s);
      HighSeptetsHigh(t.number / 128);
      CountHigh(HighSeptets(t.number / 128), t.number % 128, s);
    }
  }

  // Another tag in front of the same length and value.
  function Retag(b: seq<Byte>, t: Tag): seq<Byte>
    requires b != [] && TagWf(t) && TagSize(b) <= |b|
  {
    TagOctets(t) + b[TagSize(b)..]
  }

  // Replacing the tag of an encoding is encoding with the other tag.
  lemma RetagTlv(t: Tag, u: Tag, value: seq<Byte>)
    requires TagWf(t) && TagWf(u)
    ensures TagSize(TlvOctets(t, value)) <= |TlvOctets(t, value)|
    ensures Retag(TlvOctets(t, value), u) == TlvOctets(u, value)
  {
    hide TagOctets, LengthOctets, TagSize;
    var body := LengthOctets(|value|) + value;
    TagSizeExact(t, body);
    assert (TagOctets(t) + body)[|TagOctets(t)|..] == body;
  }
}
