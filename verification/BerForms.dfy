/**
 * The forms of BER the encoder writes are the shortest there are, and what the
 * decoder makes of the others: redundant octets, the indefinite length, wrong
 * and unknown tags.
 */
module BerForms {
  import opened Bits
  import opened Options
  import opened Integers
  import opened Octets
  import opened BerTlv
  import opened BerTypes
  import opened BerDispatch
  import BerOrder

  // ---- tags and lengths ----

  // `k` octets of seven bits hold less than 128^k.
  lemma {:induction false} SeptetsHold(b: seq<Byte>, left: nat, acc: nat)
    requires ReadSeptets(b, left, acc).Parsed?
    ensures var r := ReadSeptets(b, left, acc);
            var k := |b| - |r.rest|;
            1 <= k <= left && r.v < (acc + 1) * Pow2(7 * k)
    decreases left
  {
    hide Pow2;
    var n := (acc * 128 + b[0] % 128) % U32;
    OneMoreSeptet(acc, b[0], n);
    if b[0] >= 128 {
      SeptetsHold(b[1..], left - 1, n);
      MoreSeptets(acc, n, |b[1..]| - |ReadSeptets(b[1..], left - 1, n).rest|);
    } else {
      Pow2Of7();
    }
  }

  lemma OneMoreSeptet(acc: nat, c: Byte, n: nat)
    requires n == (acc * 128 + c % 128) % U32
    ensures n + 1 <= (acc + 1) * 128
  {
  }

  lemma MoreSeptets(acc: nat, n: nat, k: nat)
    requires n + 1 <= (acc + 1) * 128
    ensures (n + 1) * Pow2(7 * k) <= (acc + 1) * Pow2(7 * (k + 1))
  {
    hide Pow2;
    Pow2Of7();
    Pow2Sum(7, 7 * k);
    MulMono(Pow2(7 * k), n + 1, (acc + 1) * 128);
    assert ((acc + 1) * 128) * Pow2(7 * k) == (acc + 1) * (128 * Pow2(7 * k));
    assert 7 + 7 * k == 7 * (k + 1);
  }

  lemma {:induction false} HighSeptetsShort(n: nat, k: nat)
    requires n < Pow2(7 * k)
    ensures |HighSeptets(n)| <= k
    decreases k
  {
    if n > 0 {
      assert k > 0 by { if k == 0 { Pow2Zero(); } }
      hide Pow2;
      Pow2Of7();
      Pow2Sum(7, 7 * (k - 1));
      assert 7 + 7 * (k - 1) == 7 * k;
      assert n / 128 < Pow2(7 * (k - 1));
      HighSeptetsShort(n / 128, k - 1);
    }
  }

  // No shorter octets are read as the tag.
  lemma TagShortest(t: Tag, b: seq<Byte>, s: seq<Byte>)
    requires TagWf(t) && ReadTag(b + s) == Parsed(t, s)
    ensures |TagOctets(t)| <= |b|
  {
    hide ReadSeptets, HighSeptets, Pow2;
    if t.number >= 31 {
      var c := b + s;
      SeptetsHold(c[1..], 5, 0);
      var k := |b| - 1;
      assert k >= 1;
      Pow2Of7();
      Pow2Sum(7, 7 * (k - 1));
      assert 7 + 7 * (k - 1) == 7 * k;
      assert t.number / 128 < Pow2(7 * (k - 1));
      HighSeptetsShort(t.number / 128, k - 1);
    }
  }

  // Nor as the length.
  lemma LengthShortest(n: nat, b: seq<Byte>, s: seq<Byte>)
    requires ReadLength(b + s) == Parsed(Definite(n), s)
    ensures |LengthOctets(n)| <= |b|
  {
    hide BigEndian, UOctets, ToOctets;
    var c := b + s;
    if c[0] > 0x80 {
      var k := c[0] - 0x80;
      BigEndianBound(c[1..1 + k]);
      UOctetsLeast(n, k);
    }
  }

  // One octet below 128; a count of up to eight octets and those octets,
  // leading zeros among them; 80 for the indefinite length.  A larger count
  // and missing octets are refused.
  lemma LengthAnyForm(o: Byte, m: seq<Byte>, s: seq<Byte>)
    ensures o < 0x80 ==> ReadLength([o] + s) == Parsed(Definite(o), s)
    ensures ReadLength([0x80] + s) == Parsed(Indefinite, s)
    ensures 1 <= |m| <= 8 ==> ReadLength([0x80 + |m|] + m + s) == Parsed(Definite(BigEndian(m)), s)
    ensures o > 0x88 || (o > 0x80 && |s| < o - 0x80) || s == [] ==> ReadLength(if s == [] then [] else [o] + s).Failed?
  {
    hide BigEndian;
    assert ([o] + s)[1..] == s && ([0x80] + s)[1..] == s;
    if 1 <= |m| <= 8 {
      var c := [0x80 + |m|] + m + s;
      assert c[1..1 + |m|] == m && c[1 + |m|..] == s;
    }
  }

  // Where no tag can be read, the one peeked at has the number 2^32 - 1: the
  // one spelled out, if that is what the octets say, else a context tag.
  lemma MalformedTag(t: Tag, b: seq<Byte>, s: seq<Byte>)
    ensures TagWf(t) && t.number == 0xFFFF_FFFF ==> ReadTag(TagOctets(t) + s).Failed? && PeekTag(TagOctets(t) + s) == t
    ensures ReadTag(b).Failed? ==> PeekTag(b).number == 0xFFFF_FFFF
    ensures b == [] || (b[0] % 32 == 31 && ReadSeptets(b[1..], 5, 0).Failed?) ==> PeekTag(b) == Tag(2, 0xFFFF_FFFF, false)
  {
    hide ReadSeptets, HighSeptets;
    if TagWf(t) && t.number == 0xFFFF_FFFF {
      TagReadBack(t, s);
      var c := TagOctets(t) + s;
      LeadingRead(t, 31);
      HighSeptetsSize(t.number / 128);
      HighSeptetsRead(t.number / 128, 5, [t.number % 128] + s);
      assert c[1..] == HighSeptets(t.number / 128) + ([t.number % 128] + s);
      LastSeptet(t.number, 5 - |HighSeptets(t.number / 128)|, s);
    }
  }

  // ---- contents ----

  // TRUE is FF and FALSE 00; any other octet reads as TRUE, and anything but
  // one octet is refused.
  lemma BooleanForm(S: Schema, d: nat, tag: Tag, value: seq<Byte>, s: seq<Byte>)
    requires TagWf(tag) && tag.number != NO_TAG && |value| < U64
    ensures EncContent(S, Boolean, BoolV(true)) == Some([0xFF]) && EncContent(S, Boolean, BoolV(false)) == Some([0x00])
    ensures DecAs(S, Boolean, tag, d, TlvOctets(tag, value) + s)
         == if |value| != 1 then Failed else Parsed(BoolV(value[0] != 0), s)
  {
    hide ReadTlv, TlvOctets;
    TlvReadBack(tag, value, s);
  }

  // One to eight octets are an INTEGER in two's complement; the octets written
  // are the fewest.
  lemma IntegerForm(S: Schema, d: nat, m: seq<Byte>)
    ensures DecContent(S, Integer, d, m) == if 1 <= |m| <= 8 then Some(IntV(SignedBig(m))) else None
    ensures 1 <= |m| <= 8 ==>
              var e := EncContent(S, Integer, IntV(SignedBig(m)));
              e.Some? && |e.value| <= |m| && SignedBig(e.value) == SignedBig(m)
  {
    hide SignedBig, SOctets, ToOctets, FitsOctets;
    if 1 <= |m| <= 8 {
      var v := SignedBig(m);
      SignedFits(m);
      SOctetsLeast(v, |m|);
      SOctetsLeast(v, 8);
      assert I64_MIN <= v <= I64_MAX by { EightOctets(v); }
      SOctetsBounds(v);
      SignedToOctets(v, SOctets(v));
    }
  }

  lemma EightOctets(v: int)
    requires FitsOctets(v, 8)
    ensures I64_MIN <= v <= I64_MAX
  {
    Pow2Values();
  }

  // Redundant sign octets do not change the number.
  lemma SignExtended(m: seq<Byte>)
    requires m != []
    ensures SignedBig([if m[0] >= 128 then 255 else 0] + m) == SignedBig(m)
  {
    hide BigEndian, Pow2;
    var x := [if m[0] >= 128 then 255 else 0] + m;
    assert x[1..] == m;
    SignRepeatsExactly(x);
  }

  // A member that equals its DEFAULT is written as if it were absent.
  lemma {:induction false} DefaultOmitted(S: Schema, ms: seq<Member>, fs: seq<Field>, i: nat)
    requires |ms| == |fs| && i < |ms| && ms[i].optional && fs[i] == ms[i].dflt
    ensures EncMembers(S, ms, fs) == EncMembers(S, ms, fs[i := Absent])
    decreases i
  {
    hide EncField;
    if i > 0 {
      DefaultOmitted(S, ms[1..], fs[1..], i - 1);
      assert fs[i := Absent][1..] == fs[1..][i - 1 := Absent];
    } else {
      assert fs[0 := Absent][1..] == fs[1..];
    }
  }

  // ---- the constructed bit ----

  lemma FirstOctet(t: Tag, value: seq<Byte>)
    requires TagWf(t)
    ensures TlvOctets(t, value) != []
    ensures TlvOctets(t, value)[0] / 64 == t.cls && ((TlvOctets(t, value)[0] / 32) % 2 == 1 <==> t.constructed)
  {
    hide HighSeptets;
    var low := if t.number < 31 then t.number else 31;
    LeadingRead(t, low);
    assert TlvOctets(t, value)[0] == Leading(t, low);
  }

  // An EXPLICIT override is constructed whatever its descriptor says; an
  // IMPLICIT one is as constructed as the type whose tag it replaces.
  lemma OverrideForm(S: Schema, m: Member, v: Value)
    requires !m.tagging.Own? && EncTagged(S, m, v).Some?
    ensures var e := EncTagged(S, m, v).value;
            && e != [] && e[0] / 64 == m.tag.cls
            && (m.tagging.Explicit? ==> (e[0] / 32) % 2 == 1)
            && (m.tagging.Implicit? ==> m.t < |S| && ((e[0] / 32) % 2 == 1 <==> S[m.t].tag.constructed))
  {
    hide Enc, TagSize, TagComplete, HighSeptets;
    if m.tagging.Explicit? {
      FirstOctet(Tag(m.tag.cls, m.tag.number, true), Enc(S, m.t, v).value);
    } else {
      var u := Tag(m.tag.cls, m.tag.number, S[m.t].tag.constructed);
      FirstOctet(u, []);
      LeadingRead(u, if u.number < 31 then u.number else 31);
    }
  }

  // ---- tags that do not belong ----

  // A type is decoded from a TLV with exactly its own tag.
  lemma WrongTypeTag(S: Schema, t: nat, d: nat, b: seq<Byte>)
    requires t < |S| && (S[t].explicit || !S[t].kind.Choice?) && ReadTlv(b).Parsed?
    requires var g := ReadTlv(b).v.tag; g.cls != S[t].tag.cls || g.number != S[t].tag.number || g.constructed != S[t].tag.constructed
    ensures Dec(S, t, d, b).Failed?
  {
    hide ReadTlv;
  }

  // A mandatory member under an override is refused when another tag is there,
  // and an optional one is left out.
  lemma WrongMemberTag(S: Schema, ms: seq<Member>, d: nat, b: seq<Byte>)
    requires ms != [] && !ms[0].tagging.Own? && ReadTlv(b).Parsed?
    requires var g := ReadTlv(b).v.tag; g.cls != ms[0].tag.cls || g.number != ms[0].tag.number
    ensures !ms[0].optional ==> DecMembers(S, ms, d, b).Failed?
    ensures ms[0].optional && ms[0].t < |S| && MemberTagOk(S, ms[0]) ==>
              DecMembers(S, ms, d, b)
              == var rest := DecMembers(S, ms[1..], d, b);
                 if rest.Failed? then Failed else Parsed([ms[0].dflt] + rest.v, rest.rest)
  {
    hide ReadTag, ReadLength, SkipLevels, DecValue;
    var m := ms[0];
    assert PeekTag(b) == ReadTlv(b).v.tag;
    if m.optional && m.t < |S| && MemberTagOk(S, m) {
      assert MatchTags(S, m) == [m.tag];
      assert !BelongsTag(PeekTag(b), [m.tag]);
    }
  }

  // A tag no alternative starts with: skipped whole where the CHOICE is
  // extensible, refused where it is not.
  lemma UnknownAlternative(S: Schema, k: Kind, d: nat, b: seq<Byte>)
    requires k.Choice? && TablesOk(S, k) && forall a {:trigger k.alts[a]} :: 0 <= a < |k.alts| ==> !StartsWith(S, k.alts[a], PeekTag(b))
    ensures DecAlternative(S, k, d, b)
         == if k.extensible && ReadTlv(b).Parsed? then Parsed(NoChoice, ReadTlv(b).rest) else Failed
  {
    hide ReadTlv, FindAlt, StartsWith, TablesOk, DecTagged;
    var a := FindAlt(k, PeekTag(b));
    if a.Some? {
      DispatchExact(S, k, PeekTag(b), a.value);
    }
  }

  // ---- the indefinite length ----

  // A TLV of definite length, or one closed by end-of-contents octets around
  // others.
  datatype Element = Closed(tag: Tag, value: seq<Byte>) | Open(tag: Tag, kids: seq<Element>)

  predicate ElementOk(e: Element) {
    && TagWf(e.tag) && e.tag.number != NO_TAG
    && match e
       case Closed(tag, value) => |value| < U64 && (tag == Tag(0, 0, false) ==> value != [])
       case Open(tag, kids) => tag.constructed && ElementsOk(kids)
  }

  predicate ElementsOk(es: seq<Element>) {
    es != [] ==> ElementOk(es[0]) && ElementsOk(es[1..])
  }

  function ElementOctets(e: Element): seq<Byte>
    requires ElementOk(e)
    decreases e, 0
  {
    match e
    case Closed(tag, value) => TlvOctets(tag, value)
    case Open(tag, kids) => TagOctets(tag) + ([0x80] + (AllOctets(kids) + [0, 0]))
  }

  function AllOctets(es: seq<Element>): seq<Byte>
    requires ElementsOk(es)
    decreases es, 1
  {
    if es == [] then [] else ElementOctets(es[0]) + AllOctets(es[1..])
  }

  lemma SkipStep(b: seq<Byte>, depth: nat, t: Tag, rest: seq<Byte>)
    requires depth > 0 && |b| >= 2 && !(b[0] == 0 && b[1] == 0) && ReadTag(b) == Parsed(t, rest) && ReadLength(rest).Parsed?
    ensures var l := ReadLength(rest);
            SkipLevels(b, depth) == if l.v.Indefinite? then if t.constructed then SkipLevels(l.rest, depth + 1) else Failed
                                    else if |l.rest| < l.v.n then Failed
                                    else SkipLevels(l.rest[l.v.n..], depth)
  {
    hide ReadTag, ReadLength;
  }

  lemma TagFirst(t: Tag, s: seq<Byte>)
    requires TagWf(t)
    ensures TagOctets(t) + s != [] && ((TagOctets(t) + s)[0] == 0 ==> t == Tag(0, 0, false) && |TagOctets(t)| == 1)
  {
    hide HighSeptets;
    LeadingRead(t, if t.number < 31 then t.number else 31);
  }

  lemma EndSkipped(s: seq<Byte>, depth: nat)
    requires depth > 0
    ensures SkipLevels([0, 0] + s, depth) == SkipLevels(s, depth - 1)
  {
    assert ([0, 0] + s)[2..] == s;
  }

  lemma {:induction false} ElementSkipped(e: Element, depth: nat, s: seq<Byte>)
    requires ElementOk(e) && depth > 0
    ensures SkipLevels(ElementOctets(e) + s, depth) == SkipLevels(s, depth)
    decreases e, 0
  {
    hide ReadTag, ReadLength, SkipLevels, TagOctets, LengthOctets;
    match e
    case Closed(tag, value) =>
      var after := LengthOctets(|value|) + (value + s);
      assert ElementOctets(e) + s == TagOctets(tag) + after;
      TagReadBack(tag, after);
      LengthReadBack(|value|, value + s);
      TagFirst(tag, after);
      LengthFirst(|value|);
      SkipStep(TagOctets(tag) + after, depth, tag, after);
      assert (value + s)[|value|..] == s;
    case Open(tag, kids) =>
      var inner := AllOctets(kids) + ([0, 0] + s);
      assert ElementOctets(e) + s == TagOctets(tag) + ([0x80] + inner);
      TagReadBack(tag, [0x80] + inner);
      TagFirst(tag, [0x80] + inner);
      IndefiniteRead(inner);
      SkipStep(TagOctets(tag) + ([0x80] + inner), depth, tag, [0x80] + inner);
      AllSkipped(kids, depth + 1, [0, 0] + s);
      EndSkipped(s, depth + 1);
  }

  lemma LengthFirst(n: nat)
    requires n < U64
    ensures LengthOctets(n) != [] && (LengthOctets(n)[0] == 0 ==> n == 0)
  {
    U64Octets(n);
  }

  lemma IndefiniteRead(s: seq<Byte>)
    ensures ReadLength([0x80] + s) == Parsed(Indefinite, s)
  {
    assert ([0x80] + s)[1..] == s;
  }

  lemma {:induction false} AllSkipped(es: seq<Element>, depth: nat, s: seq<Byte>)
    requires ElementsOk(es) && depth > 0
    ensures SkipLevels(AllOctets(es) + s, depth) == SkipLevels(s, depth)
    decreases es, 1
  {
    hide SkipLevels, ElementOctets;
    if es == [] {
      assert AllOctets(es) + s == s;
    } else {
      assert AllOctets(es) + s == ElementOctets(es[0]) + (AllOctets(es[1..]) + s);
      ElementSkipped(es[0], depth, AllOctets(es[1..]) + s);
      AllSkipped(es[1..], depth, s);
    }
  }

  // A TLV of indefinite length is read with everything up to its own
  // end-of-contents octets, however deep others are nested in it.
  lemma IndefiniteReadBack(e: Element, s: seq<Byte>)
    requires ElementOk(e) && e.Open?
    ensures ReadTlv(ElementOctets(e) + s) == Parsed(Tlv(e.tag, AllOctets(e.kids), true), s)
  {
    hide ReadTag, ReadLength, SkipLevels, TagOctets;
    var inner := AllOctets(e.kids) + ([0, 0] + s);
    assert ElementOctets(e) + s == TagOctets(e.tag) + ([0x80] + inner);
    TagReadBack(e.tag, [0x80] + inner);
    IndefiniteRead(inner);
    AllSkipped(e.kids, 1, [0, 0] + s);
    EndSkipped(s, 1);
    assert SkipLevels(s, 0) == Parsed((), s) by { NothingOpen(s); }
    assert inner[..|inner| - |s| - 2] == AllOctets(e.kids);
  }

  lemma NothingOpen(s: seq<Byte>)
    ensures SkipLevels(s, 0) == Parsed((), s)
  {
  }

  // ---- the order of SET OF ----

  // `a` with zeros up to `n` octets.
  function Padded(a: seq<Byte>, n: nat): (p: seq<Byte>)
    requires |a| <= n
    ensures |p| == n
  {
    a + seq(n - |a|, _ => 0)
  }

  lemma PaddedCons(a: seq<Byte>, n: nat)
    requires |a| <= n && n > 0
    ensures Padded(a, n) == [if a == [] then 0 else a[0]] + Padded(if a == [] then [] else a[1..], n - 1)
  {
  }

  // The order of section 11.6 of X.690 is that of the numbers the octets are
  // when the shorter string is padded with zeros.
  lemma {:induction false} PaddedIsNumeric(a: seq<Byte>, b: seq<Byte>, n: nat)
    requires |a| <= n && |b| <= n
    ensures BerOrder.PaddedLess(a, b) <==> BigEndian(Padded(a, n)) < BigEndian(Padded(b, n))
    decreases n
  {
    hide BigEndian, Pow2, Padded;
    if n > 0 {
      var a', b' := if a == [] then [] else a[1..], if b == [] then [] else b[1..];
      var x: Byte, y: Byte := if a == [] then 0 else a[0], if b == [] then 0 else b[0];
      PaddedCons(a, n);
      PaddedCons(b, n);
      PaddedIsNumeric(a', b', n - 1);
      var p, q := Padded(a', n - 1), Padded(b', n - 1);
      BigEndianCons(x, p);
      BigEndianCons(y, q);
      BigEndianBound(p);
      BigEndianBound(q);
      LeadingDecides(x, BigEndian(p), y, BigEndian(q), Pow2(8 * (n - 1)));
      if a == [] && b == [] { assert a' == b'; }
    } else {
      assert Padded(a, 0) == Padded(b, 0) by { assert a == b; }
    }
  }

  lemma LeadingDecides(x: nat, r: nat, y: nat, s: nat, p: nat)
    requires r < p && s < p
    ensures x * p + r < y * p + s <==> x < y || (x == y && r < s)
  {
    if x < y { MulMonoPlus(p, x, y); } else if y < x { MulMonoPlus(p, y, x); }
  }
}
