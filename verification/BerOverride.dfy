/**
 * An IMPLICIT override on a type that is itself EXPLICIT-tagged.  It takes the
 * place of the EXPLICIT tag, and reading it looks for the contents right
 * behind it, so the type's natural tag and length are read as contents.
 */
module BerOverride {
  import opened Bits
  import opened Options
  import opened Integers
  import opened Octets
  import opened BerTlv
  import opened BerOrder
  import opened BerTypes
  import opened BerRoundTrip

  // What lies under the override: the contents, or the natural encoding of a
  // type with an EXPLICIT tag.
  function Carried(S: Schema, t: nat, v: Value): Option<seq<Byte>>
    requires t < |S|
  {
    if S[t].explicit then EncAs(S, S[t].kind, S[t].natural, v) else EncContent(S, S[t].kind, v)
  }

  // The member is overridden, and all that matters fits its storage.
  ghost predicate Overridden(S: Schema, m: Member, v: Value) {
    && m.t < |S| && m.tagging.Implicit? && TagOk(m.tag) && TagOk(S[m.t].tag) && TagOk(S[m.t].natural)
    && (S[m.t].explicit || !S[m.t].kind.Choice?)
    && Carried(S, m.t, v).Some? && |Carried(S, m.t, v).value| < U64
  }

  // What comes back when `v` is written under the override and read again.
  function Back(S: Schema, m: Member, v: Value, d: nat, s: seq<Byte>): Parse<Value> {
    var e := EncTagged(S, m, v);
    if e.None? then Failed else DecTagged(S, m, true, d, e.value + s)
  }

  // Whatever lies under the override is read as contents.
  lemma BackIsValue(S: Schema, m: Member, v: Value, d: nat, s: seq<Byte>)
    requires Overridden(S, m, v)
    ensures EncTagged(S, m, v).Some?
    ensures var w := DecValue(S, m.t, d, Carried(S, m.t, v).value);
            Back(S, m, v, d, s) == if w.None? then Failed else Parsed(w.value, s)
  {
    hide TlvOctets, Retag, TagComplete, TagSize, ReadTlv, EncContent, EncAs, DecValue;
    var ty, inner := S[m.t], Carried(S, m.t, v).value;
    EncIsTlv(S, m.t, v);
    var u := Tag(m.tag.cls, m.tag.number, ty.tag.constructed);
    OverrideTlv(ty.tag, u, inner);
    TlvReadBack(u, inner, s);
  }

  lemma EncIsTlv(S: Schema, t: nat, v: Value)
    requires t < |S| && TagWf(S[t].tag) && (S[t].explicit || !S[t].kind.Choice?) && Carried(S, t, v).Some?
    ensures Enc(S, t, v) == Some(TlvOctets(S[t].tag, Carried(S, t, v).value))
  {
    hide TlvOctets, EncContent;
  }

  lemma OverrideTlv(t: Tag, u: Tag, value: seq<Byte>)
    requires TagWf(t) && TagWf(u)
    ensures var e := TlvOctets(t, value); e != [] && TagComplete(e) && TagSize(e) <= |e| && Retag(e, u) == TlvOctets(u, value)
  {
    hide TagOctets, LengthOctets, TagSize, TagComplete;
    TagSizeExact(t, LengthOctets(|value|) + value);
    RetagTlv(t, u, value);
  }

  // ---- primitive types ----

  // NULL has no contents to misread.
  lemma NullOverride(S: Schema, m: Member, d: nat, s: seq<Byte>)
    requires Overridden(S, m, NullV) && S[m.t].kind.Null?
    ensures Back(S, m, NullV, d, s) == Parsed(NullV, s)
  {
    BackIsValue(S, m, NullV, d, s);
  }

  // The first octet of a tag is zero for none but [UNIVERSAL 0].
  lemma FirstTagOctet(t: Tag)
    requires TagWf(t)
    ensures TagOctets(t)[0] == 0 <==> t == Tag(0, 0, false)
  {
  }

  // An EXPLICIT BOOLEAN is read from its natural tag: only TRUE comes back.
  lemma BooleanOverride(S: Schema, m: Member, b: bool, d: nat, s: seq<Byte>)
    requires Overridden(S, m, BoolV(b)) && S[m.t].kind.Boolean? && S[m.t].natural != Tag(0, 0, false)
    ensures Back(S, m, BoolV(b), d, s) == Parsed(BoolV(S[m.t].explicit || b), s)
    ensures Back(S, m, BoolV(b), d, s) == Parsed(BoolV(b), s) <==> !S[m.t].explicit || b
  {
    hide TagOctets;
    BackIsValue(S, m, BoolV(b), d, s);
    FirstTagOctet(S[m.t].natural);
    assert S[m.t].explicit ==> Carried(S, m.t, BoolV(b)).value[0] == TagOctets(S[m.t].natural)[0];
  }

  // An EXPLICIT OCTET STRING comes back as its natural encoding.
  lemma OctetsOverride(S: Schema, m: Member, octets: seq<Byte>, d: nat, s: seq<Byte>)
    requires Overridden(S, m, OctetsV(octets)) && S[m.t].kind.OctetString?
    ensures Back(S, m, OctetsV(octets), d, s) == Parsed(OctetsV(Carried(S, m.t, OctetsV(octets)).value), s)
    ensures Back(S, m, OctetsV(octets), d, s) == Parsed(OctetsV(octets), s) <==> !S[m.t].explicit
  {
    hide TlvOctets;
    BackIsValue(S, m, OctetsV(octets), d, s);
    assert EncContent(S, S[m.t].kind, OctetsV(octets)) == Some(octets);
    TlvGrows(S[m.t].natural, octets);
  }

  // No prefix that ends in a length octet is a sign extension.
  lemma {:induction false} PrefixedDiffers(p: seq<Byte>, len: Byte, content: seq<Byte>, i: int)
    requires content != [] && 1 <= len <= 8 && FitsOctets(i, |content|)
    ensures SignedBig(p + ([len] + content)) != i
    decreases |p|
  {
    hide SignedBig, FitsOctets;
    var m := p + ([len] + content);
    SignRepeatsExactly(m);
    SOctetsLeast(i, |content|);
    SOctetsLeast(i, |m| - 1);
    if p == [] {
      assert m[0] == len;
    } else {
      assert m[1..] == p[1..] + ([len] + content);
      PrefixedDiffers(p[1..], len, content, i);
    }
  }

  lemma ShortTlv(t: Tag, content: seq<Byte>)
    requires TagWf(t) && |content| < 128
    ensures TlvOctets(t, content) == TagOctets(t) + ([|content|] + content)
  {
  }

  // An EXPLICIT INTEGER comes back as another number, or as none.
  lemma IntegerOverride(S: Schema, m: Member, i: int, d: nat, s: seq<Byte>)
    requires Overridden(S, m, IntV(i)) && S[m.t].kind.Integer?
    ensures Back(S, m, IntV(i), d, s) == Parsed(IntV(i), s) <==> !S[m.t].explicit
  {
    hide TlvOctets, SignedOctets, SignedBig, TagOctets;
    var content := SignedOctets(i);
    assert EncContent(S, S[m.t].kind, IntV(i)) == Some(content);
    BackIsValue(S, m, IntV(i), d, s);
    IntegerReadBack(i);
    if S[m.t].explicit {
      ShortTlv(S[m.t].natural, content);
      SignedSize(i);
      PrefixedDiffers(TagOctets(S[m.t].natural), |content|, content, i);
    }
  }

  lemma SignedSize(i: int)
    ensures |SignedOctets(i)| == SOctets(i) && FitsOctets(i, SOctets(i))
  {
    SOctetsBounds(i);
  }

  // ---- CHOICE ----

  // A CHOICE has no tag of its own: what is read under the override of an
  // EXPLICIT one is the alternative's whole encoding.
  lemma ChoiceOverride(S: Schema, m: Member, v: Value, d: nat, s: seq<Byte>)
    requires WellTagged(S) && Overridden(S, m, v) && S[m.t].kind.Choice? && SurvivesAs(S, S[m.t].kind, v, d)
    ensures Back(S, m, v, d, s) == Parsed(SeenAs(S, S[m.t].kind, v), s)
  {
    hide EncTagged, DecTagged, DecAlternative, WellTagged, KindOk, Seen, Survives;
    KindOf(S, m.t);
    BackIsValue(S, m, v, d, s);
    var k, inner := S[m.t].kind, Carried(S, m.t, v).value;
    RoundTripChoice(S, k, v, d - 1, []);
    assert inner + [] == inner;
  }

  lemma KindOf(S: Schema, t: nat)
    requires WellTagged(S) && t < |S|
    ensures KindOk(S, S[t].kind) && TagOk(S[t].tag) && TagOk(S[t].natural)
  {
    assert DescOk(S, S[t]);
  }

  // ---- SEQUENCE OF and SET OF ----

  // Decoding takes one TLV.
  lemma {:induction false} DecOneTlv(S: Schema, t: nat, d: nat, b: seq<Byte>)
    ensures Dec(S, t, d, b).Parsed? ==> ReadTlv(b).Parsed? && Dec(S, t, d, b).rest == ReadTlv(b).rest
    decreases d, 1
  {
    hide ReadTlv, DecContent, DecAlternative;
    if t < |S| && !S[t].explicit && (Counts(S[t].kind) ==> d > 0) {
      var k := S[t].kind;
      assert Dec(S, t, d, b) == DecAs(S, k, S[t].tag, d, b);
      if k.Choice? {
        assert DecAs(S, k, S[t].tag, d, b) == DecAlternative(S, k, d - 1, b);
        AlternativeOneTlv(S, k, d - 1, b);
      }
    }
  }

  lemma {:induction false} AlternativeOneTlv(S: Schema, k: Kind, d: nat, b: seq<Byte>)
    requires k.Choice?
    ensures DecAlternative(S, k, d, b).Parsed? ==> ReadTlv(b).Parsed? && DecAlternative(S, k, d, b).rest == ReadTlv(b).rest
    decreases d, 3
  {
    hide ReadTlv, Dec, DecTagged, FindAlt;
    var a := FindAlt(k, PeekTag(b));
    if a.Some? && a.value < |k.alts| {
      var m := k.alts[a.value];
      DecOneTlv(S, m.t, d, b);
      TaggedOneTlv(S, m, d, b);
    }
  }

  lemma TaggedOneTlv(S: Schema, m: Member, d: nat, b: seq<Byte>)
    ensures m.tagging.Own? ==> DecTagged(S, m, false, d, b) == Dec(S, m.t, d, b)
    ensures !m.tagging.Own? && DecTagged(S, m, false, d, b).Parsed? ==>
              ReadTlv(b).Parsed? && DecTagged(S, m, false, d, b).rest == ReadTlv(b).rest
  {
    hide ReadTlv, Dec, DecValue;
  }

  // The contents of one TLV are a list of one element, or of none that decodes.
  lemma OneElement(S: Schema, elem: nat, d: nat, b: seq<Byte>, ws: seq<Value>)
    requires ReadTlv(b).Parsed? && ReadTlv(b).rest == []
    ensures DecElements(S, elem, d, b) == Some(ws) <==> |ws| == 1 && Dec(S, elem, d, b) == Parsed(ws[0], [])
  {
    hide Dec, ReadTlv;
    DecOneTlv(S, elem, d, b);
    assert DecElements(S, elem, d, []) == Some([]);
    var r := Dec(S, elem, d, b);
    if r.Parsed? { assert [r.v] + [] == [r.v]; }
    if |ws| == 1 { assert ws == [ws[0]]; }
  }

  lemma WholeTlv(t: Tag, value: seq<Byte>)
    requires TagOk(t) && |value| < U64
    ensures ReadTlv(TlvOctets(t, value)) == Parsed(Tlv(t, value, false), [])
  {
    TlvStarts(t, value);
  }

  // An EXPLICIT list comes back exactly when it has one element and that
  // element is what its own encoding behind the list's natural tag reads as.
  lemma ListOverride(S: Schema, m: Member, v: Value, d: nat, s: seq<Byte>)
    requires WellTagged(S) && Overridden(S, m, v) && S[m.t].kind.SeqOf? && SurvivesAs(S, S[m.t].kind, v, d)
    ensures SeenAs(S, S[m.t].kind, v).ListV? && |SeenAs(S, S[m.t].kind, v).items| == |v.items|
    ensures Back(S, m, v, d, s) == Parsed(SeenAs(S, S[m.t].kind, v), s)
       <==> !S[m.t].explicit
            || (|v.items| == 1 && Dec(S, S[m.t].kind.elem, d - 1, Carried(S, m.t, v).value) == Parsed(SeenAs(S, S[m.t].kind, v).items[0], []))
  {
    hide TlvOctets, ReadTlv, WellTagged, Dec, DecElements, SeenAs, KindOk, EncContent;
    SeenSize(S, S[m.t].kind, v);
    KindOf(S, m.t);
    BackIsValue(S, m, v, d, s);
    var k := S[m.t].kind;
    if S[m.t].explicit {
      var inner := EncContent(S, k, v).value;
      TlvGrows(S[m.t].natural, inner);
      WholeTlv(S[m.t].natural, inner);
      OneElement(S, k.elem, d - 1, Carried(S, m.t, v).value, SeenAs(S, k, v).items);
    } else {
      RoundTripContent(S, k, v, d);
    }
  }

  lemma SeenSize(S: Schema, k: Kind, v: Value)
    requires k.SeqOf? && v.ListV?
    ensures SeenAs(S, k, v).ListV? && |SeenAs(S, k, v).items| == |v.items|
  {
    var encs, vals := EncList(S, k.elem, v.items), SeenList(S, k.elem, v.items);
    if encs.Some? { SortSize(Zip(encs.value, vals)); }
  }

  lemma {:induction false} SortSize(ps: seq<Pair>)
    ensures |SortPairs(ps)| == |ps|
    decreases |ps|
  {
    if ps != [] {
      SortSize(ps[..|ps| - 1]);
      InsertSize(SortPairs(ps[..|ps| - 1]), ps[|ps| - 1]);
    }
  }

  lemma {:induction false} InsertSize(ps: seq<Pair>, p: Pair)
    ensures |InsertPair(ps, p)| == |ps| + 1
    decreases |ps|
  {
    if ps != [] { InsertSize(ps[..|ps| - 1], p); }
  }

  // ---- SEQUENCE and SET ----

  // The member takes no TLV with the tag: it is not recognised by it, and an
  // untagged CHOICE does not dispatch on it.
  predicate Misses(S: Schema, m: Member, g: Tag) {
    && !BelongsTag(g, MatchTags(S, m))
    && (m.tagging.Own? && m.t < |S| && S[m.t].kind.Choice? && !S[m.t].explicit ==> FindAlt(S[m.t].kind, g).None?)
  }

  predicate AllOptional(ms: seq<Member>) {
    forall i :: 0 <= i < |ms| ==> ms[i].optional
  }

  function Defaults(ms: seq<Member>): (fs: seq<Field>)
    ensures |fs| == |ms|
  {
    if ms == [] then [] else [ms[0].dflt] + Defaults(ms[1..])
  }

  lemma MemberMisses(S: Schema, m: Member, d: nat, g: Tag, value: seq<Byte>)
    requires MemberOk(S, m) && Recognised(S, m) && Misses(S, m, g) && TagOk(g) && |value| < U64
    ensures var b := TlvOctets(g, value);
            !Present(S, m, b) && (DecTagged(S, m, true, d, b).Failed? || DecTagged(S, m, true, d, b) == Parsed(NoChoice, []))
  {
    hide TlvOctets, ReadTlv, DecValue, DecContent, FindAlt, ChoiceTags, PeekTag, TagComplete, TagSize, IsTlv;
    TlvStarts(g, value);
    assert !BelongsTag(g, Lead(S, m));
    if !m.tagging.Own? {
      assert !Matches(g, [m.tag][0]);
    } else {
      OwnMisses(S, m.t, d, g, value);
    }
  }

  lemma OwnMisses(S: Schema, t: nat, d: nat, g: Tag, value: seq<Byte>)
    requires t < |S| && !BelongsTag(g, LeadOf(S, t)) && TagOk(g) && |value| < U64
    requires S[t].kind.Choice? && !S[t].explicit ==> FindAlt(S[t].kind, g).None?
    ensures var r := Dec(S, t, d, TlvOctets(g, value)); r.Failed? || r == Parsed(NoChoice, [])
  {
    hide TlvOctets, ReadTlv, DecContent, FindAlt, ChoiceTags, PeekTag, TagComplete, TagSize, IsTlv, DecTagged;
    var b, k := TlvOctets(g, value), S[t].kind;
    TlvStarts(g, value);
    if k.Choice? && !S[t].explicit {
      if d > 0 { assert DecAs(S, k, S[t].tag, d, b) == DecAlternative(S, k, d - 1, b); }
    } else {
      assert !Matches(g, [S[t].tag][0]);
    }
  }

  // Members that all miss the only TLV: optional ones read as their DEFAULT or
  // as absent, a mandatory one fails or skips it.
  lemma {:induction false} MembersMiss(S: Schema, ms: seq<Member>, d: nat, g: Tag, value: seq<Byte>)
    requires TagOk(g) && |value| < U64
    requires forall i :: 0 <= i < |ms| ==> MemberOk(S, ms[i]) && Recognised(S, ms[i]) && Misses(S, ms[i], g)
    ensures AllOptional(ms) ==> DecMembers(S, ms, d, TlvOctets(g, value)) == Parsed(Defaults(ms), TlvOctets(g, value))
    ensures var r := DecMembers(S, ms, d, TlvOctets(g, value));
            !AllOptional(ms) && r.Parsed? ==> exists j :: 0 <= j < |ms| && !ms[j].optional && r.v[j] == Has(NoChoice)
    decreases |ms|
  {
    hide TlvOctets, DecTagged, Present, MemberOk, Recognised, Misses;
    if ms != [] {
      var b := TlvOctets(g, value);
      MemberMisses(S, ms[0], d, g, value);
      var r := DecMembers(S, ms, d, b);
      if ms[0].optional {
        forall i | 0 <= i < |ms[1..]| ensures MemberOk(S, ms[1..][i]) && Recognised(S, ms[1..][i]) && Misses(S, ms[1..][i], g) {
          assert ms[1..][i] == ms[i + 1];
        }
        MembersMiss(S, ms[1..], d, g, value);
        assert AllOptional(ms) <==> AllOptional(ms[1..]) by { OptionalTail(ms); }
        var rest := DecMembers(S, ms[1..], d, b);
        if !AllOptional(ms) && r.Parsed? {
          var j :| 0 <= j < |ms[1..]| && !ms[1..][j].optional && rest.v[j] == Has(NoChoice);
          assert r.v == [ms[0].dflt] + rest.v;
          assert !ms[j + 1].optional && r.v[j + 1] == Has(NoChoice);
        }
      } else if r.Parsed? {
        assert r.v[0] == Has(NoChoice);
      }
    }
  }

  lemma OptionalTail(ms: seq<Member>)
    requires ms != []
    ensures AllOptional(ms) <==> ms[0].optional && AllOptional(ms[1..])
  {
    if ms[0].optional && AllOptional(ms[1..]) {
      forall i | 0 <= i < |ms| ensures ms[i].optional { if i > 0 { assert ms[1..][i - 1] == ms[i]; } }
    }
    if AllOptional(ms) {
      forall i | 0 <= i < |ms[1..]| ensures ms[1..][i].optional { assert ms[1..][i] == ms[i + 1]; }
    }
  }

  // What is encoded is not seen as an unknown alternative.
  lemma SeenIsKnown(S: Schema, m: Member, v: Value)
    requires EncTagged(S, m, v).Some?
    ensures Seen(S, m.t, v) != NoChoice
  {
    hide EncContent, EncTagged, EncList, SortPairs;
    assert Enc(S, m.t, v).Some? by { InnerSome(S, m, v); }
    var k := S[m.t].kind;
    assert EncAs(S, k, if S[m.t].explicit then S[m.t].natural else S[m.t].tag, v).Some?;
    if !k.Choice? { KnownContent(S, k, v); }
  }

  lemma InnerSome(S: Schema, m: Member, v: Value)
    requires EncTagged(S, m, v).Some?
    ensures Enc(S, m.t, v).Some?
  {
    hide EncAs;
  }

  lemma KnownContent(S: Schema, k: Kind, v: Value)
    requires EncContent(S, k, v).Some?
    ensures v != NoChoice
  {
  }

  lemma {:induction false} MandatorySeen(S: Schema, ms: seq<Member>, fs: seq<Field>, d: nat, j: nat)
    requires |ms| == |fs| && FieldsSurvive(S, ms, fs, d) && EncMembers(S, ms, fs).Some?
    requires j < |ms| && MemberOk(S, ms[j]) && !ms[j].optional
    ensures SeenFields(S, ms, fs)[j] != Has(NoChoice)
    decreases j
  {
    hide EncTagged, Seen, Survives;
    if j == 0 { SeenIsKnown(S, ms[0], fs[0].v); } else { MandatorySeen(S, ms[1..], fs[1..], d, j - 1); }
  }

  // A SET whose only component belongs to no member.
  lemma UnknownComponent(S: Schema, ms: seq<Member>, g: Tag, value: seq<Byte>)
    requires TagOk(g) && |value| < U64 && forall i :: 0 <= i < |ms| ==> Misses(S, ms[i], g)
    ensures SetContents(S, ms, TlvOctets(g, value)) == Some(TlvOctets(g, value))
  {
    hide TlvOctets, MatchTags, IsTlv, PeekTag, TagComplete, TagSize;
    var b, tags := TlvOctets(g, value), AllMatchTags(S, ms);
    TlvStarts(g, value);
    assert Flat([b]) == b by { assert Flat([]) == []; }
    SplitFlat([b]);
    var none: seq<seq<Byte>> := [];
    assert [b][..0] == none;
    var slots := EmptySlots(|tags|);
    forall i | 0 <= i < |ms| ensures !Belongs(b, tags[i]) { assert Misses(S, ms[i], g); }
    FlatEmpty(|tags|);
    assert PlaceAll(tags, [b]) == Placed(slots, [b]);
    assert Split(b) == Some([b]);
    assert TableOrder(tags, [b]) == [] + b == b;
  }

  lemma {:induction false} FlatEmpty(n: nat)
    ensures Flat(EmptySlots(n)) == []
  {
    if n > 0 {
      assert EmptySlots(n)[1..] == EmptySlots(n - 1);
      FlatEmpty(n - 1);
    }
  }

  // An EXPLICIT SEQUENCE or SET whose natural tag no member takes comes back
  // exactly when all members are optional and none is seen with a value other
  // than its DEFAULT.
  lemma RecordOverride(S: Schema, m: Member, v: Value, d: nat, s: seq<Byte>)
    requires WellTagged(S) && Overridden(S, m, v) && S[m.t].kind.Sequence? && SurvivesAs(S, S[m.t].kind, v, d)
    requires forall i :: 0 <= i < |S[m.t].kind.members| ==> Misses(S, S[m.t].kind.members[i], S[m.t].natural)
    ensures Back(S, m, v, d, s) == Parsed(SeenAs(S, S[m.t].kind, v), s)
       <==> !S[m.t].explicit
            || (AllOptional(S[m.t].kind.members) && SeenFields(S, S[m.t].kind.members, v.fields) == Defaults(S[m.t].kind.members))
  {
    hide TlvOctets, WellTagged, DecMembers, SeenFields, EncMembers, FieldsSurvive, MemberOk, Recognised, Misses, TagsApart, SetContents, AllOptional, Defaults;
    KindOf(S, m.t);
    BackIsValue(S, m, v, d, s);
    var k, g := S[m.t].kind, S[m.t].natural;
    var ms := k.members;
    if S[m.t].explicit {
      var inner := EncContent(S, k, v).value;
      TlvGrows(g, inner);
      UnknownComponent(S, ms, g, inner);
      RecordFacts(S, ms, k.isSet);
      MembersMiss(S, ms, d - 1, g, inner);
      var r := DecMembers(S, ms, d - 1, TlvOctets(g, inner));
      if !AllOptional(ms) && r.Parsed? {
        var j :| 0 <= j < |ms| && !ms[j].optional && r.v[j] == Has(NoChoice);
        MandatorySeen(S, ms, v.fields, d - 1, j);
      }
    } else {
      RoundTripContent(S, k, v, d);
    }
  }

  // ---- instances ----

  const NULL_TAG := Tag(0, 5, false)
  const BOOLEAN_TAG := Tag(0, 1, false)
  const SEQUENCE_TAG := Tag(0, 16, true)
  const WRAPPER := Tag(2, 5, true)

  // [5] EXPLICIT BOOLEAN, NULL, SEQUENCE {a NULL OPTIONAL}, [5] EXPLICIT
  // SEQUENCE OF and [5] EXPLICIT SEQUENCE {a ... OPTIONAL} of that SEQUENCE.
  const WRAPPED: Schema :=
    [Desc(WRAPPER, true, BOOLEAN_TAG, Boolean),
     Desc(NULL_TAG, false, NULL_TAG, Null),
     Desc(SEQUENCE_TAG, false, SEQUENCE_TAG, Sequence([Member(1, Own, NULL_TAG, true, Absent)], false)),
     Desc(WRAPPER, true, SEQUENCE_TAG, SeqOf(2, false)),
     Desc(WRAPPER, true, SEQUENCE_TAG, Sequence([Member(2, Own, SEQUENCE_TAG, true, Absent)], false))]

  function Override(t: nat): Member {
    Member(t, Implicit, Tag(2, 6, true), false, Absent)
  }

  // FALSE is written as A6 03 01 01 00 and read as TRUE.
  lemma FalseTurnsTrue(d: nat, s: seq<Byte>)
    ensures EncTagged(WRAPPED, Override(0), BoolV(false)) == Some([0xA6, 3, 1, 1, 0])
    ensures Back(WRAPPED, Override(0), BoolV(false), d, s) == Parsed(BoolV(true), s)
  {
    var m, v := Override(0), BoolV(false);
    assert LengthOctets(1) == [1] && LengthOctets(3) == [3];
    assert TagOctets(BOOLEAN_TAG) == [1] && TagOctets(WRAPPER) == [0xA5] && TagOctets(Tag(2, 6, true)) == [0xA6];
    assert TlvOctets(BOOLEAN_TAG, [0]) == [1, 1, 0];
    assert TlvOctets(WRAPPER, [1, 1, 0]) == [0xA5, 3, 1, 1, 0];
    assert Carried(WRAPPED, 0, v) == Some([1, 1, 0]);
    assert Enc(WRAPPED, 0, v) == Some([0xA5, 3, 1, 1, 0]);
    OverrideTlv(WRAPPER, Tag(2, 6, true), [1, 1, 0]);
    assert TlvOctets(Tag(2, 6, true), [1, 1, 0]) == [0xA6, 3, 1, 1, 0];
    hide TlvOctets, TagOctets, LengthOctets, TagComplete, TagSize;
    BooleanOverride(WRAPPED, m, false, d, s);
  }

  // Reading the inner SEQUENCE from one that holds only unknown components.
  lemma EmptyRecordRead(d: nat)
    requires d > 0
    ensures var inner := TlvOctets(SEQUENCE_TAG, []);
            Dec(WRAPPED, 2, d, TlvOctets(SEQUENCE_TAG, inner)) == Parsed(RecordV([Absent]), [])
  {
    hide TlvOctets, ReadTlv, PeekTag, TagComplete, TagSize;
    var inner := TlvOctets(SEQUENCE_TAG, []);
    assert |inner| == 2 by { ShortTlv(SEQUENCE_TAG, []); }
    TlvStarts(SEQUENCE_TAG, []);
    TlvStarts(SEQUENCE_TAG, inner);
    var ms := WRAPPED[2].kind.members;
    assert !Present(WRAPPED, ms[0], inner);
    assert DecMembers(WRAPPED, ms[1..], d - 1, inner) == Parsed([], inner);
    assert [Absent] + [] == [Absent];
    assert DecMembers(WRAPPED, ms, d - 1, inner) == Parsed([Absent], inner);
    assert DecContent(WRAPPED, WRAPPED[2].kind, d, inner) == Some(RecordV([Absent]));
    assert DecAs(WRAPPED, WRAPPED[2].kind, SEQUENCE_TAG, d, TlvOctets(SEQUENCE_TAG, inner)) == Parsed(RecordV([Absent]), []);
  }

  // A list of one empty SEQUENCE does come back,
  lemma OneEmptyElement(d: nat, s: seq<Byte>)
    requires d > 1
    ensures Back(WRAPPED, Override(3), ListV([RecordV([Absent])]), d, s) == Parsed(ListV([RecordV([Absent])]), s)
  {
    hide TlvOctets, ReadTlv, Dec;
    var v, inner := ListV([RecordV([Absent])]), TlvOctets(SEQUENCE_TAG, []);
    assert inner == [0x30, 0x00] by { ShortTlv(SEQUENCE_TAG, []); }
    assert Enc(WRAPPED, 2, v.items[0]) == Some(inner) by { EmptyRecordWritten(); }
    assert EncList(WRAPPED, 2, v.items[1..]) == Some([]);
    assert [inner] + [] == [inner];
    assert EncList(WRAPPED, 2, v.items) == Some([inner]);
    assert Flat([inner]) == inner by { assert Flat([inner][1..]) == []; }
    assert EncContent(WRAPPED, WRAPPED[3].kind, v) == Some(inner);
    assert Carried(WRAPPED, 3, v) == Some(TlvOctets(SEQUENCE_TAG, inner));
    assert |TlvOctets(SEQUENCE_TAG, inner)| == 4 by { ShortTlv(SEQUENCE_TAG, inner); }
    BackIsValue(WRAPPED, Override(3), v, d, s);
    EmptyRecordRead(d - 1);
    WholeTlv(SEQUENCE_TAG, inner);
    OneElement(WRAPPED, 2, d - 1, TlvOctets(SEQUENCE_TAG, inner), v.items);
  }

  lemma EmptyRecordWritten()
    ensures Enc(WRAPPED, 2, RecordV([Absent])) == Some(TlvOctets(SEQUENCE_TAG, []))
  {
    hide TlvOctets;
    var ms, fs := WRAPPED[2].kind.members, [Absent];
    assert EncMembers(WRAPPED, ms[1..], fs[1..]) == Some([]);
    assert EncMembers(WRAPPED, ms, fs) == Some([]);
  }

  // and so does an empty SEQUENCE in a member that takes the natural tag.
  lemma OneEmptyMember(d: nat, s: seq<Byte>)
    requires d > 1
    ensures Back(WRAPPED, Override(4), RecordV([Has(RecordV([Absent]))]), d, s) == Parsed(RecordV([Has(RecordV([Absent]))]), s)
  {
    hide TlvOctets, ReadTlv, Dec, PeekTag, TagComplete, TagSize;
    var v, inner, ms := RecordV([Has(RecordV([Absent]))]), TlvOctets(SEQUENCE_TAG, []), WRAPPED[4].kind.members;
    assert inner == [0x30, 0x00] by { ShortTlv(SEQUENCE_TAG, []); }
    EmptyRecordWritten();
    assert EncField(WRAPPED, ms[0], v.fields[0]) == Some(inner);
    assert EncMembers(WRAPPED, ms[1..], v.fields[1..]) == Some([]);
    assert EncMembers(WRAPPED, ms, v.fields) == Some(inner + []);
    assert inner + [] == inner;
    assert EncContent(WRAPPED, WRAPPED[4].kind, v) == Some(inner);
    var b := TlvOctets(SEQUENCE_TAG, inner);
    assert |b| == 4 by { ShortTlv(SEQUENCE_TAG, inner); }
    BackIsValue(WRAPPED, Override(4), v, d, s);
    EmptyRecordRead(d - 1);
    TlvStarts(SEQUENCE_TAG, inner);
    assert Matches(PeekTag(b), MatchTags(WRAPPED, ms[0])[0]);
    assert DecTagged(WRAPPED, ms[0], true, d - 1, b) == Parsed(RecordV([Absent]), []);
    assert DecMembers(WRAPPED, ms[1..], d - 1, []) == Parsed([], []);
    assert [Has(RecordV([Absent]))] + [] == [Has(RecordV([Absent]))];
    assert DecMembers(WRAPPED, ms, d - 1, b) == Parsed(v.fields, []);
    assert DecContent(WRAPPED, WRAPPED[4].kind, d, b) == Some(v);
  }
}
