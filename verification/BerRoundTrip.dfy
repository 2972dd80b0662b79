/**
 * Decoding what was BER-encoded: greedy recognition by the next tag recovers
 * every member, and SET components may come in any order.
 */
module BerRoundTrip {
  import opened Bits
  import opened Options
  import opened Integers
  import opened Octets
  import opened BerTlv
  import opened BerOrder
  import opened BerTypes
  import opened BerDispatch

  // ---- well-tagged schemas ----

  // The tags an encoding of the type starts with.
  function LeadOf(S: Schema, t: nat): seq<Tag> {
    if t >= |S| then [] else if S[t].kind.Choice? && !S[t].explicit then ChoiceTags(S[t].kind) else [S[t].tag]
  }

  function Lead(S: Schema, m: Member): seq<Tag> {
    if m.tagging.Own? then LeadOf(S, m.t) else [m.tag]
  }

  predicate TagOk(t: Tag) {
    TagWf(t) && t.number != NO_TAG
  }

  // An IMPLICIT override replaces the only tag of a type that has one.
  predicate MemberOk(S: Schema, m: Member) {
    && m.t < |S| && TagOk(m.tag) && (m.dflt.Has? ==> m.optional)
    && (m.tagging.Implicit? ==> !S[m.t].explicit && !S[m.t].kind.Choice?)
  }

  // A member is recognised by exactly the tags it starts with.
  ghost predicate Recognised(S: Schema, m: Member) {
    forall g: Tag {:trigger BelongsTag(g, MatchTags(S, m))} {:trigger BelongsTag(g, Lead(S, m))} ::
      BelongsTag(g, MatchTags(S, m)) <==> BelongsTag(g, Lead(S, m))
  }

  ghost predicate Apart(S: Schema, m: Member, n: Member) {
    forall g: Tag {:trigger BelongsTag(g, MatchTags(S, m))} {:trigger BelongsTag(g, MatchTags(S, n))} ::
      !(BelongsTag(g, MatchTags(S, m)) && BelongsTag(g, MatchTags(S, n)))
  }

  // An optional member's tags differ from those of every member up to and
  // including the next mandatory one; in a SET all members' tags differ.
  ghost predicate TagsApart(S: Schema, ms: seq<Member>, isSet: bool) {
    forall i, j {:trigger ms[i], ms[j]} :: 0 <= i < j < |ms| && (isSet || forall k :: i <= k < j ==> ms[k].optional) ==> Apart(S, ms[i], ms[j])
  }

  // Every tag of an alternative leads to it, in whichever dispatch form.
  ghost predicate Dispatches(S: Schema, k: Kind)
    requires k.Choice?
  {
    forall a: nat, g: Tag {:trigger BelongsTag(g, Lead(S, k.alts[a]))} :: a < |k.alts| && BelongsTag(g, Lead(S, k.alts[a])) ==>
      FindAlt(k, g) == Some(a) && BelongsTag(g, ChoiceTags(k))
  }

  // The generator's tables say which tags encodings start with.
  ghost predicate KindOk(S: Schema, k: Kind) {
    match k
    case SeqOf(elem, _) => elem < |S|
    case Sequence(ms, isSet) =>
      (forall i :: 0 <= i < |ms| ==> MemberOk(S, ms[i]) && MemberTagOk(S, ms[i])) && TagsApart(S, ms, isSet)
    case Choice(alts, _, _, _) => (forall a :: 0 <= a < |alts| ==> MemberOk(S, alts[a])) && TablesOk(S, k)
    case _ => true
  }

  ghost predicate DescOk(S: Schema, d: Desc) {
    TagOk(d.tag) && TagOk(d.natural) && KindOk(S, d.kind)
  }

  ghost predicate WellTagged(S: Schema) {
    forall t {:trigger DescOk(S, S[t])} :: 0 <= t < |S| ==> DescOk(S, S[t])
  }

  // The lead tags are those encodings start with.
  lemma LeadExact(S: Schema, m: Member, g: Tag)
    requires m.t < |S| && (S[m.t].kind.Choice? ==> TablesOk(S, S[m.t].kind))
    ensures BelongsTag(g, Lead(S, m)) <==> StartsWith(S, m, g)
  {
    hide StartsWith, ChoiceTags, TablesOk, SomeStarts;
    if m.tagging.Own? && S[m.t].kind.Choice? && !S[m.t].explicit {
      ChoiceTagsExact(S, S[m.t].kind, g);
      ChoiceStarts(S, m, g);
    } else {
      OneStart(S, m, g);
      var tag := if m.tagging.Own? then S[m.t].tag else m.tag;
      assert Lead(S, m) == [tag];
      assert BelongsTag(g, [tag]) <==> Matches(g, [tag][0]);
    }
  }

  lemma TypeTables(S: Schema, t: nat)
    requires WellTagged(S) && t < |S| && S[t].kind.Choice?
    ensures TablesOk(S, S[t].kind)
  {
    assert DescOk(S, S[t]);
  }

  // Members are recognised, and tags dispatched, as their encodings need.
  lemma MemberFacts(S: Schema, m: Member)
    requires WellTagged(S) && MemberOk(S, m) && MemberTagOk(S, m)
    ensures Recognised(S, m)
  {
    hide WellTagged, StartsWith, Lead, MatchTags, TablesOk;
    if S[m.t].kind.Choice? { TypeTables(S, m.t); }
    forall g: Tag ensures BelongsTag(g, MatchTags(S, m)) <==> BelongsTag(g, Lead(S, m)) {
      MemberRecognised(S, m, g);
      LeadExact(S, m, g);
    }
  }

  lemma ChoiceFacts(S: Schema, k: Kind)
    requires WellTagged(S) && k.Choice? && KindOk(S, k)
    ensures Dispatches(S, k)
  {
    hide WellTagged, StartsWith, Lead, FindAlt, ChoiceTags, TablesOk;
    forall a: nat, g: Tag | a < |k.alts| && BelongsTag(g, Lead(S, k.alts[a]))
      ensures FindAlt(k, g) == Some(a) && BelongsTag(g, ChoiceTags(k))
    {
      var m := k.alts[a];
      assert MemberOk(S, m);
      if S[m.t].kind.Choice? { TypeTables(S, m.t); }
      LeadExact(S, m, g);
      DispatchExact(S, k, g, a);
      ChoiceTagsExact(S, k, g);
      assert SomeStarts(S, k.alts, g);
    }
  }

  lemma RecordFacts(S: Schema, ms: seq<Member>, isSet: bool)
    requires WellTagged(S) && KindOk(S, Sequence(ms, isSet))
    ensures forall i :: 0 <= i < |ms| ==> MemberOk(S, ms[i]) && Recognised(S, ms[i])
  {
    hide WellTagged, Recognised, TagsApart;
    forall i | 0 <= i < |ms| ensures MemberOk(S, ms[i]) && Recognised(S, ms[i]) { MemberFacts(S, ms[i]); }
  }

  // ---- the value a receiver sees ----

  datatype Pair = Pair(enc: seq<Byte>, val: Value)

  function InsertPair(ps: seq<Pair>, p: Pair): seq<Pair> {
    if ps == [] then [p]
    else if LexLess(p.enc, ps[|ps| - 1].enc) then InsertPair(ps[..|ps| - 1], p) + [ps[|ps| - 1]]
    else ps + [p]
  }

  function SortPairs(ps: seq<Pair>): seq<Pair> {
    if ps == [] then [] else InsertPair(SortPairs(ps[..|ps| - 1]), ps[|ps| - 1])
  }

  function Zip(encs: seq<seq<Byte>>, vals: seq<Value>): (ps: seq<Pair>)
    requires |encs| == |vals|
    ensures |ps| == |encs|
  {
    seq(|encs|, i requires 0 <= i < |encs| => Pair(encs[i], vals[i]))
  }

  function EncsOf(ps: seq<Pair>): (r: seq<seq<Byte>>)
    ensures |r| == |ps|
  {
    seq(|ps|, i requires 0 <= i < |ps| => ps[i].enc)
  }

  function ValsOf(ps: seq<Pair>): (r: seq<Value>)
    ensures |r| == |ps|
  {
    seq(|ps|, i requires 0 <= i < |ps| => ps[i].val)
  }

  // Absent and suppressed members hold their DEFAULT; a SET OF comes back in
  // the order it travels in.
  function Seen(S: Schema, t: nat, v: Value): Value
    decreases v, 4
  {
    if t < |S| then SeenAs(S, S[t].kind, v) else v
  }

  function SeenAs(S: Schema, k: Kind, v: Value): Value
    decreases v, 3
  {
    match k
    case SeqOf(elem, isSetOf) =>
      if !v.ListV? then v
      else
        var encs, vals := EncList(S, elem, v.items), SeenList(S, elem, v.items);
        ListV(if isSetOf && encs.Some? then ValsOf(SortPairs(Zip(encs.value, vals))) else vals)
    case Sequence(ms, _) => if v.RecordV? && |v.fields| == |ms| then RecordV(SeenFields(S, ms, v.fields)) else v
    case Choice(alts, _, _, _) => if v.ChoiceV? && v.index < |alts| then ChoiceV(v.index, Seen(S, alts[v.index].t, v.v)) else v
    case _ => v
  }

  function SeenList(S: Schema, t: nat, vs: seq<Value>): (r: seq<Value>)
    ensures |r| == |vs|
    decreases vs, 0
  {
    if vs == [] then [] else [Seen(S, t, vs[0])] + SeenList(S, t, vs[1..])
  }

  function SeenField(S: Schema, t: nat, f: Field): Field
    requires f.Has?
    decreases f, 0
  {
    Has(Seen(S, t, f.v))
  }

  // What travels of a member.
  predicate Sent(m: Member, f: Field) {
    f.Has? && f != m.dflt
  }

  function SeenFields(S: Schema, ms: seq<Member>, fs: seq<Field>): (r: seq<Field>)
    requires |ms| == |fs|
    ensures |r| == |fs|
    decreases fs, 0
  {
    if fs == [] then []
    else [if Sent(ms[0], fs[0]) then SeenField(S, ms[0].t, fs[0]) else ms[0].dflt] + SeenFields(S, ms[1..], fs[1..])
  }

  // ---- the values that survive ----

  // Mandatory members are there and nesting stays within `d` levels.
  predicate Survives(S: Schema, t: nat, v: Value, d: nat)
    decreases v, 4
  {
    t < |S| && SurvivesAs(S, S[t].kind, v, d)
  }

  predicate SurvivesAs(S: Schema, k: Kind, v: Value, d: nat)
    decreases v, 3
  {
    match k
    case SeqOf(elem, _) => d > 0 && v.ListV? && ListSurvives(S, elem, v.items, d - 1)
    case Sequence(ms, _) => d > 0 && v.RecordV? && |v.fields| == |ms| && FieldsSurvive(S, ms, v.fields, d - 1)
    case Choice(alts, _, _, _) => d > 0 && v.ChoiceV? && v.index < |alts| && Survives(S, alts[v.index].t, v.v, d - 1)
    case _ => true
  }

  predicate ListSurvives(S: Schema, t: nat, vs: seq<Value>, d: nat)
    decreases vs, 0
  {
    vs != [] ==> Survives(S, t, vs[0], d) && ListSurvives(S, t, vs[1..], d)
  }

  predicate FieldSurvives(S: Schema, t: nat, f: Field, d: nat)
    decreases f, 0
  {
    f.Has? ==> Survives(S, t, f.v, d)
  }

  predicate FieldsSurvive(S: Schema, ms: seq<Member>, fs: seq<Field>, d: nat)
    requires |ms| == |fs|
    decreases fs, 0
  {
    fs != [] ==>
      && (fs[0].Absent? ==> ms[0].optional)
      && (Sent(ms[0], fs[0]) ==> FieldSurvives(S, ms[0].t, fs[0], d))
      && FieldsSurvive(S, ms[1..], fs[1..], d)
  }

  // ---- encodings are TLVs that start with the right tag ----

  // One whole TLV whose tag is among `tags`.
  predicate Starts(e: seq<Byte>, tags: seq<Tag>) {
    e != [] && TagComplete(e) && TagSize(e) <= |e| && IsTlv(e) && BelongsTag(PeekTag(e), tags)
  }

  lemma TlvStarts(t: Tag, value: seq<Byte>)
    requires TagOk(t) && |value| < U64
    ensures Starts(TlvOctets(t, value), [t])
    ensures ReadTlv(TlvOctets(t, value)) == Parsed(Tlv(t, value, false), [])
    ensures PeekTag(TlvOctets(t, value)) == t
  {
    hide TagOctets, LengthOctets, ReadTlv, ReadTag, TagSize, TagComplete;
    var e := TlvOctets(t, value);
    TlvReadBack(t, value, []);
    assert e + [] == e;
    RetagTlv(t, t, value);
    TagSizeExact(t, LengthOctets(|value|) + value);
    assert Matches(PeekTag(e), [t][0]);
  }

  lemma TlvGrows(t: Tag, value: seq<Byte>)
    requires TagWf(t)
    ensures |TlvOctets(t, value)| > |value|
  {
  }

  lemma TlvOfStarts(t: Tag, value: Option<seq<Byte>>)
    requires TagOk(t) && TlvOf(t, value).Some? && |TlvOf(t, value).value| < U64
    ensures value.Some? && |value.value| < |TlvOf(t, value).value| && Starts(TlvOf(t, value).value, [t])
    ensures TlvOf(t, value).value == TlvOctets(t, value.value)
  {
    TlvGrows(t, value.value);
    TlvStarts(t, value.value);
  }

  // Retagging keeps length and value.
  lemma RetagOfTlv(t: Tag, u: Tag, value: Option<seq<Byte>>, e: seq<Byte>)
    requires TagWf(t) && TagOk(u) && TlvOf(t, value) == Some(e)
    ensures TagSize(e) <= |e| && Retag(e, u) == TlvOctets(u, value.value)
  {
    RetagTlv(t, u, value.value);
  }

  lemma SameLead(e: seq<Byte>, t: Tag, u: Tag)
    requires Starts(e, [t]) && Matches(t, u)
    ensures Starts(e, [u])
  {
    assert Matches(PeekTag(e), [u][0]);
  }

  lemma EncStarts(S: Schema, t: nat, v: Value)
    requires WellTagged(S) && t < |S| && Enc(S, t, v).Some? && |Enc(S, t, v).value| < U64
    ensures Starts(Enc(S, t, v).value, LeadOf(S, t))
    decreases v, 4
  {
    hide Starts, EncContent, EncTagged, TlvOf, ChoiceTags;
    assert DescOk(S, S[t]);
    if S[t].explicit {
      TlvOfStarts(S[t].tag, EncAs(S, S[t].kind, S[t].natural, v));
    } else if S[t].kind.Choice? {
      var k := S[t].kind;
      var m := k.alts[v.index];
      TaggedStarts(S, m, v.v);
      AltLeads(S, k, v.index, Enc(S, t, v).value);
    } else {
      TlvOfStarts(S[t].tag, EncContent(S, S[t].kind, v));
    }
  }

  lemma AltLeads(S: Schema, k: Kind, a: nat, e: seq<Byte>)
    requires WellTagged(S) && k.Choice? && KindOk(S, k) && a < |k.alts| && Starts(e, Lead(S, k.alts[a]))
    ensures Starts(e, ChoiceTags(k)) && FindAlt(k, PeekTag(e)) == Some(a)
  {
    hide IsTlv, TagComplete, TagSize, PeekTag, WellTagged, KindOk, FindAlt, ChoiceTags, Lead;
    ChoiceFacts(S, k);
    assert BelongsTag(PeekTag(e), Lead(S, k.alts[a]));
  }

  lemma TaggedStarts(S: Schema, m: Member, v: Value)
    requires WellTagged(S) && MemberOk(S, m) && EncTagged(S, m, v).Some? && |EncTagged(S, m, v).value| < U64
    ensures Starts(EncTagged(S, m, v).value, Lead(S, m))
    decreases v, 5
  {
    hide Starts, EncContent, TlvOf, ChoiceTags, EncAs;
    match m.tagging
    case Own => EncStarts(S, m.t, v);
    case Explicit =>
      var u := Tag(m.tag.cls, m.tag.number, true);
      TlvOfStarts(u, Enc(S, m.t, v));
      SameLead(EncTagged(S, m, v).value, u, m.tag);
    case Implicit =>
      ImplicitTlv(S, m, v);
      var u := Tag(m.tag.cls, m.tag.number, S[m.t].tag.constructed);
      TlvGrows(u, EncContent(S, S[m.t].kind, v).value);
      TlvStarts(u, EncContent(S, S[m.t].kind, v).value);
      SameLead(EncTagged(S, m, v).value, u, m.tag);
  }

  // An IMPLICIT override is encoding with the other tag from the start.
  lemma ImplicitTlv(S: Schema, m: Member, v: Value)
    requires WellTagged(S) && MemberOk(S, m) && m.tagging.Implicit? && EncTagged(S, m, v).Some?
    ensures var u := Tag(m.tag.cls, m.tag.number, S[m.t].tag.constructed);
            && EncContent(S, S[m.t].kind, v).Some?
            && EncTagged(S, m, v).value == TlvOctets(u, EncContent(S, S[m.t].kind, v).value)
  {
    hide EncContent, TagSize, TagComplete, TlvOctets;
    assert DescOk(S, S[m.t]);
    var u := Tag(m.tag.cls, m.tag.number, S[m.t].tag.constructed);
    assert Enc(S, m.t, v) == EncAs(S, S[m.t].kind, S[m.t].tag, v);
    assert EncAs(S, S[m.t].kind, S[m.t].tag, v) == TlvOf(S[m.t].tag, EncContent(S, S[m.t].kind, v));
    RetagOfTlv(S[m.t].tag, u, EncContent(S, S[m.t].kind, v), Enc(S, m.t, v).value);
  }

  // ---- reading one TLV back ----

  lemma ReadWhole(e: seq<Byte>, s: seq<Byte>, t: Tag, value: seq<Byte>)
    requires TagOk(t) && |value| < U64 && e == TlvOctets(t, value)
    ensures ReadTlv(e + s) == Parsed(Tlv(t, value, false), s)
  {
    TlvReadBack(t, value, s);
  }

  lemma PeekLocal(e: seq<Byte>, s: seq<Byte>)
    requires IsTlv(e)
    ensures PeekTag(e + s) == PeekTag(e)
  {
    hide ReadTag, ReadLength, SkipLevels;
    TagLocal(e, s);
  }

  // ---- components ----

  // The encodings of the members that travel.
  function SentEncs(S: Schema, ms: seq<Member>, fs: seq<Field>): seq<seq<Byte>>
    requires |ms| == |fs|
  {
    if ms == [] then []
    else if Sent(ms[0], fs[0]) && EncField(S, ms[0], fs[0]).Some? then [EncField(S, ms[0], fs[0]).value] + SentEncs(S, ms[1..], fs[1..])
    else SentEncs(S, ms[1..], fs[1..])
  }

  // The same, one slot per member.
  function SlotsOf(S: Schema, ms: seq<Member>, fs: seq<Field>): (r: seq<seq<Byte>>)
    requires |ms| == |fs|
    ensures |r| == |ms|
  {
    if ms == [] then []
    else [if Sent(ms[0], fs[0]) && EncField(S, ms[0], fs[0]).Some? then EncField(S, ms[0], fs[0]).value else []] + SlotsOf(S, ms[1..], fs[1..])
  }

  lemma {:induction false} MembersFlat(S: Schema, ms: seq<Member>, fs: seq<Field>, d: nat)
    requires |ms| == |fs| && FieldsSurvive(S, ms, fs, d) && EncMembers(S, ms, fs).Some?
    ensures Flat(SentEncs(S, ms, fs)) == EncMembers(S, ms, fs).value && Flat(SlotsOf(S, ms, fs)) == EncMembers(S, ms, fs).value
    decreases |ms|
  {
    hide EncField, Survives;
    if ms != [] {
      MembersFlat(S, ms[1..], fs[1..], d);
      var rest := SentEncs(S, ms[1..], fs[1..]);
      if Sent(ms[0], fs[0]) { assert ([EncField(S, ms[0], fs[0]).value] + rest)[1..] == rest; }
      else { assert [] + Flat(SlotsOf(S, ms[1..], fs[1..])) == Flat(SlotsOf(S, ms[1..], fs[1..])); }
    }
  }

  // What follows does not look like an optional member of `ms`.
  ghost predicate Foreign(S: Schema, ms: seq<Member>, s: seq<Byte>) {
    forall i {:trigger ms[i]} :: 0 <= i < |ms| && ms[i].optional ==> !Present(S, ms[i], s)
  }

  lemma ForeignTail(S: Schema, ms: seq<Member>, s: seq<Byte>)
    requires ms != [] && Foreign(S, ms, s)
    ensures Foreign(S, ms[1..], s) && (ms[0].optional ==> !Present(S, ms[0], s))
  {
    hide Present;
    forall i | 0 <= i < |ms[1..]| && ms[1..][i].optional ensures !Present(S, ms[1..][i], s) {
      assert ms[1..][i] == ms[i + 1];
    }
    assert ms[0] == ms[0];
  }

  // An optional member that does not travel is not recognised in what follows.
  lemma {:induction false} NotPresent(S: Schema, m: Member, ms: seq<Member>, fs: seq<Field>, d: nat, s: seq<Byte>)
    requires WellTagged(S) && |ms| == |fs| && FieldsSurvive(S, ms, fs, d) && EncMembers(S, ms, fs).Some?
    requires |EncMembers(S, ms, fs).value| < U64
    requires m.optional && !Present(S, m, s)
    requires forall i :: 0 <= i < |ms| ==> MemberOk(S, ms[i]) && Recognised(S, ms[i])
    requires forall j {:trigger ms[j]} :: 0 <= j < |ms| && (forall k :: 0 <= k < j ==> ms[k].optional) ==> Apart(S, m, ms[j])
    ensures !Present(S, m, EncMembers(S, ms, fs).value + s)
    decreases |ms|
  {
    hide EncField, Survives, Recognised, Apart, Present, MemberOk;
    if ms == [] {
      assert EncMembers(S, ms, fs).value + s == s;
    } else if Sent(ms[0], fs[0]) {
      var e, rest := EncField(S, ms[0], fs[0]).value, EncMembers(S, ms[1..], fs[1..]).value;
      assert (e + rest) + s == e + (rest + s);
      assert Apart(S, m, ms[0]);
      NotPresentIn(S, m, ms[0], fs[0], rest + s);
    } else {
      DefaultsOptional(S, ms[0], fs[0]);
      forall j | 0 <= j < |ms[1..]| && (forall k :: 0 <= k < j ==> ms[1..][k].optional) ensures Apart(S, m, ms[1..][j]) {
        assert ms[1..][j] == ms[j + 1];
        forall k | 0 <= k < j + 1 ensures ms[k].optional {
          if k > 0 { assert ms[1..][k - 1] == ms[k]; }
        }
      }
      forall i | 0 <= i < |ms[1..]| ensures MemberOk(S, ms[1..][i]) && Recognised(S, ms[1..][i]) { assert ms[1..][i] == ms[i + 1]; }
      NotPresent(S, m, ms[1..], fs[1..], d, s);
    }
  }

  lemma NotPresentIn(S: Schema, m: Member, n: Member, f: Field, s: seq<Byte>)
    requires WellTagged(S) && MemberOk(S, n) && Recognised(S, n) && Apart(S, m, n)
    requires f.Has? && EncField(S, n, f).Some? && |EncField(S, n, f).value| < U64
    ensures !Present(S, m, EncField(S, n, f).value + s)
  {
    hide EncTagged, MatchTags, Lead, IsTlv, PeekTag;
    var e := EncField(S, n, f).value;
    FieldStarts(S, n, f);
    PeekLocal(e, s);
    assert BelongsTag(PeekTag(e), Lead(S, n));
    assert BelongsTag(PeekTag(e), MatchTags(S, n));
  }

  lemma FieldStarts(S: Schema, m: Member, f: Field)
    requires WellTagged(S) && MemberOk(S, m) && f.Has? && EncField(S, m, f).Some? && |EncField(S, m, f).value| < U64
    ensures Starts(EncField(S, m, f).value, Lead(S, m))
  {
    TaggedStarts(S, m, f.v);
  }

  // A member that travels is recognised.
  lemma PresentIn(S: Schema, m: Member, f: Field, s: seq<Byte>)
    requires WellTagged(S) && MemberOk(S, m) && Recognised(S, m)
    requires f.Has? && EncField(S, m, f).Some? && |EncField(S, m, f).value| < U64
    ensures Present(S, m, EncField(S, m, f).value + s)
  {
    hide EncTagged, MatchTags, Lead, IsTlv, PeekTag;
    FieldStarts(S, m, f);
    PeekLocal(EncField(S, m, f).value, s);
  }

  // ---- the theorem ----

  // A well-tagged schema's decoder reads back every surviving value, up to
  // absent DEFAULTs and SET OF order, and stops where the encoding ends.
  lemma {:induction false} RoundTrip(S: Schema, t: nat, v: Value, d: nat, s: seq<Byte>)
    requires WellTagged(S) && Survives(S, t, v, d) && Enc(S, t, v).Some? && |Enc(S, t, v).value| < U64
    ensures Dec(S, t, d, Enc(S, t, v).value + s) == Parsed(Seen(S, t, v), s)
    decreases v, 4
  {
    hide EncAs, DecAs, SeenAs, KindOk, ReadTlv, TlvOctets;
    assert DescOk(S, S[t]);
    var k := S[t].kind;
    CountsDeep(S, k, v, d);
    if S[t].explicit {
      var inner := EncAs(S, k, S[t].natural, v).value;
      TlvGrows(S[t].tag, inner);
      ReadWhole(Enc(S, t, v).value, s, S[t].tag, inner);
      RoundTripAs(S, k, S[t].natural, v, d, []);
      assert inner + [] == inner;
    } else {
      RoundTripAs(S, k, S[t].tag, v, d, s);
    }
  }

  lemma CountsDeep(S: Schema, k: Kind, v: Value, d: nat)
    requires SurvivesAs(S, k, v, d)
    ensures Counts(k) ==> d > 0
  {
  }

  lemma {:induction false} RoundTripAs(S: Schema, k: Kind, tag: Tag, v: Value, d: nat, s: seq<Byte>)
    requires WellTagged(S) && KindOk(S, k) && TagOk(tag) && SurvivesAs(S, k, v, d)
    requires EncAs(S, k, tag, v).Some? && |EncAs(S, k, tag, v).value| < U64
    ensures DecAs(S, k, tag, d, EncAs(S, k, tag, v).value + s) == Parsed(SeenAs(S, k, v), s)
    decreases v, 3
  {
    hide EncContent, DecContent, ReadTlv, TlvOctets, EncTagged, DecAlternative, WellTagged;
    if k.Choice? {
      hide KindOk;
      RoundTripChoice(S, k, v, d - 1, s);
    } else {
      hide SeenAs, KindOk;
      var content := EncContent(S, k, v).value;
      TlvGrows(tag, content);
      ReadWhole(EncAs(S, k, tag, v).value, s, tag, content);
      RoundTripContent(S, k, v, d);
      BooleanSize(S, k, v);
    }
  }

  lemma BooleanSize(S: Schema, k: Kind, v: Value)
    requires EncContent(S, k, v).Some?
    ensures k.Boolean? ==> |EncContent(S, k, v).value| == 1
  {
  }

  lemma IntegerReadBack(i: int)
    requires I64_MIN <= i <= I64_MAX
    ensures 1 <= |SignedOctets(i)| <= 8 && SignedBig(SignedOctets(i)) == i
  {
    I64FitsOctets(i);
    SOctetsLeast(i, 8);
    SOctetsBounds(i);
    SignedToOctets(i, SOctets(i));
  }

  lemma {:induction false} RoundTripContent(S: Schema, k: Kind, v: Value, d: nat)
    requires WellTagged(S) && KindOk(S, k) && !k.Choice? && SurvivesAs(S, k, v, d)
    requires EncContent(S, k, v).Some? && |EncContent(S, k, v).value| < U64
    ensures DecContent(S, k, d, EncContent(S, k, v).value) == Some(SeenAs(S, k, v))
    decreases v, 2
  {
    hide WellTagged, SetContents, SignedOctets, SignedBig, EncMembers, EncList, DecMembers, DecElements, SeenFields, SeenList;
    match k
    case Boolean =>
    case Integer => IntegerReadBack(v.i);
    case Null =>
    case OctetString =>
    case SeqOf(elem, isSetOf) => RoundTripList(S, elem, isSetOf, v.items, d - 1);
    case Sequence(ms, isSet) =>
      if isSet { OwnOrder(S, ms, v.fields, d - 1); } else { RoundTripSequence(S, ms, v.fields, d - 1); }
  }

  // ---- lists ----

  lemma {:induction false} InsertPairEncs(ps: seq<Pair>, p: Pair)
    ensures EncsOf(InsertPair(ps, p)) == Insert(EncsOf(ps), p.enc)
  {
    if ps != [] && LexLess(p.enc, ps[|ps| - 1].enc) {
      InsertPairEncs(ps[..|ps| - 1], p);
      assert EncsOf(ps)[..|ps| - 1] == EncsOf(ps[..|ps| - 1]);
    }
  }

  lemma {:induction false} SortPairsEncs(ps: seq<Pair>)
    ensures EncsOf(SortPairs(ps)) == Sort(EncsOf(ps))
  {
    if ps != [] {
      SortPairsEncs(ps[..|ps| - 1]);
      InsertPairEncs(SortPairs(ps[..|ps| - 1]), ps[|ps| - 1]);
      assert EncsOf(ps)[..|ps| - 1] == EncsOf(ps[..|ps| - 1]);
    }
  }

  lemma {:induction false} InsertPairMembers(ps: seq<Pair>, p: Pair)
    ensures multiset(InsertPair(ps, p)) == multiset(ps) + multiset{p}
  {
    if ps != [] && LexLess(p.enc, ps[|ps| - 1].enc) {
      InsertPairMembers(ps[..|ps| - 1], p);
      assert ps == ps[..|ps| - 1] + [ps[|ps| - 1]];
    }
  }

  lemma {:induction false} SortPairsMembers(ps: seq<Pair>)
    ensures multiset(SortPairs(ps)) == multiset(ps)
  {
    hide InsertPair;
    if ps != [] {
      SortPairsMembers(ps[..|ps| - 1]);
      InsertPairMembers(SortPairs(ps[..|ps| - 1]), ps[|ps| - 1]);
      assert ps == ps[..|ps| - 1] + [ps[|ps| - 1]];
    }
  }

  // `p.enc` followed by anything is read as `p.val`.
  ghost predicate ReadsAs(S: Schema, t: nat, d: nat, p: Pair) {
    p.enc != [] && forall s: seq<Byte> {:trigger p.enc + s} :: Dec(S, t, d, p.enc + s) == Parsed(p.val, s)
  }

  ghost predicate AllRead(S: Schema, t: nat, d: nat, ps: seq<Pair>) {
    forall i {:trigger ps[i]} :: 0 <= i < |ps| ==> ReadsAs(S, t, d, ps[i])
  }

  lemma {:induction false} ElementsRead(S: Schema, t: nat, d: nat, ps: seq<Pair>)
    requires AllRead(S, t, d, ps)
    ensures DecElements(S, t, d, Flat(EncsOf(ps))) == Some(ValsOf(ps))
    decreases |ps|
  {
    hide Dec;
    if ps != [] {
      assert ReadsAs(S, t, d, ps[0]);
      var rest := Flat(EncsOf(ps[1..]));
      assert EncsOf(ps)[1..] == EncsOf(ps[1..]);
      assert Flat(EncsOf(ps)) == ps[0].enc + rest;
      forall i | 0 <= i < |ps[1..]| ensures ReadsAs(S, t, d, ps[1..][i]) { assert ps[1..][i] == ps[i + 1]; }
      ElementsRead(S, t, d, ps[1..]);
      assert ValsOf(ps) == [ps[0].val] + ValsOf(ps[1..]);
    }
  }

  lemma {:induction false} FlatBound(encs: seq<seq<Byte>>, i: nat)
    requires i < |encs|
    ensures |encs[i]| <= |Flat(encs)|
    decreases i
  {
    if i > 0 { FlatBound(encs[1..], i - 1); }
  }

  lemma {:induction false} FlatSize(a: seq<seq<Byte>>, b: seq<seq<Byte>>)
    requires multiset(a) == multiset(b)
    ensures |Flat(a)| == |Flat(b)|
    decreases |a|
  {
    if a == [] {
      NoneOccurs(b);
    } else {
      hide Flat;
      var j := Occurs(b, a[0]);
      FirstOut(a);
      Without(b, j);
      FlatSize(a[1..], b[..j] + b[j + 1..]);
    }
  }

  lemma NoneOccurs<T>(b: seq<T>)
    requires multiset(b) == multiset{}
    ensures b == []
  {
    assert |b| == |multiset(b)|;
  }

  lemma FirstOut(a: seq<seq<Byte>>)
    requires a != []
    ensures |Flat(a)| == |a[0]| + |Flat(a[1..])| && multiset(a[1..]) == multiset(a) - multiset{a[0]}
  {
    assert a == [a[0]] + a[1..];
  }

  lemma Occurs<T>(b: seq<T>, x: T) returns (j: nat)
    requires x in multiset(b)
    ensures j < |b| && b[j] == x
  {
    assert x in b;
    j :| 0 <= j < |b| && b[j] == x;
  }

  lemma Without(b: seq<seq<Byte>>, j: nat)
    requires j < |b|
    ensures |Flat(b)| == |b[j]| + |Flat(b[..j] + b[j + 1..])|
    ensures multiset(b[..j] + b[j + 1..]) == multiset(b) - multiset{b[j]}
  {
    var tail := [b[j]] + b[j + 1..];
    assert b == b[..j] + tail;
    assert tail[1..] == b[j + 1..];
    FlatConcat(b[..j], tail);
    FlatConcat(b[..j], b[j + 1..]);
  }

  lemma {:induction false} FlatConcat(a: seq<seq<Byte>>, b: seq<seq<Byte>>)
    ensures Flat(a + b) == Flat(a) + Flat(b)
  {
    if a == [] {
      assert a + b == b;
    } else {
      assert (a + b)[1..] == a[1..] + b;
      FlatConcat(a[1..], b);
    }
  }

  lemma {:induction false} ListPairs(S: Schema, t: nat, vs: seq<Value>, d: nat)
    requires WellTagged(S) && ListSurvives(S, t, vs, d) && EncList(S, t, vs).Some?
    requires forall i {:trigger EncList(S, t, vs).value[i]} :: 0 <= i < |vs| ==> |EncList(S, t, vs).value[i]| < U64
    ensures AllRead(S, t, d, Zip(EncList(S, t, vs).value, SeenList(S, t, vs)))
    decreases vs, 0
  {
    hide Enc, Dec, Seen, Survives, WellTagged;
    if vs != [] {
      var encs, vals := EncList(S, t, vs).value, SeenList(S, t, vs);
      var p := Pair(encs[0], vals[0]);
      forall s: seq<Byte> ensures Dec(S, t, d, p.enc + s) == Parsed(p.val, s) {
        assert |encs[0]| < U64;
        SurvivesInRange(S, t, vs[0], d);
        RoundTrip(S, t, vs[0], d, s);
      }
      NotEmpty(S, t, d, p);
      forall i | 0 <= i < |vs[1..]| ensures |EncList(S, t, vs[1..]).value[i]| < U64 { assert encs[i + 1] == EncList(S, t, vs[1..]).value[i]; }
      ListPairs(S, t, vs[1..], d);
      PairsCons(S, t, d, encs, vals);
    }
  }

  lemma SurvivesInRange(S: Schema, t: nat, v: Value, d: nat)
    requires Survives(S, t, v, d)
    ensures t < |S|
  {
  }

  lemma NotEmpty(S: Schema, t: nat, d: nat, p: Pair)
    requires forall s: seq<Byte> :: Dec(S, t, d, p.enc + s) == Parsed(p.val, s)
    ensures p.enc != []
  {
    hide Dec;
    assert p.enc + [] == p.enc;
    assert Dec(S, t, d, p.enc + []) == Parsed(p.val, []);
    DecConsumes(S, t, d, p.enc);
  }

  lemma DecConsumes(S: Schema, t: nat, d: nat, b: seq<Byte>)
    ensures Dec(S, t, d, b).Parsed? ==> b != []
  {
  }

  lemma PairsCons(S: Schema, t: nat, d: nat, encs: seq<seq<Byte>>, vals: seq<Value>)
    requires |encs| == |vals| > 0 && ReadsAs(S, t, d, Pair(encs[0], vals[0])) && AllRead(S, t, d, Zip(encs[1..], vals[1..]))
    ensures AllRead(S, t, d, Zip(encs, vals))
  {
    hide ReadsAs;
    var ps := Zip(encs, vals);
    forall i | 0 <= i < |ps| ensures ReadsAs(S, t, d, ps[i]) {
      if i > 0 { assert ps[i] == Zip(encs[1..], vals[1..])[i - 1]; }
    }
  }

  lemma SortedReads(S: Schema, t: nat, d: nat, ps: seq<Pair>)
    requires AllRead(S, t, d, ps)
    ensures AllRead(S, t, d, SortPairs(ps))
  {
    hide ReadsAs;
    SortPairsMembers(ps);
    forall i | 0 <= i < |SortPairs(ps)| ensures ReadsAs(S, t, d, SortPairs(ps)[i]) {
      assert SortPairs(ps)[i] in multiset(ps);
      var j :| 0 <= j < |ps| && ps[j] == SortPairs(ps)[i];
    }
  }

  lemma {:induction false} RoundTripList(S: Schema, t: nat, isSetOf: bool, vs: seq<Value>, d: nat)
    requires WellTagged(S) && ListSurvives(S, t, vs, d) && EncList(S, t, vs).Some?
    requires |Flat(if isSetOf then Sort(EncList(S, t, vs).value) else EncList(S, t, vs).value)| < U64
    ensures var encs, vals := EncList(S, t, vs).value, SeenList(S, t, vs);
            DecElements(S, t, d, Flat(if isSetOf then Sort(encs) else encs))
            == Some(if isSetOf then ValsOf(SortPairs(Zip(encs, vals))) else vals)
    decreases vs, 1
  {
    hide Enc, Dec, Seen, Survives, WellTagged, Sort, SortPairs, EncList, SeenList, Flat, DecElements, AllRead;
    var encs, vals := EncList(S, t, vs).value, SeenList(S, t, vs);
    var ps := Zip(encs, vals);
    if isSetOf { SortCorrect(encs); FlatSize(encs, Sort(encs)); }
    forall i | 0 <= i < |vs| ensures |EncList(S, t, vs).value[i]| < U64 { FlatBound(encs, i); }
    ListPairs(S, t, vs, d);
    assert EncsOf(ps) == encs && ValsOf(ps) == vals;
    if isSetOf {
      SortPairsEncs(ps);
      SortedReads(S, t, d, ps);
      ElementsRead(S, t, d, SortPairs(ps));
    } else {
      ElementsRead(S, t, d, ps);
    }
  }

  // ---- members ----

  lemma TagsApartTail(S: Schema, ms: seq<Member>, isSet: bool)
    requires ms != [] && TagsApart(S, ms, isSet)
    ensures TagsApart(S, ms[1..], isSet)
    ensures ms[0].optional ==>
      forall j {:trigger ms[1..][j]} :: 0 <= j < |ms[1..]| && (forall k :: 0 <= k < j ==> ms[1..][k].optional) ==> Apart(S, ms[0], ms[1..][j])
  {
    hide Apart;
    var tail := ms[1..];
    forall i, j | 0 <= i < j < |tail| && (isSet || forall k :: i <= k < j ==> tail[k].optional) ensures Apart(S, tail[i], tail[j]) {
      assert tail[i] == ms[i + 1] && tail[j] == ms[j + 1];
      if !isSet { forall k | i + 1 <= k < j + 1 ensures ms[k].optional { assert tail[k - 1] == ms[k]; } }
    }
    if ms[0].optional {
      forall j | 0 <= j < |tail| && (forall k :: 0 <= k < j ==> tail[k].optional) ensures Apart(S, ms[0], tail[j]) {
        assert tail[j] == ms[j + 1];
        forall k | 0 <= k < j + 1 ensures ms[k].optional { if k > 0 { assert tail[k - 1] == ms[k]; } }
      }
    }
  }

  // Greedy recognition recovers every member, whatever unknown components follow.
  lemma {:induction false} RoundTripMembers(S: Schema, ms: seq<Member>, isSet: bool, fs: seq<Field>, d: nat, s: seq<Byte>)
    requires WellTagged(S) && |ms| == |fs| && FieldsSurvive(S, ms, fs, d) && TagsApart(S, ms, isSet)
    requires forall i :: 0 <= i < |ms| ==> MemberOk(S, ms[i]) && Recognised(S, ms[i])
    requires EncMembers(S, ms, fs).Some? && |EncMembers(S, ms, fs).value| < U64 && Foreign(S, ms, s)
    ensures DecMembers(S, ms, d, EncMembers(S, ms, fs).value + s) == Parsed(SeenFields(S, ms, fs), s)
    decreases fs, 0
  {
    hide EncField, DecTagged, Survives, FieldSurvives, Recognised, MemberOk, TagsApart, Foreign, Present, WellTagged, Apart;
    if ms == [] {
      assert EncMembers(S, ms, fs).value + s == s;
    } else {
      TagsApartTail(S, ms, isSet);
      ForeignTail(S, ms, s);
      forall i | 0 <= i < |ms[1..]| ensures MemberOk(S, ms[1..][i]) && Recognised(S, ms[1..][i]) { assert ms[1..][i] == ms[i + 1]; }
      var rest := EncMembers(S, ms[1..], fs[1..]).value;
      RoundTripMembers(S, ms[1..], isSet, fs[1..], d, s);
      if Sent(ms[0], fs[0]) {
        var e := EncField(S, ms[0], fs[0]).value;
        assert (e + rest) + s == e + (rest + s);
        PresentIn(S, ms[0], fs[0], rest + s);
        RoundTripField(S, ms[0], fs[0], d, rest + s);
      } else {
        DefaultsOptional(S, ms[0], fs[0]);
        NotPresent(S, ms[0], ms[1..], fs[1..], d, s);
      }
    }
  }

  lemma DefaultsOptional(S: Schema, m: Member, f: Field)
    requires MemberOk(S, m) && !Sent(m, f) && (f.Absent? ==> m.optional)
    ensures m.optional
  {
  }

  lemma {:induction false} RoundTripField(S: Schema, m: Member, f: Field, d: nat, s: seq<Byte>)
    requires WellTagged(S) && MemberOk(S, m) && f.Has? && FieldSurvives(S, m.t, f, d)
    requires EncField(S, m, f).Some? && |EncField(S, m, f).value| < U64
    ensures DecTagged(S, m, true, d, EncField(S, m, f).value + s) == Parsed(SeenField(S, m.t, f).v, s)
    decreases f, 0
  {
    RoundTripTagged(S, m, f.v, true, d, s);
  }

  lemma {:induction false} RoundTripTagged(S: Schema, m: Member, v: Value, check: bool, d: nat, s: seq<Byte>)
    requires WellTagged(S) && MemberOk(S, m) && Survives(S, m.t, v, d)
    requires EncTagged(S, m, v).Some? && |EncTagged(S, m, v).value| < U64
    ensures DecTagged(S, m, check, d, EncTagged(S, m, v).value + s) == Parsed(Seen(S, m.t, v), s)
    decreases v, 5
  {
    hide Enc, Dec, Seen, Survives, ReadTlv, TlvOctets, DecValue, EncContent;
    match m.tagging
    case Own => RoundTrip(S, m.t, v, d, s);
    case Explicit =>
      var u, inner := Tag(m.tag.cls, m.tag.number, true), Enc(S, m.t, v).value;
      TlvGrows(u, inner);
      ReadWhole(EncTagged(S, m, v).value, s, u, inner);
      RoundTrip(S, m.t, v, d, []);
      assert inner + [] == inner;
    case Implicit =>
      ImplicitTlv(S, m, v);
      var u, content := Tag(m.tag.cls, m.tag.number, S[m.t].tag.constructed), EncContent(S, S[m.t].kind, v).value;
      TlvGrows(u, content);
      ReadWhole(EncTagged(S, m, v).value, s, u, content);
      RoundTripValue(S, m.t, v, d);
  }

  lemma {:induction false} RoundTripValue(S: Schema, t: nat, v: Value, d: nat)
    requires WellTagged(S) && Survives(S, t, v, d) && !S[t].kind.Choice?
    requires EncContent(S, S[t].kind, v).Some? && |EncContent(S, S[t].kind, v).value| < U64
    ensures DecValue(S, t, d, EncContent(S, S[t].kind, v).value) == Some(Seen(S, t, v))
    decreases v, 4
  {
    hide EncContent, DecContent, SeenAs, KindOk;
    assert DescOk(S, S[t]);
    CountsDeep(S, S[t].kind, v, d);
    RoundTripContent(S, S[t].kind, v, d);
  }

  lemma {:induction false} RoundTripChoice(S: Schema, k: Kind, v: Value, d: nat, s: seq<Byte>)
    requires WellTagged(S) && k.Choice? && KindOk(S, k)
    requires v.ChoiceV? && v.index < |k.alts| && Survives(S, k.alts[v.index].t, v.v, d)
    requires EncTagged(S, k.alts[v.index], v.v).Some? && |EncTagged(S, k.alts[v.index], v.v).value| < U64
    ensures DecAlternative(S, k, d, EncTagged(S, k.alts[v.index], v.v).value + s)
         == Parsed(ChoiceV(v.index, Seen(S, k.alts[v.index].t, v.v)), s)
    decreases v, 1
  {
    hide EncTagged, DecTagged, Seen, Survives, WellTagged, IsTlv, PeekTag, FindAlt, Lead, ChoiceTags, TagComplete, TagSize;
    var m := k.alts[v.index];
    var e := EncTagged(S, m, v.v).value;
    TaggedStarts(S, m, v.v);
    AltLeads(S, k, v.index, e);
    PeekLocal(e, s);
    RoundTripTagged(S, m, v.v, false, d, s);
  }

  // ---- SET ----

  lemma {:induction false} SplitFlat(raws: seq<seq<Byte>>)
    requires forall k :: 0 <= k < |raws| ==> IsTlv(raws[k])
    ensures Split(Flat(raws)) == Some(raws)
  {
    hide ReadTlv;
    if raws != [] {
      var rest := Flat(raws[1..]);
      SplitFlat(raws[1..]);
      TlvLocal(raws[0], rest);
      assert [] + rest == rest;
      TlvNotEmpty(raws[0]);
      assert (raws[0] + rest)[..|raws[0]|] == raws[0];
      assert raws == [raws[0]] + raws[1..];
    }
  }

  lemma TlvNotEmpty(e: seq<Byte>)
    requires IsTlv(e)
    ensures e != []
  {
  }

  // A SET's components: those of the members that travel, and others that
  // belong to no member.
  ghost predicate Components(S: Schema, ms: seq<Member>, sent: seq<seq<Byte>>, extra: seq<seq<Byte>>, raws: seq<seq<Byte>>) {
    && multiset(raws) == multiset(sent + extra)
    && (forall k :: 0 <= k < |extra| ==> IsTlv(extra[k]) && BelongsNowhere(AllMatchTags(S, ms), extra[k]))
  }

  // The component of member `i`.
  ghost predicate SlotsRight(S: Schema, ms: seq<Member>, fs: seq<Field>)
    requires |ms| == |fs|
  {
    forall i {:trigger SlotsOf(S, ms, fs)[i]} :: 0 <= i < |ms| ==>
      SlotsOf(S, ms, fs)[i] == (if Sent(ms[i], fs[i]) && EncField(S, ms[i], fs[i]).Some? then EncField(S, ms[i], fs[i]).value else [])
  }

  lemma {:induction false} SlotsAt(S: Schema, ms: seq<Member>, fs: seq<Field>)
    requires |ms| == |fs|
    ensures SlotsRight(S, ms, fs)
    decreases |ms|
  {
    hide EncField;
    if ms != [] {
      SlotsAt(S, ms[1..], fs[1..]);
      forall i | 0 <= i < |ms|
        ensures SlotsOf(S, ms, fs)[i] == (if Sent(ms[i], fs[i]) && EncField(S, ms[i], fs[i]).Some? then EncField(S, ms[i], fs[i]).value else [])
      {
        if i > 0 { assert SlotsOf(S, ms, fs)[i] == SlotsOf(S, ms[1..], fs[1..])[i - 1]; }
      }
    }
  }

  // Each sent component is the slot of some member, and each non-empty slot is sent.
  lemma {:induction false} SentAreSlots(S: Schema, ms: seq<Member>, fs: seq<Field>, x: seq<Byte>)
    requires |ms| == |fs|
    ensures x in SentEncs(S, ms, fs) ==> exists i :: 0 <= i < |ms| && SlotsOf(S, ms, fs)[i] == x
    ensures x != [] && x in SlotsOf(S, ms, fs) ==> x in SentEncs(S, ms, fs)
    decreases |ms|
  {
    hide EncField;
    if ms != [] {
      SentAreSlots(S, ms[1..], fs[1..], x);
      var slots, more := SlotsOf(S, ms, fs), SlotsOf(S, ms[1..], fs[1..]);
      if x in SentEncs(S, ms[1..], fs[1..]) {
        var i :| 0 <= i < |more| && more[i] == x;
        assert slots[i + 1] == x;
      } else if x in SentEncs(S, ms, fs) {
        assert slots[0] == x;
      }
    }
  }

  // ---- what a SET's components belong to ----

  lemma BelongsIs(S: Schema, ms: seq<Member>, raw: seq<Byte>, i: nat)
    requires i < |ms|
    ensures Belongs(raw, AllMatchTags(S, ms)[i]) <==> BelongsTag(PeekTag(raw), MatchTags(S, ms[i]))
  {
  }

  // No component belongs to two members.
  lemma OneMember(S: Schema, ms: seq<Member>, raw: seq<Byte>, i: nat, j: nat)
    requires TagsApart(S, ms, true) && i < |ms| && j < |ms|
    requires Belongs(raw, AllMatchTags(S, ms)[i]) && Belongs(raw, AllMatchTags(S, ms)[j])
    ensures i == j
  {
    hide Belongs, MatchTags, PeekTag, BelongsTag;
    BelongsIs(S, ms, raw, i);
    BelongsIs(S, ms, raw, j);
  }

  predicate MembersOk(S: Schema, ms: seq<Member>)
  {
    forall i :: 0 <= i < |ms| ==> MemberOk(S, ms[i])
  }

  ghost predicate AllRecognised(S: Schema, ms: seq<Member>) {
    forall i {:trigger ms[i]} :: 0 <= i < |ms| ==> Recognised(S, ms[i])
  }

  // The encoding of a member is one TLV that belongs to it.
  lemma SlotBelongs(S: Schema, ms: seq<Member>, fs: seq<Field>, i: nat)
    requires WellTagged(S) && MembersOk(S, ms) && AllRecognised(S, ms) && |ms| == |fs| && i < |ms|
    requires SlotsOf(S, ms, fs)[i] != [] && |SlotsOf(S, ms, fs)[i]| < U64
    ensures IsTlv(SlotsOf(S, ms, fs)[i]) && Belongs(SlotsOf(S, ms, fs)[i], AllMatchTags(S, ms)[i])
  {
    hide EncField, MatchTags, Lead, IsTlv, PeekTag, MemberOk, WellTagged, SlotsOf, TagSize, TagComplete;
    SlotsAt(S, ms, fs);
    assert MemberOk(S, ms[i]) && Recognised(S, ms[i]);
    FieldStarts(S, ms[i], fs[i]);
    BelongsIs(S, ms, EncField(S, ms[i], fs[i]).value, i);
  }

  ghost predicate SlotsSmall(slots: seq<seq<Byte>>) {
    forall i {:trigger slots[i]} :: 0 <= i < |slots| ==> |slots[i]| < U64
  }

  lemma SmallSlots(slots: seq<seq<Byte>>)
    requires |Flat(slots)| < U64
    ensures SlotsSmall(slots)
  {
    forall i | 0 <= i < |slots| ensures |slots[i]| < U64 { FlatBound(slots, i); }
  }

  // A sent component belongs to the member whose slot it is.
  lemma SentBelongs(S: Schema, ms: seq<Member>, fs: seq<Field>, x: seq<Byte>) returns (i: nat)
    requires WellTagged(S) && MembersOk(S, ms) && AllRecognised(S, ms) && |ms| == |fs| && SlotsSmall(SlotsOf(S, ms, fs))
    requires x in SentEncs(S, ms, fs)
    ensures i < |ms| && SlotsOf(S, ms, fs)[i] == x && IsTlv(x) && Belongs(x, AllMatchTags(S, ms)[i])
  {
    hide EncField, MatchTags, MemberOk, WellTagged, AllRecognised, IsTlv, Belongs;
    SentAreSlots(S, ms, fs, x);
    i :| 0 <= i < |ms| && SlotsOf(S, ms, fs)[i] == x;
    SentNotEmpty(S, ms, fs, x);
    SlotBelongs(S, ms, fs, i);
  }

  lemma {:induction false} SentNotEmpty(S: Schema, ms: seq<Member>, fs: seq<Field>, x: seq<Byte>)
    requires WellTagged(S) && MembersOk(S, ms) && |ms| == |fs| && SlotsSmall(SlotsOf(S, ms, fs))
    requires x in SentEncs(S, ms, fs)
    ensures x != []
    decreases |ms|
  {
    hide EncField, MemberOk, WellTagged, IsTlv, TagSize, TagComplete, Lead;
    var slots := SlotsOf(S, ms, fs);
    if x in SentEncs(S, ms[1..], fs[1..]) {
      forall i | 0 <= i < |ms[1..]| ensures |SlotsOf(S, ms[1..], fs[1..])[i]| < U64 { assert slots[i + 1] == SlotsOf(S, ms[1..], fs[1..])[i]; }
      SentNotEmpty(S, ms[1..], fs[1..], x);
    } else {
      assert |slots[0]| < U64;
      FieldStarts(S, ms[0], fs[0]);
    }
  }

  // ---- each component once ----

  lemma {:induction false} Occurrences<T>(s: seq<T>, x: T)
    ensures multiset(s)[x] >= 1 <==> x in s
    ensures multiset(s)[x] >= 2 <==> exists k, l :: 0 <= k < l < |s| && s[k] == x && s[l] == x
  {
    if s != [] {
      var front, last := s[..|s| - 1], s[|s| - 1];
      Occurrences(front, x);
      assert s == front + [last];
      if multiset(s)[x] >= 2 {
        if last == x {
          var k :| 0 <= k < |front| && front[k] == x;
          assert s[k] == x && s[|s| - 1] == x;
        } else {
          var k, l :| 0 <= k < l < |front| && front[k] == x && front[l] == x;
          assert s[k] == x && s[l] == x;
        }
      }
    }
  }

  // No member has two components, told by value and multiplicity.
  ghost predicate OncePerMember(tags: seq<MemberTags>, raws: seq<seq<Byte>>) {
    && (forall x, y, i {:trigger Belongs(x, tags[i]), Belongs(y, tags[i])} ::
          0 <= i < |tags| && x in raws && y in raws && Belongs(x, tags[i]) && Belongs(y, tags[i]) ==> x == y)
    && (forall x, i {:trigger Belongs(x, tags[i])} :: 0 <= i < |tags| && x in raws && Belongs(x, tags[i]) ==> multiset(raws)[x] == 1)
  }

  lemma OncePerMemberDistinct(S: Schema, ms: seq<Member>, raws: seq<seq<Byte>>)
    requires TagsApart(S, ms, true) && OncePerMember(AllMatchTags(S, ms), raws) && forall k :: 0 <= k < |raws| ==> raws[k] != []
    ensures Distinct(AllMatchTags(S, ms), raws)
  {
    hide Belongs, TagsApart, AllMatchTags;
    var tags := AllMatchTags(S, ms);
    forall k, i, j | 0 <= k < |raws| && 0 <= i < j < |tags| ensures !(Belongs(raws[k], tags[i]) && Belongs(raws[k], tags[j])) {
      if Belongs(raws[k], tags[i]) && Belongs(raws[k], tags[j]) { OneMember(S, ms, raws[k], i, j); }
    }
    forall i, k, l | 0 <= i < |tags| && 0 <= k < l < |raws| ensures !(Belongs(raws[k], tags[i]) && Belongs(raws[l], tags[i])) {
      if Belongs(raws[k], tags[i]) && Belongs(raws[l], tags[i]) {
        assert raws[k] in raws && raws[l] in raws;
        Occurrences(raws, raws[k]);
      }
    }
  }

  lemma {:induction false} SentOnce(S: Schema, ms: seq<Member>, fs: seq<Field>, x: seq<Byte>)
    requires WellTagged(S) && MembersOk(S, ms) && AllRecognised(S, ms) && TagsApart(S, ms, true)
    requires |ms| == |fs| && SlotsSmall(SlotsOf(S, ms, fs)) && x in SentEncs(S, ms, fs)
    ensures multiset(SentEncs(S, ms, fs))[x] == 1
    decreases |ms|
  {
    hide EncField, MatchTags, MemberOk, WellTagged, IsTlv, Belongs, TagsApart, Recognised, SlotsOf, Sent;
    SlotsTail(S, ms, fs);
    TagsApartTail(S, ms, true);
    var rest := SentEncs(S, ms[1..], fs[1..]);
    SentHead(S, ms, fs);
    if x in rest {
      SentOnce(S, ms[1..], fs[1..], x);
      if SentEncs(S, ms, fs) != rest && SentEncs(S, ms, fs)[0] == x {
        var i := SentBelongs(S, ms[1..], fs[1..], x);
        SentNotEmpty(S, ms[1..], fs[1..], x);
        assert |SlotsOf(S, ms, fs)[0]| < U64;
        SlotBelongs(S, ms, fs, 0);
        BelongsIs(S, ms[1..], x, i);
        BelongsIs(S, ms, x, i + 1);
        OneMember(S, ms, x, 0, i + 1);
      }
    }
  }

  lemma SentHead(S: Schema, ms: seq<Member>, fs: seq<Field>)
    requires |ms| == |fs| && ms != []
    ensures var rest := SentEncs(S, ms[1..], fs[1..]);
            SentEncs(S, ms, fs) == rest || (SentEncs(S, ms, fs) == [SlotsOf(S, ms, fs)[0]] + rest)
    ensures SentEncs(S, ms, fs) != SentEncs(S, ms[1..], fs[1..]) ==>
              SlotsOf(S, ms, fs)[0] in SentEncs(S, ms, fs) && SentEncs(S, ms, fs)[0] == SlotsOf(S, ms, fs)[0]
  {
  }

  lemma SlotsTail(S: Schema, ms: seq<Member>, fs: seq<Field>)
    requires |ms| == |fs| && ms != [] && MembersOk(S, ms) && AllRecognised(S, ms) && SlotsSmall(SlotsOf(S, ms, fs))
    ensures MembersOk(S, ms[1..]) && AllRecognised(S, ms[1..]) && SlotsSmall(SlotsOf(S, ms[1..], fs[1..]))
  {
    hide EncField, MemberOk, Recognised;
    var slots, more := SlotsOf(S, ms, fs), SlotsOf(S, ms[1..], fs[1..]);
    assert more == slots[1..];
    forall i | 0 <= i < |more| ensures |more[i]| < U64 { assert more[i] == slots[i + 1]; }
    forall i | 0 <= i < |ms[1..]| ensures MemberOk(S, ms[1..][i]) { assert ms[1..][i] == ms[i + 1]; }
    forall i | 0 <= i < |ms[1..]| ensures Recognised(S, ms[1..][i]) { assert ms[1..][i] == ms[i + 1]; }
  }

  ghost predicate SetOk(S: Schema, ms: seq<Member>, fs: seq<Field>) {
    && WellTagged(S) && MembersOk(S, ms) && AllRecognised(S, ms) && TagsApart(S, ms, true)
    && |ms| == |fs| && SlotsSmall(SlotsOf(S, ms, fs))
  }

  // A component of the SET is a sent one or an unknown one.
  lemma ComponentKind(S: Schema, ms: seq<Member>, fs: seq<Field>, extra: seq<seq<Byte>>, raws: seq<seq<Byte>>, x: seq<Byte>)
    requires SetOk(S, ms, fs) && Components(S, ms, SentEncs(S, ms, fs), extra, raws) && x in raws
    ensures IsTlv(x) && x != []
    ensures x in SentEncs(S, ms, fs) || BelongsNowhere(AllMatchTags(S, ms), x)
  {
    hide EncField, MatchTags, MemberOk, WellTagged, IsTlv, Belongs, TagsApart, Recognised, SlotsOf, SentEncs;
    var sent := SentEncs(S, ms, fs);
    assert x in multiset(sent + extra);
    if x in sent { var _ := SentBelongs(S, ms, fs, x); } else { assert x in extra; }
    TlvNotEmpty(x);
  }

  lemma ComponentsOnce(S: Schema, ms: seq<Member>, fs: seq<Field>, extra: seq<seq<Byte>>, raws: seq<seq<Byte>>)
    requires SetOk(S, ms, fs) && Components(S, ms, SentEncs(S, ms, fs), extra, raws)
    ensures Distinct(AllMatchTags(S, ms), raws)
  {
    hide EncField, MatchTags, MemberOk, WellTagged, IsTlv, Belongs, TagsApart, Recognised, SlotsOf, SentEncs, AllMatchTags;
    var sent, tags := SentEncs(S, ms, fs), AllMatchTags(S, ms);
    forall x, i | 0 <= i < |tags| && x in raws && Belongs(x, tags[i]) ensures multiset(raws)[x] == 1 {
      ComponentOnce(S, ms, fs, extra, raws, x, i);
    }
    forall x, y, i | 0 <= i < |tags| && x in raws && y in raws && Belongs(x, tags[i]) && Belongs(y, tags[i]) ensures x == y {
      ComponentOnce(S, ms, fs, extra, raws, x, i);
      ComponentOnce(S, ms, fs, extra, raws, y, i);
    }
    forall k | 0 <= k < |raws| ensures raws[k] != [] { ComponentKind(S, ms, fs, extra, raws, raws[k]); }
    OncePerMemberDistinct(S, ms, raws);
  }

  lemma NotUnknown(tags: seq<MemberTags>, extra: seq<seq<Byte>>, x: seq<Byte>, i: nat)
    requires i < |tags| && Belongs(x, tags[i])
    requires forall k :: 0 <= k < |extra| ==> BelongsNowhere(tags, extra[k])
    ensures x !in extra
  {
    hide Belongs;
  }

  // The one component that belongs to member `i` is its slot.
  lemma ComponentOnce(S: Schema, ms: seq<Member>, fs: seq<Field>, extra: seq<seq<Byte>>, raws: seq<seq<Byte>>, x: seq<Byte>, i: nat)
    requires SetOk(S, ms, fs) && Components(S, ms, SentEncs(S, ms, fs), extra, raws)
    requires i < |ms| && x in raws && Belongs(x, AllMatchTags(S, ms)[i])
    ensures multiset(raws)[x] == 1 && x == SlotsOf(S, ms, fs)[i]
  {
    hide EncField, MatchTags, MemberOk, WellTagged, IsTlv, Belongs, TagsApart, Recognised, SlotsOf, SentEncs;
    var sent := SentEncs(S, ms, fs);
    ComponentKind(S, ms, fs, extra, raws, x);
    assert x in sent;
    var j := SentBelongs(S, ms, fs, x);
    OneMember(S, ms, x, i, j);
    SentOnce(S, ms, fs, x);
    NotUnknown(AllMatchTags(S, ms), extra, x, i);
    assert multiset(extra)[x] == 0;
    assert multiset(raws)[x] == multiset(sent)[x] + multiset(extra)[x];
  }

  // Table order puts every known component in its slot.
  lemma SlotsFilled(S: Schema, ms: seq<Member>, fs: seq<Field>, extra: seq<seq<Byte>>, raws: seq<seq<Byte>>)
    requires SetOk(S, ms, fs) && Components(S, ms, SentEncs(S, ms, fs), extra, raws)
    ensures PlaceAll(AllMatchTags(S, ms), raws).slots == SlotsOf(S, ms, fs)
    ensures forall k :: 0 <= k < |PlaceAll(AllMatchTags(S, ms), raws).unmatched| ==>
              IsTlv(PlaceAll(AllMatchTags(S, ms), raws).unmatched[k])
              && BelongsNowhere(AllMatchTags(S, ms), PlaceAll(AllMatchTags(S, ms), raws).unmatched[k])
  {
    hide EncField, MatchTags, MemberOk, IsTlv, Belongs, Recognised, SlotsOf, SentEncs, PlaceAll, Distinct, AllMatchTags, BelongsNowhere;
    var tags, slots := AllMatchTags(S, ms), SlotsOf(S, ms, fs);
    ComponentsOnce(S, ms, fs, extra, raws);
    PlaceAllHolds(tags, raws);
    var p := PlaceAll(tags, raws);
    forall i | 0 <= i < |ms| ensures p.slots[i] == slots[i] {
      if p.slots[i] != [] {
        ComponentOnce(S, ms, fs, extra, raws, p.slots[i], i);
      } else if slots[i] != [] {
        SlotIsSent(S, ms, fs, extra, raws, i);
        assert false;
      }
    }
    forall k | 0 <= k < |p.unmatched| ensures IsTlv(p.unmatched[k]) && BelongsNowhere(tags, p.unmatched[k]) {
      ComponentKind(S, ms, fs, extra, raws, p.unmatched[k]);
    }
  }

  lemma SlotIsSent(S: Schema, ms: seq<Member>, fs: seq<Field>, extra: seq<seq<Byte>>, raws: seq<seq<Byte>>, i: nat)
    requires SetOk(S, ms, fs) && Components(S, ms, SentEncs(S, ms, fs), extra, raws)
    requires i < |ms| && SlotsOf(S, ms, fs)[i] != []
    ensures SlotsOf(S, ms, fs)[i] in raws && Belongs(SlotsOf(S, ms, fs)[i], AllMatchTags(S, ms)[i])
  {
    hide EncField, MatchTags, MemberOk, IsTlv, Belongs, Recognised, SlotsOf, SentEncs, WellTagged;
    var x := SlotsOf(S, ms, fs)[i];
    SentAreSlots(S, ms, fs, x);
    assert |SlotsOf(S, ms, fs)[i]| < U64;
    SlotBelongs(S, ms, fs, i);
    assert x in multiset(SentEncs(S, ms, fs) + extra);
    assert x in multiset(raws);
  }

  // Components that belong nowhere look like no optional member.
  lemma UnmatchedForeign(S: Schema, ms: seq<Member>, us: seq<seq<Byte>>)
    requires forall k :: 0 <= k < |us| ==> IsTlv(us[k]) && BelongsNowhere(AllMatchTags(S, ms), us[k])
    ensures Foreign(S, ms, Flat(us))
  {
    hide MatchTags, IsTlv, PeekTag;
    forall i | 0 <= i < |ms| && ms[i].optional ensures !Present(S, ms[i], Flat(us)) {
      if us != [] {
        PeekLocal(us[0], Flat(us[1..]));
        BelongsIs(S, ms, us[0], i);
        assert !Belongs(us[0], AllMatchTags(S, ms)[i]);
      }
    }
  }

  // A SET decodes to the same value whatever the order of its components and
  // whatever unknown ones are among them.
  lemma {:induction false} SetAnyOrder(S: Schema, ms: seq<Member>, fs: seq<Field>, d: nat, extra: seq<seq<Byte>>, raws: seq<seq<Byte>>)
    requires WellTagged(S) && KindOk(S, Sequence(ms, true)) && |ms| == |fs| && FieldsSurvive(S, ms, fs, d)
    requires EncMembers(S, ms, fs).Some? && |EncMembers(S, ms, fs).value| < U64
    requires Components(S, ms, SentEncs(S, ms, fs), extra, raws)
    ensures DecContent(S, Sequence(ms, true), d + 1, Flat(raws)) == Some(RecordV(SeenFields(S, ms, fs)))
    decreases fs, 1
  {
    hide EncField, MatchTags, MemberOk, IsTlv, Belongs, Recognised, SlotsOf, SentEncs, PlaceAll, WellTagged, TagsApart, Foreign, Flat, DecMembers, EncMembers, SeenFields, AllMatchTags, Split, FieldsSurvive;
    MembersFlat(S, ms, fs, d);
    SmallSlots(SlotsOf(S, ms, fs));
    RecordFacts(S, ms, true);
    SlotsFilled(S, ms, fs, extra, raws);
    var p := PlaceAll(AllMatchTags(S, ms), raws);
    UnmatchedForeign(S, ms, p.unmatched);
    forall k | 0 <= k < |raws| ensures IsTlv(raws[k]) { ComponentKind(S, ms, fs, extra, raws, raws[k]); }
    SplitFlat(raws);
    RoundTripMembers(S, ms, true, fs, d, Flat(p.unmatched));
  }

  lemma {:induction false} OwnOrder(S: Schema, ms: seq<Member>, fs: seq<Field>, d: nat)
    requires WellTagged(S) && KindOk(S, Sequence(ms, true)) && |ms| == |fs| && FieldsSurvive(S, ms, fs, d)
    requires EncMembers(S, ms, fs).Some? && |EncMembers(S, ms, fs).value| < U64
    ensures DecContent(S, Sequence(ms, true), d + 1, EncMembers(S, ms, fs).value) == Some(RecordV(SeenFields(S, ms, fs)))
    decreases fs, 2
  {
    hide DecContent, KindOk, EncMembers, SentEncs, WellTagged;
    MembersFlat(S, ms, fs, d);
    assert SentEncs(S, ms, fs) + [] == SentEncs(S, ms, fs);
    SetAnyOrder(S, ms, fs, d, [], SentEncs(S, ms, fs));
  }

  // Unknown components behind those of a SEQUENCE are not looked at.
  lemma {:induction false} SequenceReadBack(S: Schema, ms: seq<Member>, fs: seq<Field>, d: nat, s: seq<Byte>)
    requires WellTagged(S) && KindOk(S, Sequence(ms, false)) && |ms| == |fs| && FieldsSurvive(S, ms, fs, d)
    requires EncMembers(S, ms, fs).Some? && |EncMembers(S, ms, fs).value| < U64 && Foreign(S, ms, s)
    ensures DecContent(S, Sequence(ms, false), d + 1, EncMembers(S, ms, fs).value + s) == Some(RecordV(SeenFields(S, ms, fs)))
    decreases fs, 1
  {
    hide WellTagged, MemberOk, Recognised, TagsApart, Foreign, EncMembers, DecMembers, SeenFields;
    RecordFacts(S, ms, false);
    RoundTripMembers(S, ms, false, fs, d, s);
  }

  lemma {:induction false} RoundTripSequence(S: Schema, ms: seq<Member>, fs: seq<Field>, d: nat)
    requires WellTagged(S) && KindOk(S, Sequence(ms, false)) && |ms| == |fs| && FieldsSurvive(S, ms, fs, d)
    requires EncMembers(S, ms, fs).Some? && |EncMembers(S, ms, fs).value| < U64
    ensures DecContent(S, Sequence(ms, false), d + 1, EncMembers(S, ms, fs).value) == Some(RecordV(SeenFields(S, ms, fs)))
    decreases fs, 2
  {
    hide DecContent, KindOk, EncMembers, WellTagged;
    var content := EncMembers(S, ms, fs).value;
    assert content + [] == content;
    SequenceReadBack(S, ms, fs, d, []);
  }
}
