/**
 * What the failure flag of the BER encoder tells about the octets written:
 * which values are encoded whole, and which faults stay unnoticed.
 */
module BerFlag {
  import opened Options
  import opened Integers
  import opened Octets
  import opened BerTlv
  import opened BerTypes
  import opened BerEncoder

  // ---- values of a type ----

  // `v` is a value of the type: of its kind, with an alternative chosen and
  // every mandatory member there.  What equals its DEFAULT is not looked at.
  predicate Conforms(S: Schema, t: nat, v: Value)
    decreases v, 4
  {
    t < |S| && ConformsAs(S, S[t].kind, v)
  }

  predicate ConformsAs(S: Schema, k: Kind, v: Value)
    decreases v, 3
  {
    match k
    case Boolean => v.BoolV?
    case Integer => v.IntV? && I64_MIN <= v.i <= I64_MAX
    case Null => v.NullV?
    case OctetString => v.OctetsV?
    case SeqOf(elem, _) => v.ListV? && ListConforms(S, elem, v.items)
    case Sequence(ms, _) => v.RecordV? && |v.fields| == |ms| && FieldsConform(S, ms, v.fields)
    case Choice(alts, _, _, _) => v.ChoiceV? && v.index < |alts| && Conforms(S, alts[v.index].t, v.v)
  }

  predicate ListConforms(S: Schema, t: nat, vs: seq<Value>)
    decreases vs, 0
  {
    vs != [] ==> Conforms(S, t, vs[0]) && ListConforms(S, t, vs[1..])
  }

  predicate FieldConforms(S: Schema, t: nat, f: Field)
    requires f.Has?
    decreases f, 0
  {
    Conforms(S, t, f.v)
  }

  predicate FieldsConform(S: Schema, ms: seq<Member>, fs: seq<Field>)
    requires |ms| == |fs|
    decreases fs, 0
  {
    ms != [] ==>
      && (if fs[0].Absent? then ms[0].optional else fs[0] == ms[0].dflt || FieldConforms(S, ms[0].t, fs[0]))
      && FieldsConform(S, ms[1..], fs[1..])
  }

  // ---- two faults that are not flagged ----

  // Somewhere in `v` a SET OF of several elements has one without an encoding.
  predicate Hidden(S: Schema, t: nat, v: Value)
    decreases v, 4
  {
    t < |S| && HiddenAs(S, S[t].kind, v)
  }

  predicate HiddenAs(S: Schema, k: Kind, v: Value)
    decreases v, 3
  {
    match k
    case SeqOf(elem, isSetOf) =>
      v.ListV? && if isSetOf && |v.items| > 1 then ElementFails(S, elem, v.items) else HiddenInList(S, elem, v.items)
    case Sequence(ms, _) => v.RecordV? && |v.fields| == |ms| && HiddenInFields(S, ms, v.fields)
    case Choice(alts, _, _, _) => v.ChoiceV? && v.index < |alts| && Hidden(S, alts[v.index].t, v.v)
    case _ => false
  }

  predicate ElementFails(S: Schema, t: nat, vs: seq<Value>) {
    exists i :: 0 <= i < |vs| && Enc(S, t, vs[i]).None?
  }

  predicate HiddenInList(S: Schema, t: nat, vs: seq<Value>)
    decreases vs, 0
  {
    vs != [] && (Hidden(S, t, vs[0]) || HiddenInList(S, t, vs[1..]))
  }

  predicate HiddenInField(S: Schema, t: nat, f: Field)
    requires f.Has?
    decreases f, 0
  {
    Hidden(S, t, f.v)
  }

  predicate HiddenInFields(S: Schema, ms: seq<Member>, fs: seq<Field>)
    requires |ms| == |fs|
    decreases fs, 0
  {
    ms != [] &&
    if fs[0].Absent? then ms[0].optional && HiddenInFields(S, ms[1..], fs[1..])
    else (fs[0] != ms[0].dflt && HiddenInField(S, ms[0].t, fs[0])) || HiddenInFields(S, ms[1..], fs[1..])
  }

  // Somewhere in `v` a mandatory member that would be sent is missing.
  predicate Truncated(S: Schema, t: nat, v: Value)
    decreases v, 4
  {
    t < |S| && TruncatedAs(S, S[t].kind, v)
  }

  predicate TruncatedAs(S: Schema, k: Kind, v: Value)
    decreases v, 3
  {
    match k
    case SeqOf(elem, _) => v.ListV? && TruncatedList(S, elem, v.items)
    case Sequence(ms, _) => v.RecordV? && |v.fields| == |ms| && TruncatedFields(S, ms, v.fields)
    case Choice(alts, _, _, _) => v.ChoiceV? && v.index < |alts| && Truncated(S, alts[v.index].t, v.v)
    case _ => false
  }

  predicate TruncatedList(S: Schema, t: nat, vs: seq<Value>)
    decreases vs, 0
  {
    vs != [] && (Truncated(S, t, vs[0]) || TruncatedList(S, t, vs[1..]))
  }

  predicate TruncatedField(S: Schema, t: nat, f: Field)
    requires f.Has?
    decreases f, 0
  {
    Truncated(S, t, f.v)
  }

  predicate TruncatedFields(S: Schema, ms: seq<Member>, fs: seq<Field>)
    requires |ms| == |fs|
    decreases fs, 0
  {
    ms != [] &&
    if fs[0].Absent? then !ms[0].optional || TruncatedFields(S, ms[1..], fs[1..])
    else (fs[0] != ms[0].dflt && TruncatedField(S, ms[0].t, fs[0])) || TruncatedFields(S, ms[1..], fs[1..])
  }

  // ---- no encoding: flagged or hidden ----

  // A value has no encoding exactly when the flag is raised or a SET OF of
  // several elements hides the failure.
  lemma {:induction false} FlagExact(S: Schema, t: nat, v: Value)
    requires TagsWf(S)
    ensures Enc(S, t, v).None? <==> Flagged(S, t, v) || Hidden(S, t, v)
    decreases v, 4
  {
    if t < |S| {
      assert DescWf(S[t]);
      FlagExactAs(S, S[t].kind, if S[t].explicit then S[t].natural else S[t].tag, v);
    }
  }

  lemma {:induction false} FlagExactAs(S: Schema, k: Kind, tag: Tag, v: Value)
    requires TagsWf(S) && TagWf(tag)
    requires k.Sequence? ==> MemberTagsWf(k.members)
    requires k.Choice? ==> MemberTagsWf(k.alts)
    ensures EncAs(S, k, tag, v).None? <==> FlaggedAs(S, k, v) || HiddenAs(S, k, v)
    decreases v, 3
  {
    hide EncTagged, TlvOctets, SignedOctets, ElementFails;
    match k
    case SeqOf(elem, isSetOf) =>
      if v.ListV? {
        if isSetOf && |v.items| > 1 { ListFails(S, elem, v.items); } else { FlagExactList(S, elem, v.items); }
      }
    case Sequence(ms, _) => if v.RecordV? && |v.fields| == |ms| { FlagExactMembers(S, ms, v.fields); }
    case Choice(alts, _, _, _) => if v.ChoiceV? && v.index < |alts| { FlagExactTagged(S, alts[v.index], v.v); }
    case _ =>
  }

  lemma {:induction false} FlagExactTagged(S: Schema, m: Member, v: Value)
    requires TagsWf(S) && TagWf(m.tag)
    ensures EncTagged(S, m, v).None? <==> Flagged(S, m.t, v) || Hidden(S, m.t, v)
    decreases v, 5
  {
    FlagExact(S, m.t, v);
    TaggedFails(S, m, v);
  }

  // An override never fails by itself.
  lemma TaggedFails(S: Schema, m: Member, v: Value)
    requires TagsWf(S) && TagWf(m.tag)
    ensures EncTagged(S, m, v).None? <==> Enc(S, m.t, v).None?
  {
    hide EncAs, TlvOctets;
    if Enc(S, m.t, v).Some? { EncComplete(S, m.t, v); }
  }

  lemma {:induction false} FlagExactList(S: Schema, t: nat, vs: seq<Value>)
    requires TagsWf(S)
    ensures EncList(S, t, vs).None? <==> FlaggedList(S, t, vs) || HiddenInList(S, t, vs)
    decreases vs, 0
  {
    if vs != [] {
      FlagExact(S, t, vs[0]);
      FlagExactList(S, t, vs[1..]);
    }
  }

  lemma {:induction false} ListFails(S: Schema, t: nat, vs: seq<Value>)
    ensures EncList(S, t, vs).None? <==> ElementFails(S, t, vs)
    decreases |vs|
  {
    hide Enc;
    if vs != [] {
      ListFails(S, t, vs[1..]);
      if i :| 0 <= i < |vs| && Enc(S, t, vs[i]).None? { assert i > 0 ==> vs[1..][i - 1] == vs[i]; }
      if j :| 0 <= j < |vs[1..]| && Enc(S, t, vs[1..][j]).None? { assert vs[j + 1] == vs[1..][j]; }
    }
  }

  lemma {:induction false} FlagExactField(S: Schema, m: Member, f: Field)
    requires TagsWf(S) && TagWf(m.tag) && f.Has?
    ensures EncField(S, m, f).None? <==> FlaggedField(S, m.t, f) || HiddenInField(S, m.t, f)
    decreases f, 0
  {
    FlagExactTagged(S, m, f.v);
  }

  lemma {:induction false} FlagExactMembers(S: Schema, ms: seq<Member>, fs: seq<Field>)
    requires TagsWf(S) && MemberTagsWf(ms) && |ms| == |fs|
    ensures EncMembers(S, ms, fs).None? <==> FlaggedMembers(S, ms, fs) || HiddenInFields(S, ms, fs)
    decreases fs, 0
  {
    hide EncField, FlaggedField, HiddenInField;
    if ms != [] {
      FlagExactMembers(S, ms[1..], fs[1..]);
      if fs[0].Has? { FlagExactField(S, ms[0], fs[0]); }
    }
  }

  // In a SET OF with several elements no failure is ever flagged.
  lemma SetOfHidesFailure(S: Schema, k: Kind, v: Value)
    requires k.SeqOf? && k.isSetOf && v.ListV? && |v.items| > 1
    ensures !FlaggedAs(S, k, v)
    ensures ElementFails(S, k.elem, v.items) <==> EncContent(S, k, v).None?
  {
    hide Enc, ElementFails;
    ListFails(S, k.elem, v.items);
  }

  // ---- what has an encoding: whole or truncated ----

  // A value is one of its type exactly when it has an encoding in which no
  // mandatory member is missing.
  lemma {:induction false} ConformsExact(S: Schema, t: nat, v: Value)
    requires TagsWf(S)
    ensures Conforms(S, t, v) <==> Enc(S, t, v).Some? && !Truncated(S, t, v)
    decreases v, 4
  {
    if t < |S| {
      assert DescWf(S[t]);
      ConformsExactAs(S, S[t].kind, if S[t].explicit then S[t].natural else S[t].tag, v);
    }
  }

  lemma {:induction false} ConformsExactAs(S: Schema, k: Kind, tag: Tag, v: Value)
    requires TagsWf(S) && TagWf(tag)
    requires k.Sequence? ==> MemberTagsWf(k.members)
    requires k.Choice? ==> MemberTagsWf(k.alts)
    ensures ConformsAs(S, k, v) <==> EncAs(S, k, tag, v).Some? && !TruncatedAs(S, k, v)
    decreases v, 3
  {
    hide EncTagged, TlvOctets, SignedOctets;
    match k
    case SeqOf(elem, _) => if v.ListV? { ListConformsExact(S, elem, v.items); }
    case Sequence(ms, _) => if v.RecordV? && |v.fields| == |ms| { FieldsConformExact(S, ms, v.fields); }
    case Choice(alts, _, _, _) =>
      if v.ChoiceV? && v.index < |alts| {
        ConformsExact(S, alts[v.index].t, v.v);
        TaggedFails(S, alts[v.index], v.v);
      }
    case _ =>
  }

  lemma {:induction false} ListConformsExact(S: Schema, t: nat, vs: seq<Value>)
    requires TagsWf(S)
    ensures ListConforms(S, t, vs) <==> EncList(S, t, vs).Some? && !TruncatedList(S, t, vs)
    decreases vs, 0
  {
    if vs != [] {
      ConformsExact(S, t, vs[0]);
      ListConformsExact(S, t, vs[1..]);
    }
  }

  lemma {:induction false} FieldConformsExact(S: Schema, m: Member, f: Field)
    requires TagsWf(S) && TagWf(m.tag) && f.Has?
    ensures FieldConforms(S, m.t, f) <==> EncField(S, m, f).Some? && !TruncatedField(S, m.t, f)
    decreases f, 0
  {
    ConformsExact(S, m.t, f.v);
    TaggedFails(S, m, f.v);
  }

  lemma {:induction false} FieldsConformExact(S: Schema, ms: seq<Member>, fs: seq<Field>)
    requires TagsWf(S) && MemberTagsWf(ms) && |ms| == |fs|
    ensures FieldsConform(S, ms, fs) <==> EncMembers(S, ms, fs).Some? && !TruncatedFields(S, ms, fs)
    decreases fs, 0
  {
    hide EncField, FieldConforms, TruncatedField;
    if ms != [] {
      FieldsConformExact(S, ms[1..], fs[1..]);
      if fs[0].Has? { FieldConformsExact(S, ms[0], fs[0]); }
    }
  }

  // A value that raises no flag is encoded whole exactly when no SET OF of
  // several elements hides a failing one and no mandatory member is missing.
  lemma UnflaggedWhole(S: Schema, t: nat, v: Value)
    requires TagsWf(S) && !Flagged(S, t, v)
    ensures Conforms(S, t, v) <==> !Hidden(S, t, v) && !Truncated(S, t, v)
  {
    hide Conforms, Hidden, Truncated, Flagged, Enc;
    FlagExact(S, t, v);
    ConformsExact(S, t, v);
  }

  // What is lost: the members behind the first missing one.
  lemma {:induction false} TruncationDropsRest(S: Schema, ms: seq<Member>, fs: seq<Field>, i: nat)
    requires |ms| == |fs| && i < |ms| && fs[i].Absent? && !ms[i].optional
    ensures EncMembers(S, ms, fs) == EncMembers(S, ms[..i], fs[..i])
    decreases i
  {
    hide EncField;
    if i > 0 {
      assert ms[..i][1..] == ms[1..][..i - 1] && fs[..i][1..] == fs[1..][..i - 1];
      TruncationDropsRest(S, ms[1..], fs[1..], i - 1);
    }
  }

  // ---- where nothing is hidden ----

  // No SET OF in `v` has several elements.
  predicate Narrow(S: Schema, t: nat, v: Value)
    decreases v, 4
  {
    t < |S| ==> NarrowAs(S, S[t].kind, v)
  }

  predicate NarrowAs(S: Schema, k: Kind, v: Value)
    decreases v, 3
  {
    match k
    case SeqOf(elem, isSetOf) => v.ListV? ==> !(isSetOf && |v.items| > 1) && NarrowList(S, elem, v.items)
    case Sequence(ms, _) => v.RecordV? && |v.fields| == |ms| ==> NarrowFields(S, ms, v.fields)
    case Choice(alts, _, _, _) => v.ChoiceV? && v.index < |alts| ==> Narrow(S, alts[v.index].t, v.v)
    case _ => true
  }

  predicate NarrowList(S: Schema, t: nat, vs: seq<Value>)
    decreases vs, 0
  {
    vs != [] ==> Narrow(S, t, vs[0]) && NarrowList(S, t, vs[1..])
  }

  predicate NarrowField(S: Schema, t: nat, f: Field)
    decreases f, 0
  {
    f.Has? ==> Narrow(S, t, f.v)
  }

  predicate NarrowFields(S: Schema, ms: seq<Member>, fs: seq<Field>)
    requires |ms| == |fs|
    decreases fs, 0
  {
    ms != [] ==> NarrowField(S, ms[0].t, fs[0]) && NarrowFields(S, ms[1..], fs[1..])
  }

  lemma {:induction false} NarrowHidesNothing(S: Schema, t: nat, v: Value)
    requires Narrow(S, t, v)
    ensures !Hidden(S, t, v)
    decreases v, 4
  {
    if t < |S| {
      match S[t].kind
      case SeqOf(elem, _) => if v.ListV? { NarrowListHides(S, elem, v.items); }
      case Sequence(ms, _) => if v.RecordV? && |v.fields| == |ms| { NarrowFieldsHide(S, ms, v.fields); }
      case Choice(alts, _, _, _) => if v.ChoiceV? && v.index < |alts| { NarrowHidesNothing(S, alts[v.index].t, v.v); }
      case _ =>
    }
  }

  lemma {:induction false} NarrowListHides(S: Schema, t: nat, vs: seq<Value>)
    requires NarrowList(S, t, vs)
    ensures !HiddenInList(S, t, vs)
    decreases vs, 0
  {
    if vs != [] {
      NarrowHidesNothing(S, t, vs[0]);
      NarrowListHides(S, t, vs[1..]);
    }
  }

  lemma {:induction false} NarrowFieldHides(S: Schema, t: nat, f: Field)
    requires f.Has? && NarrowField(S, t, f)
    ensures !HiddenInField(S, t, f)
    decreases f, 0
  {
    NarrowHidesNothing(S, t, f.v);
  }

  lemma {:induction false} NarrowFieldsHide(S: Schema, ms: seq<Member>, fs: seq<Field>)
    requires |ms| == |fs| && NarrowFields(S, ms, fs)
    ensures !HiddenInFields(S, ms, fs)
    decreases fs, 0
  {
    hide NarrowField, HiddenInField;
    if ms != [] {
      if fs[0].Has? { NarrowFieldHides(S, ms[0].t, fs[0]); }
      NarrowFieldsHide(S, ms[1..], fs[1..]);
    }
  }

  // There the flag tells exactly the values without an encoding.
  lemma FlagExactNarrow(S: Schema, t: nat, v: Value)
    requires TagsWf(S) && Narrow(S, t, v)
    ensures Flagged(S, t, v) <==> Enc(S, t, v).None?
  {
    hide Narrow, Hidden, Flagged, Enc;
    NarrowHidesNothing(S, t, v);
    FlagExact(S, t, v);
  }

  // ---- both faults occur ----

  const UNIVERSAL_NULL := Tag(0, 5, false)
  const UNIVERSAL_SEQUENCE := Tag(0, 16, true)
  const UNIVERSAL_SET := Tag(0, 17, true)

  // NULL, CHOICE {a NULL}, SET OF that CHOICE, SEQUENCE {a NULL, b NULL}.
  function Faulty(): Schema {
    var a := Member(0, Own, UNIVERSAL_NULL, false, Absent);
    [Desc(UNIVERSAL_NULL, false, UNIVERSAL_NULL, Null),
     Desc(UNIVERSAL_NULL, false, UNIVERSAL_NULL, Choice([a], None, None, false)),
     Desc(UNIVERSAL_SET, false, UNIVERSAL_SET, SeqOf(1, true)),
     Desc(UNIVERSAL_SEQUENCE, false, UNIVERSAL_SEQUENCE, Sequence([a, a], false))]
  }

  // A SET OF whose second element has no alternative selected.
  lemma HiddenFailure()
    ensures var v := ListV([ChoiceV(0, NullV), NoChoice]);
            TagsWf(Faulty()) && !Flagged(Faulty(), 2, v) && Enc(Faulty(), 2, v).None?
  {
    var S, v := Faulty(), ListV([ChoiceV(0, NullV), NoChoice]);
    assert TagsWf(S) by { forall t | 0 <= t < |S| ensures DescWf(S[t]) { } }
    assert Enc(S, 1, v.items[1]).None?;
    SetOfHidesFailure(S, S[2].kind, v);
  }

  // A SEQUENCE without its first member: 30 00, and the second is gone too.
  lemma TruncatedSilently()
    ensures var v := RecordV([Absent, Has(NullV)]);
            !Flagged(Faulty(), 3, v) && Truncated(Faulty(), 3, v) && Enc(Faulty(), 3, v) == Some([0x30, 0x00])
  {
    var S, v := Faulty(), RecordV([Absent, Has(NullV)]);
    assert EncMembers(S, S[3].kind.members, v.fields) == Some([]);
    assert TagOctets(UNIVERSAL_SEQUENCE) == [0x30] && LengthOctets(0) == [0x00];
    assert TlvOctets(UNIVERSAL_SEQUENCE, []) == [0x30, 0x00];
  }
}
