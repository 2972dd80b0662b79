/** The handlers of the BER decoder, proved to read what BerTypes says. */
module BerDecoder {
  import opened Bits
  import opened Options
  import opened Integers
  import opened Octets
  import opened BerTlv
  import opened BerStream
  import opened BerOrder
  import opened BerTypes

  // The depth guard still allows `d` constructed levels.
  ghost predicate At(r: BerReader, d: nat)
    reads r
  {
    r.Valid() && r.levels + d == 256
  }

  // `acc` is read and `p` is what reading the others gives.
  function Onto<T>(acc: seq<T>, p: Parse<seq<T>>): Parse<seq<T>> {
    if p.Failed? then Failed else Parsed(acc + p.v, p.rest)
  }

  lemma OntoMore<T>(acc: seq<T>, x: T, p: Parse<seq<T>>)
    ensures Onto(acc, Onto([x], p)) == Onto(acc + [x], p)
  {
    if p.Parsed? { assert acc + ([x] + p.v) == (acc + [x]) + p.v; }
  }

  lemma OntoNothing<T>(p: Parse<seq<T>>)
    ensures Onto([], p) == p
  {
    if p.Parsed? { assert [] + p.v == p.v; }
  }

  lemma OntoLast<T>(acc: seq<T>, b: seq<Byte>)
    ensures Onto(acc, Parsed([], b)) == Parsed(acc, b)
  {
    assert acc + [] == acc;
  }

  // ---- contents of primitive types ----

  method DecodeInteger(value: seq<Byte>) returns (r: Option<Value>)
    ensures r == if value == [] || |value| > 8 then None else Some(IntV(SignedBig(value)))
  {
    hide BigEndian, Pow2;
    if value == [] || |value| > 8 { return None; }
    var v: int := if value[0] >= 128 then -1 else 0;
    var i := 0;
    while i < |value|
      invariant i <= |value|
      invariant v == if i == 0 then (if value[0] >= 128 then -1 else 0) else SignedBig(value[..i])
    {
      FirstSigned(value, i);
      assert value[..i + 1] == value[..i] + [value[i]];
      if i > 0 { SignedSnoc(value[..i], value[i]); }
      v := v * 256 + value[i];
      i := i + 1;
    }
    assert value[..|value|] == value;
    r := Some(IntV(v));
  }

  // Sign extension of the first octet.
  lemma FirstSigned(m: seq<Byte>, j: nat)
    requires j < |m|
    ensures j == 0 ==> SignedBig(m[..j + 1]) + (if m[0] >= 128 then 256 else 0) == m[0]
  {
    if j == 0 {
      assert m[..1] == [m[0]];
      BigEndianOne(m[0]);
      Pow2Of8();
    }
  }

  method DecodePrimitiveContent(S: Schema, k: Kind, ghost d: nat, value: seq<Byte>) returns (r: Option<Value>)
    requires !Counts(k)
    ensures r == DecContent(S, k, d, value)
  {
    hide SignedBig;
    match k
    case Boolean => r := if value == [] then None else Some(BoolV(value[0] != 0));
    case Integer => r := DecodeInteger(value);
    case Null => r := Some(NullV);
    case OctetString => r := Some(OctetsV(value));
    case _ => assert false;
  }

  // ---- recognising members and alternatives ----

  method HasTag(g: Tag, tags: seq<Tag>) returns (yes: bool)
    ensures yes == BelongsTag(g, tags)
  {
    for j := 0 to |tags|
      invariant forall k :: 0 <= k < j ==> !Matches(g, tags[k])
    {
      if Matches(g, tags[j]) { return true; }
    }
    return false;
  }

  method IsPresent(r: BerReader, S: Schema, m: Member) returns (yes: bool)
    requires r.Valid()
    ensures yes == Present(S, m, r.Rest())
  {
    if r.pos >= |r.data| {
      yes := false;
    } else {
      var tags := MatchTags(S, m);
      yes := HasTag(PeekTag(r.data[r.pos..]), tags);
    }
  }

  // The first matching entry of a flattened table.
  method ScanEntries(es: seq<TagEntry>, g: Tag) returns (a: Option<nat>)
    ensures a == FindEntry(es, g)
  {
    var j := 0;
    assert es[0..] == es;
    while j < |es|
      invariant j <= |es| && FindEntry(es, g) == FindEntry(es[j..], g)
    {
      assert es[j..][1..] == es[j + 1..];
      if Matches(g, es[j].tag) { return Some(es[j].alt); }
      j := j + 1;
    }
    a := None;
  }

  lemma FindTagFrom(tags: seq<Tag>, g: Tag, j: nat)
    requires j < |tags|
    ensures FindTag(tags[j..], g)
         == if Matches(g, tags[j]) then Some(0)
            else if FindTag(tags[j + 1..], g).None? then None else Some(FindTag(tags[j + 1..], g).value + 1)
  {
    assert tags[j..][1..] == tags[j + 1..];
  }

  method ScanAlternatives(alts: seq<Member>, g: Tag) returns (a: Option<nat>)
    ensures a == FindTag(MemberTagList(alts), g)
  {
    ghost var tags := MemberTagList(alts);
    var i := 0;
    assert tags[0..] == tags;
    while i < |alts|
      invariant i <= |alts|
      invariant FindTag(tags, g) == if FindTag(tags[i..], g).None? then None else Some(FindTag(tags[i..], g).value + i)
    {
      FindTagFrom(tags, g, i);
      if Matches(g, alts[i].tag) { return Some(i); }
      i := i + 1;
    }
    a := None;
  }

  method Dispatch(k: Kind, g: Tag) returns (a: Option<nat>)
    requires k.Choice?
    ensures a == FindAlt(k, g)
  {
    if k.index.Some? && g.cls == 2 {
      var rel := g.number - k.index.value.base;
      var matched := if 0 <= rel < |k.index.value.slots| then k.index.value.slots[rel] else -1;
      a := if matched >= 0 then Some(matched) else None;
    } else if k.table.Some? {
      a := ScanEntries(k.table.value, g);
    } else {
      a := ScanAlternatives(k.alts, g);
    }
  }

  // ---- the handlers ----

  method Decode(r: BerReader, S: Schema, t: nat, ghost d: nat) returns (got: Option<Value>)
    requires At(r, d)
    modifies r
    ensures Reads(r, got, Dec(S, t, d, old(r.Rest())))
    decreases d, 1, 5
  {
    hide DecAs, ReadTlv;
    if t >= |S| { return None; }
    var counted := Counts(S[t].kind);
    if counted { r.levels := r.levels + 1; }
    if r.levels > MAX_DECODE_DEPTH {
      got := None;
    } else if S[t].explicit {
      got := DecodeWrapped(r, S, S[t], d);
    } else {
      got := DecodeAs(r, S, S[t].kind, S[t].tag, d);
    }
    if counted { r.levels := r.levels - 1; }
  }

  // A type's own EXPLICIT wrapper, then its natural encoding.
  method DecodeWrapped(r: BerReader, S: Schema, desc: Desc, ghost d: nat) returns (got: Option<Value>)
    requires r.Valid() && Inside(r, desc.kind, d) && desc.explicit
    modifies r
    ensures Reads(r, got, WrappedSpec(S, desc, d, old(r.Rest())))
    decreases d, 1, 4, 1
  {
    hide DecAs, ReadTlv;
    var outer := TakeTlv(r);
    if outer.None? || outer.value.tag != desc.tag { return None; }
    var inner := new BerReader(outer.value.value, r.levels);
    got := DecodeAs(inner, S, desc.kind, desc.natural, d);
  }

  ghost function WrappedSpec(S: Schema, desc: Desc, d: nat, b: seq<Byte>): Parse<Value>
    requires Counts(desc.kind) ==> d > 0
  {
    var outer := ReadTlv(b);
    if outer.Failed? || outer.v.tag != desc.tag then Failed
    else
      var v := DecAs(S, desc.kind, desc.natural, d, outer.v.value);
      if v.Failed? then Failed else Parsed(v.v, outer.rest)
  }

  // The guard's level of this value is already entered.
  ghost predicate Inside(r: BerReader, k: Kind, d: nat)
    reads r
  {
    if Counts(k) then d > 0 && r.levels + (d - 1) == 256 else r.levels + d == 256
  }

  method DecodeAs(r: BerReader, S: Schema, k: Kind, tag: Tag, ghost d: nat) returns (got: Option<Value>)
    requires r.Valid() && Inside(r, k, d)
    modifies r
    ensures Reads(r, got, DecAs(S, k, tag, d, old(r.Rest())))
    decreases d, 1, 4, 0
  {
    hide ReadTlv, DecContent, DecAlternative;
    if k.Choice? {
      got := DecodeAlternative(r, S, k, d - 1);
      return;
    }
    var tlv := TakeTlv(r);
    if tlv.None? || tlv.value.tag != tag { return None; }
    if k.Boolean? && |tlv.value.value| != 1 { return None; }
    got := DecodeContent(r.levels, S, k, d, tlv.value.value);
  }

  // `levels` are those entered, including this value's own.
  method DecodeContent(levels: nat, S: Schema, k: Kind, ghost d: nat, value: seq<Byte>) returns (v: Option<Value>)
    requires !k.Choice?
    requires if Counts(k) then d > 0 && levels + (d - 1) == 256 else levels + d == 256
    ensures v == DecContent(S, k, d, value)
    decreases d, 1, 3
  {
    hide DecMembers, DecElements, SetContents;
    if k.SeqOf? {
      var vs := DecodeElements(levels, S, k.elem, d - 1, value);
      v := if vs.None? then None else Some(ListV(vs.value));
    } else if k.Sequence? {
      v := DecodeSequence(levels, S, k.members, k.isSet, d - 1, value);
    } else {
      v := DecodePrimitiveContent(S, k, d, value);
    }
  }

  // One more element.
  method DecodeElement(inner: BerReader, S: Schema, t: nat, ghost d: nat) returns (v: Option<Value>)
    requires At(inner, d) && inner.pos < |inner.data|
    modifies inner
    ensures At(inner, d) && (v.Some? ==> inner.pos > old(inner.pos))
    ensures DecElements(S, t, d, old(inner.Rest()))
         == if v.None? then None else WithElements([v.value], DecElements(S, t, d, inner.Rest()))
    decreases d, 2, 6
  {
    hide Dec, DecElements;
    ghost var b := inner.Rest();
    ElementsStep(S, t, d, b);
    DecShrinks(S, t, d, b);
    v := Decode(inner, S, t, d);
  }

  method DecodeElements(levels: nat, S: Schema, t: nat, ghost d: nat, value: seq<Byte>) returns (got: Option<seq<Value>>)
    requires levels + d == 256
    ensures got == DecElements(S, t, d, value)
    decreases d, 2, 7, 0
  {
    hide Dec, DecElements, WithElements;
    NoElements(S, t, d);
    var inner := new BerReader(value, levels);
    var vs: seq<Value> := [];
    OntoElements([], DecElements(S, t, d, value));
    while inner.pos < |inner.data|
      invariant At(inner, d) && fresh(inner) && inner.data == value
      invariant DecElements(S, t, d, value) == WithElements(vs, DecElements(S, t, d, inner.Rest()))
      decreases |value| - inner.pos
    {
      var v := DecodeElement(inner, S, t, d);
      if v.None? {
        NoneElements(vs);
        return None;
      }
      MoreElements(vs, v.value, DecElements(S, t, d, inner.Rest()));
      vs := vs + [v.value];
    }
    assert inner.Rest() == [];
    OntoElements(vs, DecElements(S, t, d, []));
    got := Some(vs);
  }

  lemma NoneElements(vs: seq<Value>)
    ensures WithElements(vs, None) == None
  {
  }

  lemma NoElements(S: Schema, t: nat, d: nat)
    ensures DecElements(S, t, d, []) == Some([])
  {
  }

  lemma DecShrinks(S: Schema, t: nat, d: nat, b: seq<Byte>)
    ensures Dec(S, t, d, b).Parsed? ==> |Dec(S, t, d, b).rest| < |b|
  {
  }

  ghost function WithElements(vs: seq<Value>, more: Option<seq<Value>>): Option<seq<Value>> {
    if more.None? then None else Some(vs + more.value)
  }

  lemma OntoElements(vs: seq<Value>, more: Option<seq<Value>>)
    ensures WithElements([], more) == more && WithElements(vs, Some([])) == Some(vs)
  {
    assert vs + [] == vs;
    if more.Some? { assert [] + more.value == more.value; }
  }

  lemma MoreElements(vs: seq<Value>, v: Value, more: Option<seq<Value>>)
    ensures WithElements(vs, WithElements([v], more)) == WithElements(vs + [v], more)
  {
    if more.Some? { assert vs + ([v] + more.value) == (vs + [v]) + more.value; }
  }

  lemma ElementsStep(S: Schema, t: nat, d: nat, b: seq<Byte>)
    requires b != []
    ensures var first := Dec(S, t, d, b);
            DecElements(S, t, d, b) == if first.Failed? then None else WithElements([first.v], DecElements(S, t, d, first.rest))
  {
    hide Dec;
  }

  method OrderedContents(S: Schema, ms: seq<Member>, isSet: bool, value: seq<Byte>) returns (ordered: Option<seq<Byte>>)
    ensures ordered == if isSet then SetContents(S, ms, value) else Some(value)
  {
    hide Split, TableOrder;
    ordered := Some(value);
    if isSet { ordered := SetInTableOrder(AllMatchTags(S, ms), value); }
  }

  lemma SequenceSpec(S: Schema, ms: seq<Member>, isSet: bool, d: nat, value: seq<Byte>)
    ensures var ordered := if isSet then SetContents(S, ms, value) else Some(value);
            DecContent(S, Sequence(ms, isSet), d + 1, value)
            == if ordered.None? then None
               else
                 var fs := DecMembers(S, ms, d, ordered.value);
                 if fs.Failed? then None else Some(RecordV(fs.v))
  {
    hide SetContents, DecMembers;
  }

  method DecodeSequence(levels: nat, S: Schema, ms: seq<Member>, isSet: bool, ghost d: nat, value: seq<Byte>) returns (v: Option<Value>)
    requires levels + d == 256
    ensures v == DecContent(S, Sequence(ms, isSet), d + 1, value)
    decreases d, 2, 9
  {
    hide DecMembers, SetContents, DecContent;
    SequenceSpec(S, ms, isSet, d, value);
    var ordered := OrderedContents(S, ms, isSet, value);
    if ordered.None? { return None; }
    var inner := new BerReader(ordered.value, levels);
    var fs := DecodeMembers(inner, S, ms, d);
    v := if fs.None? then None else Some(RecordV(fs.value));
  }

  lemma MembersStep(S: Schema, ms: seq<Member>, d: nat, b: seq<Byte>)
    requires ms != []
    ensures if ms[0].optional && !Present(S, ms[0], b) then
              DecMembers(S, ms, d, b) == Onto([ms[0].dflt], DecMembers(S, ms[1..], d, b))
            else
              var first := DecTagged(S, ms[0], true, d, b);
              DecMembers(S, ms, d, b) == if first.Failed? then Failed else Onto([Has(first.v)], DecMembers(S, ms[1..], d, first.rest))
  {
    hide DecTagged, Present;
  }

  method DecodeMembers(r: BerReader, S: Schema, ms: seq<Member>, ghost d: nat) returns (got: Option<seq<Field>>)
    requires At(r, d)
    modifies r
    ensures Reads(r, got, DecMembers(S, ms, d, old(r.Rest())))
    decreases d, 2, 8, 0
  {
    hide DecTagged, Present, DecMembers;
    var fs: seq<Field> := [];
    ghost var total := DecMembers(S, ms, d, r.Rest());
    OntoNothing(total);
    assert ms[0..] == ms;
    var i := 0;
    while i < |ms|
      invariant i <= |ms| && At(r, d)
      invariant total == Onto(fs, DecMembers(S, ms[i..], d, r.Rest()))
    {
      assert ms[i..][1..] == ms[i + 1..];
      MembersStep(S, ms[i..], d, r.Rest());
      var f := ms[i].dflt;
      var present := true;
      if ms[i].optional { present := IsPresent(r, S, ms[i]); }
      if present {
        var v := DecodeTagged(r, S, ms[i], true, d);
        if v.None? { return None; }
        f := Has(v.value);
      }
      OntoMore(fs, f, DecMembers(S, ms[i + 1..], d, r.Rest()));
      fs := fs + [f];
      i := i + 1;
    }
    NoMembers(S, ms[|ms|..], d, r.Rest());
    OntoLast(fs, r.Rest());
    got := Some(fs);
  }

  lemma NoMembers(S: Schema, ms: seq<Member>, d: nat, b: seq<Byte>)
    ensures ms == [] ==> DecMembers(S, ms, d, b) == Parsed([], b)
  {
  }

  method DecodeTagged(r: BerReader, S: Schema, m: Member, check: bool, ghost d: nat) returns (got: Option<Value>)
    requires At(r, d)
    modifies r
    ensures Reads(r, got, DecTagged(S, m, check, d, old(r.Rest())))
    decreases d, 2, 7
  {
    hide Dec, DecValue, ReadTlv;
    if m.tagging.Own? {
      got := Decode(r, S, m.t, d);
      return;
    }
    var outer := TakeTlv(r);
    if outer.None? || (check && !Matches(outer.value.tag, m.tag)) { return None; }
    if m.tagging.Explicit? {
      var inner := new BerReader(outer.value.value, r.levels);
      got := Decode(inner, S, m.t, d);
    } else {
      got := DecodeValue(r.levels, S, m.t, d, outer.value.value);
    }
  }

  method DecodeValue(levels: nat, S: Schema, t: nat, ghost d: nat, value: seq<Byte>) returns (got: Option<Value>)
    requires levels + d == 256
    ensures got == DecValue(S, t, d, value)
    decreases d, 2, 6
  {
    hide DecContent, DecAlternative;
    if t >= |S| { return None; }
    var entered := levels + (if Counts(S[t].kind) then 1 else 0);
    if entered > MAX_DECODE_DEPTH { return None; }
    if S[t].kind.Choice? {
      var content := new BerReader(value, entered);
      got := DecodeAlternative(content, S, S[t].kind, d - 1);
    } else {
      got := DecodeContent(entered, S, S[t].kind, d, value);
    }
  }

  // The alternative named by the next tag; an unknown one is skipped when the
  // CHOICE is extensible.
  method DecodeAlternative(r: BerReader, S: Schema, k: Kind, ghost d: nat) returns (got: Option<Value>)
    requires At(r, d) && k.Choice?
    modifies r
    ensures Reads(r, got, DecAlternative(S, k, d, old(r.Rest())))
    decreases d, 2, 8, 0
  {
    hide DecTagged, ReadTlv, PeekTag, FindAlt;
    var peek := PeekTag(r.data[r.pos..]);
    var a := Dispatch(k, peek);
    if a.Some? {
      if a.value >= |k.alts| { return None; }
      var v := DecodeTagged(r, S, k.alts[a.value], false, d);
      if v.None? { return None; }
      got := Some(ChoiceV(a.value, v.value));
    } else if k.extensible {
      var skipped := TakeTlv(r);
      if skipped.None? { return None; }
      got := Some(NoChoice);
    } else {
      got := None;
    }
  }
}
