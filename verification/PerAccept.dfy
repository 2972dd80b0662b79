/**
 * Which values the PER encoder encodes: exactly those made like their type and
 * within the constraints it enforces.  For all others it raises its flag.
 */
module PerAccept {
  import opened Bits
  import opened Options
  import opened Integers
  import opened PerTypes
  import opened PerEncode
  import opened PerForms

  // The sizes a list can have.
  predicate CountAccepted(size: SizeC, ext: bool, n: nat) {
    size.AnySize? || size.hi >= 65536 || ext || size.lo <= n <= size.hi
  }

  predicate StrAccepted(kind: StringKind, from: Option<CharCode>, size: SizeC, ext: bool, chars: seq<Value>)
    requires from.Some? ==> from.value.Indexed?
  {
    var inRoot := (size.Size? ==> size.lo <= |chars| <= size.hi) && AllListed(from, chars);
    Whole(kind, chars) && if ext then inRoot || AllLegal(kind, chars) else inRoot && (from.None? ==> AllLegal(kind, chars))
  }

  predicate Accepted(S: Schema, t: nat, v: Value)
    decreases v, 4
  {
    t < |S| && AcceptedAs(S, S[t], v)
  }

  predicate AcceptedAs(S: Schema, ty: Ty, v: Value)
    decreases v, 3
  {
    match ty
    case Boolean => v.BoolV?
    case Null => v.NullV?
    case Int(_) => v.IntV?
    case UInt(_) => v.IntV?
    case Enum(_) => v.IntV?
    case List(item, size, ext, _) => v.ListV? && ItemsAccepted(S, item, v.items) && CountAccepted(size, ext, |v.items|)
    case Str(kind, from, size, ext) =>
      v.ListV? && (from.Some? ==> from.value.Indexed?) && StrAccepted(kind, from, size, ext, v.items)
    case Sequence(root, additions) =>
      && v.RecordV? && |v.root| == |root| && |v.units| == (if additions.Some? then |additions.value| else 0)
      && MembersAccepted(S, root, v.root)
      && (additions.Some? && HasAdditions(v.units) ==> UnitsAccepted(S, additions.value, v.units))
    case Choice(alts, _, more) => v.ChoiceV? && ChoiceAccepted(S, alts, more, v)
  }

  predicate ItemsAccepted(S: Schema, item: Item, vs: seq<Value>)
    decreases vs, 0
  {
    vs != [] ==> ItemAccepted(S, item, vs[0]) && ItemsAccepted(S, item, vs[1..])
  }

  predicate ItemAccepted(S: Schema, item: Item, v: Value)
    decreases v, 5
  {
    match item
    case BitItem => v.BoolV?
    case OctetItem => v.IntV? && 0 <= v.i <= 255
    case CharItem(code) => v.CharV? && PutChar(code, v.octets).Some?
    case Element(t) => Accepted(S, t, v)
  }

  predicate FieldAccepted(S: Schema, t: nat, f: Field)
    decreases f, 0
  {
    f.Has? ==> Accepted(S, t, f.v)
  }

  // Mandatory members are there; one that equals its DEFAULT is not looked at.
  predicate MembersAccepted(S: Schema, ms: seq<Member>, fs: seq<Field>)
    requires |ms| == |fs|
    decreases fs, 0
  {
    ms != [] ==>
      && (fs[0].Absent? ==> ms[0].optional)
      && (fs[0].Has? && fs[0] != ms[0].dflt ==> FieldAccepted(S, ms[0].t, fs[0]))
      && MembersAccepted(S, ms[1..], fs[1..])
  }

  predicate GroupAccepted(S: Schema, ms: seq<Member>, fs: seq<Field>)
    requires |ms| == |fs|
    decreases fs, 0
  {
    ms != [] ==> (fs[0].Absent? ==> ms[0].optional) && FieldAccepted(S, ms[0].t, fs[0]) && GroupAccepted(S, ms[1..], fs[1..])
  }

  predicate UnitAccepted(S: Schema, u: Unit, uv: UnitV)
    decreases uv, 1
  {
    match u
    case Single(m) => |uv.fields| == 1 && FieldAccepted(S, m.t, uv.fields[0])
    case Group(ms) => |uv.fields| == |ms| && GroupAccepted(S, ms, uv.fields)
  }

  // Units with no value are not looked at.
  predicate UnitsAccepted(S: Schema, us: seq<Unit>, uvs: seq<UnitV>)
    requires |us| == |uvs|
    decreases uvs, 0
  {
    us != [] ==> (uvs[0].Present() ==> UnitAccepted(S, us[0], uvs[0])) && UnitsAccepted(S, us[1..], uvs[1..])
  }

  predicate ChoiceAccepted(S: Schema, alts: seq<nat>, more: Option<seq<nat>>, v: Value)
    requires v.ChoiceV?
    decreases v, 2
  {
    if v.index < |alts| then Accepted(S, alts[v.index], v.v)
    else more.Some? && v.index < |alts| + |more.value| && Accepted(S, more.value[v.index - |alts|], v.v)
  }

  // ---- exactly these are encoded ----

  lemma {:induction false} EncodedWhole(kind: StringKind, code: CharCode, chars: seq<Value>)
    requires CodeWf(code, CharWidth(kind)) && EncChars(code, chars).Some?
    ensures Whole(kind, chars)
    decreases |chars|
  {
    if chars != [] {
      EncodedWhole(kind, code, chars[1..]);
      assert forall i :: 0 < i < |chars| ==> chars[i] == chars[1..][i - 1];
    }
  }

  lemma StringExact(kind: StringKind, from: Option<CharCode>, size: SizeC, ext: bool, chars: seq<Value>)
    requires CodeWf(CodeOf(kind, from), CharWidth(kind)) && (from.Some? ==> from.value.Indexed?)
    ensures PutStr(kind, from, size, ext, chars).Some? <==> StrAccepted(kind, from, size, ext, chars)
  {
    hide EncChars, PutItems, PutSized, StrInRoot, NaturalOk, AllLegal, AllListed, Whole, CodeWf;
    assert CodeWf(NaturalCode(kind), CharWidth(kind)) by { NaturalWf(kind); }
    if PutStr(kind, from, size, ext, chars).Some? {
      if EncChars(CodeOf(kind, from), chars).Some? { EncodedWhole(kind, CodeOf(kind, from), chars); }
      else { EncodedWhole(kind, NaturalCode(kind), chars); }
    }
    if Whole(kind, chars) { StringAccepted(kind, from, size, ext, chars); }
  }

  lemma NaturalWf(kind: StringKind)
    ensures CodeWf(NaturalCode(kind), CharWidth(kind))
  {
  }

  // The encoder encodes a value if and only if it is accepted.
  lemma {:induction false} AcceptedExact(S: Schema, t: nat, v: Value)
    requires SchemaWf(S)
    ensures Enc(S, t, v).Some? <==> Accepted(S, t, v)
    decreases v, 4
  {
    if t < |S| {
      assert TyWf(S[t], |S|);
      AcceptedAsExact(S, S[t], v);
    }
  }

  lemma {:induction false} AcceptedAsExact(S: Schema, ty: Ty, v: Value)
    requires SchemaWf(S) && TyWf(ty, |S|)
    ensures EncAs(S, ty, v).Some? <==> AcceptedAs(S, ty, v)
    decreases v, 3
  {
    hide PutInt, PutEnum, PutStr, PutExtSized, EncMembers, EncUnits, EncChoice, SchemaWf, Preamble, UnitBitmap, PutNsLength, StrAccepted, CodeWf;
    match ty
    case List(item, size, ext, isSet) =>
      if v.ListV? {
        ItemsExact(S, item, v.items);
        var encs := EncItems(S, item, v.items);
        if encs.Some? { SizeForm(size, ext, if isSet then SortEncs(encs.value) else encs.value); }
      }
    case Str(kind, from, size, ext) => if v.ListV? { StringExact(kind, from, size, ext, v.items); }
    case Sequence(root, additions) =>
      if v.RecordV? && |v.root| == |root| && |v.units| == (if additions.Some? then |additions.value| else 0) {
        MembersExact(S, root, v.root);
        if additions.Some? { UnitsExact(S, additions.value, v.units); }
      }
    case Choice(alts, bits, more) => if v.ChoiceV? { ChoiceExact(S, alts, bits, more, v); }
    case _ =>
  }

  lemma {:induction false} ChoiceExact(S: Schema, alts: seq<nat>, bits: nat, more: Option<seq<nat>>, v: Value)
    requires SchemaWf(S) && v.ChoiceV? && |alts| + (if more.Some? then |more.value| else 0) < INT_LIMIT
    ensures EncChoice(S, alts, bits, more, v).Some? <==> ChoiceAccepted(S, alts, more, v)
    decreases v, 2
  {
    hide SchemaWf, BitsOf, PutNsNumber, PutOpen;
    if v.index < |alts| { AcceptedExact(S, alts[v.index], v.v); }
    else if more.Some? && v.index < |alts| + |more.value| { AcceptedExact(S, more.value[v.index - |alts|], v.v); }
  }

  lemma {:induction false} ItemsExact(S: Schema, item: Item, vs: seq<Value>)
    requires SchemaWf(S)
    ensures EncItems(S, item, vs).Some? <==> ItemsAccepted(S, item, vs)
    decreases vs, 0
  {
    hide SchemaWf, PutChar, Enc, Accepted;
    if vs != [] {
      if item.Element? { AcceptedExact(S, item.t, vs[0]); }
      ItemsExact(S, item, vs[1..]);
    }
  }

  lemma {:induction false} FieldExact(S: Schema, t: nat, f: Field)
    requires SchemaWf(S) && f.Has?
    ensures EncField(S, t, f).Some? <==> FieldAccepted(S, t, f)
    decreases f, 0
  {
    AcceptedExact(S, t, f.v);
  }

  lemma {:induction false} MembersExact(S: Schema, ms: seq<Member>, fs: seq<Field>)
    requires SchemaWf(S) && |ms| == |fs|
    ensures EncMembers(S, ms, fs).Some? <==> MembersAccepted(S, ms, fs)
    decreases fs, 0
  {
    hide SchemaWf, EncField, FieldAccepted;
    if ms != [] {
      if fs[0].Has? { FieldExact(S, ms[0].t, fs[0]); }
      MembersExact(S, ms[1..], fs[1..]);
    }
  }

  lemma {:induction false} GroupExact(S: Schema, ms: seq<Member>, fs: seq<Field>)
    requires SchemaWf(S) && |ms| == |fs|
    ensures EncGroup(S, ms, fs).Some? <==> GroupAccepted(S, ms, fs)
    decreases fs, 0
  {
    hide SchemaWf, EncField;
    if ms != [] {
      if fs[0].Has? { FieldExact(S, ms[0].t, fs[0]); }
      GroupExact(S, ms[1..], fs[1..]);
    }
  }

  lemma {:induction false} UnitExact(S: Schema, u: Unit, uv: UnitV)
    requires SchemaWf(S) && uv.Present()
    ensures EncUnit(S, u, uv).Some? <==> UnitAccepted(S, u, uv)
    decreases uv, 1
  {
    hide SchemaWf, EncField, EncGroup, GroupBitmap, FieldAccepted;
    match u
    case Single(m) => if |uv.fields| == 1 { FieldExact(S, m.t, uv.fields[0]); }
    case Group(ms) => if |uv.fields| == |ms| { GroupExact(S, ms, uv.fields); }
  }

  lemma {:induction false} UnitsExact(S: Schema, us: seq<Unit>, uvs: seq<UnitV>)
    requires SchemaWf(S) && |us| == |uvs|
    ensures EncUnits(S, us, uvs).Some? <==> UnitsAccepted(S, us, uvs)
    decreases uvs, 0
  {
    hide SchemaWf, EncUnit, UnitAccepted, PutOpen;
    if us != [] {
      if uvs[0].Present() { UnitExact(S, us[0], uvs[0]); }
      UnitsExact(S, us[1..], uvs[1..]);
    }
  }
}
