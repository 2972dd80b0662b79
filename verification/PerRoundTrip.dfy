/**
 * Decoding what was encoded.  Sender and receiver may hold different versions
 * of a schema: they agree on every extension root, and of two extension
 * addition lists one is a prefix of the other.
 */
module PerRoundTrip {
  import opened Bits
  import opened Options
  import opened Integers
  import opened PerTypes
  import opened PerEncode
  import opened PerDecode
  import opened PerNumbers
  import opened PerWidth
  import opened PerItems

  ghost predicate Agree<T>(x: seq<T>, y: seq<T>) {
    x <= y || y <= x
  }

  ghost predicate VersionsOf(a: Ty, b: Ty) {
    if a.Sequence? && b.Sequence? && a.additions.Some? && b.additions.Some? then
      a.root == b.root && Agree(a.additions.value, b.additions.value)
    else if a.Choice? && b.Choice? && a.more.Some? && b.more.Some? then
      a.alts == b.alts && a.indexBits == b.indexBits && Agree(a.more.value, b.more.value)
    else a == b
  }

  ghost predicate Compatible(A: Schema, B: Schema) {
    |A| == |B| && forall t {:trigger VersionsOf(A[t], B[t])} :: 0 <= t < |A| ==> VersionsOf(A[t], B[t])
  }

  // ---- the value a receiver sees ----

  predicate CharsFit(code: CharCode, chars: seq<Value>) {
    forall i :: 0 <= i < |chars| ==> chars[i].CharV? && CharFits(code, chars[i].octets)
  }

  // The character code a string value travels in.
  function TravelCode(kind: StringKind, from: Option<CharCode>, size: SizeC, ext: bool, chars: seq<Value>): CharCode {
    if ext && !StrInRoot(CodeOf(kind, from), size, chars) then NaturalCode(kind)
    else CodeOf(kind, from)
  }

  function SeenChar(code: CharCode, c: Value): Value {
    if c.CharV? then CharV(CharSeen(code, c.octets)) else c
  }

  function SeenChars(code: CharCode, chars: seq<Value>): (r: seq<Value>)
    ensures |r| == |chars|
  {
    seq(|chars|, i requires 0 <= i < |chars| => SeenChar(code, chars[i]))
  }

  // Characters are cut to their code, absent and suppressed members hold their DEFAULT, unknown additions are
  // gone, and a SET OF comes back in the order it travels in.
  function Seen(A: Schema, B: Schema, t: nat, v: Value): Value
    decreases v, 4
  {
    if t < |A| && t < |B| then SeenAs(A, B, A[t], B[t], v) else v
  }

  function SeenAs(A: Schema, B: Schema, a: Ty, b: Ty, v: Value): Value
    decreases v, 3
  {
    match a
    case Str(kind, from, size, ext) =>
      if v.ListV? then ListV(SeenChars(TravelCode(kind, from, size, ext, v.items), v.items)) else v
    case List(item, _, _, isSet) =>
      if !v.ListV? || !item.Element? then v
      else
        var encs := EncItems(A, item, v.items);
        var vs := SeenItems(A, B, item.t, v.items);
        ListV(if isSet && encs.Some? then Permute(Order(encs.value), vs) else vs)
    case Sequence(root, _) =>
      if !v.RecordV? || |v.root| != |root| || !b.Sequence? then v
      else SeenRecord(A, B, root, b.additions, v)
    case Choice(alts, _, _) =>
      if !v.ChoiceV? || !b.Choice? then v else SeenChoice(A, B, alts, b.more, v)
    case _ => v
  }

  // `additions` are the receiver's.
  function SeenRecord(A: Schema, B: Schema, root: seq<Member>, additions: Option<seq<Unit>>, v: Value): Value
    requires v.RecordV? && |v.root| == |root|
    decreases v, 2
  {
    var us := if additions.Some? then additions.value else [];
    RecordV(SeenMembers(A, B, root, v.root),
            if HasAdditions(v.units) then SeenUnits(A, B, us, v.units) else AbsentUnits(us))
  }

  // `more` are the receiver's additions.
  function SeenChoice(A: Schema, B: Schema, alts: seq<nat>, more: Option<seq<nat>>, v: Value): Value
    requires v.ChoiceV?
    decreases v, 2
  {
    var k := v.index - |alts|;
    if k < 0 then ChoiceV(v.index, Seen(A, B, alts[v.index], v.v))
    else if more.Some? && k < |more.value| then ChoiceV(v.index, Seen(A, B, more.value[k], v.v))
    else NoChoice
  }

  function SeenItems(A: Schema, B: Schema, t: nat, vs: seq<Value>): (r: seq<Value>)
    ensures |r| == |vs|
    decreases vs, 0
  {
    if vs == [] then [] else [Seen(A, B, t, vs[0])] + SeenItems(A, B, t, vs[1..])
  }

  function SeenField(A: Schema, B: Schema, t: nat, f: Field): Field
    requires f.Has?
    decreases f, 0
  {
    Has(Seen(A, B, t, f.v))
  }

  function SeenMembers(A: Schema, B: Schema, ms: seq<Member>, fs: seq<Field>): (r: seq<Field>)
    requires |ms| == |fs|
    ensures |r| == |fs|
    decreases fs, 0
  {
    if fs == [] then []
    else [if Sent(ms[0], fs[0]) then SeenField(A, B, ms[0].t, fs[0]) else ms[0].dflt] + SeenMembers(A, B, ms[1..], fs[1..])
  }

  function SeenGroup(A: Schema, B: Schema, ms: seq<Member>, fs: seq<Field>): (r: seq<Field>)
    requires |ms| == |fs|
    ensures |r| == |fs|
    decreases fs, 0
  {
    if fs == [] then []
    else [if fs[0].Has? then SeenField(A, B, ms[0].t, fs[0]) else ms[0].dflt] + SeenGroup(A, B, ms[1..], fs[1..])
  }

  function SeenUnit(A: Schema, B: Schema, u: Unit, uv: UnitV): UnitV
    decreases uv, 1
  {
    match u
    case Single(m) =>
      if |uv.fields| == 1 && uv.fields[0].Has? then UnitV([SeenField(A, B, m.t, uv.fields[0])]) else uv
    case Group(ms) => if |uv.fields| == |ms| then UnitV(SeenGroup(A, B, ms, uv.fields)) else uv
  }

  // `us` are the receiver's units, `uvs` the sender's values.
  function SeenUnits(A: Schema, B: Schema, us: seq<Unit>, uvs: seq<UnitV>): (r: seq<UnitV>)
    ensures |r| == |us|
    decreases uvs, 0
  {
    if us == [] then []
    else if uvs == [] then AbsentUnits(us)
    else
      [if uvs[0].Present() then SeenUnit(A, B, us[0], uvs[0]) else AbsentUnit(us[0], true)]
      + SeenUnits(A, B, us[1..], uvs[1..])
  }

  // ---- the values that survive ----

  // Everything that travels fits its field, known enumeration values only,
  // no long list of a type without bits, and nesting within `d` levels.
  ghost predicate Survives(A: Schema, B: Schema, t: nat, v: Value, d: nat)
    decreases v, 4
  {
    t < |A| && t < |B| && SurvivesAs(A, B, A[t], B[t], v, d)
  }

  ghost predicate SurvivesAs(A: Schema, B: Schema, a: Ty, b: Ty, v: Value, d: nat)
    decreases v, 3
  {
    match a
    case Boolean => true
    case Null => true
    case Int(c) => v.IntV? && I64_MIN <= v.i <= I64_MAX && IntFits(c, v.i)
    case UInt(c) => v.IntV? && 0 <= v.i < U64 && IntFits(c, v.i)
    case Enum(e) => v.IntV? && v.i in e.entries
    case List(item, _, _, _) =>
      item.Element? ==>
        d > 0 && v.ListV? && ItemsSurvive(A, B, item.t, v.items, d - 1) && ElementsTakeBits(A, item.t, |v.items|)
    case Str(_, _, _, _) => v.ListV?
    case Sequence(root, _) =>
      d > 0 && v.RecordV? && |v.root| == |root| && b.Sequence?
      && MembersSurvive(A, B, root, v.root, d - 1)
      && (b.additions.Some? ==> UnitsSurvive(A, B, b.additions.value, v.units, d - 1))
    case Choice(alts, _, _) => d > 0 && v.ChoiceV? && b.Choice? && ChoiceSurvives(A, B, alts, b.more, v, d - 1)
  }

  ghost predicate ChoiceSurvives(A: Schema, B: Schema, alts: seq<nat>, more: Option<seq<nat>>, v: Value, d: nat)
    requires v.ChoiceV?
    decreases v, 2
  {
    var k := v.index - |alts|;
    && (k < 0 ==> Survives(A, B, alts[v.index], v.v, d))
    && (k >= 0 && more.Some? && k < |more.value| ==> Survives(A, B, more.value[k], v.v, d))
  }

  ghost predicate ItemsSurvive(A: Schema, B: Schema, t: nat, vs: seq<Value>, d: nat)
    decreases vs, 0
  {
    vs != [] ==> Survives(A, B, t, vs[0], d) && ItemsSurvive(A, B, t, vs[1..], d)
  }

  ghost predicate FieldSurvives(A: Schema, B: Schema, t: nat, f: Field, d: nat)
    decreases f, 0
  {
    f.Has? ==> Survives(A, B, t, f.v, d)
  }

  ghost predicate MembersSurvive(A: Schema, B: Schema, ms: seq<Member>, fs: seq<Field>, d: nat)
    requires |ms| == |fs|
    decreases fs, 0
  {
    fs != [] ==> (Sent(ms[0], fs[0]) ==> FieldSurvives(A, B, ms[0].t, fs[0], d)) && MembersSurvive(A, B, ms[1..], fs[1..], d)
  }

  ghost predicate GroupSurvives(A: Schema, B: Schema, ms: seq<Member>, fs: seq<Field>, d: nat)
    requires |ms| == |fs|
    decreases fs, 0
  {
    fs != [] ==> FieldSurvives(A, B, ms[0].t, fs[0], d) && GroupSurvives(A, B, ms[1..], fs[1..], d)
  }

  ghost predicate UnitSurvives(A: Schema, B: Schema, u: Unit, uv: UnitV, d: nat)
    decreases uv, 1
  {
    match u
    case Single(m) => |uv.fields| == 1 && FieldSurvives(A, B, m.t, uv.fields[0], d)
    case Group(ms) => |uv.fields| == |ms| && GroupSurvives(A, B, ms, uv.fields, d)
  }

  ghost predicate UnitsSurvive(A: Schema, B: Schema, us: seq<Unit>, uvs: seq<UnitV>, d: nat)
    decreases uvs, 0
  {
    us != [] && uvs != [] ==>
      (uvs[0].Present() ==> UnitSurvives(A, B, us[0], uvs[0], d)) && UnitsSurvive(A, B, us[1..], uvs[1..], d)
  }

  // ---- leaves ----

  lemma RootPositionReadBack(e: EnumSpec, pos: nat, s: Bits)
    requires pos < e.RootCount() <= |e.entries|
    ensures GetEnumPosition(e, false, BitsOf(pos, RangeBits(e.RootCount())) + s) == Ok(pos, s)
  {
    GetPut(pos, RangeBits(e.RootCount()), s);
  }

  lemma AdditionReadBack(e: EnumSpec, k: nat, s: Bits)
    requires e.RootCount() + k < |e.entries| < INT_LIMIT
    ensures GetEnumPosition(e, true, PutNsNumber(k) + s) == Ok(e.RootCount() + k, s)
  {
    IntSum(e.RootCount(), k);
    NsNumberRoundTrip(k, s);
  }

  lemma PositionReadBack(e: EnumSpec, pos: nat, s: Bits)
    requires EnumWf(e) && pos < |e.entries|
    ensures GetEnum(e, PutEnumPosition(e, pos) + s) == Ok(e.entries[pos], s)
  {
    hide PutNsNumber, BitsOf, RangeBits, GetEnumPosition;
    var isAddition := pos >= e.RootCount();
    var body := if isAddition then PutNsNumber(pos - e.RootCount()) else BitsOf(pos, RangeBits(e.RootCount()));
    Assoc(if e.extensible then [isAddition] else [], body, s);
    FlagAfter(e.extensible, isAddition, body + s);
    if isAddition { AdditionReadBack(e, pos - e.RootCount(), s); } else { RootPositionReadBack(e, pos, s); }
  }

  // An enumeration value is read back exactly when the table knows it.
  lemma EnumReadBack(e: EnumSpec, v: int, s: Bits)
    requires EnumWf(e)
    ensures v in e.entries <==> GetEnum(e, PutEnum(e, v) + s) == Ok(v, s)
  {
    if v in e.entries { PositionReadBack(e, IndexOf(e.entries, v).value, s); }
  }

  lemma {:induction false} EncCharsItems(S: Schema, code: CharCode, width: nat, d: nat, chars: seq<Value>)
    requires CodeWf(code, width) && EncChars(code, chars).Some?
    ensures AllReadAs(S, CharItem(code), d, EncChars(code, chars).value, SeenChars(code, chars))
  {
    if chars != [] {
      var encs := EncChars(code, chars).value;
      EncCharsItems(S, code, width, d, chars[1..]);
      CharItemReads(S, code, width, d, chars[0]);
      assert SeenChars(code, chars)[1..] == SeenChars(code, chars[1..]);
      AllReadCons(S, CharItem(code), d, encs, SeenChars(code, chars));
    }
  }

  lemma CharItemReads(S: Schema, code: CharCode, width: nat, d: nat, c: Value)
    requires CodeWf(code, width) && c.CharV? && PutChar(code, c.octets).Some?
    ensures ReadsAs(S, CharItem(code), d, PutChar(code, c.octets).value, SeenChar(code, c))
  {
    forall s: Bits ensures DecItem(S, CharItem(code), d, PutChar(code, c.octets).value + s) == Ok(SeenChar(code, c), s) {
      CharReadBack(code, width, c.octets, s);
    }
  }

  // Characters are seen as they are exactly when all of them fit.
  lemma {:induction false} SeenCharsExact(code: CharCode, chars: seq<Value>)
    ensures CharsFit(code, chars) ==> SeenChars(code, chars) == chars
    ensures EncChars(code, chars).Some? && SeenChars(code, chars) == chars ==> CharsFit(code, chars)
  {
    if chars != [] {
      SeenCharsExact(code, chars[1..]);
      if chars[0].CharV? { CharSeenExact(code, chars[0].octets); }
      var r := SeenChars(code, chars);
      assert r == [r[0]] + SeenChars(code, chars[1..]) && chars == [chars[0]] + chars[1..];
    }
  }

  lemma AllReadCons(S: Schema, item: Item, d: nat, encs: seq<Bits>, vals: seq<Value>)
    requires encs != [] && vals != []
    requires ReadsAs(S, item, d, encs[0], vals[0]) && AllReadAs(S, item, d, encs[1..], vals[1..])
    ensures AllReadAs(S, item, d, encs, vals)
  {
    forall i | 0 <= i < |encs| ensures ReadsAs(S, item, d, encs[i], vals[i]) {
      if i > 0 { assert ReadsAs(S, item, d, encs[1..][i - 1], vals[1..][i - 1]); }
    }
  }

  // What `PutStr` writes: the extension bit and the items in the code that
  // travels.
  lemma StrBits(kind: StringKind, from: Option<CharCode>, size: SizeC, ext: bool, chars: seq<Value>)
    requires PutStr(kind, from, size, ext, chars).Some?
    ensures var code := TravelCode(kind, from, size, ext, chars);
            var outside := ext && !StrInRoot(CodeOf(kind, from), size, chars);
            && EncChars(code, chars).Some?
            && (!outside ==> PutSized(size, EncChars(code, chars).value).Some?)
            && PutStr(kind, from, size, ext, chars).value
            == (if ext then [outside] else [])
               + (if outside then PutItems(EncChars(code, chars).value) else PutSized(size, EncChars(code, chars).value).value)
  {
    hide PutItems, PutSized, EncChars, StrInRoot, NaturalOk;
  }

  // A string is read back cut to the code it travels in.
  lemma StrSeen(S: Schema, kind: StringKind, from: Option<CharCode>, size: SizeC, ext: bool, chars: seq<Value>, d: nat, s: Bits)
    requires TyWf(Str(kind, from, size, ext), |S|)
    requires PutStr(kind, from, size, ext, chars).Some?
    ensures DecAs(S, Str(kind, from, size, ext), d, PutStr(kind, from, size, ext, chars).value + s)
         == Ok(ListV(SeenChars(TravelCode(kind, from, size, ext, chars), chars)), s)
  {
    hide PutStr, EncChars, SeenChars, GetItems, GetSized, PutItems, PutSized, StrInRoot;
    StrBits(kind, from, size, ext, chars);
    var used := TravelCode(kind, from, size, ext, chars);
    var outside := ext && !StrInRoot(CodeOf(kind, from), size, chars);
    var encs, seen := EncChars(used, chars).value, SeenChars(used, chars);
    EncCharsItems(S, used, CharWidth(kind), d, chars);
    var body := if outside then PutItems(encs) else PutSized(size, encs).value;
    Assoc(if ext then [outside] else [], body, s);
    FlagAfter(ext, outside, body + s);
    if outside { ReadItems(S, CharItem(used), d, encs, seen, s); }
    else { ReadSized(S, CharItem(used), size, d, encs, seen, s); }
  }

  // A string comes back exactly when its characters fit the code it travels in.
  lemma StrReadBack(S: Schema, kind: StringKind, from: Option<CharCode>, size: SizeC, ext: bool, chars: seq<Value>, d: nat, s: Bits)
    requires TyWf(Str(kind, from, size, ext), |S|)
    requires PutStr(kind, from, size, ext, chars).Some?
    ensures CharsFit(TravelCode(kind, from, size, ext, chars), chars)
       <==> DecAs(S, Str(kind, from, size, ext), d, PutStr(kind, from, size, ext, chars).value + s) == Ok(ListV(chars), s)
  {
    hide PutStr, DecAs, EncChars, SeenChars, CharsFit, StrInRoot;
    StrSeen(S, kind, from, size, ext, chars, d, s);
    StrBits(kind, from, size, ext, chars);
    SeenCharsExact(TravelCode(kind, from, size, ext, chars), chars);
  }

  // ---- lists ----

  lemma {:induction false} BitItemsRead(S: Schema, A: Schema, item: Item, vs: seq<Value>, d: nat)
    requires item.BitItem? || item.OctetItem?
    requires EncItems(A, item, vs).Some?
    ensures AllReadAs(S, item, d, EncItems(A, item, vs).value, vs)
  {
    if vs != [] {
      var encs := EncItems(A, item, vs).value;
      BitItemsRead(S, A, item, vs[1..], d);
      forall s: Bits ensures DecItem(S, item, d, encs[0] + s) == Ok(vs[0], s) {
        if item.OctetItem? { GetOctet(vs[0].i, s); }
        else { assert ([vs[0].b] + s)[1..] == s; }
      }
      AllReadCons(S, item, d, encs, vs);
    }
  }

  lemma AllReadPermuted(S: Schema, item: Item, d: nat, encs: seq<Bits>, vals: seq<Value>, order: seq<nat>)
    requires AllReadAs(S, item, d, encs, vals) && ZeroWidthOk(item, encs) && |order| == |encs|
    requires forall k :: 0 <= k < |order| ==> order[k] < |encs|
    ensures AllReadAs(S, item, d, Permute(order, encs), Permute(order, vals))
    ensures ZeroWidthOk(item, Permute(order, encs))
  {
    forall k | 0 <= k < |order| ensures ReadsAs(S, item, d, Permute(order, encs)[k], Permute(order, vals)[k]) {
      assert ReadsAs(S, item, d, encs[order[k]], vals[order[k]]);
    }
  }

  // The encodings of a list in the order they travel.
  function Travelling(isSet: bool, encs: seq<Bits>): seq<Bits> {
    if isSet then SortEncs(encs) else encs
  }

  lemma ListReadBack(S: Schema, ty: Ty, encs: seq<Bits>, vals: seq<Value>, d: nat, s: Bits)
    requires ty.List? && TyWf(ty, |S|) && (ty.item.Element? ==> d > 0)
    requires AllReadAs(S, ty.item, if ty.item.Element? then d - 1 else d, encs, vals)
    requires ZeroWidthOk(ty.item, encs)
    requires PutExtSized(ty.size, ty.ext, Travelling(ty.isSet, encs)).Some?
    ensures DecAs(S, ty, d, PutExtSized(ty.size, ty.ext, Travelling(ty.isSet, encs)).value + s)
         == Ok(ListV(if ty.isSet then Permute(Order(encs), vals) else vals), s)
  {
    var item, d' := ty.item, if ty.item.Element? then d - 1 else d;
    if ty.isSet {
      AllReadPermuted(S, item, d', encs, vals, Order(encs));
      ReadExtSized(S, item, ty.size, ty.ext, d', SortEncs(encs), Permute(Order(encs), vals), s);
    } else {
      ReadExtSized(S, item, ty.size, ty.ext, d', encs, vals, s);
    }
  }

  // ---- the theorem ----

  // A receiver reads back every surviving value, up to absent DEFAULTs, unknown
  // additions and SET OF order, and stops exactly where the encoding ends.
  lemma {:induction false} RoundTrip(A: Schema, B: Schema, t: nat, v: Value, d: nat, s: Bits)
    requires SchemaWf(A) && SchemaWf(B) && Compatible(A, B)
    requires Survives(A, B, t, v, d) && Enc(A, t, v).Some?
    ensures Dec(B, t, d, Enc(A, t, v).value + s) == Ok(Seen(A, B, t, v), s)
    decreases v, 4
  {
    assert VersionsOf(A[t], B[t]) && TyWf(A[t], |A|) && TyWf(B[t], |B|);
    RoundTripAs(A, B, A[t], B[t], v, d, s);
  }

  lemma {:induction false} RoundTripAs(A: Schema, B: Schema, a: Ty, b: Ty, v: Value, d: nat, s: Bits)
    requires SchemaWf(A) && SchemaWf(B) && Compatible(A, B)
    requires VersionsOf(a, b) && TyWf(a, |A|) && TyWf(b, |B|)
    requires SurvivesAs(A, B, a, b, v, d) && EncAs(A, a, v).Some?
    ensures DecAs(B, b, d, EncAs(A, a, v).value + s) == Ok(SeenAs(A, B, a, b, v), s)
    decreases v, 3
  {
    match a
    case Boolean => AfterFlag(v.b, [], s);
    case Null => assert [] + s == s;
    case Int(c) => IntRoundTrip(c, v.i, s);
    case UInt(c) => UIntRoundTrip(c, v.i, s);
    case Enum(e) => EnumReadBack(e, v.i, s);
    case List(item, _, _, _) =>
      if item.Element? {
        RoundTripItems(A, B, item.t, v.items, d - 1);
        LongListTakesBits(A, item.t, v.items);
        ListReadBack(B, b, EncItems(A, item, v.items).value, SeenItems(A, B, item.t, v.items), d, s);
      } else {
        BitItemsRead(B, A, item, v.items, d);
        ListReadBack(B, b, EncItems(A, item, v.items).value, v.items, d, s);
      }
    case Str(kind, from, size, ext) => StrSeen(B, kind, from, size, ext, v.items, d, s);
    case Sequence(root, additions) => RoundTripRecord(A, B, root, additions, b.additions, v, d - 1, s);
    case Choice(alts, bits, more) => RoundTripAlternative(A, B, alts, bits, more, b.more, v, d - 1, s);
  }

  lemma {:induction false} RoundTripItems(A: Schema, B: Schema, t: nat, vs: seq<Value>, d: nat)
    requires SchemaWf(A) && SchemaWf(B) && Compatible(A, B)
    requires ItemsSurvive(A, B, t, vs, d) && EncItems(A, Element(t), vs).Some?
    ensures AllReadAs(B, Element(t), d, EncItems(A, Element(t), vs).value, SeenItems(A, B, t, vs))
    decreases vs, 0
  {
    if vs != [] {
      var encs, vals := EncItems(A, Element(t), vs).value, SeenItems(A, B, t, vs);
      forall s: Bits ensures DecItem(B, Element(t), d, encs[0] + s) == Ok(vals[0], s) {
        RoundTrip(A, B, t, vs[0], d, s);
      }
      RoundTripItems(A, B, t, vs[1..], d);
      AllReadCons(B, Element(t), d, encs, vals);
    }
  }

  lemma {:induction false} RoundTripField(A: Schema, B: Schema, t: nat, f: Field, d: nat, s: Bits)
    requires SchemaWf(A) && SchemaWf(B) && Compatible(A, B) && f.Has?
    requires FieldSurvives(A, B, t, f, d) && EncField(A, t, f).Some?
    ensures Dec(B, t, d, EncField(A, t, f).value + s) == Ok(SeenField(A, B, t, f).v, s)
    decreases f, 0
  {
    RoundTrip(A, B, t, f.v, d, s);
  }

  lemma {:induction false} PreambleSize(ms: seq<Member>, fs: seq<Field>)
    requires |ms| == |fs|
    ensures |Preamble(ms, fs)| == OptionalCount(ms) && |GroupBitmap(ms, fs)| == OptionalCount(ms)
  {
    if ms != [] { PreambleSize(ms[1..], fs[1..]); }
  }

  lemma {:induction false} RoundTripMembers(A: Schema, B: Schema, ms: seq<Member>, fs: seq<Field>, d: nat, s: Bits)
    requires SchemaWf(A) && SchemaWf(B) && Compatible(A, B) && |ms| == |fs| && MembersWf(ms, |A|)
    requires MembersSurvive(A, B, ms, fs, d) && EncMembers(A, ms, fs).Some?
    ensures |Preamble(ms, fs)| == OptionalCount(ms)
    ensures DecMembers(B, ms, Preamble(ms, fs), d, EncMembers(A, ms, fs).value + s) == Ok(SeenMembers(A, B, ms, fs), s)
    decreases fs, 0
  {
    PreambleSize(ms, fs);
    if ms == [] {
      assert EncMembers(A, ms, fs).value + s == s;
    } else {
      var rest := EncMembers(A, ms[1..], fs[1..]).value;
      RoundTripMembers(A, B, ms[1..], fs[1..], d, s);
      assert Preamble(ms, fs)[if ms[0].optional then 1 else 0..] == Preamble(ms[1..], fs[1..]);
      if Sent(ms[0], fs[0]) {
        RoundTripField(A, B, ms[0].t, fs[0], d, rest + s);
        Assoc(EncField(A, ms[0].t, fs[0]).value, rest, s);
      }
    }
  }

  lemma {:induction false} RoundTripGroup(A: Schema, B: Schema, ms: seq<Member>, fs: seq<Field>, d: nat, s: Bits)
    requires SchemaWf(A) && SchemaWf(B) && Compatible(A, B) && |ms| == |fs|
    requires GroupSurvives(A, B, ms, fs, d) && EncGroup(A, ms, fs).Some?
    ensures |GroupBitmap(ms, fs)| == OptionalCount(ms)
    ensures DecMembers(B, ms, GroupBitmap(ms, fs), d, EncGroup(A, ms, fs).value + s) == Ok(SeenGroup(A, B, ms, fs), s)
    decreases fs, 0
  {
    PreambleSize(ms, fs);
    if ms == [] {
      assert EncGroup(A, ms, fs).value + s == s;
    } else {
      var rest := EncGroup(A, ms[1..], fs[1..]).value;
      RoundTripGroup(A, B, ms[1..], fs[1..], d, s);
      assert GroupBitmap(ms, fs)[if ms[0].optional then 1 else 0..] == GroupBitmap(ms[1..], fs[1..]);
      if fs[0].Has? {
        RoundTripField(A, B, ms[0].t, fs[0], d, rest + s);
        Assoc(EncField(A, ms[0].t, fs[0]).value, rest, s);
      }
    }
  }

  // An open type isolates its contents: padding inside, `s` outside.
  lemma {:induction false} RoundTripUnit(A: Schema, B: Schema, u: Unit, uv: UnitV, d: nat, s: Bits)
    requires SchemaWf(A) && SchemaWf(B) && Compatible(A, B)
    requires UnitSurvives(A, B, u, uv, d) && EncUnit(A, u, uv).Some? && uv.Present()
    ensures DecUnit(B, u, d, PutOpen(EncUnit(A, u, uv).value) + s) == Ok(SeenUnit(A, B, u, uv), s)
    decreases uv, 1
  {
    var pad := OpenReadBack(EncUnit(A, u, uv).value, s);
    match u
    case Single(m) => RoundTripField(A, B, m.t, uv.fields[0], d, Zeros(pad));
    case Group(ms) =>
      var bitmap, body := GroupBitmap(ms, uv.fields), EncGroup(A, ms, uv.fields).value;
      RoundTripGroup(A, B, ms, uv.fields, d, Zeros(pad));
      Assoc(bitmap, body, Zeros(pad));
      TakeBits(OptionalCount(ms), bitmap, body + Zeros(pad));
  }

  lemma {:induction false} RoundTripUnits(A: Schema, B: Schema, ua: seq<Unit>, ub: seq<Unit>, uvs: seq<UnitV>, d: nat, s: Bits)
    requires SchemaWf(A) && SchemaWf(B) && Compatible(A, B)
    requires |ua| == |uvs| && Agree(ua, ub)
    requires UnitsSurvive(A, B, ub, uvs, d) && EncUnits(A, ua, uvs).Some?
    ensures DecUnits(B, ub, UnitBitmap(uvs), d, EncUnits(A, ua, uvs).value + s) == Ok(SeenUnits(A, B, ub, uvs), s)
    decreases uvs, 0
  {
    hide EncUnit, DecUnit, SeenUnit, PutOpen, UnitSurvives, SchemaWf, Compatible, GetOctets;
    if uvs == [] {
      assert EncUnits(A, ua, uvs).value + s == s;
      if ub == [] { assert AbsentUnits(ub) == []; }
    } else {
      var ub' := if ub == [] then [] else ub[1..];
      assert UnitBitmap(uvs)[1..] == UnitBitmap(uvs[1..]);
      assert ub != [] ==> ua[0] == ub[0];
      var rest := EncUnits(A, ua[1..], uvs[1..]).value;
      RoundTripUnits(A, B, ua[1..], ub', uvs[1..], d, s);
      if uvs[0].Present() {
        var contents := EncUnit(A, ua[0], uvs[0]).value;
        Assoc(PutOpen(contents), rest, s);
        if ub == [] { var _ := OpenReadBack(contents, rest + s); }
        else { RoundTripUnit(A, B, ub[0], uvs[0], d, rest + s); }
      }
    }
  }

  // The part of a SEQUENCE after its root members.
  function Tail(A: Schema, additions: Option<seq<Unit>>, us: seq<UnitV>): Option<Bits>
    requires |us| == if additions.Some? then |additions.value| else 0
  {
    if !HasAdditions(us) then Some([])
    else if |us| < FRAGMENT then Cat(Some(PutNsLength(|us|) + UnitBitmap(us)), EncUnits(A, additions.value, us))
    else None
  }

  lemma SequenceBits(A: Schema, root: seq<Member>, additions: Option<seq<Unit>>, v: Value, s: Bits)
    requires v.RecordV? && |v.root| == |root|
    requires |v.units| == if additions.Some? then |additions.value| else 0
    requires EncSequence(A, root, additions, v).Some?
    ensures EncMembers(A, root, v.root).Some? && Tail(A, additions, v.units).Some?
    ensures EncSequence(A, root, additions, v).value + s
         == (if additions.Some? then [HasAdditions(v.units)] else [])
            + (Preamble(root, v.root) + (EncMembers(A, root, v.root).value + (Tail(A, additions, v.units).value + s)))
  {
    var flag, pre := if additions.Some? then [HasAdditions(v.units)] else [], Preamble(root, v.root);
    var ms, tail := EncMembers(A, root, v.root).value, Tail(A, additions, v.units).value;
    assert EncSequence(A, root, additions, v).value == (flag + pre) + ms + tail;
    Assoc((flag + pre) + ms, tail, s);
    Assoc(flag + pre, ms, tail + s);
    Assoc(flag, pre, ms + (tail + s));
  }

  // Reading the additions: count, bitmap, then the units.
  lemma TailBits(A: Schema, additions: seq<Unit>, us: seq<UnitV>, s: Bits)
    requires |us| == |additions| && HasAdditions(us) && Tail(A, Some(additions), us).Some?
    ensures EncUnits(A, additions, us).Some?
    ensures var after := EncUnits(A, additions, us).value + s;
            && GetNsLength(Tail(A, Some(additions), us).value + s) == Ok(|us|, UnitBitmap(us) + after)
            && GetBits(|us|, UnitBitmap(us) + after) == Ok(UnitBitmap(us), after)
  {
    var n, bm, body := PutNsLength(|us|), UnitBitmap(us), EncUnits(A, additions, us).value;
    Assoc(n + bm, body, s);
    Assoc(n, bm, body + s);
    NsLengthRoundTrip(|us|, bm + (body + s));
    TakeBits(|us|, bm, body + s);
  }

  lemma ReadRecord(B: Schema, root: seq<Member>, ub: Option<seq<Unit>>, d: nat, flag: bool, pre: Bits, ms: Bits, tail: Bits, fs: seq<Field>)
    requires |pre| == OptionalCount(root) && (flag ==> ub.Some?)
    requires DecMembers(B, root, pre, d, ms + tail) == Ok(fs, tail)
    ensures var r := DecSequence(B, root, ub, d, (if ub.Some? then [flag] else []) + (pre + (ms + tail)));
            if flag then r == DecAdditions(B, fs, ub, d, tail)
            else r == Ok(RecordV(fs, if ub.Some? then AbsentUnits(ub.value) else []), tail)
  {
    FlagAfter(ub.Some?, flag, pre + (ms + tail));
    TakeBits(OptionalCount(root), pre, ms + tail);
  }

  lemma {:induction false} RoundTripRecord(A: Schema, B: Schema, root: seq<Member>, ua: Option<seq<Unit>>, ub: Option<seq<Unit>>,
                                          v: Value, d: nat, s: Bits)
    requires SchemaWf(A) && SchemaWf(B) && Compatible(A, B) && MembersWf(root, |A|)
    requires ua.Some? == ub.Some? && (ua.Some? ==> Agree(ua.value, ub.value))
    requires v.RecordV? && |v.root| == |root| && |v.units| == if ua.Some? then |ua.value| else 0
    requires MembersSurvive(A, B, root, v.root, d) && (ub.Some? ==> UnitsSurvive(A, B, ub.value, v.units, d))
    requires EncSequence(A, root, ua, v).Some?
    ensures DecSequence(B, root, ub, d, EncSequence(A, root, ua, v).value + s)
         == Ok(SeenRecord(A, B, root, ub, v), s)
    decreases v, 1
  {
    var has, pre, ms := HasAdditions(v.units), Preamble(root, v.root), EncMembers(A, root, v.root).value;
    var tail := Tail(A, ua, v.units).value + s;
    SequenceBits(A, root, ua, v, s);
    RoundTripMembers(A, B, root, v.root, d, tail);
    ReadRecord(B, root, ub, d, has, pre, ms, tail, SeenMembers(A, B, root, v.root));
    if has {
      TailBits(A, ua.value, v.units, s);
      RoundTripUnits(A, B, ua.value, ub.value, v.units, d, s);
    } else {
      assert tail == s;
    }
  }

  lemma {:induction false} RoundTripOpen(A: Schema, B: Schema, t: nat, v: Value, d: nat, s: Bits)
    requires SchemaWf(A) && SchemaWf(B) && Compatible(A, B)
    requires Survives(A, B, t, v, d) && EncOpen(A, t, v).Some?
    ensures DecOpen(B, t, d, EncOpen(A, t, v).value + s) == Ok(Seen(A, B, t, v), s)
    decreases v, 5
  {
    var pad := OpenReadBack(Enc(A, t, v).value, s);
    RoundTrip(A, B, t, v, d, Zeros(pad));
  }

  lemma ReadRootAlternative(B: Schema, alts: seq<nat>, bits: nat, more: Option<seq<nat>>, d: nat, i: nat, body: Bits)
    requires i < |alts| <= Pow2(bits)
    ensures DecChoice(B, alts, bits, more, d, ((if more.Some? then [false] else []) + BitsOf(i, bits)) + body)
         == var r := Dec(B, alts[i], d, body); if r.Err? then Err else Ok(ChoiceV(i, r.v), r.rest)
  {
    var flag := if more.Some? then [false] else [];
    Assoc(flag, BitsOf(i, bits), body);
    FlagAfter(more.Some?, false, BitsOf(i, bits) + body);
    GetPut(i, bits, body);
  }

  lemma ReadAddedAlternative(B: Schema, alts: seq<nat>, bits: nat, more: Option<seq<nat>>, d: nat, k: nat, b: Bits, body: Bits)
    requires k < INT_LIMIT && more.Some? && b == ([true] + PutNsNumber(k)) + body
    ensures DecChoice(B, alts, bits, more, d, b) == DecAddition(B, |alts|, more.value, d, k, body)
  {
    Assoc([true], PutNsNumber(k), body);
    FlagAfter(true, true, PutNsNumber(k) + body);
    NsNumberRoundTrip(k, body);
  }

  lemma {:induction false} RoundTripRootAlternative(A: Schema, B: Schema, alts: seq<nat>, bits: nat, ma: Option<seq<nat>>, mb: Option<seq<nat>>,
                                                   v: Value, d: nat, s: Bits)
    requires SchemaWf(A) && SchemaWf(B) && Compatible(A, B) && |alts| <= Pow2(bits) && ma.Some? == mb.Some?
    requires v.ChoiceV? && v.index < |alts|
    requires ChoiceSurvives(A, B, alts, mb, v, d) && EncChoice(A, alts, bits, ma, v).Some?
    ensures DecChoice(B, alts, bits, mb, d, EncChoice(A, alts, bits, ma, v).value + s) == Ok(SeenChoice(A, B, alts, mb, v), s)
    decreases v, 0
  {
    var head, body := (if ma.Some? then [false] else []) + BitsOf(v.index, bits), Enc(A, alts[v.index], v.v).value;
    Assoc(head, body, s);
    ReadRootAlternative(B, alts, bits, mb, d, v.index, body + s);
    RoundTrip(A, B, alts[v.index], v.v, d, s);
  }

  lemma AdditionBits(A: Schema, alts: seq<nat>, bits: nat, ma: Option<seq<nat>>, v: Value, k: nat, s: Bits)
    requires v.ChoiceV? && v.index == |alts| + k && EncChoice(A, alts, bits, ma, v).Some?
    ensures ma.Some? && k < |ma.value| && k < INT_LIMIT && EncOpen(A, ma.value[k], v.v).Some?
    ensures EncChoice(A, alts, bits, ma, v).value + s == ([true] + PutNsNumber(k)) + (EncOpen(A, ma.value[k], v.v).value + s)
  {
    hide PutNsNumber, EncOpen, BitsOf;
    Assoc([true] + PutNsNumber(k), EncOpen(A, ma.value[k], v.v).value, s);
  }

  lemma {:induction false} RoundTripAdded(A: Schema, B: Schema, base: nat, more: seq<nat>, t: nat, w: Value, k: nat, d: nat, s: Bits)
    requires SchemaWf(A) && SchemaWf(B) && Compatible(A, B)
    requires EncOpen(A, t, w).Some? && base + k < INT_LIMIT && (k < |more| ==> more[k] == t && Survives(A, B, t, w, d))
    ensures DecAddition(B, base, more, d, k, EncOpen(A, t, w).value + s)
         == Ok(if k < |more| then ChoiceV(base + k, Seen(A, B, t, w)) else NoChoice, s)
    decreases w, 6
  {
    IntSum(base, k);
    if k < |more| { RoundTripOpen(A, B, t, w, d, s); }
    else { var _ := OpenReadBack(Enc(A, t, w).value, s); }
  }

  // The head of an added alternative leads the decoder to its open type.
  lemma AdditionHead(A: Schema, B: Schema, alts: seq<nat>, bits: nat, ma: Option<seq<nat>>, mb: Option<seq<nat>>, v: Value, k: nat, d: nat, s: Bits)
    requires v.ChoiceV? && v.index == |alts| + k && mb.Some? && EncChoice(A, alts, bits, ma, v).Some?
    ensures ma.Some? && k < |ma.value| && EncOpen(A, ma.value[k], v.v).Some?
    ensures DecChoice(B, alts, bits, mb, d, EncChoice(A, alts, bits, ma, v).value + s)
         == DecAddition(B, |alts|, mb.value, d, k, EncOpen(A, ma.value[k], v.v).value + s)
  {
    AdditionBits(A, alts, bits, ma, v, k, s);
    ReadAddedAlternative(B, alts, bits, mb, d, k, EncChoice(A, alts, bits, ma, v).value + s, EncOpen(A, ma.value[k], v.v).value + s);
  }

  // What the receiver knows of addition `k`.
  lemma AdditionKnown(A: Schema, B: Schema, alts: seq<nat>, ma: seq<nat>, mb: Option<seq<nat>>, v: Value, k: nat, d: nat)
    requires v.ChoiceV? && v.index == |alts| + k && k < |ma| && mb.Some? && Agree(ma, mb.value)
    requires ChoiceSurvives(A, B, alts, mb, v, d)
    ensures k < |mb.value| ==> mb.value[k] == ma[k] && Survives(A, B, ma[k], v.v, d)
    ensures SeenChoice(A, B, alts, mb, v) == if k < |mb.value| then ChoiceV(|alts| + k, Seen(A, B, ma[k], v.v)) else NoChoice
  {
  }

  lemma {:induction false} RoundTripAddition(A: Schema, B: Schema, alts: seq<nat>, bits: nat, ma: Option<seq<nat>>, mb: Option<seq<nat>>,
                                            v: Value, d: nat, s: Bits)
    requires SchemaWf(A) && SchemaWf(B) && Compatible(A, B) && ma.Some? && mb.Some? && Agree(ma.value, mb.value)
    requires v.ChoiceV? && |alts| <= v.index < INT_LIMIT
    requires ChoiceSurvives(A, B, alts, mb, v, d) && EncChoice(A, alts, bits, ma, v).Some?
    ensures DecChoice(B, alts, bits, mb, d, EncChoice(A, alts, bits, ma, v).value + s) == Ok(SeenChoice(A, B, alts, mb, v), s)
    decreases v, 0
  {
    hide DecChoice, DecAddition, EncChoice, EncOpen, SeenChoice, ChoiceSurvives, Survives, Seen, SchemaWf, Compatible, PutNsNumber;
    var k := v.index - |alts|;
    AdditionHead(A, B, alts, bits, ma, mb, v, k, d, s);
    AdditionKnown(A, B, alts, ma.value, mb, v, k, d);
    RoundTripAdded(A, B, |alts|, mb.value, ma.value[k], v.v, k, d, s);
  }

  lemma {:induction false} RoundTripAlternative(A: Schema, B: Schema, alts: seq<nat>, bits: nat, ma: Option<seq<nat>>, mb: Option<seq<nat>>,
                                               v: Value, d: nat, s: Bits)
    requires SchemaWf(A) && SchemaWf(B) && Compatible(A, B) && |alts| <= Pow2(bits)
    requires ma.Some? == mb.Some? && (ma.Some? ==> Agree(ma.value, mb.value) && |alts| + |ma.value| < INT_LIMIT)
    requires v.ChoiceV? && ChoiceSurvives(A, B, alts, mb, v, d) && EncChoice(A, alts, bits, ma, v).Some?
    ensures DecChoice(B, alts, bits, mb, d, EncChoice(A, alts, bits, ma, v).value + s) == Ok(SeenChoice(A, B, alts, mb, v), s)
    decreases v, 1
  {
    if v.index < |alts| { RoundTripRootAlternative(A, B, alts, bits, ma, mb, v, d, s); }
    else { RoundTripAddition(A, B, alts, bits, ma, mb, v, d, s); }
  }
}
