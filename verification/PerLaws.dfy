/** What a receiver sees, member by member, and whole messages. */
module PerLaws {
  import opened Bits
  import opened Options
  import opened Integers
  import opened PerTypes
  import opened PerEncode
  import opened PerDecode
  import opened PerNumbers
  import opened PerItems
  import opened PerRoundTrip
  import opened PerSetOf

  // A flushed message decodes to what the receiver sees, and only the padding
  // of its last octet is left.
  lemma WireRoundTrip(A: Schema, B: Schema, t: nat, v: Value) returns (pad: nat)
    requires SchemaWf(A) && SchemaWf(B) && Compatible(A, B)
    requires Survives(A, B, t, v, 256) && Enc(A, t, v).Some?
    ensures Dec(B, t, 256, BytesBits(Pack(Enc(A, t, v).value))) == Ok(Seen(A, B, t, v), Zeros(pad))
    ensures pad <= 8 && (Enc(A, t, v).value != [] ==> pad < 8)
  {
    hide Seen, Survives, Enc, Dec, Pack, BytesBits;
    var b := Enc(A, t, v).value;
    pad := PackBits(b);
    RoundTrip(A, B, t, v, 256, Zeros(pad));
  }

  // ---- root members ----

  // A root member that travels is seen; one that does not reads as its
  // DEFAULT, or as absent when it has none.
  lemma {:induction false} RootMemberSeen(A: Schema, B: Schema, ms: seq<Member>, fs: seq<Field>, i: nat)
    requires |ms| == |fs| && i < |ms|
    ensures SeenMembers(A, B, ms, fs)[i]
         == if fs[i].Absent? || fs[i] == ms[i].dflt then ms[i].dflt else SeenField(A, B, ms[i].t, fs[i])
    decreases i
  {
    if i > 0 { RootMemberSeen(A, B, ms[1..], fs[1..], i - 1); }
  }

  // ---- extension additions ----

  lemma {:induction false} AbsentAt(us: seq<Unit>, i: nat)
    requires i < |us|
    ensures AbsentUnits(us)[i] == AbsentUnit(us[i], false)
    decreases i
  {
    if i > 0 { AbsentAt(us[1..], i - 1); }
  }

  // Unit `i` of a receiver that knows `us`, for any number of units on either side.
  lemma {:induction false} UnitSeen(A: Schema, B: Schema, us: seq<Unit>, uvs: seq<UnitV>, i: nat)
    requires i < |us|
    ensures SeenUnits(A, B, us, uvs)[i]
         == if i >= |uvs| then AbsentUnit(us[i], false)
            else if uvs[i].Present() then SeenUnit(A, B, us[i], uvs[i])
            else AbsentUnit(us[i], true)
    decreases i
  {
    if uvs == [] { AbsentAt(us, i); }
    else if i > 0 { UnitSeen(A, B, us[1..], uvs[1..], i - 1); }
  }

  // A DEFAULT of an absent extension addition is restored exactly when the
  // sender wrote an extension bitmap long enough to list the addition.
  lemma ExtensionDefaultRestored(A: Schema, B: Schema, root: seq<Member>, us: seq<Unit>, v: Value, i: nat)
    requires v.RecordV? && |v.root| == |root| && i < |us| && us[i].Single? && us[i].m.dflt.Has?
    requires i < |v.units| ==> !v.units[i].Present()
    ensures SeenRecord(A, B, root, Some(us), v).units[i].fields == [us[i].m.dflt]
       <==> HasAdditions(v.units) && i < |v.units|
  {
    UnitSeen(A, B, us, v.units, i);
    AbsentAt(us, i);
  }

  // So is the DEFAULT of each member of an absent group.
  lemma GroupDefaultRestored(A: Schema, B: Schema, root: seq<Member>, us: seq<Unit>, v: Value, i: nat, j: nat)
    requires v.RecordV? && |v.root| == |root| && i < |us| && us[i].Group? && j < |us[i].ms| && us[i].ms[j].dflt.Has?
    requires i < |v.units| ==> !v.units[i].Present()
    ensures var fields := SeenRecord(A, B, root, Some(us), v).units[i].fields;
            |fields| == |us[i].ms| && (fields[j] == us[i].ms[j].dflt <==> HasAdditions(v.units) && i < |v.units|)
  {
    UnitSeen(A, B, us, v.units, i);
    AbsentAt(us, i);
    AbsentMembersAt(us[i].ms, true, j);
    AbsentMembersAt(us[i].ms, false, j);
  }

  // ---- values that come back unchanged ----

  // No DEFAULT and no SET OF anywhere.
  predicate PlainMembers(ms: seq<Member>) {
    forall i :: 0 <= i < |ms| ==> ms[i].dflt.Absent?
  }

  predicate PlainUnit(u: Unit) {
    match u
    case Single(m) => m.dflt.Absent?
    case Group(ms) => PlainMembers(ms)
  }

  predicate PlainTy(ty: Ty) {
    match ty
    case List(_, _, _, isSet) => !isSet
    case Sequence(root, additions) =>
      PlainMembers(root) && (additions.Some? ==> forall i :: 0 <= i < |additions.value| ==> PlainUnit(additions.value[i]))
    case _ => true
  }

  ghost predicate PlainSchema(S: Schema) {
    forall t {:trigger S[t]} :: 0 <= t < |S| ==> PlainTy(S[t])
  }

  // Every unit value has one field per member of its unit.
  ghost predicate UnitShape(u: Unit, uv: UnitV) {
    |uv.fields| == match u case Single(_) => 1 case Group(ms) => |ms|
  }

  // Made like its type: as many fields and units as members and additions, a
  // known alternative, and characters that fit their code.
  ghost predicate Shaped(S: Schema, t: nat, v: Value)
    decreases v, 4
  {
    t < |S| && ShapedAs(S, S[t], v)
  }

  ghost predicate ShapedAs(S: Schema, ty: Ty, v: Value)
    decreases v, 3
  {
    match ty
    case Str(kind, from, size, ext) => v.ListV? ==> CharsFit(TravelCode(kind, from, size, ext, v.items), v.items)
    case List(item, _, _, _) => item.Element? && v.ListV? ==> ShapedItems(S, item.t, v.items)
    case Sequence(root, additions) =>
      && v.RecordV? && |v.root| == |root| && |v.units| == (if additions.Some? then |additions.value| else 0)
      && ShapedFields(S, root, v.root)
      && (additions.Some? ==> ShapedUnits(S, additions.value, v.units))
    case Choice(alts, _, more) => v.ChoiceV? && ShapedAlternative(S, alts, more, v)
    case _ => true
  }

  ghost predicate ShapedAlternative(S: Schema, alts: seq<nat>, more: Option<seq<nat>>, v: Value)
    requires v.ChoiceV?
    decreases v, 2
  {
    if v.index < |alts| then Shaped(S, alts[v.index], v.v)
    else more.Some? && v.index - |alts| < |more.value| && Shaped(S, more.value[v.index - |alts|], v.v)
  }

  ghost predicate ShapedItems(S: Schema, t: nat, vs: seq<Value>)
    decreases vs, 0
  {
    vs != [] ==> Shaped(S, t, vs[0]) && ShapedItems(S, t, vs[1..])
  }

  ghost predicate ShapedField(S: Schema, t: nat, f: Field)
    decreases f, 0
  {
    f.Has? ==> Shaped(S, t, f.v)
  }

  ghost predicate ShapedFields(S: Schema, ms: seq<Member>, fs: seq<Field>)
    requires |ms| == |fs|
    decreases fs, 0
  {
    fs != [] ==> ShapedField(S, ms[0].t, fs[0]) && ShapedFields(S, ms[1..], fs[1..])
  }

  ghost predicate ShapedUnit(S: Schema, u: Unit, uv: UnitV)
    decreases uv, 1
  {
    && UnitShape(u, uv)
    && match u
       case Single(m) => ShapedField(S, m.t, uv.fields[0])
       case Group(ms) => ShapedFields(S, ms, uv.fields)
  }

  ghost predicate ShapedUnits(S: Schema, us: seq<Unit>, uvs: seq<UnitV>)
    requires |us| == |uvs|
    decreases uvs, 2
  {
    uvs != [] ==> ShapedUnit(S, us[0], uvs[0]) && ShapedUnits(S, us[1..], uvs[1..])
  }

  // Between equal schemas without DEFAULT and SET OF every value is seen as it is.
  lemma {:induction false} SeenUnchanged(S: Schema, t: nat, v: Value)
    requires PlainSchema(S) && Shaped(S, t, v)
    ensures Seen(S, S, t, v) == v
    decreases v, 4
  {
    SeenAsUnchanged(S, S[t], v);
  }

  lemma {:induction false} SeenAsUnchanged(S: Schema, ty: Ty, v: Value)
    requires PlainSchema(S) && PlainTy(ty) && ShapedAs(S, ty, v)
    ensures SeenAs(S, S, ty, ty, v) == v
    decreases v, 3
  {
    match ty
    case Str(kind, from, size, ext) => if v.ListV? { SeenCharsExact(TravelCode(kind, from, size, ext, v.items), v.items); }
    case List(item, _, _, _) => if item.Element? && v.ListV? { SeenItemsUnchanged(S, item.t, v.items); }
    case Sequence(root, additions) => SeenRecordUnchanged(S, root, additions, v);
    case Choice(alts, _, more) =>
      if v.index < |alts| { SeenUnchanged(S, alts[v.index], v.v); }
      else { SeenUnchanged(S, more.value[v.index - |alts|], v.v); }
    case _ =>
  }

  lemma {:induction false} SeenItemsUnchanged(S: Schema, t: nat, vs: seq<Value>)
    requires PlainSchema(S) && ShapedItems(S, t, vs)
    ensures SeenItems(S, S, t, vs) == vs
    decreases vs, 0
  {
    if vs != [] {
      SeenUnchanged(S, t, vs[0]);
      SeenItemsUnchanged(S, t, vs[1..]);
      assert vs == [vs[0]] + vs[1..];
    }
  }

  lemma {:induction false} SeenFieldUnchanged(S: Schema, t: nat, f: Field)
    requires PlainSchema(S) && f.Has? && ShapedField(S, t, f)
    ensures SeenField(S, S, t, f) == f
    decreases f, 0
  {
    SeenUnchanged(S, t, f.v);
  }

  lemma {:induction false} SeenMembersUnchanged(S: Schema, ms: seq<Member>, fs: seq<Field>)
    requires PlainSchema(S) && PlainMembers(ms) && |ms| == |fs| && ShapedFields(S, ms, fs)
    ensures SeenMembers(S, S, ms, fs) == fs && SeenGroup(S, S, ms, fs) == fs
    decreases fs, 0
  {
    if fs != [] {
      if fs[0].Has? { SeenFieldUnchanged(S, ms[0].t, fs[0]); }
      SeenMembersUnchanged(S, ms[1..], fs[1..]);
      assert fs == [fs[0]] + fs[1..];
    }
  }

  lemma {:induction false} AbsentMembersAt(ms: seq<Member>, listed: bool, i: nat)
    requires i < |ms|
    ensures AbsentMembers(ms, listed)[i] == if listed then ms[i].dflt else Absent
    decreases i
  {
    if i > 0 { AbsentMembersAt(ms[1..], listed, i - 1); }
  }

  lemma {:induction false} SeenUnitUnchanged(S: Schema, u: Unit, uv: UnitV, listed: bool)
    requires PlainSchema(S) && PlainUnit(u) && ShapedUnit(S, u, uv)
    ensures uv.Present() ==> SeenUnit(S, S, u, uv) == uv
    ensures !uv.Present() ==> AbsentUnit(u, listed) == uv
    decreases uv, 1
  {
    match u
    case Single(m) =>
      if uv.Present() { SeenFieldUnchanged(S, m.t, uv.fields[0]); }
      else { assert uv.fields == [Absent]; }
    case Group(ms) =>
      if uv.Present() { SeenMembersUnchanged(S, ms, uv.fields); }
      else {
        forall i | 0 <= i < |ms| ensures AbsentMembers(ms, listed)[i] == uv.fields[i] { AbsentMembersAt(ms, listed, i); }
        assert AbsentMembers(ms, listed) == uv.fields;
      }
  }

  lemma {:induction false} SeenUnitsUnchanged(S: Schema, us: seq<Unit>, uvs: seq<UnitV>)
    requires PlainSchema(S) && |us| == |uvs| && ShapedUnits(S, us, uvs) && forall i :: 0 <= i < |us| ==> PlainUnit(us[i])
    ensures SeenUnits(S, S, us, uvs) == uvs
    ensures !HasAdditions(uvs) ==> AbsentUnits(us) == uvs
    decreases uvs, 2
  {
    if uvs != [] {
      SeenUnitUnchanged(S, us[0], uvs[0], true);
      SeenUnitUnchanged(S, us[0], uvs[0], false);
      SeenUnitsUnchanged(S, us[1..], uvs[1..]);
      assert uvs == [uvs[0]] + uvs[1..];
      if !HasAdditions(uvs) {
        assert !uvs[0].Present();
        assert !HasAdditions(uvs[1..]) by { assert forall i :: 0 <= i < |uvs[1..]| ==> uvs[1..][i] == uvs[i + 1]; }
      }
    }
  }

  lemma {:induction false} SeenRecordUnchanged(S: Schema, root: seq<Member>, additions: Option<seq<Unit>>, v: Value)
    requires PlainSchema(S) && PlainTy(Sequence(root, additions)) && ShapedAs(S, Sequence(root, additions), v)
    ensures SeenRecord(S, S, root, additions, v) == v
    decreases v, 2
  {
    SeenMembersUnchanged(S, root, v.root);
    if additions.Some? { SeenUnitsUnchanged(S, additions.value, v.units); }
  }

  // Decoding an encoded value gives the value itself.
  lemma ExactRoundTrip(S: Schema, t: nat, v: Value, d: nat, s: Bits)
    requires SchemaWf(S) && PlainSchema(S) && Shaped(S, t, v)
    requires Survives(S, S, t, v, d) && Enc(S, t, v).Some?
    ensures Dec(S, t, d, Enc(S, t, v).value + s) == Ok(v, s)
  {
    RoundTripSame(S, t, v, d, s);
    SeenUnchanged(S, t, v);
  }

  // ---- sums beyond int ----

  // The guard of the source admits an addition to an ENUMERATED when it is in
  // the table or when the sum overflows, and of those it admits the index is
  // in the table exactly when the sum does not.
  lemma EnumIndexInTable(e: EnumSpec, b: Bits)
    requires EnumWf(e) && GetNsNumber(b).Ok?
    ensures var sum, i := e.RootCount() + GetNsNumber(b).v, AdditionIndex(e.RootCount(), GetNsNumber(b).v);
            && (i < |e.entries| <==> sum < |e.entries| || sum >= INT_LIMIT)
            && (i < |e.entries| ==> (0 <= i <==> sum < INT_LIMIT))
            && (GetEnumPosition(e, true, b).Ok? <==> sum < |e.entries|)
  {
    NsNumberInRange(b);
    IntSum(e.RootCount(), GetNsNumber(b).v);
  }

  // The same for an added alternative of a CHOICE; a sum that is in range and
  // beyond the table is skipped.
  lemma ChoiceIndexInTable(S: Schema, base: nat, more: seq<nat>, d: nat, b: Bits)
    requires base + |more| < INT_LIMIT && GetNsNumber(b).Ok?
    ensures var n := GetNsNumber(b);
            var sum, i := base + n.v, AdditionIndex(base, n.v);
            && (i < base + |more| <==> sum < base + |more| || sum >= INT_LIMIT)
            && (i < base + |more| ==> (base <= i <==> sum < INT_LIMIT))
            && (DecAddition(S, base, more, d, n.v, n.rest).Ok? ==> sum < INT_LIMIT)
  {
    NsNumberInRange(b);
    IntSum(base, GetNsNumber(b).v);
  }

  // Such an overflow can be written: 1 for an addition, 1 for the long form,
  // four octets, and the greatest int.
  lemma IndexOverflows(base: nat, s: Bits)
    requires 0 < base < INT_LIMIT
    ensures var b := [true] + (BitsOf(4, 8) + BitsOf(0x7FFF_FFFF, 32)) + s;
            GetNsNumber(b) == Ok(0x7FFF_FFFF, s) && AdditionIndex(base, 0x7FFF_FFFF) < 0
  {
    assert UOctets(0x7FFF_FFFF) == 4;
    NsNumberRoundTrip(0x7FFF_FFFF, s);
    IntSum(base, 0x7FFF_FFFF);
  }

  // ---- characters that are cut ----

  lemma {:induction false} EncCharsAt(code: CharCode, chars: seq<Value>, i: nat)
    requires EncChars(code, chars).Some? && i < |chars|
    ensures chars[i].CharV? && PutChar(code, chars[i].octets).Some?
    decreases i
  {
    if i > 0 { EncCharsAt(code, chars[1..], i - 1); }
  }

  // An accepted string is cut only where nothing checks its characters: in
  // the root of an extensible string without an alphabet, and in the natural
  // seven-bit code of types other than IA5String.
  lemma CutOnlyUnchecked(kind: StringKind, from: Option<CharCode>, size: SizeC, ext: bool, chars: seq<Value>)
    requires PutStr(kind, from, size, ext, chars).Some? && (from.Some? ==> from.value.Indexed?)
    ensures !CharsFit(TravelCode(kind, from, size, ext, chars), chars)
        ==> TravelCode(kind, from, size, ext, chars) == NaturalCode(kind)
            && (kind.SevenBit? || (ext && from.None? && StrInRoot(CodeOf(kind, from), size, chars)))
  {
    hide PutStr, EncChars, PutItems, PutSized, InAlphabet;
    var code := TravelCode(kind, from, size, ext, chars);
    StrBits(kind, from, size, ext, chars);
    if !kind.SevenBit? && !(ext && from.None? && StrInRoot(CodeOf(kind, from), size, chars)) {
      if code == NaturalCode(kind) { NaturalChecked(kind, from, size, ext, chars); }
      forall i | 0 <= i < |chars| ensures chars[i].CharV? && CharFits(code, chars[i].octets) {
        EncCharsAt(code, chars, i);
        SmallPowers();
        Pow2Of8();
      }
    } else if code != NaturalCode(kind) {
      forall i | 0 <= i < |chars| ensures chars[i].CharV? && CharFits(code, chars[i].octets) { EncCharsAt(code, chars, i); }
    }
  }

  lemma NaturalChecked(kind: StringKind, from: Option<CharCode>, size: SizeC, ext: bool, chars: seq<Value>)
    requires PutStr(kind, from, size, ext, chars).Some? && (from.Some? ==> from.value.Indexed?)
    requires TravelCode(kind, from, size, ext, chars) == NaturalCode(kind)
    requires !(ext && from.None? && StrInRoot(CodeOf(kind, from), size, chars))
    ensures NaturalOk(kind, chars)
  {
    hide EncChars, PutItems, PutSized, InAlphabet;
  }

  // IA5String (SIZE (1..5, ...)) writes the octet 0xE9 in the root, where no
  // alphabet is checked, and it comes back as 0x69.
  lemma StringIsCut(S: Schema, d: nat, s: Bits)
    ensures var ty, v := Str(Ia5String, None, Size(1, 5, 3), true), ListV([CharV([0xE9])]);
            EncAs(S, ty, v).Some? && DecAs(S, ty, d, EncAs(S, ty, v).value + s) == Ok(ListV([CharV([0x69])]), s)
  {
    hide GetItems, GetSized, PutItems, BitsOf;
    var chars := [CharV([0xE9])];
    assert EncChars(Narrow(7), chars).Some? by { assert EncChars(Narrow(7), chars[1..]) == Some([]); }
    SmallPowers();
    assert SeenChars(Narrow(7), chars) == [CharV([0x69])];
    hide CharSeen, EncChars, SeenChars;
    StrSeen(S, Ia5String, None, Size(1, 5, 3), true, chars, d, s);
  }

  // ---- other values that come back changed ----

  // INTEGER (0..5) takes 9 for 1: the offset is cut to three bits.
  lemma IntegerIsCut(s: Bits)
    ensures GetInt(Range(0, 5, 3, false), PutInt(Range(0, 5, 3, false), 9) + s) == Ok(1, s)
  {
    SmallPowers();
    GetAfterPut(9, 3, s);
    assert [] + BitsOf(9, 3) == BitsOf(9, 3);
  }

  // A value the table does not list is written as the first addition.
  lemma UnlistedEnum(s: Bits)
    ensures var e := EnumSpec([0, 1], 1, true); GetEnum(e, PutEnum(e, 9) + s) == Ok(1, s)
  {
    var e := EnumSpec([0, 1], 1, true);
    assert IndexOf(e.entries, 9) == None;
    PositionReadBack(e, 1, s);
  }

  // SEQUENCE {..., a BOOLEAN DEFAULT TRUE} without `a`: no bitmap is written,
  // and the DEFAULT is not restored; with a further addition sent, it is.
  lemma DefaultNotRestored(d: nat, s: Bits)
    requires d > 0
    ensures var a, b := Single(Member(0, true, Has(BoolV(true)))), Single(Member(0, true, Absent));
            var S := [Boolean, Sequence([], Some([a, b]))];
            && Enc(S, 1, RecordV([], [UnitV([Absent]), UnitV([Absent])])) == Some([false])
            && Dec(S, 1, d, [false] + s) == Ok(RecordV([], [UnitV([Absent]), UnitV([Absent])]), s)
            && Seen(S, S, 1, RecordV([], [UnitV([Absent]), UnitV([Has(BoolV(true))])]))
               == RecordV([], [UnitV([Has(BoolV(true))]), UnitV([Has(BoolV(true))])])
  {
    var a, b := Single(Member(0, true, Has(BoolV(true)))), Single(Member(0, true, Absent));
    var us := [a, b];
    var S := [Boolean, Sequence([], Some(us))];
    var v, w := RecordV([], [UnitV([Absent]), UnitV([Absent])]), RecordV([], [UnitV([Absent]), UnitV([Has(BoolV(true))])]);
    assert !HasAdditions(v.units);
    assert EncMembers(S, [], []) == Some([]) && ([false] + []) + [] == [false];
    assert EncSequence(S, [], Some(us), v) == Some([false]);
    assert AbsentUnits(us[2..]) == [] && AbsentUnits(us[1..]) == [UnitV([Absent])] + [];
    assert AbsentUnits(us) == [UnitV([Absent]), UnitV([Absent])];
    var r := [false] + s;
    assert r[1..] == s && s[..0] == [] && s[0..] == s;
    assert DecMembers(S, [], [], d - 1, s) == Ok([], s);
    assert DecSequence(S, [], Some(us), d - 1, r) == Ok(v, s);
    assert w.units[1].Present() by { assert w.units[1].fields[0].Has?; }
    assert !w.units[0].Present();
    assert HasAdditions(w.units);
    forall i | 0 <= i < 2 ensures SeenUnits(S, S, us, w.units)[i] == UnitV([Has(BoolV(true))]) { UnitSeen(S, S, us, w.units, i); }
    assert SeenUnits(S, S, us, w.units) == [UnitV([Has(BoolV(true))]), UnitV([Has(BoolV(true))])];
    assert Seen(S, S, 1, w) == SeenRecord(S, S, [], Some(us), w);
  }
}
