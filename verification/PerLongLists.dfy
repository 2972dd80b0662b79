/**
 * Lists of elements that take no bits: all elements of such a type are alike,
 * and the decoder refuses more than 200 of them.
 */
module PerLongLists {
  import opened Bits
  import opened Options
  import opened PerTypes
  import opened PerEncode
  import opened PerDecode
  import opened PerWidth
  import opened PerItems
  import opened PerRoundTrip
  import opened PerSetOf
  import opened PerLaws

  // The first element tells for all of them: when one value of a type takes
  // no bits, none does, and all are seen as the same value.
  lemma FirstTellsForAll(A: Schema, t: nat, v: Value, w: Value, d: nat)
    requires SchemaWf(A) && Survives(A, A, t, v, d) && Survives(A, A, t, w, d)
    requires Enc(A, t, v) == Some([]) && Enc(A, t, w).Some?
    ensures Enc(A, t, w) == Some([]) && Seen(A, A, t, v) == Seen(A, A, t, w)
  {
    hide Enc, Survives, Seen;
    PrefixFree(A, t, v, w, d);
  }

  // ---- values of a type without bits ----

  lemma {:induction false} ZeroIsEmpty(A: Schema, B: Schema, t: nat, v: Value, d: nat)
    requires SchemaWf(A) && ZeroWidth(A, t) && Survives(A, B, t, v, d) && Enc(A, t, v).Some?
    ensures Enc(A, t, v) == Some([])
    decreases v, 4
  {
    assert TyWf(A[t], |A|);
    ZeroWidthUnfolds(A, t);
    ZeroIsEmptyAs(A, B, A[t], B[t], v, d);
  }

  lemma {:induction false} ZeroIsEmptyAs(A: Schema, B: Schema, a: Ty, b: Ty, v: Value, d: nat)
    requires SchemaWf(A) && TyWf(a, |A|) && ZeroTy(a, ZeroSet(A, |A|))
    requires SurvivesAs(A, B, a, b, v, d) && EncAs(A, a, v).Some?
    ensures EncAs(A, a, v) == Some([])
    decreases v, 3
  {
    hide ZeroSet, EncListOf, EncSequence, PutStr, IndexOf;
    match a
    case Null =>
    case Int(c) => assert PutInt(c, v.i) == [];
    case UInt(c) => assert PutInt(c, v.i) == [];
    case Enum(e) => assert PutEnum(e, v.i) == [];
    case List(item, size, ext, isSet) => ZeroList(A, B, item, size, isSet, v.items, if item.Element? then d - 1 else d);
    case Str(kind, from, size, ext) => ZeroStr(kind, from, size, v.items, |A|);
    case Sequence(root, additions) => ZeroRecord(A, B, root, v, d - 1);
    case Choice(alts, _, _) =>
      ZeroIsEmpty(A, B, alts[v.index], v.v, d - 1);
      assert |EncAs(A, a, v).value| == 0;
  }

  lemma ZeroStr(kind: StringKind, from: Option<CharCode>, size: SizeC, chars: seq<Value>, n: nat)
    requires TyWf(Str(kind, from, size, false), n) && FixedCount(size) && size.lo == 0
    requires PutStr(kind, from, size, false, chars).Some?
    ensures PutStr(kind, from, size, false, chars) == Some([])
  {
    assert chars == [];
    assert EncChars(CodeOf(kind, from), []) == Some([]) && Concat([]) == [];
    assert BitsOf(0, 0) + [] == [];
  }

  lemma {:induction false} ConcatOfEmpty(encs: seq<Bits>)
    requires forall i :: 0 <= i < |encs| ==> encs[i] == []
    ensures Concat(encs) == []
  {
    if encs != [] { ConcatOfEmpty(encs[1..]); }
  }

  lemma {:induction false} ZeroItems(A: Schema, B: Schema, t: nat, vs: seq<Value>, d: nat)
    requires SchemaWf(A) && ZeroWidth(A, t) && ItemsSurvive(A, B, t, vs, d) && EncItems(A, Element(t), vs).Some?
    ensures forall i :: 0 <= i < |vs| ==> EncItems(A, Element(t), vs).value[i] == []
    decreases vs, 0
  {
    hide ZeroWidth, Enc, Survives;
    if vs != [] {
      ZeroIsEmpty(A, B, t, vs[0], d);
      ZeroItems(A, B, t, vs[1..], d);
    }
  }

  lemma {:induction false} ZeroList(A: Schema, B: Schema, item: Item, size: SizeC, isSet: bool, vs: seq<Value>, d: nat)
    requires SchemaWf(A) && SizeWf(size) && FixedCount(size) && EncListOf(A, item, size, false, isSet, vs).Some?
    requires size.lo == 0 || (item.Element? && ZeroWidth(A, item.t))
    requires item.Element? ==> ItemsSurvive(A, B, item.t, vs, d)
    ensures EncListOf(A, item, size, false, isSet, vs) == Some([])
    decreases vs, 1
  {
    hide ZeroWidth, Concat, Order;
    var encs := EncItems(A, item, vs).value;
    if vs != [] { ZeroItems(A, B, item.t, vs, d); }
    ConcatOfEmpty(if isSet then SortEncs(encs) else encs);
    assert |vs| == size.lo && BitsOf(0, 0) + [] == [];
  }

  lemma {:induction false} ZeroMembers(A: Schema, B: Schema, ms: seq<Member>, fs: seq<Field>, d: nat)
    requires SchemaWf(A) && MembersWf(ms, |A|) && |ms| == |fs|
    requires forall i :: 0 <= i < |ms| ==> !ms[i].optional && ZeroWidth(A, ms[i].t)
    requires MembersSurvive(A, B, ms, fs, d) && EncMembers(A, ms, fs).Some?
    ensures Preamble(ms, fs) == [] && EncMembers(A, ms, fs) == Some([])
    decreases fs, 0
  {
    hide ZeroWidth;
    if ms != [] {
      ZeroField(A, B, ms[0].t, fs[0], d);
      ZeroMembers(A, B, ms[1..], fs[1..], d);
    }
  }

  lemma {:induction false} ZeroField(A: Schema, B: Schema, t: nat, f: Field, d: nat)
    requires SchemaWf(A) && ZeroWidth(A, t) && f.Has? && FieldSurvives(A, B, t, f, d) && EncField(A, t, f).Some?
    ensures EncField(A, t, f) == Some([])
    decreases f, 0
  {
    ZeroIsEmpty(A, B, t, f.v, d);
  }

  lemma {:induction false} ZeroRecord(A: Schema, B: Schema, root: seq<Member>, v: Value, d: nat)
    requires SchemaWf(A) && MembersWf(root, |A|) && v.RecordV? && |v.root| == |root| && |v.units| == 0
    requires forall i :: 0 <= i < |root| ==> !root[i].optional && ZeroWidth(A, root[i].t)
    requires MembersSurvive(A, B, root, v.root, d) && EncSequence(A, root, None, v).Some?
    ensures EncSequence(A, root, None, v) == Some([])
    decreases v, 2
  {
    hide ZeroWidth, Preamble, EncMembers;
    ZeroMembers(A, B, root, v.root, d);
    assert !HasAdditions(v.units);
    assert ([] + Preamble(root, v.root)) + EncMembers(A, root, v.root).value == [];
  }

  // The values of a type that survive take no bits exactly when the type is
  // one without bits.
  lemma ZeroExactly(A: Schema, B: Schema, t: nat, v: Value, d: nat)
    requires SchemaWf(A) && Survives(A, B, t, v, d) && Enc(A, t, v).Some?
    ensures Enc(A, t, v) == Some([]) <==> ZeroWidth(A, t)
  {
    hide ZeroWidth, Enc, Survives;
    if ZeroWidth(A, t) { ZeroIsEmpty(A, B, t, v, d); }
    if Enc(A, t, v) == Some([]) { EmptyIsZero(A, t, v); }
  }

  // ---- the decoder ----

  // A long list of a type without bits is refused, sized or not, extensible
  // or not, in one piece or in fragments.
  lemma LongListRefused(A: Schema, B: Schema, t: nat, e: nat, v: Value, d: nat, s: Bits)
    requires SchemaWf(A) && SchemaWf(B) && Compatible(A, B)
    requires t < |A| && A[t].List? && A[t].item == Element(e) && v.ListV? && d > 0
    requires ItemsSurvive(A, B, e, v.items, d - 1) && Enc(A, t, v).Some?
    requires |v.items| > 200 && ZeroWidth(A, e)
    ensures Dec(B, t, d, Enc(A, t, v).value + s).Err?
  {
    hide ZeroWidth, ItemsSurvive, ReadsAs, GetExtSized, PutExtSized, SeenItems, Order;
    var ty := A[t];
    assert VersionsOf(A[t], B[t]) && TyWf(A[t], |A|);
    assert EncAs(A, ty, v) == EncListOf(A, Element(e), ty.size, ty.ext, ty.isSet, v.items);
    var encs := EncItems(A, Element(e), v.items).value;
    var travelling := Travelling(ty.isSet, encs);
    assert Enc(A, t, v) == PutExtSized(ty.size, ty.ext, travelling);
    RoundTripItems(A, B, e, v.items, d - 1);
    ZeroItems(A, B, e, v.items, d - 1);
    assert ReadsAs(B, Element(e), d - 1, [], SeenItems(A, B, e, v.items)[0]);
    ExtSizedRefused(B, Element(e), ty.size, ty.ext, d - 1, travelling, SeenItems(A, B, e, v.items)[0], s);
  }

  // An encoded SEQUENCE OF or SET OF whose elements survive is decoded
  // exactly when it has at most 200 elements or their type takes bits.
  lemma ListReadBackExactly(A: Schema, B: Schema, t: nat, e: nat, v: Value, d: nat, s: Bits)
    requires SchemaWf(A) && SchemaWf(B) && Compatible(A, B)
    requires t < |A| && A[t].List? && A[t].item == Element(e) && v.ListV? && d > 0
    requires ItemsSurvive(A, B, e, v.items, d - 1) && Enc(A, t, v).Some?
    ensures |v.items| <= 200 || !ZeroWidth(A, e)
       <==> Dec(B, t, d, Enc(A, t, v).value + s) == Ok(Seen(A, B, t, v), s)
  {
    hide ZeroWidth, ItemsSurvive, Enc, Dec, Seen;
    if ElementsTakeBits(A, e, |v.items|) { RoundTrip(A, B, t, v, d, s); }
    else { LongListRefused(A, B, t, e, v, d, s); }
  }

  // ---- SEQUENCE OF NULL ----

  const NULLS: Schema := [Null, List(Element(0), AnySize, false, false)]

  function Nulls(n: nat): Value {
    ListV(seq(n, _ => NullV))
  }

  lemma {:induction false} NullsEncode(vs: seq<Value>, d: nat)
    requires forall i :: 0 <= i < |vs| ==> vs[i] == NullV
    ensures EncItems(NULLS, Element(0), vs).Some? && ItemsSurvive(NULLS, NULLS, 0, vs, d) && ShapedItems(NULLS, 0, vs)
  {
    if vs != [] { NullsEncode(vs[1..], d); }
  }

  // Any number of NULLs is encoded; 201 and more do not come back.
  lemma NullListExactly(n: nat, d: nat, s: Bits)
    requires d > 0
    ensures Enc(NULLS, 1, Nulls(n)).Some?
    ensures n <= 200
       <==> Dec(NULLS, 1, d, Enc(NULLS, 1, Nulls(n)).value + s) == Ok(Nulls(n), s)
  {
    hide ZeroWidth, EncItems, ItemsSurvive, ShapedItems, PutItems, Seen, Dec;
    assert SchemaWf(NULLS);
    AgreeRefl(NULLS);
    NullsEncode(Nulls(n).items, d - 1);
    assert EncAs(NULLS, NULLS[1], Nulls(n)).Some?;
    EmptyIsZero(NULLS, 0, NullV);
    SeenUnchanged(NULLS, 1, Nulls(n));
    ListReadBackExactly(NULLS, NULLS, 1, 0, Nulls(n), d, s);
  }
}
