/**
 * The types whose values take no bits, read off the schema, and why an empty
 * encoding means such a type.
 */
module PerWidth {
  import opened Bits
  import opened Options
  import opened PerTypes
  import opened PerEncode
  import opened PerDecode

  predicate FixedCount(size: SizeC) {
    CountIsConstrained(size) && size.bits == 0
  }

  // A descriptor takes no bits when those it refers to are in `zero`.
  predicate ZeroTy(ty: Ty, zero: set<nat>) {
    match ty
    case Boolean => false
    case Null => true
    case Int(c) => c.Range? && !c.ext && c.bits == 0
    case UInt(c) => c.Range? && !c.ext && c.bits == 0
    case Enum(e) => !e.extensible && e.RootCount() <= 1
    case List(item, size, ext, _) => !ext && FixedCount(size) && (size.lo == 0 || (item.Element? && item.t in zero))
    case Str(_, _, size, ext) => !ext && FixedCount(size) && size.lo == 0
    case Sequence(root, additions) =>
      additions.None? && forall i :: 0 <= i < |root| ==> !root[i].optional && root[i].t in zero
    case Choice(alts, bits, more) => more.None? && bits == 0 && forall i :: 0 <= i < |alts| ==> alts[i] in zero
  }

  // The types found to take no bits in `n` rounds over the schema.
  function ZeroSet(A: Schema, n: nat): (zero: set<nat>)
    ensures forall t :: t in zero ==> t < |A|
  {
    if n == 0 then {}
    else
      var zero := ZeroSet(A, n - 1);
      set t: nat | 0 <= t < |A| && ZeroTy(A[t], zero)
  }

  // As many rounds as there are types find them all.
  predicate ZeroWidth(A: Schema, t: nat) {
    t in ZeroSet(A, |A|)
  }

  // ---- the rounds reach a fixed point ----

  lemma {:induction false} ZeroSetGrows(A: Schema, n: nat)
    ensures ZeroSet(A, n) <= ZeroSet(A, n + 1)
  {
    if n > 0 {
      ZeroSetGrows(A, n - 1);
      var a, b := ZeroSet(A, n - 1), ZeroSet(A, n);
      forall t | t in ZeroSet(A, n) ensures t in ZeroSet(A, n + 1) {
        assert ZeroTy(A[t], a) ==> ZeroTy(A[t], b);
      }
    }
  }

  lemma {:induction false} ZeroSetSize(A: Schema, n: nat)
    ensures ZeroSet(A, n) == ZeroSet(A, n + 1) || |ZeroSet(A, n + 1)| > n
  {
    ZeroSetGrows(A, n);
    if ZeroSet(A, n) != ZeroSet(A, n + 1) {
      if n > 0 { ZeroSetSize(A, n - 1); }
      Bigger(ZeroSet(A, n), ZeroSet(A, n + 1));
    }
  }

  lemma Bigger(a: set<nat>, b: set<nat>)
    requires a < b
    ensures |a| < |b|
  {
    assert b == a + (b - a);
    assert b - a != {};
  }

  lemma {:induction false} AtMost(s: set<nat>, n: nat)
    requires forall x :: x in s ==> x < n
    ensures |s| <= n
  {
    if n > 0 {
      AtMost(s - {n - 1}, n - 1);
    } else {
      assert s == {};
    }
  }

  lemma ZeroSetFixed(A: Schema)
    ensures ZeroSet(A, |A|) == ZeroSet(A, |A| + 1)
  {
    ZeroSetSize(A, |A|);
    AtMost(ZeroSet(A, |A| + 1), |A|);
  }

  // A type takes no bits exactly when its descriptor does on account of the
  // types that take none.
  lemma ZeroWidthUnfolds(A: Schema, t: nat)
    ensures ZeroWidth(A, t) <==> t < |A| && ZeroTy(A[t], ZeroSet(A, |A|))
  {
    ZeroSetFixed(A);
  }

  // ---- an empty encoding ----

  lemma {:induction false} ConcatEmpty(encs: seq<Bits>, i: nat)
    requires Concat(encs) == [] && i < |encs|
    ensures encs[i] == []
    decreases i
  {
    assert |Concat(encs)| == |encs[0]| + |Concat(encs[1..])|;
    if i > 0 { ConcatEmpty(encs[1..], i - 1); }
  }

  lemma ItemsTakeBits(encs: seq<Bits>)
    ensures PutItems(encs) != []
  {
  }

  // A count takes no bits only when it is fixed.
  lemma EmptySized(size: SizeC, ext: bool, encs: seq<Bits>)
    requires SizeWf(size) && PutExtSized(size, ext, encs) == Some([])
    ensures !ext && FixedCount(size) && |encs| == size.lo
    ensures forall i :: 0 <= i < |encs| ==> encs[i] == []
  {
    ItemsTakeBits(encs);
    hide PutItems;
    assert |BitsOf(|encs| - size.lo, size.bits) + Concat(encs)| == 0;
    forall i | 0 <= i < |encs| ensures encs[i] == [] { ConcatEmpty(encs, i); }
  }

  lemma {:induction false} EncItemsAt(A: Schema, item: Item, vs: seq<Value>, i: nat)
    requires EncItems(A, item, vs).Some? && i < |vs|
    ensures EncItem(A, item, vs[i]) == Some(EncItems(A, item, vs).value[i])
    decreases i
  {
    if i > 0 { EncItemsAt(A, item, vs[1..], i - 1); }
  }

  lemma CharTakesBits(code: CharCode, width: nat, octets: seq<Byte>)
    requires CodeWf(code, width) && PutChar(code, octets).Some?
    ensures PutChar(code, octets).value != []
  {
  }

  lemma EmptyStr(kind: StringKind, from: Option<CharCode>, size: SizeC, ext: bool, chars: seq<Value>, n: nat)
    requires TyWf(Str(kind, from, size, ext), n) && PutStr(kind, from, size, ext, chars) == Some([])
    ensures !ext && FixedCount(size) && size.lo == 0
  {
    hide PutItems, InAlphabet, CodeWf;
    var code := CodeOf(kind, from);
    var encs := EncChars(code, chars).value;
    assert PutExtSized(size, false, encs) == Some([]);
    EmptySized(size, false, encs);
    if chars != [] { CharTakesBits(code, CharWidth(kind), chars[0].octets); }
  }

  lemma EmptyInt(c: Bounds, i: int)
    requires PutInt(c, i) == []
    ensures c.Range? && !c.ext && c.bits == 0
  {
    assert |PutInt(c, i)| >= |PutIntBody(c, i)|;
  }

  lemma EmptyEnum(e: EnumSpec, v: int)
    requires EnumWf(e) && PutEnum(e, v) == []
    ensures !e.extensible && e.RootCount() <= 1
  {
    hide IndexOf, BitsOf;
    assert e.RootCount() > 1 ==> RangeBits(e.RootCount()) > 0;
  }

  // A type with an empty encoding takes no bits.
  lemma {:induction false} EmptyIsZero(A: Schema, t: nat, v: Value)
    requires SchemaWf(A) && Enc(A, t, v) == Some([])
    ensures ZeroWidth(A, t)
    decreases v, 4
  {
    assert TyWf(A[t], |A|);
    EmptyIsZeroAs(A, A[t], v);
    ZeroWidthUnfolds(A, t);
  }

  lemma {:induction false} EmptyIsZeroAs(A: Schema, ty: Ty, v: Value)
    requires SchemaWf(A) && TyWf(ty, |A|) && EncAs(A, ty, v) == Some([])
    ensures ZeroTy(ty, ZeroSet(A, |A|))
    decreases v, 3
  {
    hide ZeroSet, PutInt, PutEnum, PutStr, EncListOf, EncSequence, EncChoice;
    match ty
    case Boolean =>
    case Null =>
    case Int(c) => EmptyInt(c, v.i);
    case UInt(c) => EmptyInt(c, v.i);
    case Enum(e) => EmptyEnum(e, v.i);
    case List(item, size, ext, isSet) => EmptyListIsZero(A, item, size, ext, isSet, v.items);
    case Str(kind, from, size, ext) => EmptyStr(kind, from, size, ext, v.items, |A|);
    case Sequence(root, additions) => EmptyRecordIsZero(A, root, additions, v);
    case Choice(alts, bits, more) => EmptyChoiceIsZero(A, alts, bits, more, v);
  }

  lemma {:induction false} EmptyListIsZero(A: Schema, item: Item, size: SizeC, ext: bool, isSet: bool, vs: seq<Value>)
    requires SchemaWf(A) && SizeWf(size) && !item.CharItem? && EncListOf(A, item, size, ext, isSet, vs) == Some([])
    ensures !ext && FixedCount(size) && (size.lo == 0 || (item.Element? && ZeroWidth(A, item.t)))
    decreases vs, 1
  {
    hide PutExtSized, ZeroWidth, Order;
    var encs := EncItems(A, item, vs).value;
    EmptySized(size, ext, if isSet then SortEncs(encs) else encs);
    if vs != [] {
      var i := if isSet then Order(encs)[0] else 0;
      assert encs[i] == [] by { assert isSet ==> SortEncs(encs)[0] == encs[i]; }
      EncItemsAt(A, item, vs, i);
      if item.Element? { EmptyIsZero(A, item.t, vs[i]); }
    }
  }

  lemma {:induction false} EmptyFieldIsZero(A: Schema, t: nat, f: Field)
    requires SchemaWf(A) && f.Has? && EncField(A, t, f) == Some([])
    ensures ZeroWidth(A, t)
    decreases f, 0
  {
    EmptyIsZero(A, t, f.v);
  }

  lemma {:induction false} EmptyMembersAreZero(A: Schema, ms: seq<Member>, fs: seq<Field>)
    requires SchemaWf(A) && MembersWf(ms, |A|) && |ms| == |fs|
    requires Preamble(ms, fs) == [] && EncMembers(A, ms, fs) == Some([])
    ensures forall i :: 0 <= i < |ms| ==> !ms[i].optional && ZeroWidth(A, ms[i].t)
    decreases fs, 0
  {
    hide ZeroWidth;
    if ms != [] {
      assert !ms[0].optional;
      EmptyFieldIsZero(A, ms[0].t, fs[0]);
      EmptyMembersAreZero(A, ms[1..], fs[1..]);
    }
  }

  lemma {:induction false} EmptyRecordIsZero(A: Schema, root: seq<Member>, additions: Option<seq<Unit>>, v: Value)
    requires SchemaWf(A) && MembersWf(root, |A|) && v.RecordV? && |v.root| == |root|
    requires |v.units| == if additions.Some? then |additions.value| else 0
    requires EncSequence(A, root, additions, v) == Some([])
    ensures additions.None? && forall i :: 0 <= i < |root| ==> !root[i].optional && ZeroWidth(A, root[i].t)
    decreases v, 2
  {
    hide ZeroWidth, Preamble, EncMembers, EncUnits, UnitBitmap;
    EmptyMembersAreZero(A, root, v.root);
  }

  lemma {:induction false} EmptyChoiceIsZero(A: Schema, alts: seq<nat>, bits: nat, more: Option<seq<nat>>, v: Value)
    requires SchemaWf(A) && |alts| <= Pow2(bits) && v.ChoiceV? && EncChoice(A, alts, bits, more, v) == Some([])
    ensures more.None? && bits == 0 && forall i :: 0 <= i < |alts| ==> ZeroWidth(A, alts[i])
    decreases v, 2
  {
    hide ZeroWidth, PutNsNumber;
    EmptyIsZero(A, alts[v.index], v.v);
  }

  // ---- long lists ----

  // The decoder refuses long lists of elements that take no bits.
  ghost predicate ZeroWidthOk(item: Item, encs: seq<Bits>) {
    item.Element? && |encs| > MAX_ZERO_WIDTH_ITEMS ==> forall i :: 0 <= i < |encs| ==> encs[i] != []
  }

  // A list is short, or its element type takes bits.
  predicate ElementsTakeBits(A: Schema, t: nat, n: nat) {
    n > MAX_ZERO_WIDTH_ITEMS ==> !ZeroWidth(A, t)
  }

  lemma LongListTakesBits(A: Schema, t: nat, vs: seq<Value>)
    requires SchemaWf(A) && EncItems(A, Element(t), vs).Some? && ElementsTakeBits(A, t, |vs|)
    ensures ZeroWidthOk(Element(t), EncItems(A, Element(t), vs).value)
  {
    hide ZeroWidth, Enc;
    var encs := EncItems(A, Element(t), vs).value;
    forall i | 0 <= i < |encs| && |encs| > MAX_ZERO_WIDTH_ITEMS ensures encs[i] != [] {
      EncItemsAt(A, Element(t), vs, i);
      if encs[i] == [] { EmptyIsZero(A, t, vs[i]); }
    }
  }
}
