/**
 * The PER decoder looks at no bit behind those it consumes, so an encoding cut
 * short is never taken for a value.
 */
module PerLocal {
  import opened Bits
  import opened Options
  import opened Integers
  import opened PerTypes
  import opened PerEncode
  import opened PerDecode
  import opened PerRoundTrip

  // What a reader makes of `b` followed by `s`.
  function Longer<T>(r: Read<T>, s: Bits): Read<T> {
    if r.Err? then Err else Ok(r.v, r.rest + s)
  }

  // A success on `b` is the same success on `b` followed by anything.
  ghost predicate Same<T(!new)>(r: Read<T>, r': Read<T>, s: Bits) {
    r.Ok? ==> r' == Longer(r, s)
  }

  // ---- bits, lengths and numbers ----

  lemma BitsLocal(n: nat, b: Bits, s: Bits)
    ensures Same(GetBits(n, b), GetBits(n, b + s), s) && Same(Get(n, b), Get(n, b + s), s)
  {
    if n <= |b| { assert (b + s)[..n] == b[..n] && (b + s)[n..] == b[n..] + s; }
  }

  lemma FlagLocal(present: bool, b: Bits, s: Bits)
    ensures Same(GetFlag(present, b), GetFlag(present, b + s), s)
  {
    if b != [] { assert (b + s)[1..] == b[1..] + s; }
  }

  lemma {:induction false} OctetsOntoLocal(v: nat, k: nat, limit: nat, b: Bits, s: Bits)
    ensures Same(GetOctetsOnto(v, k, limit, b), GetOctetsOnto(v, k, limit, b + s), s)
    decreases k
  {
    hide NatOf;
    if k > 0 && |b| >= 8 {
      assert (b + s)[..8] == b[..8] && (b + s)[8..] == b[8..] + s;
      OctetsOntoLocal(v * 256 + NatOf(b[..8]), k - 1, limit, b[8..], s);
    }
  }

  lemma LengthLocal(b: Bits, s: Bits)
    ensures Same(GetLength(b), GetLength(b + s), s)
  {
    hide Get;
    BitsLocal(8, b, s);
    var first := Get(8, b);
    if first.Ok? { BitsLocal(8, first.rest, s); }
  }

  lemma UnconstrainedLocal(b: Bits, s: Bits)
    ensures Same(GetUnconstrained(b), GetUnconstrained(b + s), s)
  {
    hide Get, Pow2;
    BitsLocal(8, b, s);
    var len := Get(8, b);
    if len.Ok? { BitsLocal(8 * len.v, len.rest, s); }
  }

  lemma SemiLocal(b: Bits, s: Bits)
    ensures Same(GetSemi(b), GetSemi(b + s), s)
  {
    hide Get, GetOctetsOnto;
    BitsLocal(8, b, s);
    var len := Get(8, b);
    if len.Ok? { OctetsOntoLocal(0, len.v, TOP_OCTET_64, len.rest, s); }
  }

  lemma NsNumberLocal(b: Bits, s: Bits)
    ensures Same(GetNsNumber(b), GetNsNumber(b + s), s)
  {
    hide Get, GetOctetsOnto, GetLength;
    if b != [] {
      assert (b + s)[1..] == b[1..] + s;
      BitsLocal(6, b[1..], s);
      LengthLocal(b[1..], s);
      var len := GetLength(b[1..]);
      if len.Ok? { OctetsOntoLocal(0, len.v, TOP_OCTET_INT, len.rest, s); }
    }
  }

  lemma NsLengthLocal(b: Bits, s: Bits)
    ensures Same(GetNsLength(b), GetNsLength(b + s), s)
  {
    hide Get, GetLength;
    if b != [] {
      assert (b + s)[1..] == b[1..] + s;
      BitsLocal(6, b[1..], s);
      LengthLocal(b[1..], s);
    }
  }

  lemma IntLocal(c: Bounds, b: Bits, s: Bits)
    ensures Same(GetInt(c, b), GetInt(c, b + s), s) && Same(GetUInt(c, b), GetUInt(c, b + s), s)
  {
    hide Get, GetUnconstrained, GetSemi;
    FlagLocal(HasIntFlag(c), b, s);
    var flag := GetFlag(HasIntFlag(c), b);
    if flag.Ok? {
      UnconstrainedLocal(flag.rest, s);
      SemiLocal(flag.rest, s);
      if c.Range? { BitsLocal(c.bits, flag.rest, s); }
    }
  }

  lemma EnumLocal(e: EnumSpec, b: Bits, s: Bits)
    ensures Same(GetEnum(e, b), GetEnum(e, b + s), s)
  {
    hide Get, GetNsNumber, RangeBits;
    FlagLocal(e.extensible, b, s);
    var flag := GetFlag(e.extensible, b);
    if flag.Ok? {
      NsNumberLocal(flag.rest, s);
      BitsLocal(RangeBits(e.RootCount()), flag.rest, s);
    }
  }

  lemma {:induction false} WideLocal(width: nat, b: Bits, s: Bits)
    ensures Same(GetWide(width, b), GetWide(width, b + s), s)
    decreases width
  {
    hide Get;
    if width > 0 {
      BitsLocal(8, b, s);
      if Get(8, b).Ok? { WideLocal(width - 1, Get(8, b).rest, s); }
    }
  }

  lemma CharLocal(code: CharCode, b: Bits, s: Bits)
    ensures Same(GetChar(code, b), GetChar(code, b + s), s)
  {
    hide Get, GetWide;
    match code
    case Indexed(_, _, bits, _) => BitsLocal(bits, b, s);
    case Wide(width) => WideLocal(width, b, s);
    case Numeric => BitsLocal(4, b, s);
    case Narrow(bits) => BitsLocal(bits, b, s);
  }

  lemma {:induction false} OctetsLocal(b: Bits, s: Bits)
    ensures Same(GetOctets(b), GetOctets(b + s), s)
    decreases |b|
  {
    hide Get, GetBits, GetLength;
    BitsLocal(8, b, s);
    LengthLocal(b, s);
    var first, len := Get(8, b), GetLength(b);
    if len.Ok? { BitsLocal(8 * len.v, len.rest, s); }
    if first.Ok? && 0xC0 < first.v <= 0xC4 {
      BitsLocal(8 * (first.v - 0xC0) * FRAGMENT, first.rest, s);
      var block := GetBits(8 * (first.v - 0xC0) * FRAGMENT, first.rest);
      if block.Ok? { OctetsLocal(block.rest, s); }
    }
  }

  // ---- the decoder ----

  lemma {:induction false} DecLocal(S: Schema, t: nat, d: nat, b: Bits, s: Bits)
    ensures Same(Dec(S, t, d, b), Dec(S, t, d, b + s), s)
    decreases d, 1, 1
  {
    if t < |S| { DecAsLocal(S, S[t], d, b, s); }
  }

  lemma {:induction false} DecAsLocal(S: Schema, ty: Ty, d: nat, b: Bits, s: Bits)
    ensures Same(DecAs(S, ty, d, b), DecAs(S, ty, d, b + s), s)
    decreases d, 1, 0
  {
    hide GetInt, GetUInt, GetEnum, GetExtSized, GetSized, GetItems, DecSequence, DecChoice;
    match ty
    case Boolean => if b != [] { assert (b + s)[1..] == b[1..] + s; }
    case Null =>
    case Int(c) => IntLocal(c, b, s);
    case UInt(c) => IntLocal(c, b, s);
    case Enum(e) => EnumLocal(e, b, s);
    case List(item, size, ext, _) =>
      if !(item.Element? && d == 0) { ExtSizedLocal(S, item, size, ext, if item.Element? then d - 1 else d, b, s); }
    case Str(kind, from, size, ext) =>
      FlagLocal(ext, b, s);
      var flag := GetFlag(ext, b);
      if flag.Ok? {
        ItemsLocal(S, CharItem(NaturalCode(kind)), d, flag.rest, s);
        SizedLocal(S, CharItem(CodeOf(kind, from)), size, d, flag.rest, s);
      }
    case Sequence(root, additions) => if d > 0 { SequenceLocal(S, root, additions, d - 1, b, s); }
    case Choice(alts, bits, more) => if d > 0 { ChoiceLocal(S, alts, bits, more, d - 1, b, s); }
  }

  // The contents of an open type are cut out before they are decoded.
  lemma OpenLocal(S: Schema, t: nat, d: nat, b: Bits, s: Bits)
    ensures Same(DecOpen(S, t, d, b), DecOpen(S, t, d, b + s), s)
  {
    hide Dec, GetOctets;
    OctetsLocal(b, s);
  }

  lemma {:induction false} ItemLocal(S: Schema, item: Item, d: nat, b: Bits, s: Bits)
    ensures Same(DecItem(S, item, d, b), DecItem(S, item, d, b + s), s)
    decreases d, if item.Element? then 2 else 0, 2
  {
    hide Dec, Get, GetChar;
    match item
    case BitItem => if b != [] { assert (b + s)[1..] == b[1..] + s; }
    case OctetItem => BitsLocal(8, b, s);
    case CharItem(code) => CharLocal(code, b, s);
    case Element(t) => DecLocal(S, t, d, b, s);
  }

  lemma {:induction false} NLocal(S: Schema, item: Item, n: nat, d: nat, b: Bits, s: Bits)
    ensures Same(GetN(S, item, n, d, b), GetN(S, item, n, d, b + s), s)
    decreases d, if item.Element? then 2 else 0, 3, n
  {
    hide DecItem;
    if n > 0 {
      ItemLocal(S, item, d, b, s);
      var first := DecItem(S, item, d, b);
      if first.Ok? { NLocal(S, item, n - 1, d, first.rest, s); }
    }
  }

  lemma {:induction false} RunLocal(S: Schema, item: Item, n: nat, d: nat, b: Bits, s: Bits)
    ensures Same(GetRun(S, item, n, d, b), GetRun(S, item, n, d, b + s), s)
    decreases d, if item.Element? then 2 else 0, 4
  {
    hide DecItem, GetN;
    NLocal(S, item, n, d, b, s);
    ItemLocal(S, item, d, b, s);
  }

  lemma {:induction false} ItemsLocal(S: Schema, item: Item, d: nat, b: Bits, s: Bits)
    ensures Same(GetItems(S, item, d, b), GetItems(S, item, d, b + s), s)
    decreases d, if item.Element? then 2 else 0, 5, |b|
  {
    hide Get, GetLength, GetRun;
    BitsLocal(8, b, s);
    LengthLocal(b, s);
    var first, len := Get(8, b), GetLength(b);
    if len.Ok? { RunLocal(S, item, len.v, d, len.rest, s); }
    if first.Ok? && 0xC0 < first.v <= 0xC4 {
      var n := (first.v - 0xC0) * FRAGMENT;
      RunLocal(S, item, n, d, first.rest, s);
      var block := GetRun(S, item, n, d, first.rest);
      if block.Ok? { ItemsLocal(S, item, d, block.rest, s); }
    }
  }

  lemma {:induction false} SizedLocal(S: Schema, item: Item, size: SizeC, d: nat, b: Bits, s: Bits)
    ensures Same(GetSized(S, item, size, d, b), GetSized(S, item, size, d, b + s), s)
    decreases d, if item.Element? then 2 else 0, 6
  {
    hide Get, GetItems, GetRun;
    if !CountIsConstrained(size) { ItemsLocal(S, item, d, b, s); }
    else {
      BitsLocal(size.bits, b, s);
      var off := Get(size.bits, b);
      if off.Ok? { RunLocal(S, item, size.lo + off.v, d, off.rest, s); }
    }
  }

  lemma {:induction false} ExtSizedLocal(S: Schema, item: Item, size: SizeC, ext: bool, d: nat, b: Bits, s: Bits)
    ensures Same(GetExtSized(S, item, size, ext, d, b), GetExtSized(S, item, size, ext, d, b + s), s)
    decreases d, if item.Element? then 2 else 0, 7
  {
    hide GetItems, GetSized;
    FlagLocal(ext && size.Size?, b, s);
    var flag := GetFlag(ext && size.Size?, b);
    if flag.Ok? {
      ItemsLocal(S, item, d, flag.rest, s);
      SizedLocal(S, item, size, d, flag.rest, s);
    }
  }

  lemma {:induction false} MembersLocal(S: Schema, ms: seq<Member>, present: Bits, d: nat, b: Bits, s: Bits)
    requires |present| == OptionalCount(ms)
    ensures Same(DecMembers(S, ms, present, d, b), DecMembers(S, ms, present, d, b + s), s)
    decreases d, 2, 3, |ms|
  {
    hide Dec;
    if ms != [] {
      if ms[0].optional && !present[0] {
        MembersLocal(S, ms[1..], present[1..], d, b, s);
      } else {
        DecLocal(S, ms[0].t, d, b, s);
        var first := Dec(S, ms[0].t, d, b);
        if first.Ok? { MembersLocal(S, ms[1..], if ms[0].optional then present[1..] else present, d, first.rest, s); }
      }
    }
  }

  lemma UnitLocal(S: Schema, u: Unit, d: nat, b: Bits, s: Bits)
    ensures Same(DecUnit(S, u, d, b), DecUnit(S, u, d, b + s), s)
  {
    hide DecOpen, GetOctets, DecMembers, GetBits;
    match u
    case Single(m) => OpenLocal(S, m.t, d, b, s);
    case Group(ms) => OctetsLocal(b, s);
  }

  lemma {:induction false} UnitsLocal(S: Schema, us: seq<Unit>, bitmap: Bits, d: nat, b: Bits, s: Bits)
    ensures Same(DecUnits(S, us, bitmap, d, b), DecUnits(S, us, bitmap, d, b + s), s)
    decreases |bitmap|
  {
    hide DecUnit, GetOctets;
    if bitmap != [] {
      var us' := if us == [] then [] else us[1..];
      if !bitmap[0] {
        UnitsLocal(S, us', bitmap[1..], d, b, s);
      } else if us == [] {
        OctetsLocal(b, s);
        if GetOctets(b).Ok? { UnitsLocal(S, [], bitmap[1..], d, GetOctets(b).rest, s); }
      } else {
        UnitLocal(S, us[0], d, b, s);
        var first := DecUnit(S, us[0], d, b);
        if first.Ok? { UnitsLocal(S, us', bitmap[1..], d, first.rest, s); }
      }
    }
  }

  lemma {:induction false} SequenceLocal(S: Schema, root: seq<Member>, additions: Option<seq<Unit>>, d: nat, b: Bits, s: Bits)
    ensures Same(DecSequence(S, root, additions, d, b), DecSequence(S, root, additions, d, b + s), s)
    decreases d, 2, 7
  {
    hide GetFlag, GetBits, DecMembers, DecAdditions;
    FlagLocal(additions.Some?, b, s);
    var flag := GetFlag(additions.Some?, b);
    if flag.Ok? {
      BitsLocal(OptionalCount(root), flag.rest, s);
      var present := GetBits(OptionalCount(root), flag.rest);
      if present.Ok? {
        MembersLocal(S, root, present.v, d, present.rest, s);
        var fs := DecMembers(S, root, present.v, d, present.rest);
        if fs.Ok? { AdditionsLocal(S, fs.v, additions, d, fs.rest, s); }
      }
    }
  }

  lemma AdditionsLocal(S: Schema, fs: seq<Field>, additions: Option<seq<Unit>>, d: nat, b: Bits, s: Bits)
    ensures Same(DecAdditions(S, fs, additions, d, b), DecAdditions(S, fs, additions, d, b + s), s)
  {
    hide GetNsLength, GetBits, DecUnits;
    NsLengthLocal(b, s);
    var n := GetNsLength(b);
    if n.Ok? {
      BitsLocal(n.v, n.rest, s);
      var bitmap := GetBits(n.v, n.rest);
      if bitmap.Ok? { UnitsLocal(S, if additions.Some? then additions.value else [], bitmap.v, d, bitmap.rest, s); }
    }
  }

  lemma {:induction false} ChoiceLocal(S: Schema, alts: seq<nat>, bits: nat, more: Option<seq<nat>>, d: nat, b: Bits, s: Bits)
    ensures Same(DecChoice(S, alts, bits, more, d, b), DecChoice(S, alts, bits, more, d, b + s), s)
    decreases d, 2, 6
  {
    hide GetFlag, Get, GetNsNumber, DecAddition, Dec;
    FlagLocal(more.Some?, b, s);
    var flag := GetFlag(more.Some?, b);
    if flag.Ok? {
      BitsLocal(bits, flag.rest, s);
      NsNumberLocal(flag.rest, s);
      var root, added := Get(bits, flag.rest), GetNsNumber(flag.rest);
      if !flag.v && root.Ok? && root.v < |alts| { DecLocal(S, alts[root.v], d, root.rest, s); }
      if flag.v && added.Ok? { AdditionLocal(S, |alts|, if more.Some? then more.value else [], d, added.v, added.rest, s); }
    }
  }

  lemma AdditionLocal(S: Schema, base: nat, more: seq<nat>, d: nat, k: nat, b: Bits, s: Bits)
    ensures Same(DecAddition(S, base, more, d, k, b), DecAddition(S, base, more, d, k, b + s), s)
  {
    hide GetOctets, DecOpen, AdditionIndex;
    OctetsLocal(b, s);
    var i := AdditionIndex(base, k);
    if base <= i < base + |more| { OpenLocal(S, more[i - base], d, b, s); }
  }

  // Every proper prefix of an encoding that would be read back is refused.
  lemma CutShortRefused(A: Schema, B: Schema, t: nat, v: Value, d: nat, p: Bits)
    requires SchemaWf(A) && SchemaWf(B) && Compatible(A, B)
    requires Survives(A, B, t, v, d) && Enc(A, t, v).Some? && p < Enc(A, t, v).value
    ensures Dec(B, t, d, p).Err?
  {
    hide Dec, Enc, Survives, Seen, SchemaWf, Compatible;
    var e := Enc(A, t, v).value;
    var s := e[|p|..];
    assert e == p + s;
    assert e + [] == e;
    RoundTrip(A, B, t, v, d, []);
    DecLocal(B, t, d, p, s);
    if Dec(B, t, d, p).Ok? { assert |Dec(B, t, d, p).rest + s| > 0; }
  }
}
