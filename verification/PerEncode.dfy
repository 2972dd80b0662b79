/**
 * What the unaligned PER encoder writes: for every descriptor and value, the
 * bit string put on the stream, or None where it flags the encode as failed.
 */
module PerEncode {
  import opened Bits
  import opened Options
  import opened Integers
  import opened PerTypes

  function Cat(a: Option<Bits>, b: Option<Bits>): Option<Bits> {
    if a.Some? && b.Some? then Some(a.value + b.value) else None
  }

  function Concat(encs: seq<Bits>): Bits {
    if encs == [] then [] else encs[0] + Concat(encs[1..])
  }

  // ---- whole numbers ----

  function PutUnconstrained(v: int): Bits {
    var k := SOctets(v);
    BitsOf(k, 8) + BitsOf(v % Pow2(8 * k), 8 * k)
  }

  function PutSemi(offset: nat): Bits {
    var k := UOctets(offset);
    BitsOf(k, 8) + BitsOf(offset, 8 * k)
  }

  // A length determinant below 16K.
  function PutLength(n: nat): Bits
    requires n < FRAGMENT
  {
    if n <= 127 then BitsOf(n, 8) else BitsOf(0x80 + n / 256, 8) + BitsOf(n % 256, 8)
  }

  // A normally small length: the number of extension additions.
  function PutNsLength(n: nat): Bits
    requires n < FRAGMENT
  {
    if 1 <= n <= 64 then [false] + BitsOf(n - 1, 6) else [true] + PutLength(n)
  }

  // A normally small non-negative number of type int.
  function PutNsNumber(n: nat): Bits
    requires n < INT_LIMIT
  {
    if n <= 63 then [false] + BitsOf(n, 6)
    else
      UOctetsOfInt(n);
      [true] + (PutLength(UOctets(n)) + BitsOf(n, 8 * UOctets(n)))
  }

  lemma UOctetsOfInt(n: nat)
    requires n < INT_LIMIT
    ensures UOctets(n) <= 4
  {
    assert n / 256 / 256 / 256 < 256;
    if n / 256 >= 256 { assert UOctets(n / 256) == 1 + UOctets(n / 256 / 256); }
  }

  // ---- sizes and items ----

  // The general length: blocks of 16K items while that many remain.
  function PutItems(encs: seq<Bits>): Bits
    decreases |encs|
  {
    if |encs| < FRAGMENT then PutLength(|encs|) + Concat(encs)
    else
      var m := BlockSize(|encs|);
      BlockOctet(|encs|) + (Concat(encs[..m]) + PutItems(encs[m..]))
  }

  // 16K-item blocks announced by the next fragment header.
  function Blocks(n: nat): (k: nat)
    requires n >= FRAGMENT
    ensures 1 <= k <= 4
  {
    if n / FRAGMENT < 4 then n / FRAGMENT else 4
  }

  function BlockSize(n: nat): (m: nat)
    requires n >= FRAGMENT
    ensures FRAGMENT <= m <= n
  {
    Blocks(n) * FRAGMENT
  }

  function BlockOctet(n: nat): (h: Bits)
    requires n >= FRAGMENT
  {
    BitsOf(0xC0 + Blocks(n), 8)
  }

  function PutSized(size: SizeC, encs: seq<Bits>): Option<Bits> {
    if CountIsConstrained(size) then
      if InSize(size, |encs|) then Some(BitsOf(|encs| - size.lo, size.bits) + Concat(encs)) else None
    else Some(PutItems(encs))
  }

  function PutExtSized(size: SizeC, ext: bool, encs: seq<Bits>): Option<Bits> {
    if ext && size.Size? then
      if InSize(size, |encs|) then Cat(Some([false]), PutSized(size, encs))
      else Some([true] + PutItems(encs))
    else PutSized(size, encs)
  }

  // ---- octets of an open type ----

  function Zeros(n: nat): (z: Bits)
    ensures |z| == n && forall i :: 0 <= i < n ==> !z[i]
  {
    seq(n, _ => false)
  }

  // flush(): zero-pad to an octet boundary; an empty encoding is one octet.
  function Pack(b: Bits): (s: seq<Byte>) {
    if |b| <= 8 then [OctetOf(b + Zeros(8 - |b|))]
    else [OctetOf(b[..8])] + Pack(b[8..])
  }

  function OctetOf(b: Bits): Byte
    requires |b| == 8
  {
    assert Pow2(8) == 256 by { Pow2Of8(); }
    NatOf(b)
  }

  function OctetItems(s: seq<Byte>): (e: seq<Bits>)
    ensures |e| == |s|
  {
    seq(|s|, i requires 0 <= i < |s| => ByteBits(s[i]))
  }

  function PutOpen(b: Bits): Bits {
    PutItems(OctetItems(Pack(b)))
  }

  // ---- characters ----

  function NumericCode(c: Byte): (n: nat)
    ensures n < 16
  {
    if c == 32 then 0 else if 48 <= c <= 57 then c - 47 else 0
  }

  // Every octet but the last is zero and the last is in the alphabet.
  predicate InAlphabet(code: CharCode, octets: seq<Byte>)
    requires code.Indexed?
  {
    && octets != []
    && (forall i :: 0 <= i < |octets| - 1 ==> octets[i] == 0)
    && octets[|octets| - 1] < |code.table|
    && code.table[octets[|octets| - 1]] != NO_CHAR
  }

  function PutChar(code: CharCode, octets: seq<Byte>): Option<Bits> {
    match code
    case Indexed(_, table, bits, width) =>
      if |octets| == width && InAlphabet(code, octets) then Some(BitsOf(table[octets[|octets| - 1]], bits)) else None
    case Wide(width) => if |octets| == width then Some(BytesBits(octets)) else None
    case Numeric => if |octets| == 1 then Some(BitsOf(NumericCode(octets[0]), 4)) else None
    case Narrow(bits) => if |octets| == 1 then Some(BitsOf(octets[0], bits)) else None
  }

  // ---- ENUMERATED ----

  // Position of a value in the ascending table.
  function IndexOf(entries: seq<int>, v: int): (r: Option<nat>)
    ensures r.Some? ==> r.value < |entries| && entries[r.value] == v
    ensures r.None? ==> v !in entries
  {
    if entries == [] then None
    else if entries[0] == v then Some(0)
    else
      var r := IndexOf(entries[1..], v);
      assert entries == [entries[0]] + entries[1..];
      if r.Some? then Some(r.value + 1) else None
  }

  // The width of a field for `range` values.
  function RangeBits(range: nat): (bits: nat)
    ensures range <= Pow2(bits)
  {
    if range <= 1 then 0 else 1 + RangeBits((range + 1) / 2)
  }

  // A value missing from the table is written as the first addition.
  function PutEnum(e: EnumSpec, v: int): Bits
    requires 0 < e.RootCount() <= |e.entries| < INT_LIMIT
  {
    var pos := IndexOf(e.entries, v);
    PutEnumPosition(e, if pos.Some? then pos.value else e.RootCount())
  }

  function PutEnumPosition(e: EnumSpec, pos: nat): Bits
    requires pos < e.RootCount() + INT_LIMIT
  {
    var isAddition := pos >= e.RootCount();
    (if e.extensible then [isAddition] else [])
    + (if isAddition then PutNsNumber(pos - e.RootCount()) else BitsOf(pos, RangeBits(e.RootCount())))
  }

  // ---- INTEGER ----

  predicate InRoot(c: Bounds, i: int) {
    match c
    case Unbounded => true
    case Semi(lo, _) => lo <= i
    case Range(lo, hi, _, _) => lo <= i <= hi
  }

  predicate HasIntFlag(c: Bounds) {
    !c.Unbounded? && c.ext
  }

  // `i` is the value as the handler holds it; both handlers wrap to int64 for
  // the unconstrained form.
  function PutInt(c: Bounds, i: int): Bits {
    (if HasIntFlag(c) then [!InRoot(c, i)] else []) + PutIntBody(c, i)
  }

  function PutIntBody(c: Bounds, i: int): Bits {
    if c.Unbounded? || (c.ext && !InRoot(c, i)) then PutUnconstrained(WrapS(i))
    else if c.Semi? then PutSemi(WrapU(i - c.lo))
    else BitsOf(WrapU(i - c.lo), c.bits)
  }

  // ---- strings ----

  predicate NaturalOk(kind: StringKind, chars: seq<Value>) {
    forall i :: 0 <= i < |chars| && chars[i].CharV? && |chars[i].octets| == 1 ==>
      match kind
      case NumericString => chars[i].octets[0] == 32 || 48 <= chars[i].octets[0] <= 57
      case Ia5String => chars[i].octets[0] <= 0x7F
      case _ => true
  }

  predicate AllInAlphabet(code: CharCode, chars: seq<Value>) {
    code.Indexed? ==> forall i :: 0 <= i < |chars| ==> chars[i].CharV? && |chars[i].octets| == code.width && InAlphabet(code, chars[i].octets)
  }

  function EncChars(code: CharCode, chars: seq<Value>): (r: Option<seq<Bits>>)
    ensures r.Some? ==> |r.value| == |chars|
  {
    if chars == [] then Some([])
    else
      var first := if chars[0].CharV? then PutChar(code, chars[0].octets) else None;
      var rest := EncChars(code, chars[1..]);
      if first.Some? && rest.Some? then Some([first.value] + rest.value) else None
  }

  // A string whose constraints are dropped: outside the extension root.
  function PutPlainStr(kind: StringKind, chars: seq<Value>): Option<Bits> {
    if !NaturalOk(kind, chars) then None
    else
      var encs := EncChars(NaturalCode(kind), chars);
      if encs.Some? then Some(PutItems(encs.value)) else None
  }

  // A string in the form its constraints select.
  function PutChars(code: CharCode, size: SizeC, chars: seq<Value>): Option<Bits> {
    var encs := EncChars(code, chars);
    if encs.Some? then PutSized(size, encs.value) else None
  }

  predicate StrInRoot(code: CharCode, size: SizeC, chars: seq<Value>) {
    InSize(size, |chars|) && AllInAlphabet(code, chars)
  }

  predicate StrAllowed(kind: StringKind, from: Option<CharCode>, size: SizeC, chars: seq<Value>) {
    InSize(size, |chars|) && (from.None? ==> NaturalOk(kind, chars))
  }

  function PutStr(kind: StringKind, from: Option<CharCode>, size: SizeC, ext: bool, chars: seq<Value>): Option<Bits> {
    var code := CodeOf(kind, from);
    if ext then
      if StrInRoot(code, size, chars) then Cat(Some([false]), PutChars(code, size, chars))
      else Cat(Some([true]), PutPlainStr(kind, chars))
    else if StrAllowed(kind, from, size, chars) then PutChars(code, size, chars)
    else None
  }

  // ---- SET OF order ----

  // Ascending as bit strings, the shorter one extended with zero bits.
  predicate PaddedLess(a: Bits, b: Bits)
    decreases |a| + |b|
  {
    if a == [] && b == [] then false
    else
      var x, y := a != [] && a[0], b != [] && b[0];
      if x != y then y
      else PaddedLess(if a == [] then [] else a[1..], if b == [] then [] else b[1..])
  }

  // Stable insertion of index `i` after every index not greater than it.
  function InsertIndex(encs: seq<Bits>, order: seq<nat>, i: nat): (r: seq<nat>)
    requires i < |encs| && forall k :: 0 <= k < |order| ==> order[k] < |encs|
    ensures |r| == |order| + 1
    ensures forall k :: 0 <= k < |r| ==> r[k] < |encs|
  {
    if order == [] then [i]
    else if PaddedLess(encs[i], encs[order[|order| - 1]]) then
      InsertIndex(encs, order[..|order| - 1], i) + [order[|order| - 1]]
    else order + [i]
  }

  // The first `n` indices, in the stable ascending order of their encodings.
  function OrderOf(encs: seq<Bits>, n: nat): (r: seq<nat>)
    requires n <= |encs|
    ensures |r| == n
    ensures forall k :: 0 <= k < |r| ==> r[k] < |encs|
  {
    if n == 0 then [] else InsertIndex(encs, OrderOf(encs, n - 1), n - 1)
  }

  function Order(encs: seq<Bits>): (r: seq<nat>)
    ensures |r| == |encs|
    ensures forall k :: 0 <= k < |r| ==> r[k] < |encs|
  {
    OrderOf(encs, |encs|)
  }

  function Permute<T>(order: seq<nat>, s: seq<T>): (r: seq<T>)
    requires forall k :: 0 <= k < |order| ==> order[k] < |s|
    ensures |r| == |order|
  {
    seq(|order|, k requires 0 <= k < |order| => s[order[k]])
  }

  function SortEncs(encs: seq<Bits>): (r: seq<Bits>)
    ensures |r| == |encs|
  {
    Permute(Order(encs), encs)
  }

  // ---- SEQUENCE ----

  // A root member travels unless it is absent or equal to its DEFAULT.
  predicate Sent(m: Member, f: Field) {
    f.Has? && f != m.dflt
  }

  function Preamble(ms: seq<Member>, fs: seq<Field>): Bits
    requires |ms| == |fs|
  {
    if ms == [] then []
    else (if ms[0].optional then [Sent(ms[0], fs[0])] else []) + Preamble(ms[1..], fs[1..])
  }

  function GroupBitmap(ms: seq<Member>, fs: seq<Field>): Bits
    requires |ms| == |fs|
  {
    if ms == [] then []
    else (if ms[0].optional then [fs[0].Has?] else []) + GroupBitmap(ms[1..], fs[1..])
  }

  function UnitBitmap(us: seq<UnitV>): (b: Bits)
    ensures |b| == |us|
  {
    if us == [] then [] else [us[0].Present()] + UnitBitmap(us[1..])
  }

  predicate HasAdditions(us: seq<UnitV>) {
    exists i :: 0 <= i < |us| && us[i].Present()
  }

  // ---- the encoder ----

  function Enc(S: Schema, t: nat, v: Value): Option<Bits>
    decreases v, 4
  {
    if t < |S| then EncAs(S, S[t], v) else None
  }

  // The handler of one descriptor.
  function EncAs(S: Schema, ty: Ty, v: Value): Option<Bits>
    decreases v, 3
  {
    match ty
    case Boolean => if v.BoolV? then Some([v.b]) else None
    case Null => if v.NullV? then Some([]) else None
    case Int(c) => if v.IntV? then Some(PutInt(c, v.i)) else None
    case UInt(c) => if v.IntV? then Some(PutInt(c, v.i)) else None
    case Enum(e) => if v.IntV? && 0 < e.RootCount() <= |e.entries| < INT_LIMIT then Some(PutEnum(e, v.i)) else None
    case List(item, size, ext, isSet) => if v.ListV? then EncListOf(S, item, size, ext, isSet, v.items) else None
    case Str(kind, from, size, ext) => if v.ListV? then PutStr(kind, from, size, ext, v.items) else None
    case Sequence(root, additions) =>
      if v.RecordV? && |v.root| == |root| && |v.units| == (if additions.Some? then |additions.value| else 0) then
        EncSequence(S, root, additions, v)
      else None
    case Choice(alts, bits, more) => if v.ChoiceV? then EncChoice(S, alts, bits, more, v) else None
  }

  function EncListOf(S: Schema, item: Item, size: SizeC, ext: bool, isSet: bool, vs: seq<Value>): Option<Bits>
    decreases vs, 1
  {
    var encs := EncItems(S, item, vs);
    if encs.None? then None else PutExtSized(size, ext, if isSet then SortEncs(encs.value) else encs.value)
  }

  function EncChoice(S: Schema, alts: seq<nat>, bits: nat, more: Option<seq<nat>>, v: Value): Option<Bits>
    requires v.ChoiceV?
    decreases v, 2
  {
    var k := v.index - |alts|;
    if k < 0 then Cat(Some((if more.Some? then [false] else []) + BitsOf(v.index, bits)), Enc(S, alts[v.index], v.v))
    else if more.Some? && k < |more.value| && k < INT_LIMIT then
      Cat(Some([true] + PutNsNumber(k)), EncOpen(S, more.value[k], v.v))
    else None
  }

  function EncOpen(S: Schema, t: nat, v: Value): Option<Bits>
    decreases v, 5
  {
    var b := Enc(S, t, v);
    if b.Some? then Some(PutOpen(b.value)) else None
  }

  function EncItem(S: Schema, item: Item, v: Value): Option<Bits>
    decreases v, 5
  {
    match item
    case BitItem => if v.BoolV? then Some([v.b]) else None
    case OctetItem => if v.IntV? && 0 <= v.i < 256 then Some(BitsOf(v.i, 8)) else None
    case CharItem(code) => if v.CharV? then PutChar(code, v.octets) else None
    case Element(t) => Enc(S, t, v)
  }

  function EncItems(S: Schema, item: Item, vs: seq<Value>): (r: Option<seq<Bits>>)
    ensures r.Some? ==> |r.value| == |vs|
    decreases vs, 0
  {
    if vs == [] then Some([])
    else
      var first := EncItem(S, item, vs[0]);
      var rest := EncItems(S, item, vs[1..]);
      if first.Some? && rest.Some? then Some([first.value] + rest.value) else None
  }

  function EncSequence(S: Schema, root: seq<Member>, additions: Option<seq<Unit>>, v: Value): Option<Bits>
    requires v.RecordV? && |v.root| == |root|
    requires |v.units| == if additions.Some? then |additions.value| else 0
    decreases v, 2
  {
    var extBit := if additions.Some? then [HasAdditions(v.units)] else [];
    var body := Cat(Some(extBit + Preamble(root, v.root)), EncMembers(S, root, v.root));
    if HasAdditions(v.units) then
      if |v.units| < FRAGMENT then
        Cat(body, Cat(Some(PutNsLength(|v.units|) + UnitBitmap(v.units)), EncUnits(S, additions.value, v.units)))
      else None
    else body
  }

  function EncField(S: Schema, t: nat, f: Field): Option<Bits>
    requires f.Has?
    decreases f, 0
  {
    Enc(S, t, f.v)
  }

  function EncMembers(S: Schema, ms: seq<Member>, fs: seq<Field>): Option<Bits>
    requires |ms| == |fs|
    decreases fs, 0
  {
    if ms == [] then Some([])
    else if fs[0].Absent? && !ms[0].optional then None
    else if !Sent(ms[0], fs[0]) then EncMembers(S, ms[1..], fs[1..])
    else Cat(EncField(S, ms[0].t, fs[0]), EncMembers(S, ms[1..], fs[1..]))
  }

  function EncGroup(S: Schema, ms: seq<Member>, fs: seq<Field>): Option<Bits>
    requires |ms| == |fs|
    decreases fs, 0
  {
    if ms == [] then Some([])
    else if fs[0].Absent? then
      if ms[0].optional then EncGroup(S, ms[1..], fs[1..]) else None
    else Cat(EncField(S, ms[0].t, fs[0]), EncGroup(S, ms[1..], fs[1..]))
  }

  // The contents of a present unit, before it is wrapped as an open type.
  function EncUnit(S: Schema, u: Unit, uv: UnitV): Option<Bits>
    decreases uv, 1
  {
    match u
    case Single(m) => if |uv.fields| == 1 && uv.fields[0].Has? then EncField(S, m.t, uv.fields[0]) else None
    case Group(ms) =>
      if |uv.fields| == |ms| then Cat(Some(GroupBitmap(ms, uv.fields)), EncGroup(S, ms, uv.fields)) else None
  }

  function EncUnits(S: Schema, us: seq<Unit>, uvs: seq<UnitV>): Option<Bits>
    requires |us| == |uvs|
    decreases uvs, 0
  {
    if us == [] then Some([])
    else if !uvs[0].Present() then EncUnits(S, us[1..], uvs[1..])
    else
      var b := EncUnit(S, us[0], uvs[0]);
      if b.None? then None else Cat(Some(PutOpen(b.value)), EncUnits(S, us[1..], uvs[1..]))
  }
}
