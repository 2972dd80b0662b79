/**
 * The type descriptors the unaligned PER codec interprets, and the values it
 * writes and reads.  A schema is a table of descriptors that refer to each
 * other by index, so self-referential types are ordinary entries.
 */
module PerTypes {
  import opened Bits
  import opened Options
  import opened Integers

  // Items per block of a fragmented length.
  const FRAGMENT: nat := 16384

  // A SIZE constraint: `bits` is the field width of the offset from `lo`.
  datatype SizeC = AnySize | Size(lo: nat, hi: nat, bits: nat)

  // The PER-visible constraint of an INTEGER.
  datatype Bounds =
    | Unbounded
    | Semi(lo: int, ext: bool)
    | Range(lo: int, hi: int, bits: nat, ext: bool)

  // How one character of a known-multiplier string is written.
  datatype CharCode =
    | Indexed(alphabet: seq<Byte>, table: seq<nat>, bits: nat, width: nat)
    | Wide(width: nat)
    | Numeric
    | Narrow(bits: nat)

  const NO_CHAR: nat := 0xFFFF

  // What a size-prefixed type is made of.
  datatype Item = BitItem | OctetItem | CharItem(code: CharCode) | Element(t: nat)

  // Enumeration values in ascending order; the first `RootCount` are the root.
  datatype EnumSpec = EnumSpec(entries: seq<int>, rootCount: nat, extensible: bool) {
    function RootCount(): nat {
      if rootCount > 0 then rootCount else |entries|
    }
  }

  // `optional` also covers DEFAULT; inside a group it is the member's own flag.
  datatype Member = Member(t: nat, optional: bool, dflt: Field)

  // One extension addition: a plain member or an extension addition group.
  datatype Unit = Single(m: Member) | Group(ms: seq<Member>)

  datatype StringKind = NumericString | Ia5String | SevenBit | EightBit | Bmp | Universal

  datatype Ty =
    | Boolean
    | Null
    | Int(c: Bounds)
    | UInt(c: Bounds)
    | Enum(e: EnumSpec)
    | List(item: Item, size: SizeC, ext: bool, isSet: bool)
    | Str(kind: StringKind, from: Option<CharCode>, size: SizeC, ext: bool)
    | Sequence(root: seq<Member>, additions: Option<seq<Unit>>)
    | Choice(alts: seq<nat>, indexBits: nat, more: Option<seq<nat>>)

  type Schema = seq<Ty>

  // BIT STRING, OCTET STRING, character strings, SEQUENCE OF and SET OF are
  // all lists of items.  `NoChoice` is a CHOICE with no alternative selected.
  datatype Value =
    | BoolV(b: bool)
    | NullV
    | IntV(i: int)
    | CharV(octets: seq<Byte>)
    | ListV(items: seq<Value>)
    | RecordV(root: seq<Field>, units: seq<UnitV>)
    | ChoiceV(index: nat, v: Value)
    | NoChoice

  datatype Field = Absent | Has(v: Value)

  datatype UnitV = UnitV(fields: seq<Field>) {
    predicate Present() {
      exists i :: 0 <= i < |fields| && fields[i].Has?
    }
  }

  predicate InSize(s: SizeC, n: nat) {
    s.AnySize? || s.lo <= n <= s.hi
  }

  // The UNALIGNED rule: a count field only below 64K.
  predicate CountIsConstrained(s: SizeC) {
    s.Size? && s.hi < 65536
  }

  // The character form a string type uses when no FROM constraint applies.
  function NaturalCode(k: StringKind): CharCode {
    match k
    case NumericString => Numeric
    case Ia5String => Narrow(7)
    case SevenBit => Narrow(7)
    case EightBit => Narrow(8)
    case Bmp => Wide(2)
    case Universal => Wide(4)
  }

  function CharWidth(k: StringKind): nat {
    match k
    case Bmp => 2
    case Universal => 4
    case _ => 1
  }

  function CodeOf(k: StringKind, from: Option<CharCode>): CharCode {
    if from.Some? then from.value else NaturalCode(k)
  }

  // Well-formed tables, as the generator emits them.
  predicate SizeWf(s: SizeC) {
    s.Size? ==> s.lo <= s.hi && s.hi - s.lo < Pow2(s.bits)
  }

  predicate TableInverts(alphabet: seq<Byte>, table: seq<nat>) {
    && |table| == 256
    && (forall i :: 0 <= i < |alphabet| ==> table[alphabet[i]] == i)
    && (forall c :: 0 <= c < 256 && table[c] != NO_CHAR ==> table[c] < |alphabet| && alphabet[table[c]] == c)
  }

  predicate CodeWf(c: CharCode, width: nat) {
    match c
    case Indexed(alphabet, table, bits, w) =>
      w == width && 0 < w && bits > 0 && |alphabet| < 256 && |alphabet| <= Pow2(bits) && TableInverts(alphabet, table)
    case Wide(w) => w == width && 0 < w
    case Numeric => width == 1
    case Narrow(bits) => width == 1 && 0 < bits <= 8
  }

  predicate Sorted(s: seq<int>) {
    forall i, j :: 0 <= i < j < |s| ==> s[i] < s[j]
  }

  // The encoder writes the extension bit only for an extensible type, so an
  // addition of a type that is not extensible cannot be told from a root value.
  predicate EnumWf(e: EnumSpec) {
    0 < e.RootCount() <= |e.entries| < INT_LIMIT && (e.extensible || e.RootCount() == |e.entries|)
  }

  predicate MembersWf(ms: seq<Member>, n: nat) {
    forall i :: 0 <= i < |ms| ==> ms[i].t < n && (ms[i].dflt.Has? ==> ms[i].optional)
  }

  predicate UnitWf(u: Unit, n: nat) {
    match u
    case Single(m) => m.t < n && m.optional
    case Group(ms) => MembersWf(ms, n)
  }

  predicate BoundsWf(c: Bounds, min: int, max: int) {
    match c
    case Unbounded => true
    case Semi(lo, _) => min <= lo <= max
    case Range(lo, hi, bits, _) => min <= lo <= hi <= max && bits <= 64 && hi - lo < Pow2(bits)
  }

  predicate TyWf(ty: Ty, n: nat) {
    match ty
    case Boolean => true
    case Null => true
    case Int(c) => BoundsWf(c, I64_MIN, I64_MAX)
    case UInt(c) => BoundsWf(c, 0, U64 - 1)
    case Enum(e) => Sorted(e.entries) && EnumWf(e)
    case List(item, size, _, isSet) =>
      && SizeWf(size)
      && !item.CharItem?
      && (item.Element? ==> item.t < n)
      && (isSet ==> item.Element?)
    case Str(kind, from, size, _) => SizeWf(size) && CodeWf(CodeOf(kind, from), CharWidth(kind)) && (from.Some? ==> from.value.Indexed?)
    case Sequence(root, additions) =>
      && MembersWf(root, n)
      && (additions.Some? ==> |additions.value| < 16384 && forall i :: 0 <= i < |additions.value| ==> UnitWf(additions.value[i], n))
    case Choice(alts, bits, more) =>
      && bits <= 31 && |alts| <= Pow2(bits)
      && |alts| + (if more.Some? then |more.value| else 0) < INT_LIMIT
      && (forall i :: 0 <= i < |alts| ==> alts[i] < n)
      && (more.Some? ==> forall i :: 0 <= i < |more.value| ==> more.value[i] < n)
  }

  ghost predicate SchemaWf(S: Schema) {
    forall t {:trigger TyWf(S[t], |S|)} :: 0 <= t < |S| ==> TyWf(S[t], |S|)
  }
}
