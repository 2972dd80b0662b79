/**
 * What the unaligned PER decoder reads: for every descriptor and bit string,
 * the value and the bits left over, or Err where it reports a decode error.
 * `d` is the number of constructed levels the depth guard still allows.
 */
module PerDecode {
  import opened Bits
  import opened Options
  import opened Integers
  import opened PerTypes
  import PerEncode

  const MAX_DECODE_DEPTH: nat := 256
  const MAX_ZERO_WIDTH_ITEMS: nat := 200

  // 2^56 and 2^23: one more octet would overflow 64 bits, or int.
  const TOP_OCTET_64: nat := 0x100_0000_0000_0000
  const TOP_OCTET_INT: nat := 0x80_0000

  function GetBits(n: nat, b: Bits): (r: Read<Bits>)
    ensures r.Ok? <==> n <= |b|
    ensures r.Ok? ==> r.rest == b[n..] && r.v == b[..n]
  {
    if n <= |b| then Ok(b[..n], b[n..]) else Err
  }

  function GetFlag(present: bool, b: Bits): (r: Read<bool>)
    ensures r.Ok? ==> |r.rest| <= |b|
  {
    if !present then Ok(false, b) else if b == [] then Err else Ok(b[0], b[1..])
  }

  // Reads `k` octets onto `v`, refusing once `v` has reached `limit`.
  function GetOctetsOnto(v: nat, k: nat, limit: nat, b: Bits): (r: Read<nat>)
    ensures r.Ok? ==> |r.rest| <= |b|
    decreases k
  {
    if k == 0 then Ok(v, b)
    else if v >= limit || |b| < 8 then Err
    else GetOctetsOnto(v * 256 + NatOf(b[..8]), k - 1, limit, b[8..])
  }

  function GetUnconstrained(b: Bits): (r: Read<int>)
    ensures r.Ok? ==> |r.rest| <= |b|
  {
    var len := Get(8, b);
    if len.Err? || len.v == 0 || len.v > 8 then Err
    else
      var u := Get(8 * len.v, len.rest);
      if u.Err? then Err
      else Ok(if u.v >= Pow2(8 * len.v - 1) then u.v - Pow2(8 * len.v) else u.v, u.rest)
  }

  function GetSemi(b: Bits): (r: Read<nat>)
    ensures r.Ok? ==> |r.rest| <= |b|
  {
    var len := Get(8, b);
    if len.Err? || len.v == 0 then Err else GetOctetsOnto(0, len.v, TOP_OCTET_64, len.rest)
  }

  // A single length determinant; a fragment header is an error.
  function GetLength(b: Bits): (r: Read<nat>)
    ensures r.Ok? ==> |r.rest| <= |b|
  {
    var first := Get(8, b);
    if first.Err? then Err
    else if first.v < 0x80 then first
    else if first.v < 0xC0 then
      var second := Get(8, first.rest);
      if second.Err? then Err else Ok((first.v - 0x80) * 256 + second.v, second.rest)
    else Err
  }

  function GetNsLength(b: Bits): (r: Read<nat>)
    ensures r.Ok? ==> |r.rest| <= |b|
  {
    if b == [] then Err
    else if b[0] then GetLength(b[1..])
    else
      var v := Get(6, b[1..]);
      if v.Err? then Err else Ok(v.v + 1, v.rest)
  }

  function GetNsNumber(b: Bits): (r: Read<nat>)
    ensures r.Ok? ==> |r.rest| <= |b|
  {
    if b == [] then Err
    else if !b[0] then Get(6, b[1..])
    else
      var len := GetLength(b[1..]);
      if len.Err? || len.v == 0 then Err else GetOctetsOnto(0, len.v, TOP_OCTET_INT, len.rest)
  }

  // ---- INTEGER ----

  // `outside` tells that the extension bit was read as 1.
  function GetInt(c: Bounds, b: Bits): (r: Read<int>)
    ensures r.Ok? ==> |r.rest| <= |b|
  {
    var flag := GetFlag(PerEncode.HasIntFlag(c), b);
    if flag.Err? then Err else GetIntBody(c, flag.v, flag.rest)
  }

  // The int64 handler.
  function GetIntBody(c: Bounds, outside: bool, b: Bits): (r: Read<int>)
    ensures r.Ok? ==> |r.rest| <= |b|
  {
    if c.Unbounded? || outside then GetUnconstrained(b)
    else
      var off := if c.Semi? then GetSemi(b) else Get(c.bits, b);
      if off.Err? || (c.Semi? && off.v > WrapU(I64_MAX - c.lo)) then Err else Ok(WrapS(c.lo + off.v), off.rest)
  }

  function GetUInt(c: Bounds, b: Bits): (r: Read<int>)
    ensures r.Ok? ==> |r.rest| <= |b|
  {
    var flag := GetFlag(PerEncode.HasIntFlag(c), b);
    if flag.Err? then Err else GetUIntBody(c, flag.v, flag.rest)
  }

  // The uint64 handler.
  function GetUIntBody(c: Bounds, outside: bool, b: Bits): (r: Read<int>)
    ensures r.Ok? ==> |r.rest| <= |b|
  {
    if c.Unbounded? || outside then
      var r := GetUnconstrained(b);
      if r.Err? then Err else Ok(WrapU(r.v), r.rest)
    else
      var off := if c.Semi? then GetSemi(b) else Get(c.bits, b);
      if off.Err? || (c.Semi? && off.v > WrapU(U64 - 1 - c.lo)) then Err else Ok(WrapU(c.lo + off.v), off.rest)
  }

  function GetEnum(e: EnumSpec, b: Bits): (r: Read<int>)
    ensures r.Ok? ==> |r.rest| <= |b|
    ensures r.Ok? ==> r.v in e.entries
  {
    var flag := GetFlag(e.extensible, b);
    if flag.Err? then Err
    else
      var pos := GetEnumPosition(e, flag.v, flag.rest);
      if pos.Err? then Err else Ok(e.entries[pos.v], pos.rest)
  }

  // Where the source looks up addition `k` of a table whose first `base`
  // entries are the root: the sum is an `int`.
  function AdditionIndex(base: nat, k: nat): (i: int)
    ensures i < INT_LIMIT
  {
    WrapInt(base + k)
  }

  // The position in the table; additions follow the root.  An overflowing
  // index passes the guard of the source, which then reads in front of its
  // table; the model has no value for that and gives Err.
  function GetEnumPosition(e: EnumSpec, isAddition: bool, b: Bits): (r: Read<nat>)
    ensures r.Ok? ==> |r.rest| <= |b| && r.v < |e.entries|
  {
    var n := if isAddition then GetNsNumber(b) else Get(PerEncode.RangeBits(e.RootCount()), b);
    if n.Err? || (!isAddition && n.v >= e.RootCount()) then Err
    else
      var i := if isAddition then AdditionIndex(e.RootCount(), n.v) else n.v;
      if i >= |e.entries| || i < 0 then Err else Ok(i, n.rest)
  }

  // ---- characters ----

  function NumericChar(n: nat): (c: Byte)
  {
    if n == 0 then 32 else if n <= 10 then 47 + n else 63
  }

  function GetWide(width: nat, b: Bits): (r: Read<seq<Byte>>)
    ensures r.Ok? ==> |r.rest| <= |b|
    decreases width
  {
    if width == 0 then Ok([], b)
    else
      Pow2Of8();
      var first := Get(8, b);
      if first.Err? then Err
      else
        var rest := GetWide(width - 1, first.rest);
        if rest.Err? then Err else Ok([first.v] + rest.v, rest.rest)
  }

  function GetChar(code: CharCode, b: Bits): (r: Read<seq<Byte>>)
    ensures r.Ok? ==> |r.rest| <= |b|
  {
    match code
    case Indexed(alphabet, _, bits, width) =>
      var idx := Get(bits, b);
      if idx.Err? || idx.v >= |alphabet| || width == 0 then Err
      else Ok(seq(width - 1, _ => 0) + [alphabet[idx.v]], idx.rest)
    case Wide(width) => GetWide(width, b)
    case Numeric =>
      var idx := Get(4, b);
      if idx.Err? then Err else Ok([NumericChar(idx.v)], idx.rest)
    case Narrow(bits) =>
      var c := Get(bits, b);
      if c.Err? then Err else Ok([c.v % 256], c.rest)
  }

  // ---- octets of an open type ----

  // The decoder's copy of an open type's contents, fragment by fragment.
  function GetOctets(b: Bits): (r: Read<Bits>)
    ensures r.Ok? ==> |r.rest| < |b|
    decreases |b|
  {
    var first := Get(8, b);
    if first.Err? then Err
    else if first.v >= 0xC0 then
      var k := first.v - 0xC0;
      if k < 1 || k > 4 then Err
      else
        var block := GetBits(8 * k * FRAGMENT, first.rest);
        if block.Err? then Err
        else
          var more := GetOctets(block.rest);
          if more.Err? then Err else Ok(block.v + more.v, more.rest)
    else
      var len := GetLength(b);
      if len.Err? then Err else GetBits(8 * len.v, len.rest)
  }

  // ---- the decoder ----

  function Dec(S: Schema, t: nat, d: nat, b: Bits): (r: Read<Value>)
    ensures r.Ok? ==> |r.rest| <= |b|
    decreases d, 1, 1
  {
    if t < |S| then DecAs(S, S[t], d, b) else Err
  }

  // The handler of one descriptor.
  function DecAs(S: Schema, ty: Ty, d: nat, b: Bits): (r: Read<Value>)
    ensures r.Ok? ==> |r.rest| <= |b|
    decreases d, 1, 0
  {
    match ty
    case Boolean => if b == [] then Err else Ok(BoolV(b[0]), b[1..])
    case Null => Ok(NullV, b)
    case Int(c) =>
      var r := GetInt(c, b);
      if r.Err? then Err else Ok(IntV(r.v), r.rest)
    case UInt(c) =>
      var r := GetUInt(c, b);
      if r.Err? then Err else Ok(IntV(r.v), r.rest)
    case Enum(e) =>
      var r := GetEnum(e, b);
      if r.Err? then Err else Ok(IntV(r.v), r.rest)
    case List(item, size, ext, _) =>
      if item.Element? && d == 0 then Err
      else
        var r := GetExtSized(S, item, size, ext, if item.Element? then d - 1 else d, b);
        if r.Err? then Err else Ok(ListV(r.v), r.rest)
    case Str(kind, from, size, ext) =>
      var flag := GetFlag(ext, b);
      if flag.Err? then Err
      else
        var r := if flag.v then GetItems(S, CharItem(NaturalCode(kind)), d, flag.rest)
                 else GetSized(S, CharItem(CodeOf(kind, from)), size, d, flag.rest);
        if r.Err? then Err else Ok(ListV(r.v), r.rest)
    case Sequence(root, additions) =>
      if d == 0 then Err else DecSequence(S, root, additions, d - 1, b)
    case Choice(alts, bits, more) =>
      if d == 0 then Err else DecChoice(S, alts, bits, more, d - 1, b)
  }

  function DecOpen(S: Schema, t: nat, d: nat, b: Bits): (r: Read<Value>)
    ensures r.Ok? ==> |r.rest| < |b|
    decreases d, 2, 2
  {
    var octets := GetOctets(b);
    if octets.Err? then Err
    else
      var r := Dec(S, t, d, octets.v);
      if r.Err? then Err else Ok(r.v, octets.rest)
  }

  function DecItem(S: Schema, item: Item, d: nat, b: Bits): (r: Read<Value>)
    ensures r.Ok? ==> |r.rest| <= |b|
    decreases d, if item.Element? then 2 else 0, 2
  {
    match item
    case BitItem => if b == [] then Err else Ok(BoolV(b[0]), b[1..])
    case OctetItem =>
      var r := Get(8, b);
      if r.Err? then Err else Ok(IntV(r.v), r.rest)
    case CharItem(code) =>
      var r := GetChar(code, b);
      if r.Err? then Err else Ok(CharV(r.v), r.rest)
    case Element(t) => Dec(S, t, d, b)
  }

  function GetN(S: Schema, item: Item, n: nat, d: nat, b: Bits): (r: Read<seq<Value>>)
    ensures r.Ok? ==> |r.rest| <= |b| && |r.v| == n
    decreases d, if item.Element? then 2 else 0, 3, n
  {
    if n == 0 then Ok([], b)
    else
      var first := DecItem(S, item, d, b);
      if first.Err? then Err
      else
        var rest := GetN(S, item, n - 1, d, first.rest);
        if rest.Err? then Err else Ok([first.v] + rest.v, rest.rest)
  }

  // One run of `n` items: refused when its first element took no bits and
  // there are too many of them.
  function GetRun(S: Schema, item: Item, n: nat, d: nat, b: Bits): (r: Read<seq<Value>>)
    ensures r.Ok? ==> |r.rest| <= |b| && |r.v| == n
    decreases d, if item.Element? then 2 else 0, 4
  {
    if item.Element? && n > MAX_ZERO_WIDTH_ITEMS then
      var first := DecItem(S, item, d, b);
      if first.Err? || |first.rest| == |b| then Err else GetN(S, item, n, d, b)
    else GetN(S, item, n, d, b)
  }

  function GetItems(S: Schema, item: Item, d: nat, b: Bits): (r: Read<seq<Value>>)
    ensures r.Ok? ==> |r.rest| <= |b|
    decreases d, if item.Element? then 2 else 0, 5, |b|
  {
    var first := Get(8, b);
    if first.Err? then Err
    else if first.v >= 0xC0 then
      var k := first.v - 0xC0;
      if k < 1 || k > 4 then Err
      else
        var block := GetRun(S, item, k * FRAGMENT, d, first.rest);
        if block.Err? then Err
        else
          var more := GetItems(S, item, d, block.rest);
          if more.Err? then Err else Ok(block.v + more.v, more.rest)
    else
      var len := GetLength(b);
      if len.Err? then Err else GetRun(S, item, len.v, d, len.rest)
  }

  function GetSized(S: Schema, item: Item, size: SizeC, d: nat, b: Bits): (r: Read<seq<Value>>)
    ensures r.Ok? ==> |r.rest| <= |b|
    decreases d, if item.Element? then 2 else 0, 6
  {
    if !CountIsConstrained(size) then GetItems(S, item, d, b)
    else
      var off := Get(size.bits, b);
      if off.Err? then Err else GetRun(S, item, size.lo + off.v, d, off.rest)
  }

  function GetExtSized(S: Schema, item: Item, size: SizeC, ext: bool, d: nat, b: Bits): (r: Read<seq<Value>>)
    ensures r.Ok? ==> |r.rest| <= |b|
    decreases d, if item.Element? then 2 else 0, 7
  {
    var flag := GetFlag(ext && size.Size?, b);
    if flag.Err? then Err
    else if flag.v then GetItems(S, item, d, flag.rest)
    else GetSized(S, item, size, d, flag.rest)
  }

  // ---- SEQUENCE ----

  function OptionalCount(ms: seq<Member>): (n: nat)
  {
    if ms == [] then 0 else (if ms[0].optional then 1 else 0) + OptionalCount(ms[1..])
  }

  // The members in order; `present` holds the flags of the optional ones.
  function DecMembers(S: Schema, ms: seq<Member>, present: Bits, d: nat, b: Bits): (r: Read<seq<Field>>)
    requires |present| == OptionalCount(ms)
    ensures r.Ok? ==> |r.rest| <= |b|
    decreases d, 2, 3, |ms|
  {
    if ms == [] then Ok([], b)
    else if ms[0].optional && !present[0] then
      var rest := DecMembers(S, ms[1..], present[1..], d, b);
      if rest.Err? then Err else Ok([ms[0].dflt] + rest.v, rest.rest)
    else
      var first := Dec(S, ms[0].t, d, b);
      if first.Err? then Err
      else
        var rest := DecMembers(S, ms[1..], if ms[0].optional then present[1..] else present, d, first.rest);
        if rest.Err? then Err else Ok([Has(first.v)] + rest.v, rest.rest)
  }

  // An absent addition: DEFAULT values are filled in only when the sender's
  // bitmap mentions the unit.
  function AbsentUnit(u: Unit, listed: bool): UnitV {
    match u
    case Single(m) => UnitV([if listed then m.dflt else Absent])
    case Group(ms) => UnitV(AbsentMembers(ms, listed))
  }

  function AbsentMembers(ms: seq<Member>, listed: bool): (fs: seq<Field>)
    ensures |fs| == |ms|
  {
    if ms == [] then [] else [if listed then ms[0].dflt else Absent] + AbsentMembers(ms[1..], listed)
  }

  function AbsentUnits(us: seq<Unit>): (uvs: seq<UnitV>)
    ensures |uvs| == |us|
  {
    if us == [] then [] else [AbsentUnit(us[0], false)] + AbsentUnits(us[1..])
  }

  function DecUnit(S: Schema, u: Unit, d: nat, b: Bits): (r: Read<UnitV>)
    ensures r.Ok? ==> |r.rest| < |b|
    decreases d, 2, 4
  {
    match u
    case Single(m) =>
      var r := DecOpen(S, m.t, d, b);
      if r.Err? then Err else Ok(UnitV([Has(r.v)]), r.rest)
    case Group(ms) =>
      var octets := GetOctets(b);
      if octets.Err? then Err
      else
        var present := GetBits(OptionalCount(ms), octets.v);
        if present.Err? then Err
        else
          var r := DecMembers(S, ms, present.v, d, present.rest);
          if r.Err? then Err else Ok(UnitV(r.v), octets.rest)
  }

  // Walks the sender's bitmap beside the receiver's units.
  function DecUnits(S: Schema, us: seq<Unit>, bitmap: Bits, d: nat, b: Bits): (r: Read<seq<UnitV>>)
    ensures r.Ok? ==> |r.rest| <= |b|
    decreases d, 2, 5, |bitmap|
  {
    if bitmap == [] then Ok(AbsentUnits(us), b)
    else if us == [] then
      if !bitmap[0] then DecUnits(S, [], bitmap[1..], d, b)
      else
        var skipped := GetOctets(b);
        if skipped.Err? then Err else DecUnits(S, [], bitmap[1..], d, skipped.rest)
    else if !bitmap[0] then
      var rest := DecUnits(S, us[1..], bitmap[1..], d, b);
      if rest.Err? then Err else Ok([AbsentUnit(us[0], true)] + rest.v, rest.rest)
    else
      var first := DecUnit(S, us[0], d, b);
      if first.Err? then Err
      else
        var rest := DecUnits(S, us[1..], bitmap[1..], d, first.rest);
        if rest.Err? then Err else Ok([first.v] + rest.v, rest.rest)
  }

  function DecSequence(S: Schema, root: seq<Member>, additions: Option<seq<Unit>>, d: nat, b: Bits): (r: Read<Value>)
    ensures r.Ok? ==> |r.rest| <= |b|
    decreases d, 2, 7
  {
    var flag := GetFlag(additions.Some?, b);
    if flag.Err? then Err else
    var present := GetBits(OptionalCount(root), flag.rest);
    if present.Err? then Err else
    var fs := DecMembers(S, root, present.v, d, present.rest);
    if fs.Err? then Err
    else if flag.v then DecAdditions(S, fs.v, additions, d, fs.rest)
    else Ok(RecordV(fs.v, if additions.Some? then AbsentUnits(additions.value) else []), fs.rest)
  }

  // The count of the sender's additions, their bitmap, and the units.
  function DecAdditions(S: Schema, fs: seq<Field>, additions: Option<seq<Unit>>, d: nat, b: Bits): (r: Read<Value>)
    ensures r.Ok? ==> |r.rest| <= |b|
    decreases d, 2, 6
  {
    var n := GetNsLength(b);
    if n.Err? then Err else
    var bitmap := GetBits(n.v, n.rest);
    if bitmap.Err? then Err else
    var uvs := DecUnits(S, if additions.Some? then additions.value else [], bitmap.v, d, bitmap.rest);
    if uvs.Err? then Err else Ok(RecordV(fs, uvs.v), uvs.rest)
  }

  // ---- CHOICE ----

  function DecChoice(S: Schema, alts: seq<nat>, bits: nat, more: Option<seq<nat>>, d: nat, b: Bits): (r: Read<Value>)
    ensures r.Ok? ==> |r.rest| <= |b|
    decreases d, 2, 6
  {
    var flag := GetFlag(more.Some?, b);
    if flag.Err? then Err
    else if !flag.v then
      var idx := Get(bits, flag.rest);
      if idx.Err? || idx.v >= |alts| then Err
      else
        var r := Dec(S, alts[idx.v], d, idx.rest);
        if r.Err? then Err else Ok(ChoiceV(idx.v, r.v), r.rest)
    else
      var idx := GetNsNumber(flag.rest);
      if idx.Err? then Err else DecAddition(S, |alts|, if more.Some? then more.value else [], d, idx.v, idx.rest)
  }

  // Addition `k`, or a skipped open type when the receiver does not know it.
  // An overflowing index is looked up in front of the table, as above.
  function DecAddition(S: Schema, base: nat, more: seq<nat>, d: nat, k: nat, b: Bits): (r: Read<Value>)
    ensures r.Ok? ==> |r.rest| <= |b|
    decreases d, 2, 5
  {
    var i := AdditionIndex(base, k);
    if i >= base + |more| then
      var skipped := GetOctets(b);
      if skipped.Err? then Err else Ok(NoChoice, skipped.rest)
    else if i < base then Err
    else
      var r := DecOpen(S, more[i - base], d, b);
      if r.Err? then Err else Ok(ChoiceV(i, r.v), r.rest)
  }
}
