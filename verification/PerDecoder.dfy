/** The handlers of the unaligned PER decoder, proved to read what PerDecode says. */
module PerDecoder {
  import opened Bits
  import opened Options
  import opened Integers
  import opened PerTypes
  import PerEncode
  import opened PerDecode
  import opened PerReader

  // ---- reading in steps ----

  // `acc` is read and `r` is what reading the others gives.
  function Prepend<T>(acc: seq<T>, r: Read<seq<T>>): Read<seq<T>> {
    if r.Err? then Err else Ok(acc + r.v, r.rest)
  }

  lemma PrependMore<T>(acc: seq<T>, more: seq<T>, r: Read<seq<T>>)
    ensures Prepend(acc, Prepend(more, r)) == Prepend(acc + more, r)
  {
    if r.Ok? { assert acc + (more + r.v) == (acc + more) + r.v; }
  }

  lemma PrependLast<T>(acc: seq<T>, b: Bits)
    ensures Prepend(acc, Ok([], b)) == Ok(acc, b)
  {
    assert acc + [] == acc;
  }

  lemma PrependNothing<T>(r: Read<seq<T>>)
    ensures Prepend([], r) == r
  {
    if r.Ok? { assert [] + r.v == r.v; }
  }

  // ---- fragments ----

  // The count in the next length octets, and whether it heads a 16K fragment.
  datatype Head = Head(count: nat, fragment: bool)

  ghost function FragmentHead(b: Bits): (r: Read<Head>)
    ensures r.Ok? ==> |r.rest| < |b|
  {
    var first := Get(8, b);
    if first.Err? then Err
    else if first.v >= 0xC0 then
      if 1 <= first.v - 0xC0 <= 4 then Ok(Head((first.v - 0xC0) * FRAGMENT, true), first.rest) else Err
    else
      var len := GetLength(b);
      if len.Err? then Err else Ok(Head(len.v, false), len.rest)
  }

  method ReadHead(s: PerDecodeStream) returns (r: Option<Head>)
    requires s.Valid()
    modifies s
    ensures Reads(s, r, FragmentHead(old(s.Rest())))
  {
    hide BytesBits;
    var first := ReadField(s, 8);
    if first.None? { return None; }
    if first.value >= 0xC0 {
      var k := first.value - 0xC0;
      return if k < 1 || k > 4 then None else Some(Head(k * FRAGMENT, true));
    }
    if first.value < 0x80 { return Some(Head(first.value, false)); }
    var second := ReadField(s, 8);
    if second.None? { return None; }
    r := Some(Head((first.value - 0x80) * 256 + second.value, false));
  }

  // ---- octets of an open type ----

  ghost function OctetsAfter(h: Read<Head>): Read<Bits> {
    if h.Err? then Err
    else
      var block := PerDecode.GetBits(8 * h.v.count, h.rest);
      if block.Err? then Err else if h.v.fragment then Prepend(block.v, GetOctets(block.rest)) else block
  }

  lemma OctetsByHead(b: Bits)
    ensures GetOctets(b) == OctetsAfter(FragmentHead(b))
  {
    hide Get, GetLength, PerDecode.GetBits;
  }

  lemma OneOctet(b: Bits, i: nat, o: Byte)
    requires 8 * i + 8 <= |b| && NatOf(b[8 * i..][..8]) == o
    ensures b[..8 * i + 8] == b[..8 * i] + ByteBits(o)
  {
    BitsOfNatOf(b[8 * i..][..8]);
    assert b[..8 * i + 8] == b[..8 * i] + b[8 * i..][..8];
  }

  lemma ByteOf(o: nat)
    requires o < Pow2(8)
    ensures o < 256
  {
    Pow2Of8();
  }

  method ReadBlock(s: PerDecodeStream, m: nat) returns (r: Option<seq<Byte>>)
    requires s.Valid()
    modifies s
    ensures s.Valid() && s.levels == old(s.levels)
    ensures r.None? <==> |old(s.Rest())| < 8 * m
    ensures r.Some? ==> BytesBits(r.value) == old(s.Rest())[..8 * m] && s.Rest() == old(s.Rest())[8 * m..]
  {
    hide BytesBits, NatOf, BitsOf;
    ghost var b := s.Rest();
    var out: seq<Byte> := [];
    NoOctets();
    var i := 0;
    while i < m
      invariant s.Valid() && s.levels == old(s.levels) && i <= m && 8 * i <= |b|
      invariant s.Rest() == b[8 * i..] && BytesBits(out) == b[..8 * i]
    {
      var o := ReadField(s, 8);
      if o.None? { return None; }
      ByteOf(o.value);
      OneOctet(b, i, o.value);
      Snoc(out, o.value);
      out := out + [o.value];
      i := i + 1;
    }
    r := Some(out);
  }

  lemma NoOctets()
    ensures BytesBits([]) == []
  {
  }

  lemma Snoc(out: seq<Byte>, o: Byte)
    ensures BytesBits(out + [o]) == BytesBits(out) + ByteBits(o)
  {
    BytesBitsConcat(out, [o]);
    assert BytesBits([o]) == ByteBits(o) + BytesBits([]);
  }

  method ReadOctets(s: PerDecodeStream) returns (r: Option<seq<Byte>>)
    requires s.Valid()
    modifies s
    ensures Reads(s, if r.Some? then Some(BytesBits(r.value)) else None, GetOctets(old(s.Rest())))
  {
    hide BytesBits, GetOctets, PerDecode.GetBits, FragmentHead;
    var out: seq<Byte> := [];
    ghost var total := GetOctets(s.Rest());
    NoOctets();
    PrependNothing(total);
    while true
      invariant s.Valid() && s.levels == old(s.levels)
      invariant total == Prepend(BytesBits(out), GetOctets(s.Rest()))
      decreases |s.Rest()|
    {
      ghost var b := s.Rest();
      OctetsByHead(b);
      var head := ReadHead(s);
      if head.None? { return None; }
      TakesBits(8 * head.value.count, s.Rest());
      var block := ReadBlock(s, head.value.count);
      if block.None? { return None; }
      BytesBitsConcat(out, block.value);
      PrependMore(BytesBits(out), BytesBits(block.value), GetOctets(s.Rest()));
      out := out + block.value;
      if !head.value.fragment { return Some(out); }
    }
  }

  lemma TakesBits(n: nat, b: Bits)
    ensures PerDecode.GetBits(n, b) == if n <= |b| then Ok(b[..n], b[n..]) else Err
  {
  }

  // ---- characters ----

  lemma OctetOk(b: Bits)
    ensures Get(8, b).Ok? ==> Get(8, b).v < 256
  {
    Pow2Of8();
  }

  method ReadWide(s: PerDecodeStream, width: nat) returns (r: Option<seq<Byte>>)
    requires s.Valid()
    modifies s
    ensures Reads(s, r, GetWide(width, old(s.Rest())))
  {
    hide BytesBits;
    var out: seq<Byte> := [];
    ghost var total := GetWide(width, s.Rest());
    PrependNothing(total);
    var i := 0;
    while i < width
      invariant s.Valid() && s.levels == old(s.levels) && i <= width
      invariant total == Prepend(out, GetWide(width - i, s.Rest()))
    {
      OctetOk(s.Rest());
      var o := ReadField(s, 8);
      if o.None? { return None; }
      PrependMore(out, [o.value], GetWide(width - i - 1, s.Rest()));
      out := out + [o.value];
      i := i + 1;
    }
    PrependLast(out, s.Rest());
    r := Some(out);
  }

  method ReadChar(s: PerDecodeStream, code: CharCode) returns (r: Option<seq<Byte>>)
    requires s.Valid()
    modifies s
    ensures Reads(s, r, GetChar(code, old(s.Rest())))
  {
    hide BytesBits, GetWide, NatOf;
    match code
    case Indexed(alphabet, _, bits, width) =>
      var idx := ReadField(s, bits);
      if idx.None? || idx.value >= |alphabet| || width == 0 { return None; }
      r := Some(seq(width - 1, _ => 0) + [alphabet[idx.value]]);
    case Wide(width) => r := ReadWide(s, width);
    case Numeric =>
      var idx := ReadField(s, 4);
      if idx.None? { return None; }
      r := Some([NumericChar(idx.value)]);
    case Narrow(bits) =>
      var c := ReadField(s, bits);
      if c.None? { return None; }
      r := Some([c.value % 256]);
  }

  // ---- ENUMERATED ----

  method ReadEnum(s: PerDecodeStream, e: EnumSpec) returns (r: Option<int>)
    requires s.Valid()
    modifies s
    ensures Reads(s, r, GetEnum(e, old(s.Rest())))
  {
    hide BytesBits, NatOf, GetNsNumber, Pow2, BitsOf;
    var root := if e.rootCount > 0 then e.rootCount else |e.entries|;
    var isAddition := ReadFlag(s, e.extensible);
    if isAddition.None? { return None; }
    if !isAddition.value {
      var idx := ReadField(s, PerEncode.RangeBits(root));
      if idx.None? || idx.value >= root || idx.value >= |e.entries| { return None; }
      r := Some(e.entries[idx.value]);
    } else {
      var n := ReadNsNumber(s);
      if n.None? { return None; }
      var i := WrapInt(root + n.value);
      if i >= |e.entries| || i < 0 { return None; }
      r := Some(e.entries[i]);
    }
  }

  // ---- lists ----

  method ReadItem(s: PerDecodeStream, S: Schema, item: Item, ghost d: nat) returns (r: Option<Value>)
    requires s.At(d) && SchemaWf(S)
    modifies s
    ensures Reads(s, r, DecItem(S, item, d, old(s.Rest())))
    decreases d, if item.Element? then 2 else 0, 2
  {
    hide BytesBits, NatOf, GetChar, Dec;
    match item
    case BitItem =>
      var bit := s.GetBit();
      if bit.None? { return None; }
      r := Some(BoolV(bit.value));
    case OctetItem =>
      var o := ReadField(s, 8);
      if o.None? { return None; }
      r := Some(IntV(o.value));
    case CharItem(code) =>
      var c := ReadChar(s, code);
      if c.None? { return None; }
      r := Some(CharV(c.value));
    case Element(t) => r := Decode(s, S, t, d);
  }

  method ReadN(s: PerDecodeStream, S: Schema, item: Item, n: nat, ghost d: nat) returns (r: Option<seq<Value>>)
    requires s.At(d) && SchemaWf(S)
    modifies s
    ensures Reads(s, r, GetN(S, item, n, d, old(s.Rest())))
    decreases d, if item.Element? then 2 else 0, 3, 0
  {
    hide BytesBits, DecItem;
    var vs: seq<Value> := [];
    ghost var total := GetN(S, item, n, d, s.Rest());
    PrependNothing(total);
    var i := 0;
    while i < n
      invariant s.At(d) && i <= n
      invariant total == Prepend(vs, GetN(S, item, n - i, d, s.Rest()))
    {
      var v := ReadItem(s, S, item, d);
      if v.None? { return None; }
      PrependMore(vs, [v.value], GetN(S, item, n - i - 1, d, s.Rest()));
      vs := vs + [v.value];
      i := i + 1;
    }
    PrependLast(vs, s.Rest());
    r := Some(vs);
  }

  // A run of more than MAX_ZERO_WIDTH_ITEMS elements fails when its first one
  // took no bits.
  method ReadRun(s: PerDecodeStream, S: Schema, item: Item, n: nat, ghost d: nat) returns (r: Option<seq<Value>>)
    requires s.At(d) && SchemaWf(S)
    modifies s
    ensures Reads(s, r, GetRun(S, item, n, d, old(s.Rest())))
    decreases d, if item.Element? then 2 else 0, 4
  {
    hide BytesBits, DecItem;
    if n == 0 || !item.Element? {
      r := ReadN(s, S, item, n, d);
      return;
    }
    var before := s.Position();
    s.PositionOfRest();
    var first := ReadItem(s, S, item, d);
    if first.None? { return None; }
    s.PositionOfRest();
    if n > MAX_ZERO_WIDTH_ITEMS && s.Position() == before { return None; }
    var others := ReadN(s, S, item, n - 1, d);
    if others.None? { return None; }
    r := Some([first.value] + others.value);
  }

  ghost function ItemsAfter(S: Schema, item: Item, d: nat, h: Read<Head>): Read<seq<Value>> {
    if h.Err? then Err
    else
      var run := GetRun(S, item, h.v.count, d, h.rest);
      if run.Err? then Err else if h.v.fragment then Prepend(run.v, GetItems(S, item, d, run.rest)) else run
  }

  lemma ItemsByHead(S: Schema, item: Item, d: nat, b: Bits)
    ensures GetItems(S, item, d, b) == ItemsAfter(S, item, d, FragmentHead(b))
  {
  }

  method ReadItems(s: PerDecodeStream, S: Schema, item: Item, ghost d: nat) returns (r: Option<seq<Value>>)
    requires s.At(d) && SchemaWf(S)
    modifies s
    ensures Reads(s, r, GetItems(S, item, d, old(s.Rest())))
    decreases d, if item.Element? then 2 else 0, 5, 0
  {
    hide BytesBits, GetItems, GetRun, FragmentHead;
    var vs: seq<Value> := [];
    ghost var total := GetItems(S, item, d, s.Rest());
    PrependNothing(total);
    while true
      invariant s.At(d)
      invariant total == Prepend(vs, GetItems(S, item, d, s.Rest()))
      decreases |s.Rest()|
    {
      ItemsByHead(S, item, d, s.Rest());
      var head := ReadHead(s);
      if head.None? { return None; }
      var run := ReadRun(s, S, item, head.value.count, d);
      if run.None? { return None; }
      PrependMore(vs, run.value, GetItems(S, item, d, s.Rest()));
      vs := vs + run.value;
      if !head.value.fragment { return Some(vs); }
    }
  }

  method ReadSized(s: PerDecodeStream, S: Schema, item: Item, size: SizeC, ghost d: nat) returns (r: Option<seq<Value>>)
    requires s.At(d) && SchemaWf(S)
    modifies s
    ensures Reads(s, r, GetSized(S, item, size, d, old(s.Rest())))
    decreases d, if item.Element? then 2 else 0, 6
  {
    hide BytesBits, GetItems, GetRun;
    if !(size.Size? && size.hi < 65536) {
      r := ReadItems(s, S, item, d);
    } else {
      var off := ReadField(s, size.bits);
      if off.None? { return None; }
      r := ReadRun(s, S, item, size.lo + off.value, d);
    }
  }

  method ReadExtSized(s: PerDecodeStream, S: Schema, item: Item, size: SizeC, ext: bool, ghost d: nat) returns (r: Option<seq<Value>>)
    requires s.At(d) && SchemaWf(S)
    modifies s
    ensures Reads(s, r, GetExtSized(S, item, size, ext, d, old(s.Rest())))
    decreases d, if item.Element? then 2 else 0, 7
  {
    hide BytesBits, GetItems, GetSized;
    var outside := ReadFlag(s, ext && size.Size?);
    if outside.None? { return None; }
    if outside.value { r := ReadItems(s, S, item, d); } else { r := ReadSized(s, S, item, size, d); }
  }

  method ReadString(s: PerDecodeStream, S: Schema, kind: StringKind, from: Option<CharCode>, size: SizeC, ext: bool, ghost d: nat)
    returns (r: Option<seq<Value>>)
    requires s.At(d) && SchemaWf(S)
    modifies s
    ensures Reads(s, r, StringSpec(S, kind, from, size, ext, d, old(s.Rest())))
    decreases d, 0, 8
  {
    hide BytesBits, GetItems, GetSized;
    var plain := ReadFlag(s, ext);
    if plain.None? { return None; }
    if plain.value { r := ReadItems(s, S, CharItem(NaturalCode(kind)), d); }
    else { r := ReadSized(s, S, CharItem(CodeOf(kind, from)), size, d); }
  }

  ghost function StringSpec(S: Schema, kind: StringKind, from: Option<CharCode>, size: SizeC, ext: bool, d: nat, b: Bits): Read<seq<Value>> {
    var flag := GetFlag(ext, b);
    if flag.Err? then Err
    else if flag.v then GetItems(S, CharItem(NaturalCode(kind)), d, flag.rest)
    else GetSized(S, CharItem(CodeOf(kind, from)), size, d, flag.rest)
  }

  // ---- SEQUENCE ----

  lemma MembersStep(S: Schema, ms: seq<Member>, present: Bits, d: nat, b: Bits)
    requires ms != [] && |present| == OptionalCount(ms)
    ensures ms[0].optional ==> present != []
    ensures var rest := if ms[0].optional then present[1..] else present;
            if ms[0].optional && !present[0] then
              DecMembers(S, ms, present, d, b) == Prepend([ms[0].dflt], DecMembers(S, ms[1..], rest, d, b))
            else
              var v := Dec(S, ms[0].t, d, b);
              DecMembers(S, ms, present, d, b)
              == if v.Err? then Err else Prepend([Has(v.v)], DecMembers(S, ms[1..], rest, d, v.rest))
  {
  }

  lemma CountsOptional(ms: seq<Member>)
    ensures ms == [] ==> OptionalCount(ms) == 0
    ensures ms != [] ==> OptionalCount(ms) == (if ms[0].optional then 1 else 0) + OptionalCount(ms[1..])
  {
  }

  ghost function RestOfMembers(S: Schema, ms: seq<Member>, i: nat, flags: Bits, k: nat, d: nat, b: Bits): Read<seq<Field>>
    requires i <= |ms| && k <= |flags| && |flags| - k == OptionalCount(ms[i..])
  {
    DecMembers(S, ms[i..], flags[k..], d, b)
  }

  // Root members: the presence bitmap is read in step with the optional ones.
  method ReadMembers(s: PerDecodeStream, S: Schema, ms: seq<Member>, bitmap: PresenceBits, ghost d: nat) returns (r: Option<seq<Field>>)
    requires s.At(d) && SchemaWf(S) && bitmap.Valid() && |bitmap.bits| == OptionalCount(ms)
    modifies s
    ensures Reads(s, r, DecMembers(S, ms, bitmap.bits, d, old(s.Rest())))
    decreases d, 2, 3, 0
  {
    hide BytesBits, DecMembers, Dec, OptionalCount, HoldWords, Shr, NatOf;
    var fs: seq<Field> := [];
    ghost var flags := bitmap.bits;
    ghost var total := DecMembers(S, ms, flags, d, s.Rest());
    PrependNothing(total);
    assert ms[0..] == ms && flags[0..] == flags;
    var i, k := 0, 0;
    while i < |ms|
      invariant s.At(d) && i <= |ms| && bitmap.Valid() && bitmap.bits == flags
      invariant k <= |flags| && |flags| - k == OptionalCount(ms[i..])
      invariant total == Prepend(fs, RestOfMembers(S, ms, i, flags, k, d, s.Rest()))
    {
      MembersStep(S, ms[i..], flags[k..], d, s.Rest());
      CountsOptional(ms[i..]);
      assert ms[i..][1..] == ms[i + 1..];
      var m := ms[i];
      i := i + 1;
      if m.optional {
        assert flags[k..][1..] == flags[k + 1..];
        bitmap.BitIsWireBit(k);
        k := k + 1;
        if !bitmap.Bit(k - 1) {
          PrependMore(fs, [m.dflt], RestOfMembers(S, ms, i, flags, k, d, s.Rest()));
          fs := fs + [m.dflt];
          continue;
        }
      }
      var v := Decode(s, S, m.t, d);
      if v.None? { return None; }
      PrependMore(fs, [Has(v.value)], RestOfMembers(S, ms, i, flags, k, d, s.Rest()));
      fs := fs + [Has(v.value)];
    }
    NoMembers(S, ms, flags, k, d, s.Rest());
    PrependLast(fs, s.Rest());
    r := Some(fs);
  }

  lemma NoMembers(S: Schema, ms: seq<Member>, flags: Bits, k: nat, d: nat, b: Bits)
    requires k <= |flags| && |flags| - k == OptionalCount(ms[|ms|..])
    ensures RestOfMembers(S, ms, |ms|, flags, k, d, b) == Ok([], b)
  {
  }

  // The flags of a group's optional members; a mandatory one is present.
  ghost predicate FlagsFor(ms: seq<Member>, present: seq<bool>, flags: Bits) {
    |present| == |ms| && |flags| == OptionalCount(ms) &&
    forall i :: 0 <= i < |ms| ==>
      |flags| - OptionalCount(ms[i..]) >= 0 &&
      if ms[i].optional then
        |flags| - OptionalCount(ms[i..]) < |flags| && present[i] == flags[|flags| - OptionalCount(ms[i..])]
      else present[i]
  }

  method ReadGroupFlags(s: PerDecodeStream, ms: seq<Member>) returns (r: Option<seq<bool>>, ghost flags: Bits)
    requires s.Valid()
    modifies s
    ensures s.Valid() && s.levels == old(s.levels)
    ensures r.None? <==> |old(s.Rest())| < OptionalCount(ms)
    ensures r.Some? ==> FlagsFor(ms, r.value, flags) && flags == old(s.Rest())[..OptionalCount(ms)]
                        && s.Rest() == old(s.Rest())[OptionalCount(ms)..]
  {
    hide BytesBits, OptionalCount;
    ghost var b, n, k := s.Rest(), OptionalCount(ms), 0;
    flags := if n <= |b| then b[..n] else [];
    var present: seq<bool> := [];
    assert ms[0..] == ms;
    var i := 0;
    while i < |ms|
      invariant s.Valid() && s.levels == old(s.levels) && i <= |ms| && |present| == i
      invariant n == k + OptionalCount(ms[i..]) && k <= |b| && s.Rest() == b[k..]
      invariant n <= |b| ==> forall j :: 0 <= j < i ==>
                  |flags| - OptionalCount(ms[j..]) >= 0 &&
                  if ms[j].optional then |flags| - OptionalCount(ms[j..]) < |flags| && present[j] == flags[|flags| - OptionalCount(ms[j..])]
                  else present[j]
    {
      CountsOptional(ms[i..]);
      assert ms[i..][1..] == ms[i + 1..];
      if ms[i].optional {
        var bit := s.GetBit();
        if bit.None? { r := None; return; }
        present := present + [bit.value];
        k := k + 1;
      } else {
        present := present + [true];
      }
      i := i + 1;
    }
    CountsOptional(ms[|ms|..]);
    r := Some(present);
  }

  method ReadGroupMembers(s: PerDecodeStream, S: Schema, ms: seq<Member>, present: seq<bool>, ghost flags: Bits, ghost d: nat)
    returns (r: Option<seq<Field>>)
    requires s.At(d) && SchemaWf(S) && FlagsFor(ms, present, flags)
    modifies s
    ensures Reads(s, r, DecMembers(S, ms, flags, d, old(s.Rest())))
    decreases d, 2, 3, 0
  {
    hide BytesBits, DecMembers, Dec, OptionalCount;
    var fs: seq<Field> := [];
    ghost var k := 0;
    ghost var total := DecMembers(S, ms, flags, d, s.Rest());
    PrependNothing(total);
    assert ms[0..] == ms && flags[0..] == flags;
    var i := 0;
    while i < |ms|
      invariant s.At(d) && i <= |ms|
      invariant k <= |flags| && |flags| - k == OptionalCount(ms[i..])
      invariant total == Prepend(fs, RestOfMembers(S, ms, i, flags, k, d, s.Rest()))
    {
      MembersStep(S, ms[i..], flags[k..], d, s.Rest());
      CountsOptional(ms[i..]);
      assert ms[i..][1..] == ms[i + 1..];
      var m := ms[i];
      if m.optional {
        assert flags[k..][1..] == flags[k + 1..];
        k := k + 1;
      }
      i := i + 1;
      var f: Field;
      if !present[i - 1] {
        f := m.dflt;
      } else {
        var v := Decode(s, S, m.t, d);
        if v.None? { return None; }
        f := Has(v.value);
      }
      PrependMore(fs, [f], RestOfMembers(S, ms, i, flags, k, d, s.Rest()));
      fs := fs + [f];
    }
    NoMembers(S, ms, flags, k, d, s.Rest());
    PrependLast(fs, s.Rest());
    r := Some(fs);
  }

  // A value in its own stream over an open type's octets.
  method ReadOpenType(s: PerDecodeStream, S: Schema, t: nat, ghost d: nat) returns (r: Option<Value>)
    requires s.At(d) && SchemaWf(S)
    modifies s
    ensures Reads(s, r, DecOpen(S, t, d, old(s.Rest())))
    decreases d, 2, 2
  {
    hide BytesBits, GetOctets, Dec;
    var octets := ReadOctets(s);
    if octets.None? { return None; }
    var sub := new PerDecodeStream(octets.value, s.levels);
    r := Decode(sub, S, t, d);
  }

  method ReadUnit(s: PerDecodeStream, S: Schema, u: Unit, ghost d: nat) returns (r: Option<UnitV>)
    requires s.At(d) && SchemaWf(S)
    modifies s
    ensures Reads(s, r, DecUnit(S, u, d, old(s.Rest())))
    decreases d, 2, 4
  {
    hide BytesBits, GetOctets, Dec, DecMembers, OptionalCount, FlagsFor;
    match u
    case Single(m) =>
      var v := ReadOpenType(s, S, m.t, d);
      if v.None? { return None; }
      r := Some(UnitV([Has(v.value)]));
    case Group(ms) =>
      var octets := ReadOctets(s);
      if octets.None? { return None; }
      var gs := new PerDecodeStream(octets.value, s.levels);
      var present, flags := ReadGroupFlags(gs, ms);
      if present.None? { return None; }
      var fs := ReadGroupMembers(gs, S, ms, present.value, flags, d);
      if fs.None? { return None; }
      r := Some(UnitV(fs.value));
  }

  ghost function FromUnit(us: seq<Unit>, i: nat): seq<Unit> {
    if i <= |us| then us[i..] else []
  }

  ghost function RestOfUnits(S: Schema, us: seq<Unit>, bitmap: Bits, i: nat, d: nat, b: Bits): Read<seq<UnitV>>
    requires i <= |bitmap|
  {
    DecUnits(S, FromUnit(us, i), bitmap[i..], d, b)
  }

  // One bit of the sender's bitmap.
  lemma UnitsStep(S: Schema, us: seq<Unit>, bitmap: Bits, i: nat, d: nat, b: Bits)
    requires i < |bitmap|
    ensures var all := RestOfUnits(S, us, bitmap, i, d, b);
            if i >= |us| then
              if !bitmap[i] then all == RestOfUnits(S, us, bitmap, i + 1, d, b)
              else all == if GetOctets(b).Err? then Err else RestOfUnits(S, us, bitmap, i + 1, d, GetOctets(b).rest)
            else if !bitmap[i] then all == Prepend([AbsentUnit(us[i], true)], RestOfUnits(S, us, bitmap, i + 1, d, b))
            else all == if DecUnit(S, us[i], d, b).Err? then Err
                        else Prepend([DecUnit(S, us[i], d, b).v], RestOfUnits(S, us, bitmap, i + 1, d, DecUnit(S, us[i], d, b).rest))
  {
    assert bitmap[i..][1..] == bitmap[i + 1..];
    if i < |us| { assert us[i..][1..] == us[i + 1..]; }
  }

  method AbsentRest(us: seq<Unit>, from: nat) returns (uvs: seq<UnitV>)
    ensures uvs == AbsentUnits(FromUnit(us, from))
  {
    uvs := [];
    if from >= |us| { return; }
    PrependAbsent([], us, from);
    var i := from;
    while i < |us|
      invariant from <= i <= |us|
      invariant AbsentUnits(us[from..]) == uvs + AbsentUnits(us[i..])
    {
      assert us[i..][1..] == us[i + 1..];
      PrependAbsent(uvs, us, i);
      uvs := uvs + [AbsentUnit(us[i], false)];
      i := i + 1;
    }
  }

  lemma PrependAbsent(uvs: seq<UnitV>, us: seq<Unit>, i: nat)
    requires i < |us|
    ensures uvs + AbsentUnits(us[i..]) == (uvs + [AbsentUnit(us[i], false)]) + AbsentUnits(us[i + 1..])
    ensures uvs == [] ==> uvs + AbsentUnits(us[i..]) == AbsentUnits(us[i..])
  {
    assert us[i..][1..] == us[i + 1..];
  }

  lemma NoUnits(S: Schema, us: seq<Unit>, bitmap: Bits, d: nat, b: Bits)
    ensures RestOfUnits(S, us, bitmap, |bitmap|, d, b) == Ok(AbsentUnits(FromUnit(us, |bitmap|)), b)
  {
  }

  lemma AllUnits(S: Schema, us: seq<Unit>, bitmap: Bits, d: nat, b: Bits)
    ensures RestOfUnits(S, us, bitmap, 0, d, b) == DecUnits(S, us, bitmap, d, b)
  {
    assert us[0..] == us && bitmap[0..] == bitmap;
  }

  // The units known here, then open types of units only the sender knows.
  method ReadUnits(s: PerDecodeStream, S: Schema, us: seq<Unit>, bitmap: PresenceBits, ghost d: nat) returns (r: Option<seq<UnitV>>)
    requires s.At(d) && SchemaWf(S) && bitmap.Valid()
    modifies s
    ensures Reads(s, r, DecUnits(S, us, bitmap.bits, d, old(s.Rest())))
    decreases d, 2, 5, 0
  {
    hide BytesBits, DecUnits, DecUnit, GetOctets, RestOfUnits, AbsentUnits, FromUnit;
    var uvs: seq<UnitV> := [];
    ghost var flags := bitmap.bits;
    ghost var total := DecUnits(S, us, flags, d, s.Rest());
    PrependNothing(total);
    AllUnits(S, us, flags, d, s.Rest());
    var i := 0;
    while i < bitmap.n
      invariant s.At(d) && bitmap.Valid() && bitmap.bits == flags && i <= |flags| == bitmap.n
      invariant total == Prepend(uvs, RestOfUnits(S, us, flags, i, d, s.Rest()))
    {
      UnitsStep(S, us, flags, i, d, s.Rest());
      bitmap.BitIsWireBit(i);
      if i >= |us| {
        if bitmap.Bit(i) {
          var skipped := ReadOctets(s);
          if skipped.None? { return None; }
        }
      } else {
        var uv: UnitV;
        if !bitmap.Bit(i) {
          uv := AbsentUnit(us[i], true);
        } else {
          var known := ReadUnit(s, S, us[i], d);
          if known.None? { return None; }
          uv := known.value;
        }
        PrependMore(uvs, [uv], RestOfUnits(S, us, flags, i + 1, d, s.Rest()));
        uvs := uvs + [uv];
      }
      i := i + 1;
    }
    NoUnits(S, us, flags, d, s.Rest());
    var others := AbsentRest(us, i);
    r := Some(uvs + others);
  }

  method ReadAdditions(s: PerDecodeStream, S: Schema, fs: seq<Field>, us: seq<Unit>, ghost d: nat) returns (r: Option<Value>)
    requires s.At(d) && SchemaWf(S)
    modifies s
    ensures Reads(s, r, DecAdditions(S, fs, Some(us), d, old(s.Rest())))
    decreases d, 2, 6
  {
    hide BytesBits, DecUnits, GetNsLength;
    var n := ReadNsLength(s);
    if n.None? { return None; }
    var bitmap := new PresenceBits();
    var ok := bitmap.Read(s, n.value);
    if !ok { return None; }
    var uvs := ReadUnits(s, S, us, bitmap, d);
    if uvs.None? { return None; }
    r := Some(RecordV(fs, uvs.value));
  }

  method ReadSequence(s: PerDecodeStream, S: Schema, root: seq<Member>, additions: Option<seq<Unit>>, ghost d: nat) returns (r: Option<Value>)
    requires s.At(d) && SchemaWf(S)
    modifies s
    ensures Reads(s, r, DecSequence(S, root, additions, d, old(s.Rest())))
    decreases d, 2, 7
  {
    hide BytesBits, DecMembers, DecAdditions, OptionalCount, AbsentUnits, FromUnit;
    var extended := ReadFlag(s, additions.Some?);
    if extended.None? { return None; }
    var bitmap := new PresenceBits();
    var ok := bitmap.Read(s, OptionalCount(root));
    if !ok { return None; }
    var fs := ReadMembers(s, S, root, bitmap, d);
    if fs.None? { return None; }
    if extended.value {
      r := ReadAdditions(s, S, fs.value, additions.value, d);
    } else if additions.Some? {
      var uvs := AbsentRest(additions.value, 0);
      WholeUnits(additions.value);
      r := Some(RecordV(fs.value, uvs));
    } else {
      r := Some(RecordV(fs.value, []));
    }
  }

  lemma WholeUnits(us: seq<Unit>)
    ensures FromUnit(us, 0) == us
  {
  }

  // ---- CHOICE ----

  method ReadChoice(s: PerDecodeStream, S: Schema, alts: seq<nat>, bits: nat, more: Option<seq<nat>>, ghost d: nat) returns (r: Option<Value>)
    requires s.At(d) && SchemaWf(S)
    modifies s
    ensures Reads(s, r, DecChoice(S, alts, bits, more, d, old(s.Rest())))
    decreases d, 2, 6
  {
    hide BytesBits, Dec, DecOpen, GetNsNumber, GetOctets, NatOf;
    var extended := ReadFlag(s, more.Some?);
    if extended.None? { return None; }
    if !extended.value {
      var idx := ReadField(s, bits);
      if idx.None? || idx.value >= |alts| { return None; }
      var v := Decode(s, S, alts[idx.value], d);
      if v.None? { return None; }
      r := Some(ChoiceV(idx.value, v.value));
    } else {
      var idx := ReadNsNumber(s);
      if idx.None? { return None; }
      var i := WrapInt(|alts| + idx.value);
      if i >= |alts| + |more.value| {
        var skipped := ReadOctets(s);
        if skipped.None? { return None; }
        r := Some(NoChoice);
      } else if i < |alts| {
        r := None;
      } else {
        var v := ReadOpenType(s, S, more.value[i - |alts|], d);
        if v.None? { return None; }
        r := Some(ChoiceV(i, v.value));
      }
    }
  }

  // ---- dispatch ----

  method Decode(s: PerDecodeStream, S: Schema, t: nat, ghost d: nat) returns (r: Option<Value>)
    requires s.At(d) && SchemaWf(S)
    modifies s
    ensures Reads(s, r, Dec(S, t, d, old(s.Rest())))
    decreases d, 2, 1
  {
    hide BytesBits, DecAs;
    if t >= |S| { return None; }
    if Counts(S[t]) { r := DecodeCounted(s, S, S[t], d); } else { r := DecodePlain(s, S, S[t], d); }
  }

  // The descriptors the depth guard counts.
  predicate Counts(ty: Ty) {
    ty.Sequence? || ty.Choice? || (ty.List? && ty.item.Element?)
  }

  method DecodeCounted(s: PerDecodeStream, S: Schema, ty: Ty, ghost d: nat) returns (r: Option<Value>)
    requires s.At(d) && SchemaWf(S) && Counts(ty)
    modifies s
    ensures Reads(s, r, DecAs(S, ty, d, old(s.Rest())))
    decreases d, 2, 0
  {
    hide BytesBits, DecSequence, DecChoice, GetExtSized;
    s.levels := s.levels + 1;
    if s.levels > MAX_DECODE_DEPTH {
      r := None;
    } else if ty.Sequence? {
      r := ReadSequence(s, S, ty.root, ty.additions, d - 1);
    } else if ty.Choice? {
      r := ReadChoice(s, S, ty.alts, ty.indexBits, ty.more, d - 1);
    } else {
      var vs := ReadExtSized(s, S, ty.item, ty.size, ty.ext, d - 1);
      r := if vs.None? then None else Some(ListV(vs.value));
    }
    s.levels := s.levels - 1;
  }

  method DecodePlain(s: PerDecodeStream, S: Schema, ty: Ty, ghost d: nat) returns (r: Option<Value>)
    requires s.At(d) && SchemaWf(S) && !Counts(ty)
    modifies s
    ensures Reads(s, r, DecAs(S, ty, d, old(s.Rest())))
    decreases d, 2, 0
  {
    hide BytesBits, GetExtSized, GetItems, GetSized, GetInt, GetUInt, GetEnum;
    if ty.List? {
      var vs := ReadExtSized(s, S, ty.item, ty.size, ty.ext, d);
      r := if vs.None? then None else Some(ListV(vs.value));
    } else if ty.Str? {
      var vs := ReadString(s, S, ty.kind, ty.from, ty.size, ty.ext, d);
      r := if vs.None? then None else Some(ListV(vs.value));
    } else if ty.Boolean? {
      var bit := s.GetBit();
      r := if bit.None? then None else Some(BoolV(bit.value));
    } else if ty.Null? {
      r := Some(NullV);
    } else {
      r := DecodeNumber(s, S, ty, d);
    }
  }

  method DecodeNumber(s: PerDecodeStream, S: Schema, ty: Ty, ghost d: nat) returns (r: Option<Value>)
    requires s.Valid() && (ty.Int? || ty.UInt? || ty.Enum?)
    modifies s
    ensures Reads(s, r, DecAs(S, ty, d, old(s.Rest())))
  {
    hide BytesBits, GetInt, GetUInt, GetEnum;
    var v: Option<int>;
    match ty {
      case Int(c) => v := ReadInt(s, c);
      case UInt(c) => v := ReadUInt(s, c);
      case Enum(e) => v := ReadEnum(s, e);
    }
    r := if v.None? then None else Some(IntV(v.value));
  }
}
