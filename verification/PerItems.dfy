/** Size-prefixed lists, open types and characters: what is written is read back. */
module PerItems {
  import opened Bits
  import opened Integers
  import opened PerTypes
  import opened PerEncode
  import opened PerDecode
  import opened PerNumbers
  import opened PerWidth

  // `e` read by an item reader gives `v` and stops exactly at its end,
  // whatever bits follow.
  ghost predicate ReadsAs(S: Schema, item: Item, d: nat, e: Bits, v: Value) {
    forall s: Bits :: DecItem(S, item, d, e + s) == Ok(v, s)
  }

  ghost predicate AllReadAs(S: Schema, item: Item, d: nat, encs: seq<Bits>, vals: seq<Value>) {
    |encs| == |vals| && forall i :: 0 <= i < |encs| ==> ReadsAs(S, item, d, encs[i], vals[i])
  }

  lemma {:induction false} ConcatSplit(a: seq<Bits>, b: seq<Bits>)
    ensures Concat(a + b) == Concat(a) + Concat(b)
  {
    if a == [] {
      assert a + b == b;
    } else {
      assert (a + b)[1..] == a[1..] + b;
      ConcatSplit(a[1..], b);
    }
  }

  lemma {:induction false} EncItemsSplit(A: Schema, item: Item, a: seq<Value>, b: seq<Value>)
    ensures EncItems(A, item, a + b).Some? <==> EncItems(A, item, a).Some? && EncItems(A, item, b).Some?
    ensures EncItems(A, item, a + b).Some? ==>
              EncItems(A, item, a + b).value == EncItems(A, item, a).value + EncItems(A, item, b).value
  {
    if a == [] {
      assert a + b == b;
    } else {
      assert (a + b)[1..] == a[1..] + b;
      EncItemsSplit(A, item, a[1..], b);
    }
  }

  lemma ReadNStep(S: Schema, item: Item, n: nat, d: nat, e: Bits, v: Value, rest: seq<Value>, tail: Bits, s: Bits)
    requires n > 0 && ReadsAs(S, item, d, e, v) && GetN(S, item, n - 1, d, tail) == Ok(rest, s)
    ensures GetN(S, item, n, d, e + tail) == Ok([v] + rest, s)
  {
    hide DecItem;
  }

  lemma ConcatStep(encs: seq<Bits>, s: Bits)
    ensures Concat(encs) + s == if encs == [] then s else encs[0] + (Concat(encs[1..]) + s)
  {
  }

  lemma AllReadSplitHead(S: Schema, item: Item, d: nat, encs: seq<Bits>, vals: seq<Value>)
    requires AllReadAs(S, item, d, encs, vals) && encs != []
    ensures ReadsAs(S, item, d, encs[0], vals[0]) && AllReadAs(S, item, d, encs[1..], vals[1..])
  {
    hide ReadsAs;
    forall i | 0 <= i < |encs[1..]| ensures ReadsAs(S, item, d, encs[1..][i], vals[1..][i]) {
      assert ReadsAs(S, item, d, encs[i + 1], vals[i + 1]);
    }
  }

  lemma {:induction false} ReadN(S: Schema, item: Item, d: nat, encs: seq<Bits>, vals: seq<Value>, s: Bits)
    requires AllReadAs(S, item, d, encs, vals)
    ensures GetN(S, item, |encs|, d, Concat(encs) + s) == Ok(vals, s)
  {
    hide DecItem, Concat, ReadsAs;
    ConcatStep(encs, s);
    if encs != [] {
      hide GetN, AllReadAs;
      AllReadSplitHead(S, item, d, encs, vals);
      ReadN(S, item, d, encs[1..], vals[1..], s);
      ReadNStep(S, item, |encs|, d, encs[0], vals[0], vals[1..], Concat(encs[1..]) + s, s);
      assert vals == [vals[0]] + vals[1..];
    }
  }

  lemma ReadRun(S: Schema, item: Item, d: nat, encs: seq<Bits>, vals: seq<Value>, s: Bits)
    requires AllReadAs(S, item, d, encs, vals) && ZeroWidthOk(item, encs)
    ensures GetRun(S, item, |encs|, d, Concat(encs) + s) == Ok(vals, s)
  {
    ReadN(S, item, d, encs, vals, s);
    if item.Element? && |encs| > MAX_ZERO_WIDTH_ITEMS {
      var tail := Concat(encs[1..]) + s;
      assert Concat(encs) + s == encs[0] + tail;
      assert ReadsAs(S, item, d, encs[0], vals[0]);
    }
  }

  lemma BlockHeader(n: nat, body: Bits)
    requires n >= FRAGMENT
    ensures Get(8, BlockOctet(n) + body) == Ok(0xC0 + Blocks(n), body)
  {
    GetOctet(0xC0 + Blocks(n), body);
  }

  lemma LengthFirstOctet(n: nat, s: Bits)
    requires n < FRAGMENT
    ensures Get(8, PutLength(n) + s).Ok? && Get(8, PutLength(n) + s).v < 0xC0
  {
    if n <= 127 { GetOctet(n, s); }
    else {
      Assoc(BitsOf(0x80 + n / 256, 8), BitsOf(n % 256, 8), s);
      GetOctet(0x80 + n / 256, BitsOf(n % 256, 8) + s);
    }
  }

  lemma Assoc3(a: Bits, b: Bits, c: Bits, s: Bits)
    ensures (a + (b + c)) + s == a + (b + (c + s))
  {
  }

  lemma AllReadSplit(S: Schema, item: Item, d: nat, encs: seq<Bits>, vals: seq<Value>, m: nat)
    requires AllReadAs(S, item, d, encs, vals) && ZeroWidthOk(item, encs) && m <= |encs|
    ensures AllReadAs(S, item, d, encs[..m], vals[..m]) && ZeroWidthOk(item, encs[..m])
    ensures AllReadAs(S, item, d, encs[m..], vals[m..]) && ZeroWidthOk(item, encs[m..])
  {
    forall i | 0 <= i < |encs[m..]| ensures ReadsAs(S, item, d, encs[m..][i], vals[m..][i]) {
      assert ReadsAs(S, item, d, encs[m + i], vals[m + i]);
    }
  }

  lemma ReadShortItems(S: Schema, item: Item, d: nat, encs: seq<Bits>, vals: seq<Value>, s: Bits)
    requires AllReadAs(S, item, d, encs, vals) && ZeroWidthOk(item, encs) && |encs| < FRAGMENT
    ensures GetItems(S, item, d, PutItems(encs) + s) == Ok(vals, s)
  {
    var tail := Concat(encs) + s;
    Assoc(PutLength(|encs|), Concat(encs), s);
    LengthFirstOctet(|encs|, tail);
    LengthRoundTrip(|encs|, tail);
    ReadRun(S, item, d, encs, vals, s);
  }

  lemma ItemsStep(S: Schema, item: Item, d: nat, n: nat, block: Bits, tail: Bits, vs: seq<Value>, more: seq<Value>, s: Bits)
    requires n >= FRAGMENT
    requires GetRun(S, item, BlockSize(n), d, block + tail) == Ok(vs, tail)
    requires GetItems(S, item, d, tail) == Ok(more, s)
    ensures GetItems(S, item, d, BlockOctet(n) + (block + tail)) == Ok(vs + more, s)
  {
    BlockHeader(n, block + tail);
  }

  lemma ItemsBlock(encs: seq<Bits>, m: nat)
    requires |encs| >= FRAGMENT && m == BlockSize(|encs|)
    ensures PutItems(encs) == BlockOctet(|encs|) + (Concat(encs[..m]) + PutItems(encs[m..]))
  {
  }

  // One block in front of items already read back.
  lemma ReadBlock(S: Schema, item: Item, d: nat, encs: seq<Bits>, vals: seq<Value>, m: nat, s: Bits)
    requires AllReadAs(S, item, d, encs, vals) && ZeroWidthOk(item, encs) && |encs| >= FRAGMENT && m == BlockSize(|encs|)
    requires GetItems(S, item, d, PutItems(encs[m..]) + s) == Ok(vals[m..], s)
    ensures GetItems(S, item, d, PutItems(encs) + s) == Ok(vals, s)
  {
    hide PutItems, GetItems, GetRun, Concat, ReadsAs, ZeroWidthOk, Get;
    var block, more := Concat(encs[..m]), PutItems(encs[m..]);
    AllReadSplit(S, item, d, encs, vals, m);
    ReadRun(S, item, d, encs[..m], vals[..m], more + s);
    ItemsStep(S, item, d, |encs|, block, more + s, vals[..m], vals[m..], s);
    ItemsBlock(encs, m);
    Assoc3(BlockOctet(|encs|), block, more, s);
    assert vals[..m] + vals[m..] == vals;
  }

  lemma {:induction false} ReadItems(S: Schema, item: Item, d: nat, encs: seq<Bits>, vals: seq<Value>, s: Bits)
    requires AllReadAs(S, item, d, encs, vals) && ZeroWidthOk(item, encs)
    ensures GetItems(S, item, d, PutItems(encs) + s) == Ok(vals, s)
    decreases |encs|
  {
    if |encs| < FRAGMENT {
      ReadShortItems(S, item, d, encs, vals, s);
    } else {
      var m := BlockSize(|encs|);
      AllReadSplit(S, item, d, encs, vals, m);
      ReadItems(S, item, d, encs[m..], vals[m..], s);
      ReadBlock(S, item, d, encs, vals, m, s);
    }
  }

  lemma SizedField(n: nat, size: SizeC, s: Bits)
    requires size.Size? && SizeWf(size) && InSize(size, n)
    ensures Get(size.bits, BitsOf(n - size.lo, size.bits) + s) == Ok(n - size.lo, s)
  {
    GetPut(n - size.lo, size.bits, s);
  }

  lemma ReadSized(S: Schema, item: Item, size: SizeC, d: nat, encs: seq<Bits>, vals: seq<Value>, s: Bits)
    requires AllReadAs(S, item, d, encs, vals) && ZeroWidthOk(item, encs)
    requires SizeWf(size) && PutSized(size, encs).Some?
    ensures GetSized(S, item, size, d, PutSized(size, encs).value + s) == Ok(vals, s)
  {
    if CountIsConstrained(size) {
      Assoc(BitsOf(|encs| - size.lo, size.bits), Concat(encs), s);
      SizedField(|encs|, size, Concat(encs) + s);
      ReadRun(S, item, d, encs, vals, s);
    } else {
      ReadItems(S, item, d, encs, vals, s);
    }
  }

  lemma ReadExtSized(S: Schema, item: Item, size: SizeC, ext: bool, d: nat, encs: seq<Bits>, vals: seq<Value>, s: Bits)
    requires AllReadAs(S, item, d, encs, vals) && ZeroWidthOk(item, encs)
    requires SizeWf(size) && PutExtSized(size, ext, encs).Some?
    ensures GetExtSized(S, item, size, ext, d, PutExtSized(size, ext, encs).value + s) == Ok(vals, s)
  {
    var flag := ext && size.Size?;
    var outside := flag && !InSize(size, |encs|);
    var body := if outside then PutItems(encs) else PutSized(size, encs).value;
    assert PutExtSized(size, ext, encs).value == (if flag then [outside] else []) + body;
    Assoc(if flag then [outside] else [], body, s);
    FlagAfter(flag, outside, body + s);
    if outside { ReadItems(S, item, d, encs, vals, s); } else { ReadSized(S, item, size, d, encs, vals, s); }
  }

  // ---- the refusal of elements without bits ----

  // A run of too many items whose first takes no bits is never decoded, in
  // whatever form its count travels.
  lemma RunRefused(S: Schema, item: Item, d: nat, n: nat, v: Value, b: Bits)
    requires item.Element? && n > MAX_ZERO_WIDTH_ITEMS && ReadsAs(S, item, d, [], v)
    ensures GetRun(S, item, n, d, b).Err?
  {
    assert [] + b == b;
    assert DecItem(S, item, d, [] + b) == Ok(v, b);
  }

  lemma ItemsRefused(S: Schema, item: Item, d: nat, encs: seq<Bits>, v: Value, s: Bits)
    requires item.Element? && |encs| > MAX_ZERO_WIDTH_ITEMS && ReadsAs(S, item, d, [], v)
    ensures GetItems(S, item, d, PutItems(encs) + s).Err?
  {
    hide GetRun, ReadsAs, Concat, GetLength, PutLength, Get;
    if |encs| < FRAGMENT {
      var tail := Concat(encs) + s;
      assert PutItems(encs) == PutLength(|encs|) + Concat(encs);
      Assoc(PutLength(|encs|), Concat(encs), s);
      LengthFirstOctet(|encs|, tail);
      LengthRoundTrip(|encs|, tail);
      RunRefused(S, item, d, |encs|, v, tail);
    } else {
      var m := BlockSize(|encs|);
      var body := Concat(encs[..m]) + (PutItems(encs[m..]) + s);
      ItemsBlock(encs, m);
      Assoc3(BlockOctet(|encs|), Concat(encs[..m]), PutItems(encs[m..]), s);
      BlockHeader(|encs|, body);
      RunRefused(S, item, d, m, v, body);
    }
  }

  lemma SizedRefused(S: Schema, item: Item, size: SizeC, d: nat, encs: seq<Bits>, v: Value, s: Bits)
    requires item.Element? && |encs| > MAX_ZERO_WIDTH_ITEMS && ReadsAs(S, item, d, [], v)
    requires SizeWf(size) && PutSized(size, encs).Some?
    ensures GetSized(S, item, size, d, PutSized(size, encs).value + s).Err?
  {
    hide GetItems, PutItems, GetRun, ReadsAs, Concat;
    if CountIsConstrained(size) {
      Assoc(BitsOf(|encs| - size.lo, size.bits), Concat(encs), s);
      SizedField(|encs|, size, Concat(encs) + s);
      RunRefused(S, item, d, |encs|, v, Concat(encs) + s);
    } else {
      ItemsRefused(S, item, d, encs, v, s);
    }
  }

  lemma ExtSizedRefused(S: Schema, item: Item, size: SizeC, ext: bool, d: nat, encs: seq<Bits>, v: Value, s: Bits)
    requires item.Element? && |encs| > MAX_ZERO_WIDTH_ITEMS && ReadsAs(S, item, d, [], v)
    requires SizeWf(size) && PutExtSized(size, ext, encs).Some?
    ensures GetExtSized(S, item, size, ext, d, PutExtSized(size, ext, encs).value + s).Err?
  {
    hide GetItems, PutItems, GetSized, PutSized, ReadsAs;
    var flag := ext && size.Size?;
    var outside := flag && !InSize(size, |encs|);
    var body := if outside then PutItems(encs) else PutSized(size, encs).value;
    Assoc(if flag then [outside] else [], body, s);
    FlagAfter(flag, outside, body + s);
    if outside { ItemsRefused(S, item, d, encs, v, s); } else { SizedRefused(S, item, size, d, encs, v, s); }
  }

  // ---- open types ----

  lemma {:induction false} OctetItemsConcat(bytes: seq<Byte>)
    ensures Concat(OctetItems(bytes)) == BytesBits(bytes)
  {
    if bytes != [] {
      assert OctetItems(bytes)[1..] == OctetItems(bytes[1..]);
      OctetItemsConcat(bytes[1..]);
    }
  }

  lemma BytesSplit(bytes: seq<Byte>, m: nat)
    requires m <= |bytes|
    ensures BytesBits(bytes) == BytesBits(bytes[..m]) + BytesBits(bytes[m..])
  {
    assert bytes == bytes[..m] + bytes[m..];
    BytesBitsConcat(bytes[..m], bytes[m..]);
  }

  lemma TakeBits(n: nat, b: Bits, s: Bits)
    requires |b| == n
    ensures GetBits(n, b + s) == Ok(b, s)
  {
    assert (b + s)[..n] == b;
    assert (b + s)[n..] == s;
  }

  lemma ShortOctetsReadBack(bytes: seq<Byte>, s: Bits)
    requires |bytes| < FRAGMENT
    ensures GetOctets(PutItems(OctetItems(bytes)) + s) == Ok(BytesBits(bytes), s)
  {
    OctetItemsConcat(bytes);
    var tail := BytesBits(bytes) + s;
    Assoc(PutLength(|bytes|), BytesBits(bytes), s);
    LengthFirstOctet(|bytes|, tail);
    LengthRoundTrip(|bytes|, tail);
    TakeBits(8 * |bytes|, BytesBits(bytes), s);
  }

  lemma OctetsStep(n: nat, block: Bits, tail: Bits, more: Bits, s: Bits)
    requires n >= FRAGMENT && |block| == 8 * BlockSize(n)
    requires GetOctets(tail) == Ok(more, s)
    ensures GetOctets(BlockOctet(n) + (block + tail)) == Ok(block + more, s)
  {
    BlockHeader(n, block + tail);
    TakeBits(8 * BlockSize(n), block, tail);
  }

  lemma {:induction false} OctetsReadBack(bytes: seq<Byte>, s: Bits)
    ensures GetOctets(PutItems(OctetItems(bytes)) + s) == Ok(BytesBits(bytes), s)
    decreases |bytes|
  {
    if |bytes| < FRAGMENT {
      ShortOctetsReadBack(bytes, s);
    } else {
      var encs, m := OctetItems(bytes), BlockSize(|bytes|);
      assert encs[..m] == OctetItems(bytes[..m]);
      assert encs[m..] == OctetItems(bytes[m..]);
      OctetItemsConcat(bytes[..m]);
      BytesSplit(bytes, m);
      Assoc3(BlockOctet(|bytes|), Concat(encs[..m]), PutItems(encs[m..]), s);
      OctetsReadBack(bytes[m..], s);
      OctetsStep(|bytes|, BytesBits(bytes[..m]), PutItems(encs[m..]) + s, BytesBits(bytes[m..]), s);
    }
  }

  // Packing only appends zero bits.
  lemma {:induction false} PackBits(b: Bits) returns (pad: nat)
    ensures BytesBits(Pack(b)) == b + Zeros(pad)
    ensures |Pack(b)| > 0 && |Pack(b)| == (if b == [] then 1 else (|b| + 7) / 8)
    ensures pad <= 8 && (b != [] ==> pad < 8)
    decreases |b|
  {
    if |b| <= 8 {
      pad := 8 - |b|;
      var o := b + Zeros(pad);
      BitsOfNatOf(o);
      assert BytesBits(Pack(b)) == ByteBits(NatOf(o)) + BytesBits([]);
    } else {
      pad := PackBits(b[8..]);
      BitsOfNatOf(b[..8]);
      assert Pack(b)[1..] == Pack(b[8..]);
      assert b == b[..8] + b[8..];
    }
  }

  // An open type's contents are read back followed by zero padding, of less
  // than an octet unless there is nothing else.
  lemma OpenReadBack(b: Bits, s: Bits) returns (pad: nat)
    ensures GetOctets(PutOpen(b) + s) == Ok(b + Zeros(pad), s)
    ensures pad <= 8 && (b != [] ==> pad < 8)
  {
    pad := PackBits(b);
    OctetsReadBack(Pack(b), s);
  }

  // ---- characters ----

  // When one character survives: seven-bit and numeric codes drop the rest.
  predicate CharFits(code: CharCode, octets: seq<Byte>) {
    match code
    case Indexed(_, _, _, _) => true
    case Wide(_) => true
    case Numeric => |octets| == 1 && (octets[0] == 32 || 48 <= octets[0] <= 57)
    case Narrow(bits) => |octets| == 1 && octets[0] < Pow2(bits)
  }

  // What is read where a character was written.
  function CharSeen(code: CharCode, octets: seq<Byte>): (r: seq<Byte>) {
    match code
    case Indexed(_, _, _, _) => octets
    case Wide(_) => octets
    case Numeric => if |octets| == 1 then [NumericChar(NumericCode(octets[0]))] else octets
    case Narrow(bits) => if |octets| == 1 then [octets[0] % Pow2(bits) % 256] else octets
  }

  lemma {:induction false} WideReadBack(octets: seq<Byte>, s: Bits)
    ensures GetWide(|octets|, BytesBits(octets) + s) == Ok(octets, s)
  {
    if octets == [] {
      assert BytesBits(octets) + s == s;
    } else {
      Assoc(ByteBits(octets[0]), BytesBits(octets[1..]), s);
      GetOctet(octets[0], BytesBits(octets[1..]) + s);
      WideReadBack(octets[1..], s);
      assert octets == [octets[0]] + octets[1..];
    }
  }

  lemma IndexedReadBack(code: CharCode, octets: seq<Byte>, s: Bits)
    requires code.Indexed? && CodeWf(code, code.width) && |octets| == code.width && InAlphabet(code, octets)
    ensures GetChar(code, BitsOf(code.table[octets[|octets| - 1]], code.bits) + s) == Ok(octets, s)
  {
    var c := octets[|octets| - 1];
    var i := code.table[c];
    assert i < |code.alphabet| && code.alphabet[i] == c;
    GetPut(i, code.bits, s);
    assert octets == seq(code.width - 1, _ => 0) + [c];
  }

  lemma GetNibble(n: nat, s: Bits)
    requires n < 16
    ensures Get(4, BitsOf(n, 4) + s) == Ok(n, s)
  {
    assert Pow2(4) == 16;
    GetPut(n, 4, s);
  }

  // A written character is read as what its code leaves of it.
  lemma CharReadBack(code: CharCode, width: nat, octets: seq<Byte>, s: Bits)
    requires CodeWf(code, width) && PutChar(code, octets).Some?
    ensures GetChar(code, PutChar(code, octets).value + s) == Ok(CharSeen(code, octets), s)
  {
    match code
    case Indexed(_, _, _, _) => IndexedReadBack(code, octets, s);
    case Wide(_) => WideReadBack(octets, s);
    case Numeric => GetNibble(NumericCode(octets[0]), s);
    case Narrow(bits) => GetAfterPut(octets[0], bits, s);
  }

  // That is the character itself exactly when its code holds it.
  lemma CharSeenExact(code: CharCode, octets: seq<Byte>)
    ensures CharFits(code, octets) ==> CharSeen(code, octets) == octets
    ensures PutChar(code, octets).Some? && CharSeen(code, octets) == octets ==> CharFits(code, octets)
  {
    if |octets| == 1 {
      assert octets == [octets[0]];
      if code.Narrow? {
        ModSmall(octets[0], Pow2(code.bits));
        ModSmall(octets[0] % Pow2(code.bits), 256);
      }
    }
  }
}
