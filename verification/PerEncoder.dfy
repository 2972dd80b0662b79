/** The handlers of the unaligned PER encoder, proved to write what PerEncode says. */
module PerEncoder {
  import opened Bits
  import opened Options
  import opened Integers
  import opened PerTypes
  import opened PerEncode
  import opened PerNumbers
  import opened PerItems
  import opened PerSetOf
  import opened PerWriter

  // One SET OF element's own encoding and its exact bit length.
  datatype Encoded = Encoded(octets: seq<Byte>, bits: nat) {
    ghost predicate Valid() {
      bits <= 8 * |octets|
    }

    ghost function Content(): Bits
      requires Valid()
    {
      BytesBits(octets)[..bits]
    }
  }

  // What an items callback writes: the values of a list, or for a SET OF the
  // element encodings already sorted.
  datatype Source = Source(item: Item, vs: seq<Value>, sorted: Option<seq<Encoded>>) {
    ghost predicate Valid() {
      sorted.Some? ==> |sorted.value| == |vs| && forall i :: 0 <= i < |vs| ==> sorted.value[i].Valid()
    }
  }

  ghost function Contents(es: seq<Encoded>): (r: seq<Bits>)
    requires forall i :: 0 <= i < |es| ==> es[i].Valid()
    ensures |r| == |es|
  {
    seq(|es|, i requires 0 <= i < |es| => es[i].Content())
  }

  ghost function EncsOf(S: Schema, src: Source, from: nat, to: nat): (r: Option<seq<Bits>>)
    requires src.Valid() && from <= to <= |src.vs|
    ensures r.Some? ==> |r.value| == to - from
  {
    if src.sorted.Some? then Some(Contents(src.sorted.value[from..to]))
    else EncItems(S, src.item, src.vs[from..to])
  }

  ghost function Joined(encs: Option<seq<Bits>>): Option<Bits> {
    if encs.Some? then Some(Concat(encs.value)) else None
  }

  ghost function Itemized(encs: Option<seq<Bits>>): Option<Bits> {
    if encs.Some? then Some(PutItems(encs.value)) else None
  }

  lemma EncsSplit(S: Schema, src: Source, from: nat, mid: nat, to: nat)
    requires src.Valid() && from <= mid <= to <= |src.vs|
    ensures var a, b, all := EncsOf(S, src, from, mid), EncsOf(S, src, mid, to), EncsOf(S, src, from, to);
            (all.Some? <==> a.Some? && b.Some?) && (all.Some? ==> all.value == a.value + b.value)
  {
    if src.sorted.Some? {
      assert src.sorted.value[from..to] == src.sorted.value[from..mid] + src.sorted.value[mid..to];
    } else {
      assert src.vs[from..to] == src.vs[from..mid] + src.vs[mid..to];
      EncItemsSplit(S, src.item, src.vs[from..mid], src.vs[mid..to]);
    }
  }

  lemma JoinedSplit(S: Schema, src: Source, from: nat, mid: nat, to: nat)
    requires src.Valid() && from <= mid <= to <= |src.vs|
    ensures Joined(EncsOf(S, src, from, to)) == Cat(Joined(EncsOf(S, src, from, mid)), Joined(EncsOf(S, src, mid, to)))
  {
    EncsSplit(S, src, from, mid, to);
    if EncsOf(S, src, from, to).Some? {
      ConcatSplit(EncsOf(S, src, from, mid).value, EncsOf(S, src, mid, to).value);
    }
  }

  // A fragment is its header and its items.
  ghost function Fragment(S: Schema, src: Source, from: nat, to: nat, header: Bits): Option<Bits>
    requires src.Valid() && from <= to <= |src.vs|
  {
    Cat(Some(header), Joined(EncsOf(S, src, from, to)))
  }

  lemma ItemizedStep(a: seq<Bits>, b: seq<Bits>, n: nat)
    requires n == |a| + |b| && n >= FRAGMENT && |a| == BlockSize(n)
    ensures PutItems(a + b) == (BlockOctet(n) + Concat(a)) + PutItems(b)
  {
    hide PutItems, Concat;
    assert (a + b)[..|a|] == a && (a + b)[|a|..] == b;
    ItemsBlock(a + b, |a|);
    Assoc(BlockOctet(n), Concat(a), PutItems(b));
  }

  lemma ItemizedSplit(S: Schema, src: Source, from: nat, mid: nat, to: nat)
    requires src.Valid() && from <= mid <= to <= |src.vs| && to - from >= FRAGMENT && mid == from + BlockSize(to - from)
    ensures Itemized(EncsOf(S, src, from, to))
         == Cat(Fragment(S, src, from, mid, BlockOctet(to - from)), Itemized(EncsOf(S, src, mid, to)))
  {
    EncsSplit(S, src, from, mid, to);
    var a, b := EncsOf(S, src, from, mid), EncsOf(S, src, mid, to);
    if a.Some? && b.Some? { ItemizedStep(a.value, b.value, to - from); }
  }

  lemma ConcatOne(e: Bits)
    ensures Concat([e]) == e
  {
    assert [e][1..] == [];
  }

  lemma OneItem(S: Schema, src: Source, i: nat)
    requires src.Valid() && i < |src.vs|
    ensures Joined(EncsOf(S, src, i, i + 1))
         == if src.sorted.Some? then Some(src.sorted.value[i].Content()) else EncItem(S, src.item, src.vs[i])
  {
    if src.sorted.Some? {
      var e := src.sorted.value[i];
      assert src.sorted.value[i..i + 1] == [e];
      assert Contents([e]) == [e.Content()];
      ConcatOne(e.Content());
    } else {
      assert src.vs[i..i + 1] == [src.vs[i]];
      assert [src.vs[i]][1..] == [] && EncItems(S, src.item, []) == Some([]);
      var e := EncItem(S, src.item, src.vs[i]);
      if e.Some? { ConcatOne(e.value); }
    }
  }

  // ---- writing in one go ----

  method WriteBit(s: PerEncodeStream, bit: bool)
    requires s.Valid()
    modifies s
    ensures Wrote(s, Some([bit]))
  {
    s.PutBit(bit);
  }

  method WriteBits(s: PerEncodeStream, value: nat, n: nat)
    requires s.Valid()
    modifies s
    ensures Wrote(s, Some(BitsOf(value, n)))
  {
    hide BitsOf;
    s.PutBits(value, n);
  }

  method WriteNothing(s: PerEncodeStream)
    requires s.Valid()
    ensures Wrote(s, Some([]))
  {
    assert s.Contents() + [] == s.Contents();
  }

  method Fail(s: PerEncodeStream)
    requires s.Valid()
    modifies s
    ensures Wrote(s, None)
  {
    s.SetEncodeFailed();
  }

  method WriteOctets(s: PerEncodeStream, octets: seq<Byte>)
    requires s.Valid()
    modifies s
    ensures Wrote(s, Some(BytesBits(octets)))
  {
    hide BytesBits, BitsOf;
    ghost var c0 := s.Contents();
    NoOctets();
    assert octets[..0] == [] && c0 + [] == c0;
    for b := 0 to |octets|
      invariant s.Valid() && s.failed == old(s.failed)
      invariant s.Contents() == c0 + BytesBits(octets[..b])
    {
      OctetAt(octets, b);
      Assoc(c0, BytesBits(octets[..b]), ByteBits(octets[b]));
      s.PutBits(octets[b], 8);
    }
    assert octets[..|octets|] == octets;
  }

  lemma NoOctets()
    ensures BytesBits([]) == []
  {
  }

  // ---- size and items ----

  lemma OctetAt(octets: seq<Byte>, k: nat)
    requires k < |octets|
    ensures BytesBits(octets[..k + 1]) == BytesBits(octets[..k]) + ByteBits(octets[k])
  {
    assert octets[..k + 1] == octets[..k] + [octets[k]];
    BytesBitsConcat(octets[..k], [octets[k]]);
    assert BytesBits([octets[k]]) == ByteBits(octets[k]) + BytesBits([]);
  }

  lemma WholeOctets(octets: seq<Byte>, k: nat)
    requires k <= |octets|
    ensures BytesBits(octets)[..8 * k] == BytesBits(octets[..k])
  {
    BytesSplit(octets, k);
  }

  // Whole octets, then the leading bits of one more.
  lemma ContentSplit(e: Encoded)
    requires e.Valid() && e.bits % 8 > 0
    ensures e.Content() == BytesBits(e.octets[..e.bits / 8]) + BitsOf(Shr(e.octets[e.bits / 8], 8 - e.bits % 8), e.bits % 8)
  {
    var k, r := e.bits / 8, e.bits % 8;
    OctetAt(e.octets, k);
    WholeOctets(e.octets, k + 1);
    BitsOfSplit(e.octets[k], r, 8 - r);
    assert e.Content() == BytesBits(e.octets)[..8 * (k + 1)][..e.bits];
  }

  method WriteEncoded(s: PerEncodeStream, e: Encoded)
    requires s.Valid() && e.Valid()
    modifies s
    ensures Wrote(s, Some(e.Content()))
  {
    hide BytesBits, BitsOf, Shr, Pow2;
    var full, rest := e.bits / 8, e.bits % 8;
    ghost var c0 := s.Contents();
    for k := 0 to full
      invariant s.Valid() && s.failed == old(s.failed)
      invariant s.Contents() == c0 + BytesBits(e.octets[..k])
    {
      OctetAt(e.octets, k);
      Assoc(c0, BytesBits(e.octets[..k]), ByteBits(e.octets[k]));
      s.PutBits(e.octets[k], 8);
    }
    if rest > 0 {
      ContentSplit(e);
      Assoc(c0, BytesBits(e.octets[..full]), BitsOf(Shr(e.octets[full], 8 - rest), rest));
      s.PutBits(Shr(e.octets[full], 8 - rest), rest);
    } else {
      WholeOctets(e.octets, full);
    }
  }

  method WriteItems(s: PerEncodeStream, S: Schema, src: Source, from: nat, to: nat)
    requires s.Valid() && SchemaWf(S) && src.Valid() && from <= to <= |src.vs|
    modifies s
    ensures Wrote(s, Joined(EncsOf(S, src, from, to)))
    decreases src.vs, 1
  {
    hide BytesBits, BitsOf, EncItems, EncsOf, Joined, EncItem;
    ghost var m0, total := s.State(), Joined(EncsOf(S, src, from, to));
    NothingJoined(S, src, to);
    var i := from;
    while i < to
      invariant from <= i <= to && s.Valid() && m0 == old(s.State())
      invariant Progress(m0, s.State(), Joined(EncsOf(S, src, i, to)), total)
    {
      ghost var m := s.State();
      OneItem(S, src, i);
      JoinedSplit(S, src, i, i + 1, to);
      if src.sorted.Some? { WriteEncoded(s, src.sorted.value[i]); }
      else { EncodeItem(s, S, src.item, src.vs[i]); }
      Step(m0, m, Joined(EncsOf(S, src, i, to)), total, Joined(EncsOf(S, src, i, i + 1)), s.State(), Joined(EncsOf(S, src, i + 1, to)));
      i := i + 1;
    }
  }

  lemma NothingJoined(S: Schema, src: Source, i: nat)
    requires src.Valid() && i <= |src.vs|
    ensures Joined(EncsOf(S, src, i, i)) == Some([])
  {
  }

  method WriteFragment(s: PerEncodeStream, S: Schema, src: Source, from: nat, to: nat, remaining: nat)
    requires s.Valid() && SchemaWf(S) && src.Valid() && from <= to <= |src.vs|
    modifies s
    ensures Wrote(s, Fragment(S, src, from, to, Header(remaining)))
    decreases src.vs, 2
  {
    hide BytesBits, BitsOf, PutLength, EncsOf, Joined;
    ghost var m0 := s.State();
    if remaining >= FRAGMENT { s.PutBits(0xC0 + Blocks(remaining), 8); } else { PutLengthOctets(s, remaining); }
    ghost var m1 := s.State();
    WriteItems(s, S, src, from, to);
    Compose(m0, Some(Header(remaining)), m1, Joined(EncsOf(S, src, from, to)), s.State());
  }

  lemma LastFragment(S: Schema, src: Source, from: nat)
    requires src.Valid() && from <= |src.vs| && |src.vs| - from < FRAGMENT
    ensures Itemized(EncsOf(S, src, from, |src.vs|)) == Fragment(S, src, from, |src.vs|, PutLength(|src.vs| - from))
  {
  }

  // The general length and the items, in 16K blocks.
  method PutLengthAndItems(s: PerEncodeStream, S: Schema, src: Source)
    requires s.Valid() && SchemaWf(S) && src.Valid()
    modifies s
    ensures Wrote(s, Itemized(EncsOf(S, src, 0, |src.vs|)))
    decreases src.vs, 3
  {
    hide PutItems, Concat, EncsOf, EncItems, BytesBits, BitsOf, Itemized, Joined, PutLength, Progress;
    var n, start := |src.vs|, 0;
    ghost var m0, total := s.State(), Itemized(EncsOf(S, src, 0, n));
    Start(m0, total);
    while n - start >= FRAGMENT
      invariant 0 <= start <= n && s.Valid() && m0 == old(s.State())
      invariant Progress(m0, s.State(), Itemized(EncsOf(S, src, start, n)), total)
      decreases n - start
    {
      ghost var m := s.State();
      var next := start + BlockSize(n - start);
      ItemizedSplit(S, src, start, next, n);
      WriteFragment(s, S, src, start, next, n - start);
      Step(m0, m, Itemized(EncsOf(S, src, start, n)), total, Fragment(S, src, start, next, BlockOctet(n - start)),
           s.State(), Itemized(EncsOf(S, src, next, n)));
      start := next;
    }
    ghost var m := s.State();
    WriteFragment(s, S, src, start, n, n - start);
    LastFragment(S, src, start);
    Finish(m0, m, Itemized(EncsOf(S, src, start, n)), total, s.State());
  }

  ghost function Sized(size: SizeC, encs: Option<seq<Bits>>): Option<Bits> {
    if encs.Some? then PutSized(size, encs.value) else None
  }

  ghost function ExtSized(size: SizeC, ext: bool, encs: Option<seq<Bits>>): Option<Bits> {
    if encs.Some? then PutExtSized(size, ext, encs.value) else None
  }

  lemma SizedIs(size: SizeC, encs: Option<seq<Bits>>, n: nat)
    requires encs.Some? ==> |encs.value| == n
    ensures Sized(size, encs)
         == if !CountIsConstrained(size) then Itemized(encs)
            else if !InSize(size, n) then None
            else Cat(Some(BitsOf(n - size.lo, size.bits)), Joined(encs))
  {
    hide BitsOf, Concat, PutItems;
  }

  lemma ExtSizedIs(size: SizeC, ext: bool, encs: Option<seq<Bits>>, n: nat)
    requires encs.Some? ==> |encs.value| == n
    ensures ExtSized(size, ext, encs)
         == if !(ext && size.Size?) then Sized(size, encs)
            else if InSize(size, n) then Cat(Some([false]), Sized(size, encs))
            else Cat(Some([true]), Itemized(encs))
  {
    hide PutItems, PutSized;
  }

  // A count outside a constrained SIZE fails the encode.
  method EncodeSizeAndItems(s: PerEncodeStream, S: Schema, size: SizeC, src: Source)
    requires s.Valid() && SchemaWf(S) && src.Valid()
    modifies s
    ensures Wrote(s, Sized(size, EncsOf(S, src, 0, |src.vs|)))
    decreases src.vs, 4
  {
    hide BitsOf, BytesBits, EncsOf, Joined, Sized, Itemized;
    var n := |src.vs|;
    SizedIs(size, EncsOf(S, src, 0, n), n);
    if size.Size? && size.hi < 65536 {
      if n < size.lo || n > size.hi {
        Fail(s);
      } else {
        ghost var m0 := s.State();
        WriteBits(s, n - size.lo, size.bits);
        ghost var m1 := s.State();
        WriteItems(s, S, src, 0, n);
        Compose(m0, Some(BitsOf(n - size.lo, size.bits)), m1, Joined(EncsOf(S, src, 0, n)), s.State());
      }
    } else {
      PutLengthAndItems(s, S, src);
    }
  }

  method EncodeExtSizeAndItems(s: PerEncodeStream, S: Schema, size: SizeC, ext: bool, src: Source)
    requires s.Valid() && SchemaWf(S) && src.Valid()
    modifies s
    ensures Wrote(s, ExtSized(size, ext, EncsOf(S, src, 0, |src.vs|)))
    decreases src.vs, 5
  {
    hide BytesBits, EncsOf, Sized, ExtSized, Itemized;
    var n := |src.vs|;
    ghost var m0, encs := s.State(), EncsOf(S, src, 0, |src.vs|);
    ExtSizedIs(size, ext, encs, n);
    if ext && size.Size? {
      var inRoot := size.lo <= n <= size.hi;
      WriteBit(s, !inRoot);
      ghost var m1 := s.State();
      if !inRoot {
        PutLengthAndItems(s, S, src);
        Compose(m0, Some([true]), m1, Itemized(encs), s.State());
      } else {
        EncodeSizeAndItems(s, S, size, src);
        Compose(m0, Some([false]), m1, Sized(size, encs), s.State());
      }
    } else {
      EncodeSizeAndItems(s, S, size, src);
    }
  }

  // ---- characters and strings ----

  method EncodeChar(s: PerEncodeStream, code: CharCode, octets: seq<Byte>)
    requires s.Valid()
    modifies s
    ensures Wrote(s, PutChar(code, octets))
  {
    hide Wrote, BytesBits, BitsOf;
    match code
    case Indexed(_, table, bits, width) =>
      if |octets| == width && InAlphabet(code, octets) { WriteBits(s, table[octets[|octets| - 1]], bits); } else { Fail(s); }
    case Wide(width) =>
      if |octets| == width { WriteOctets(s, octets); } else { Fail(s); }
    case Numeric =>
      if |octets| == 1 { WriteBits(s, NumericCode(octets[0]), 4); } else { Fail(s); }
    case Narrow(bits) =>
      if |octets| == 1 { WriteBits(s, octets[0], bits); } else { Fail(s); }
  }

  method CheckAlphabet(code: CharCode, chars: seq<Value>) returns (ok: bool)
    ensures ok == AllInAlphabet(code, chars)
  {
    if !code.Indexed? { return true; }
    for i := 0 to |chars|
      invariant forall k :: 0 <= k < i ==> chars[k].CharV? && |chars[k].octets| == code.width && InAlphabet(code, chars[k].octets)
    {
      if !chars[i].CharV? || |chars[i].octets| != code.width || !InAlphabet(code, chars[i].octets) { return false; }
    }
    return true;
  }

  // The character set of the type itself, checked for two string types only.
  method CheckNatural(kind: StringKind, chars: seq<Value>) returns (ok: bool)
    ensures ok == NaturalOk(kind, chars)
  {
    for i := 0 to |chars|
      invariant NaturalOk(kind, chars[..i])
    {
      assert chars[..i + 1] == chars[..i] + [chars[i]];
      if chars[i].CharV? && |chars[i].octets| == 1 {
        var c := chars[i].octets[0];
        if kind == NumericString && c != 32 && (c < 48 || c > 57) { return false; }
        if kind == Ia5String && c > 0x7F { return false; }
      }
    }
    assert chars[..|chars|] == chars;
    return true;
  }

  lemma {:induction false} CharsAreItems(S: Schema, code: CharCode, chars: seq<Value>)
    ensures EncItems(S, CharItem(code), chars) == EncChars(code, chars)
  {
    if chars != [] { CharsAreItems(S, code, chars[1..]); }
  }

  lemma WholeChars(S: Schema, code: CharCode, chars: seq<Value>)
    ensures EncsOf(S, Source(CharItem(code), chars, None), 0, |chars|) == EncChars(code, chars)
  {
    CharsAreItems(S, code, chars);
    assert chars[0..|chars|] == chars;
  }

  method EncodePlainString(s: PerEncodeStream, S: Schema, kind: StringKind, chars: seq<Value>)
    requires s.Valid() && SchemaWf(S)
    modifies s
    ensures Wrote(s, PutPlainStr(kind, chars))
    decreases chars, 6
  {
    hide BytesBits, EncsOf, EncChars, PutItems;
    var ok := CheckNatural(kind, chars);
    if ok {
      WholeChars(S, NaturalCode(kind), chars);
      PutLengthAndItems(s, S, Source(CharItem(NaturalCode(kind)), chars, None));
    } else {
      Fail(s);
    }
  }

  method EncodeChars(s: PerEncodeStream, S: Schema, code: CharCode, size: SizeC, chars: seq<Value>)
    requires s.Valid() && SchemaWf(S)
    modifies s
    ensures Wrote(s, PutChars(code, size, chars))
    decreases chars, 6
  {
    hide Wrote, EncsOf, EncChars, PutSized;
    WholeChars(S, code, chars);
    EncodeSizeAndItems(s, S, size, Source(CharItem(code), chars, None));
  }

  method EncodeExtensibleString(s: PerEncodeStream, S: Schema, kind: StringKind, code: CharCode, size: SizeC, chars: seq<Value>)
    requires s.Valid() && SchemaWf(S)
    modifies s
    ensures Wrote(s, if StrInRoot(code, size, chars) then Cat(Some([false]), PutChars(code, size, chars))
                     else Cat(Some([true]), PutPlainStr(kind, chars)))
    decreases chars, 7
  {
    hide BytesBits, PutChars, PutPlainStr, AllInAlphabet;
    var inRoot := size.Size? ==> size.lo <= |chars| <= size.hi;
    if inRoot { inRoot := CheckAlphabet(code, chars); }
    ghost var m0 := s.State();
    WriteBit(s, !inRoot);
    ghost var m1 := s.State();
    if !inRoot {
      EncodePlainString(s, S, kind, chars);
      Compose(m0, Some([true]), m1, PutPlainStr(kind, chars), s.State());
    } else {
      EncodeChars(s, S, code, size, chars);
      Compose(m0, Some([false]), m1, PutChars(code, size, chars), s.State());
    }
  }

  method EncodeString(s: PerEncodeStream, S: Schema, kind: StringKind, from: Option<CharCode>, size: SizeC, ext: bool, chars: seq<Value>)
    requires s.Valid() && SchemaWf(S)
    modifies s
    ensures Wrote(s, PutStr(kind, from, size, ext, chars))
    decreases chars, 8
  {
    hide BytesBits, PutChars, PutPlainStr, StrInRoot, NaturalOk, Cat;
    if ext {
      EncodeExtensibleString(s, S, kind, CodeOf(kind, from), size, chars);
    } else {
      var ok := size.Size? ==> size.lo <= |chars| <= size.hi;
      if ok && from.None? { ok := CheckNatural(kind, chars); }
      if ok { EncodeChars(s, S, CodeOf(kind, from), size, chars); } else { Fail(s); }
    }
  }

  // ---- ENUMERATED ----

  // Position of a value in the ascending table, or -1.
  method BinarySearch(entries: seq<int>, value: int) returns (ordinal: int)
    requires Sorted(entries)
    ensures -1 <= ordinal < |entries|
    ensures ordinal == -1 <==> value !in entries
    ensures ordinal >= 0 ==> entries[ordinal] == value
  {
    var lo, hi := 0, |entries| - 1;
    while lo <= hi
      invariant 0 <= lo <= hi + 1 <= |entries|
      invariant forall i :: 0 <= i < lo ==> entries[i] < value
      invariant forall i :: hi < i < |entries| ==> entries[i] > value
    {
      var mid := (lo + hi) / 2;
      if entries[mid] == value { return mid; }
      else if entries[mid] < value { lo := mid + 1; }
      else { hi := mid - 1; }
    }
    return -1;
  }

  lemma {:induction false} PositionUnique(entries: seq<int>, i: nat)
    requires Sorted(entries) && i < |entries|
    ensures IndexOf(entries, entries[i]) == Some(i)
  {
    if i > 0 {
      assert entries[0] < entries[i];
      assert forall j, k :: 0 <= j < k < |entries[1..]| ==> entries[1..][j] == entries[j + 1] && entries[1..][k] == entries[k + 1];
      PositionUnique(entries[1..], i - 1);
    }
  }

  method BitWidth(range: nat) returns (bits: nat)
    ensures bits == RangeBits(range)
  {
    bits := 0;
    if range > 1 {
      var r := range - 1;
      while r > 0
        invariant r >= 0
        invariant bits + RangeBits(r + 1) == RangeBits(range)
      {
        r := r / 2;
        bits := bits + 1;
      }
    }
  }

  method WriteEnum(s: PerEncodeStream, e: EnumSpec, isAddition: bool, index: nat)
    requires s.Valid() && index < INT_LIMIT
    requires !isAddition ==> index < e.RootCount()
    modifies s
    ensures Wrote(s, Some(PutEnumPosition(e, if isAddition then e.RootCount() + index else index)))
  {
    hide PutNsNumber, BitsOf, BytesBits;
    ghost var body := if isAddition then PutNsNumber(index) else BitsOf(index, RangeBits(e.RootCount()));
    Assoc(s.Contents(), if e.extensible then [isAddition] else [], body);
    if e.extensible { s.PutBit(isAddition); }
    if !isAddition {
      var bits := BitWidth(if e.rootCount > 0 then e.rootCount else |e.entries|);
      s.PutBits(index, bits);
    } else {
      PutNsNumberBits(s, index);
    }
  }

  method EncodeEnum(s: PerEncodeStream, e: EnumSpec, value: int)
    requires s.Valid() && Sorted(e.entries) && 0 < e.RootCount() <= |e.entries| < INT_LIMIT
    modifies s
    ensures Wrote(s, Some(PutEnum(e, value)))
  {
    hide PutNsNumber, BytesBits;
    var root := if e.rootCount > 0 then e.rootCount else |e.entries|;
    var ordinal := BinarySearch(e.entries, value);
    if ordinal >= 0 { PositionUnique(e.entries, ordinal); }
    var isAddition := ordinal < 0 || ordinal >= root;
    var addition := if ordinal >= root then ordinal - root else 0;
    WriteEnum(s, e, isAddition, if isAddition then addition else ordinal);
  }

  // ---- SET OF ----

  function From(a: seq<Byte>, k: nat): seq<Byte> {
    if k <= |a| then a[k..] else []
  }

  function First(a: seq<Byte>): Byte {
    if a == [] then 0 else a[0]
  }

  lemma PaddingIgnored(a: Bits, b: Bits, m: nat, n: nat)
    ensures PaddedLess(a + Zeros(m), b + Zeros(n)) == PaddedLess(a, b)
  {
    var x := |a| + |b| + m + n;
    PaddedLessIsKeyOrder(a + Zeros(m), b + Zeros(n), x);
    PaddedLessIsKeyOrder(a, b, x);
    assert (a + Zeros(m)) + Zeros(x - |a| - m) == a + Zeros(x - |a|);
    assert (b + Zeros(n)) + Zeros(x - |b| - n) == b + Zeros(x - |b|);
  }

  // Fronts of equal length decide unless they are equal.
  lemma {:induction false} FrontDecides(o: Bits, p: Bits, x: Bits, y: Bits)
    requires |o| == |p|
    ensures PaddedLess(o + x, p + y) == if o == p then PaddedLess(x, y) else NatOf(o) < NatOf(p)
  {
    if o == [] {
      assert o + x == x && p + y == y;
    } else {
      assert (o + x)[1..] == o[1..] + x && (p + y)[1..] == p[1..] + y;
      assert o == [o[0]] + o[1..] && p == [p[0]] + p[1..];
      FrontDecides(o[1..], p[1..], x, y);
      NatOfCons(o[0], o[1..]);
      NatOfCons(p[0], p[1..]);
    }
  }

  // The first octet of a string extended with zero octets.
  lemma FirstOctetBits(a: seq<Byte>)
    ensures BytesBits(a) + Zeros(if a == [] then 8 else 0) == ByteBits(First(a)) + BytesBits(From(a, 1))
    ensures NatOf(ByteBits(First(a))) == First(a)
  {
    Pow2Of8();
    NatOfBitsOfSmall(First(a), 8);
    if a == [] {
      ZerosValue(8);
      BitsOfNatOf(Zeros(8));
    }
  }

  // The first octet decides unless it is equal; a missing one counts as zero.
  lemma OctetOrder(a: seq<Byte>, b: seq<Byte>)
    ensures PaddedLess(BytesBits(a), BytesBits(b))
         == if First(a) == First(b) then PaddedLess(BytesBits(From(a, 1)), BytesBits(From(b, 1))) else First(a) < First(b)
  {
    FirstOctetBits(a);
    FirstOctetBits(b);
    PaddingIgnored(BytesBits(a), BytesBits(b), if a == [] then 8 else 0, if b == [] then 8 else 0);
    FrontDecides(ByteBits(First(a)), ByteBits(First(b)), BytesBits(From(a, 1)), BytesBits(From(b, 1)));
  }

  // Compares two octet strings, the shorter one extended with zero octets.
  method PaddedLessOctets(a: seq<Byte>, b: seq<Byte>) returns (less: bool)
    ensures less == PaddedLess(BytesBits(a), BytesBits(b))
  {
    var n := if |a| > |b| then |a| else |b|;
    var k := 0;
    assert From(a, 0) == a && From(b, 0) == b;
    while k < n
      invariant 0 <= k <= n
      invariant PaddedLess(BytesBits(a), BytesBits(b)) == PaddedLess(BytesBits(From(a, k)), BytesBits(From(b, k)))
    {
      var x, y := if k < |a| then a[k] else 0, if k < |b| then b[k] else 0;
      OctetOrder(From(a, k), From(b, k));
      assert From(a, k + 1) == From(From(a, k), 1) && From(b, k + 1) == From(From(b, k), 1);
      if x != y { return x < y; }
      k := k + 1;
    }
    return false;
  }

  // Element encodings as flush() leaves them: whole octets, zero padded.
  ghost predicate Flushed(e: Encoded) {
    e.Valid() && e.octets == Pack(e.Content())
  }

  method ElementLess(a: Encoded, b: Encoded) returns (less: bool)
    requires Flushed(a) && Flushed(b)
    ensures less == PaddedLess(a.Content(), b.Content())
  {
    less := PaddedLessOctets(a.octets, b.octets);
    ghost var m := PackBits(a.Content());
    ghost var n := PackBits(b.Content());
    PaddingIgnored(a.Content(), b.Content(), m, n);
  }

  ghost predicate AllFlushed(es: seq<Encoded>) {
    forall i :: 0 <= i < |es| ==> Flushed(es[i])
  }

  lemma InsertStep(encs: seq<Bits>, order: seq<nat>, i: nat, back: seq<nat>)
    requires i < |encs| && order != [] && forall k :: 0 <= k < |order| ==> order[k] < |encs|
    requires PaddedLess(encs[i], encs[order[|order| - 1]])
    ensures InsertIndex(encs, order, i) + back == InsertIndex(encs, order[..|order| - 1], i) + ([order[|order| - 1]] + back)
  {
  }

  // Stable insertion of element `i`, from the back.
  method InsertElement(es: seq<Encoded>, order: seq<nat>, i: nat) returns (r: seq<nat>)
    requires AllFlushed(es) && i < |es| && forall k :: 0 <= k < |order| ==> order[k] < |es|
    ensures r == InsertIndex(Contents(es), order, i)
  {
    hide PaddedLess, Pack;
    var j := |order|;
    var back: seq<nat> := [];
    assert order[..j] == order;
    while j > 0
      invariant 0 <= j <= |order|
      invariant InsertIndex(Contents(es), order, i) == InsertIndex(Contents(es), order[..j], i) + back
    {
      var less := ElementLess(es[i], es[order[j - 1]]);
      if !less { break; }
      InsertStep(Contents(es), order[..j], i, back);
      assert order[..j][..j - 1] == order[..j - 1];
      back := [order[j - 1]] + back;
      j := j - 1;
    }
    r := order[..j] + [i] + back;
  }

  // The stable ascending order of the element encodings.
  method StableSort(es: seq<Encoded>) returns (r: seq<Encoded>)
    requires AllFlushed(es)
    ensures AllFlushed(r) && |r| == |es| && Contents(r) == SortEncs(Contents(es))
  {
    hide InsertIndex, PaddedLess, Pack;
    var order: seq<nat> := [];
    for n := 0 to |es|
      invariant order == OrderOf(Contents(es), n)
    {
      order := InsertElement(es, order, n);
    }
    r := seq(|order|, k requires 0 <= k < |order| => es[order[k]]);
    assert Contents(r) == Permute(order, Contents(es));
  }

  // Each element in its own stream, then sorted.  A failing element fails `s`.
  method SortedElements(s: PerEncodeStream, S: Schema, t: nat, vs: seq<Value>) returns (r: seq<Encoded>)
    requires s.Valid() && SchemaWf(S)
    modifies s
    ensures s.Valid() && s.Contents() == old(s.Contents())
    ensures s.failed == (old(s.failed) || EncItems(S, Element(t), vs).None?)
    ensures |r| == |vs| && AllFlushed(r)
    ensures EncItems(S, Element(t), vs).Some? ==> Contents(r) == SortEncs(EncItems(S, Element(t), vs).value)
    decreases vs, 6
  {
    hide Enc, EncItems, SortEncs, BytesBits;
    NoElements(S, t);
    var es: seq<Encoded> := [];
    for i := 0 to |vs|
      invariant s.Valid() && s.Contents() == old(s.Contents()) && |es| == i && AllFlushed(es)
      invariant s.failed == (old(s.failed) || EncItems(S, Element(t), vs[..i]).None?)
      invariant EncItems(S, Element(t), vs[..i]).Some? ==> Contents(es) == EncItems(S, Element(t), vs[..i]).value
    {
      assert vs[..i + 1] == vs[..i] + [vs[i]];
      MoreElements(S, t, vs[..i], vs[i]);
      var e, ok := EncodeElement(S, t, vs[i]);
      if !ok { s.SetEncodeFailed(); }
      assert Contents(es + [e]) == Contents(es) + [e.Content()];
      es := es + [e];
    }
    assert vs[..|vs|] == vs;
    r := StableSort(es);
  }

  lemma NoElements(S: Schema, t: nat)
    ensures EncItems(S, Element(t), []) == Some([])
  {
  }

  lemma MoreElements(S: Schema, t: nat, a: seq<Value>, v: Value)
    ensures EncItems(S, Element(t), a + [v])
         == if EncItems(S, Element(t), a).Some? && Enc(S, t, v).Some? then Some(EncItems(S, Element(t), a).value + [Enc(S, t, v).value]) else None
  {
    hide Enc, EncItems;
    EncItemsSplit(S, Element(t), a, [v]);
    OneItemEnc(S, Element(t), v);
  }

  lemma OneItemEnc(S: Schema, item: Item, v: Value)
    ensures EncItems(S, item, [v]) == if EncItem(S, item, v).Some? then Some([EncItem(S, item, v).value]) else None
  {
    var vs := [v];
    assert vs[1..] == [] && EncItems(S, item, vs[1..]) == Some([]);
    var e := EncItem(S, item, v);
    if e.Some? { assert [e.value] + [] == [e.value]; }
  }

  method EncodeElement(S: Schema, t: nat, v: Value) returns (e: Encoded, ok: bool)
    requires SchemaWf(S)
    ensures Flushed(e) && ok == Enc(S, t, v).Some? && (ok ==> e.Content() == Enc(S, t, v).value)
    decreases v, 11
  {
    var es := new PerEncodeStream();
    Encode(es, S, t, v);
    ok := !es.failed;
    ghost var content := es.Contents();
    var bits := 8 * |es.buf| + es.bits;
    es.Flush();
    ghost var pad := PackBits(content);
    e := Encoded(es.buf, bits);
    assert e.Content() == content;
    assert [] + content == content;
  }

  method EncodeListOf(s: PerEncodeStream, S: Schema, item: Item, size: SizeC, ext: bool, isSet: bool, vs: seq<Value>)
    requires s.Valid() && SchemaWf(S) && (isSet ==> item.Element?)
    modifies s
    ensures Wrote(s, EncListOf(S, item, size, ext, isSet, vs))
    decreases vs, 7
  {
    hide EncItems, BytesBits, PutExtSized, SortEncs;
    assert vs[0..|vs|] == vs;
    if isSet && |vs| > 1 {
      var sorted := SortedElements(s, S, item.t, vs);
      var src := Source(item, vs, Some(sorted));
      assert sorted[0..|vs|] == sorted;
      EncodeExtSizeAndItems(s, S, size, ext, src);
    } else {
      if EncItems(S, item, vs).Some? { ShortSorted(EncItems(S, item, vs).value); }
      EncodeExtSizeAndItems(s, S, size, ext, Source(item, vs, None));
    }
  }

  lemma ShortSorted(encs: seq<Bits>)
    ensures |encs| <= 1 ==> SortEncs(encs) == encs
  {
    if |encs| == 1 { assert OrderOf(encs, 0) == [] && Order(encs) == [0]; }
  }

  method EncodeItem(s: PerEncodeStream, S: Schema, item: Item, v: Value)
    requires s.Valid() && SchemaWf(S)
    modifies s
    ensures Wrote(s, EncItem(S, item, v))
    decreases v, 11
  {
    hide Wrote, BytesBits, BitsOf, PutChar, Enc;
    match item
    case BitItem => if v.BoolV? { WriteBit(s, v.b); } else { Fail(s); }
    case OctetItem => if v.IntV? && 0 <= v.i < 256 { WriteBits(s, v.i, 8); } else { Fail(s); }
    case CharItem(code) => if v.CharV? { EncodeChar(s, code, v.octets); } else { Fail(s); }
    case Element(t) => Encode(s, S, t, v);
  }

  // ---- SEQUENCE ----

  method UnitPresent(uv: UnitV) returns (present: bool)
    ensures present == uv.Present()
  {
    for i := 0 to |uv.fields|
      invariant forall k :: 0 <= k < i ==> uv.fields[k].Absent?
    {
      if uv.fields[i].Has? { return true; }
    }
    return false;
  }

  method AnyAddition(us: seq<UnitV>) returns (has: bool)
    ensures has == HasAdditions(us)
  {
    for i := 0 to |us|
      invariant forall k :: 0 <= k < i ==> !us[k].Present()
    {
      var present := UnitPresent(us[i]);
      if present { return true; }
    }
    return false;
  }

  method WritePreamble(s: PerEncodeStream, ms: seq<Member>, fs: seq<Field>)
    requires s.Valid() && |ms| == |fs|
    modifies s
    ensures Wrote(s, Some(Preamble(ms, fs)))
  {
    for i := 0 to |ms|
      invariant s.Valid() && s.failed == old(s.failed)
      invariant s.Contents() + Preamble(ms[i..], fs[i..]) == old(s.Contents()) + Preamble(ms, fs)
    {
      ghost var rest := Preamble(ms[i + 1..], fs[i + 1..]);
      assert ms[i..][1..] == ms[i + 1..] && fs[i..][1..] == fs[i + 1..];
      if ms[i].optional {
        var suppress := ms[i].dflt.Has? && fs[i] == ms[i].dflt;
        Assoc(s.Contents(), [fs[i].Has? && !suppress], rest);
        s.PutBit(fs[i].Has? && !suppress);
      }
    }
  }

  lemma GroupBitmapAt(ms: seq<Member>, fs: seq<Field>, i: nat)
    requires |ms| == |fs| && i < |ms|
    ensures GroupBitmap(ms[i..], fs[i..])
         == (if ms[i].optional then [fs[i].Has?] else []) + GroupBitmap(ms[i + 1..], fs[i + 1..])
  {
    assert ms[i..][1..] == ms[i + 1..] && fs[i..][1..] == fs[i + 1..];
  }

  method WriteGroupBitmap(s: PerEncodeStream, ms: seq<Member>, fs: seq<Field>)
    requires s.Valid() && |ms| == |fs|
    modifies s
    ensures Wrote(s, Some(GroupBitmap(ms, fs)))
  {
    assert ms[0..] == ms && fs[0..] == fs && GroupBitmap([], []) == [];
    hide GroupBitmap, BytesBits;
    for i := 0 to |ms|
      invariant s.Valid() && s.failed == old(s.failed)
      invariant s.Contents() + GroupBitmap(ms[i..], fs[i..]) == old(s.Contents()) + GroupBitmap(ms, fs)
    {
      GroupBitmapAt(ms, fs, i);
      Assoc(s.Contents(), if ms[i].optional then [fs[i].Has?] else [], GroupBitmap(ms[i + 1..], fs[i + 1..]));
      if ms[i].optional { s.PutBit(fs[i].Has?); }
    }
  }

  method WriteUnitBitmap(s: PerEncodeStream, us: seq<UnitV>)
    requires s.Valid()
    modifies s
    ensures Wrote(s, Some(UnitBitmap(us)))
  {
    for i := 0 to |us|
      invariant s.Valid() && s.failed == old(s.failed)
      invariant s.Contents() + UnitBitmap(us[i..]) == old(s.Contents()) + UnitBitmap(us)
    {
      var present := UnitPresent(us[i]);
      assert us[i..][1..] == us[i + 1..];
      Assoc(s.Contents(), [present], UnitBitmap(us[i + 1..]));
      s.PutBit(present);
    }
  }

  method EncodeField(s: PerEncodeStream, S: Schema, t: nat, f: Field)
    requires s.Valid() && SchemaWf(S) && f.Has?
    modifies s
    ensures Wrote(s, EncField(S, t, f))
    decreases f, 0
  {
    Encode(s, S, t, f.v);
  }

  method WriteMembers(s: PerEncodeStream, S: Schema, ms: seq<Member>, fs: seq<Field>)
    requires s.Valid() && SchemaWf(S) && |ms| == |fs|
    modifies s
    ensures Wrote(s, EncMembers(S, ms, fs))
    decreases fs, 0
  {
    hide BytesBits, BitsOf, Enc, PutOpen;
    ghost var m0, total := s.State(), EncMembers(S, ms, fs);
    for i := 0 to |ms|
      invariant s.Valid() && m0 == old(s.State())
      invariant Progress(m0, s.State(), EncMembers(S, ms[i..], fs[i..]), total)
    {
      ghost var m, rest := s.State(), EncMembers(S, ms[i + 1..], fs[i + 1..]);
      assert ms[i..][1..] == ms[i + 1..] && fs[i..][1..] == fs[i + 1..];
      ghost var step := Some([]);
      if fs[i].Absent? && !ms[i].optional {
        s.SetEncodeFailed();
        step := None;
      } else if fs[i].Has? && fs[i] != ms[i].dflt {
        EncodeField(s, S, ms[i].t, fs[i]);
        step := EncField(S, ms[i].t, fs[i]);
      }
      assert rest.Some? ==> [] + rest.value == rest.value;
      assert m.written + [] == m.written;
      Step(m0, m, EncMembers(S, ms[i..], fs[i..]), total, step, s.State(), rest);
    }
  }

  method WriteGroup(s: PerEncodeStream, S: Schema, ms: seq<Member>, fs: seq<Field>)
    requires s.Valid() && SchemaWf(S) && |ms| == |fs|
    modifies s
    ensures Wrote(s, EncGroup(S, ms, fs))
    decreases fs, 0
  {
    hide BytesBits, BitsOf, Enc, PutOpen;
    ghost var m0, total := s.State(), EncGroup(S, ms, fs);
    for i := 0 to |ms|
      invariant s.Valid() && m0 == old(s.State())
      invariant Progress(m0, s.State(), EncGroup(S, ms[i..], fs[i..]), total)
    {
      ghost var m, rest := s.State(), EncGroup(S, ms[i + 1..], fs[i + 1..]);
      assert ms[i..][1..] == ms[i + 1..] && fs[i..][1..] == fs[i + 1..];
      ghost var step := Some([]);
      if fs[i].Has? {
        EncodeField(s, S, ms[i].t, fs[i]);
        step := EncField(S, ms[i].t, fs[i]);
      } else if !ms[i].optional {
        s.SetEncodeFailed();
        step := None;
      }
      assert rest.Some? ==> [] + rest.value == rest.value;
      assert m.written + [] == m.written;
      Step(m0, m, EncGroup(S, ms[i..], fs[i..]), total, step, s.State(), rest);
    }
  }

  // Writes the finished stream `tmp` as an open type.
  method PutOpenType(s: PerEncodeStream, tmp: PerEncodeStream, ghost out: Option<Bits>)
    requires s.Valid() && tmp.Valid() && s != tmp
    requires tmp.failed == out.None? && (out.Some? ==> tmp.Contents() == out.value)
    modifies s, tmp
    ensures Wrote(s, if out.Some? then Some(PutOpen(out.value)) else None)
  {
    if tmp.failed { s.SetEncodeFailed(); }
    tmp.Flush();
    PutOctets(s, tmp.buf);
  }

  method EncodeOpenType(s: PerEncodeStream, S: Schema, t: nat, v: Value)
    requires s.Valid() && SchemaWf(S)
    modifies s
    ensures Wrote(s, EncOpen(S, t, v))
    decreases v, 11
  {
    var tmp := new PerEncodeStream();
    Encode(tmp, S, t, v);
    assert Enc(S, t, v).Some? ==> [] + Enc(S, t, v).value == Enc(S, t, v).value;
    PutOpenType(s, tmp, Enc(S, t, v));
  }

  method EncodeUnit(s: PerEncodeStream, S: Schema, u: Unit, uv: UnitV)
    requires s.Valid() && SchemaWf(S)
    modifies s
    ensures Wrote(s, if EncUnit(S, u, uv).Some? then Some(PutOpen(EncUnit(S, u, uv).value)) else None)
    decreases uv, 1
  {
    var tmp := new PerEncodeStream();
    ghost var m0 := tmp.State();
    match u {
      case Single(m) =>
        if |uv.fields| == 1 && uv.fields[0].Has? { EncodeField(tmp, S, m.t, uv.fields[0]); } else { tmp.SetEncodeFailed(); }
      case Group(ms) =>
        if |uv.fields| == |ms| {
          WriteGroupBitmap(tmp, ms, uv.fields);
          ghost var m1 := tmp.State();
          WriteGroup(tmp, S, ms, uv.fields);
          Compose(m0, Some(GroupBitmap(ms, uv.fields)), m1, EncGroup(S, ms, uv.fields), tmp.State());
        } else { tmp.SetEncodeFailed(); }
    }
    assert EncUnit(S, u, uv).Some? ==> [] + EncUnit(S, u, uv).value == EncUnit(S, u, uv).value;
    PutOpenType(s, tmp, EncUnit(S, u, uv));
  }

  method WriteUnits(s: PerEncodeStream, S: Schema, us: seq<Unit>, uvs: seq<UnitV>)
    requires s.Valid() && SchemaWf(S) && |us| == |uvs|
    modifies s
    ensures Wrote(s, EncUnits(S, us, uvs))
    decreases uvs, 2
  {
    hide BytesBits, BitsOf, Enc, PutOpen;
    ghost var m0, total := s.State(), EncUnits(S, us, uvs);
    for i := 0 to |us|
      invariant s.Valid() && m0 == old(s.State())
      invariant Progress(m0, s.State(), EncUnits(S, us[i..], uvs[i..]), total)
    {
      ghost var m, rest := s.State(), EncUnits(S, us[i + 1..], uvs[i + 1..]);
      assert us[i..][1..] == us[i + 1..] && uvs[i..][1..] == uvs[i + 1..];
      ghost var step := Some([]);
      var present := UnitPresent(uvs[i]);
      if present {
        EncodeUnit(s, S, us[i], uvs[i]);
        step := if EncUnit(S, us[i], uvs[i]).Some? then Some(PutOpen(EncUnit(S, us[i], uvs[i]).value)) else None;
      }
      assert rest.Some? ==> [] + rest.value == rest.value;
      assert m.written + [] == m.written;
      Step(m0, m, EncUnits(S, us[i..], uvs[i..]), total, step, s.State(), rest);
    }
  }

  method WriteRoot(s: PerEncodeStream, S: Schema, root: seq<Member>, fs: seq<Field>, extensible: bool, has: bool)
    requires s.Valid() && SchemaWf(S) && |fs| == |root|
    modifies s
    ensures Wrote(s, Cat(Some((if extensible then [has] else []) + Preamble(root, fs)), EncMembers(S, root, fs)))
    decreases fs, 1
  {
    ghost var m0 := s.State();
    Assoc(s.Contents(), if extensible then [has] else [], Preamble(root, fs));
    if extensible { s.PutBit(has); }
    WritePreamble(s, root, fs);
    ghost var m1 := s.State();
    WriteMembers(s, S, root, fs);
    Compose(m0, Some((if extensible then [has] else []) + Preamble(root, fs)), m1, EncMembers(S, root, fs), s.State());
  }

  method WriteAdditions(s: PerEncodeStream, S: Schema, us: seq<Unit>, uvs: seq<UnitV>)
    requires s.Valid() && SchemaWf(S) && |us| == |uvs| < FRAGMENT
    modifies s
    ensures Wrote(s, Cat(Some(PutNsLength(|uvs|) + UnitBitmap(uvs)), EncUnits(S, us, uvs)))
    decreases uvs, 3
  {
    ghost var m0 := s.State();
    Assoc(s.Contents(), PutNsLength(|uvs|), UnitBitmap(uvs));
    PutNsLengthBits(s, |uvs|);
    WriteUnitBitmap(s, uvs);
    ghost var m1 := s.State();
    WriteUnits(s, S, us, uvs);
    Compose(m0, Some(PutNsLength(|uvs|) + UnitBitmap(uvs)), m1, EncUnits(S, us, uvs), s.State());
  }

  method EncodeSequence(s: PerEncodeStream, S: Schema, root: seq<Member>, additions: Option<seq<Unit>>, v: Value)
    requires s.Valid() && SchemaWf(S) && v.RecordV? && |v.root| == |root|
    requires |v.units| == if additions.Some? then |additions.value| else 0
    requires |v.units| < FRAGMENT
    modifies s
    ensures Wrote(s, EncSequence(S, root, additions, v))
    decreases v, 7
  {
    var has := false;
    if additions.Some? { has := AnyAddition(v.units); }
    ghost var m0 := s.State();
    WriteRoot(s, S, root, v.root, additions.Some?, has);
    if has {
      ghost var m1 := s.State();
      WriteAdditions(s, S, additions.value, v.units);
      Compose(m0, Cat(Some((if additions.Some? then [has] else []) + Preamble(root, v.root)), EncMembers(S, root, v.root)), m1,
              Cat(Some(PutNsLength(|v.units|) + UnitBitmap(v.units)), EncUnits(S, additions.value, v.units)), s.State());
    }
  }

  // ---- CHOICE ----

  function RootHead(extensible: bool, index: nat, bits: nat): Bits {
    (if extensible then [false] else []) + BitsOf(index, bits)
  }

  method WriteRootIndex(s: PerEncodeStream, extensible: bool, index: nat, bits: nat)
    requires s.Valid()
    modifies s
    ensures Wrote(s, Some(RootHead(extensible, index, bits)))
  {
    hide BitsOf;
    Assoc(s.Contents(), if extensible then [false] else [], BitsOf(index, bits));
    if extensible { s.PutBit(false); }
    s.PutBits(index, bits);
  }

  method WriteAddedIndex(s: PerEncodeStream, k: nat)
    requires s.Valid() && k < INT_LIMIT
    modifies s
    ensures Wrote(s, Some([true] + PutNsNumber(k)))
  {
    hide PutNsNumber;
    Assoc(s.Contents(), [true], PutNsNumber(k));
    s.PutBit(true);
    PutNsNumberBits(s, k);
  }

  lemma ChoiceParts(S: Schema, alts: seq<nat>, bits: nat, more: Option<seq<nat>>, v: Value)
    requires v.ChoiceV?
    ensures EncChoice(S, alts, bits, more, v)
         == var k := v.index - |alts|;
            if k < 0 then Cat(Some(RootHead(more.Some?, v.index, bits)), Enc(S, alts[v.index], v.v))
            else if more.Some? && k < |more.value| && k < INT_LIMIT then Cat(Some([true] + PutNsNumber(k)), EncOpen(S, more.value[k], v.v))
            else None
  {
    hide Enc, EncOpen, PutNsNumber, BitsOf;
  }

  method EncodeChoice(s: PerEncodeStream, S: Schema, alts: seq<nat>, bits: nat, more: Option<seq<nat>>, v: Value)
    requires s.Valid() && SchemaWf(S) && v.ChoiceV?
    modifies s
    ensures Wrote(s, EncChoice(S, alts, bits, more, v))
    decreases v, 7
  {
    hide Enc, EncOpen, EncChoice, PutNsNumber, RootHead, Cat;
    ChoiceParts(S, alts, bits, more, v);
    var count := |alts| + if more.Some? then |more.value| else 0;
    if v.index >= count || v.index - |alts| >= INT_LIMIT {
      s.SetEncodeFailed();
      return;
    }
    ghost var m0 := s.State();
    if v.index < |alts| {
      WriteRootIndex(s, more.Some?, v.index, bits);
      ghost var m1 := s.State();
      Encode(s, S, alts[v.index], v.v);
      Compose(m0, Some(RootHead(more.Some?, v.index, bits)), m1, Enc(S, alts[v.index], v.v), s.State());
    } else {
      var k := v.index - |alts|;
      WriteAddedIndex(s, k);
      ghost var m1 := s.State();
      EncodeOpenType(s, S, more.value[k], v.v);
      Compose(m0, Some([true] + PutNsNumber(k)), m1, EncOpen(S, more.value[k], v.v), s.State());
    }
  }

  // ---- dispatch ----

  // Writes one value with the handler of its descriptor.
  method Encode(s: PerEncodeStream, S: Schema, t: nat, v: Value)
    requires s.Valid() && SchemaWf(S)
    modifies s
    ensures Wrote(s, Enc(S, t, v))
    decreases v, 10
  {
    hide Wrote, EncAs;
    if t >= |S| {
      Fail(s);
    } else {
      assert TyWf(S[t], |S|);
      EncodeWith(s, S, S[t], v);
    }
  }

  method EncodeWith(s: PerEncodeStream, S: Schema, ty: Ty, v: Value)
    requires s.Valid() && SchemaWf(S) && TyWf(ty, |S|)
    modifies s
    ensures Wrote(s, EncAs(S, ty, v))
    decreases v, 9
  {
    hide Wrote, EncAs, TyWf;
    if ty.Sequence? || ty.Choice? { EncodeConstructed(s, S, ty, v); }
    else if ty.List? || ty.Str? { EncodeSizeType(s, S, ty, v); }
    else { EncodePrimitive(s, S, ty, v); }
  }

  method EncodePrimitive(s: PerEncodeStream, S: Schema, ty: Ty, v: Value)
    requires s.Valid() && TyWf(ty, |S|)
    requires ty.Boolean? || ty.Null? || ty.Int? || ty.UInt? || ty.Enum?
    modifies s
    ensures Wrote(s, EncAs(S, ty, v))
  {
    hide Wrote, BytesBits, BitsOf, PutInt, PutEnum;
    match ty
    case Boolean => if v.BoolV? { WriteBit(s, v.b); } else { Fail(s); }
    case Null => if v.NullV? { WriteNothing(s); } else { Fail(s); }
    case Int(c) => if v.IntV? { EncodeInteger(s, c, v.i); } else { Fail(s); }
    case UInt(c) => if v.IntV? { EncodeInteger(s, c, v.i); } else { Fail(s); }
    case Enum(e) => if v.IntV? { EncodeEnum(s, e, v.i); } else { Fail(s); }
  }

  method EncodeSizeType(s: PerEncodeStream, S: Schema, ty: Ty, v: Value)
    requires s.Valid() && SchemaWf(S) && TyWf(ty, |S|) && (ty.List? || ty.Str?)
    modifies s
    ensures Wrote(s, EncAs(S, ty, v))
    decreases v, 8
  {
    hide Wrote, EncListOf, PutStr, SchemaWf;
    if !v.ListV? { Fail(s); }
    else if ty.List? { EncodeListOf(s, S, ty.item, ty.size, ty.ext, ty.isSet, v.items); }
    else { EncodeString(s, S, ty.kind, ty.from, ty.size, ty.ext, v.items); }
  }

  method EncodeConstructed(s: PerEncodeStream, S: Schema, ty: Ty, v: Value)
    requires s.Valid() && SchemaWf(S) && TyWf(ty, |S|) && (ty.Sequence? || ty.Choice?)
    modifies s
    ensures Wrote(s, EncAs(S, ty, v))
    decreases v, 8
  {
    hide Wrote, EncSequence, EncChoice, SchemaWf;
    if ty.Choice? {
      if v.ChoiceV? { EncodeChoice(s, S, ty.alts, ty.indexBits, ty.more, v); } else { Fail(s); }
    } else if v.RecordV? && |v.root| == |ty.root| && |v.units| == (if ty.additions.Some? then |ty.additions.value| else 0) {
      EncodeSequence(s, S, ty.root, ty.additions, v);
    } else {
      Fail(s);
    }
  }
}
