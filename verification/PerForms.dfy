/**
 * The forms the PER encoder chooses.  Whatever a decoder would accept in their
 * place is at least as long, and flags, bitmaps and field widths are those the
 * constraints call for.
 */
module PerForms {
  import opened Bits
  import opened Options
  import opened Integers
  import opened PerTypes
  import opened PerEncode
  import opened PerDecode
  import opened PerNumbers
  import opened PerItems

  // Bit `i` of a field of `n` bits, the most significant first.
  lemma {:induction false} FieldBit(v: nat, n: nat, i: nat)
    requires i < n
    ensures BitsOf(v, n)[i] <==> (v / Pow2(n - 1 - i)) % 2 == 1
    decreases n
  {
    if i < n - 1 {
      FieldBit(v / 2, n - 1, i);
      var p := Pow2(n - 2 - i);
      assert v / 2 / p == v / (2 * p) by { HalfDivides(v, p); }
    } else {
      Pow2Zero();
      assert v / 1 == v;
    }
  }

  lemma HalfDivides(v: nat, p: nat)
    requires p > 0
    ensures v / 2 / p == v / (2 * p)
  {
    var h := v / 2;
    var q, r := h / p, h % p;
    assert v == (2 * p) * q + (2 * r + v % 2);
    ModUnique(v, 2 * p, q, 2 * r + v % 2);
  }

  // ---- length determinants and whole numbers ----

  lemma LengthSize(n: nat)
    requires n < 16384
    ensures |PutLength(n)| == if n < 128 then 8 else 16
  {
  }

  // No shorter determinant is read as `n`.
  lemma LengthShortest(n: nat, b: Bits, s: Bits)
    requires n < 16384 && GetLength(b + s) == Ok(n, s)
    ensures |PutLength(n)| <= |b|
  {
    hide NatOf, BitsOf;
    var first := Get(8, b + s);
    assert first.v < 0x80 ==> |b| == 8;
    assert first.v >= 0x80 ==> |b| == 16;
  }

  // The same of the number of extension additions.
  lemma NsLengthShortest(n: nat, b: Bits, s: Bits)
    requires n < 16384 && GetNsLength(b + s) == Ok(n, s)
    ensures |PutNsLength(n)| <= |b|
  {
    hide NatOf, BitsOf, GetLength, PutLength;
    NsLengthRead(b, s);
    if (b + s)[0] {
      assert (b + s)[1..] == b[1..] + s;
      LengthShortest(n, b[1..], s);
      LengthSize(n);
    }
  }

  lemma NsLengthRead(b: Bits, s: Bits)
    requires GetNsLength(b + s).Ok? && GetNsLength(b + s).rest == s
    ensures b != [] && (!(b + s)[0] ==> |b| == 7 && 1 <= GetNsLength(b + s).v <= 64)
  {
    hide NatOf, GetLength;
    assert Pow2(6) == 64 by { Pow2Values(); }
    assert (b + s)[0] ==> |GetLength((b + s)[1..]).rest| <= |b + s| - 1;
  }

  // Octets shifted in take eight bits each and hold the number they give.
  lemma {:induction false} OctetsOntoSize(v: nat, k: nat, limit: nat, b: Bits)
    requires GetOctetsOnto(v, k, limit, b).Ok?
    ensures var r := GetOctetsOnto(v, k, limit, b); |r.rest| == |b| - 8 * k && r.v < (v + 1) * Pow2(8 * k)
    decreases k
  {
    hide NatOf, Pow2;
    Pow2Zero();
    if k > 0 {
      Pow2Of8();
      OctetsOntoSize(v * 256 + NatOf(b[..8]), k - 1, limit, b[8..]);
      Pow2Sum(8, 8 * (k - 1));
      MulMono(Pow2(8 * (k - 1)), v * 256 + NatOf(b[..8]) + 1, (v + 1) * 256);
      assert ((v + 1) * 256) * Pow2(8 * (k - 1)) == (v + 1) * (256 * Pow2(8 * (k - 1)));
    }
  }

  lemma OctetsHold(k: nat, limit: nat, b: Bits)
    requires k > 0 && GetOctetsOnto(0, k, limit, b).Ok?
    ensures |GetOctetsOnto(0, k, limit, b).rest| == |b| - 8 * k && UOctets(GetOctetsOnto(0, k, limit, b).v) <= k
  {
    OctetsOntoSize(0, k, limit, b);
    UOctetsLeast(GetOctetsOnto(0, k, limit, b).v, k);
  }

  lemma SemiShortest(n: nat, b: Bits, s: Bits)
    requires GetSemi(b + s) == Ok(n, s)
    ensures |PutSemi(n)| <= |b|
  {
    hide NatOf, BitsOf, GetOctetsOnto, UOctets;
    var len := Get(8, b + s);
    OctetsHold(len.v, TOP_OCTET_64, len.rest);
  }

  lemma LengthTakes(b: Bits)
    requires GetLength(b).Ok?
    ensures |GetLength(b).rest| <= |b| - 8
  {
  }

  lemma NsNumberSize(n: nat)
    requires n < INT_LIMIT
    ensures |PutNsNumber(n)| == if n < 64 then 7 else 9 + 8 * UOctets(n)
  {
    UOctetsOfInt(n);
    LengthSize(UOctets(n));
  }

  // The same of the index of an addition.
  lemma NsNumberShortest(n: nat, b: Bits, s: Bits)
    requires n < INT_LIMIT && GetNsNumber(b + s) == Ok(n, s)
    ensures |PutNsNumber(n)| <= |b|
  {
    hide NatOf, BitsOf, GetOctetsOnto, GetLength, PutNsNumber, UOctets;
    NsNumberSize(n);
    assert Pow2(6) == 64 by { Pow2Values(); }
    if (b + s)[0] {
      var len := GetLength((b + s)[1..]);
      LengthTakes((b + s)[1..]);
      OctetsHold(len.v, TOP_OCTET_INT, len.rest);
    }
  }

  lemma UnconstrainedShortest(v: int, b: Bits, s: Bits)
    requires GetUnconstrained(b + s) == Ok(v, s)
    ensures |PutUnconstrained(v)| <= |b|
  {
    hide NatOf, BitsOf, Pow2, SOctets;
    var len := Get(8, b + s);
    Pow2Step(8 * len.v - 1);
    SOctetsLeast(v, len.v);
  }

  // ---- counts of items ----

  // The bits all length octets of `n` items take: a header for every four
  // blocks of 16K, one for the blocks left over, and the last length.
  function LengthBits(n: nat): nat {
    8 * ((n / 16384 + 3) / 4) + if n % 16384 < 128 then 8 else 16
  }

  lemma LengthBitsStep(n: nat, k: nat)
    requires 1 <= k && k * 16384 <= n
    ensures k <= 4 ==> LengthBits(n) <= 8 + LengthBits(n - k * 16384)
    ensures k == 4 || (k < 4 && n < (k + 1) * 16384) ==> LengthBits(n) == 8 + LengthBits(n - k * 16384)
  {
    var q := n / 16384;
    ModUnique(n - k * 16384, 16384, q - k, n % 16384);
  }

  // A fragment header announces as many blocks as there are, up to four.
  lemma HeaderLargest(n: nat)
    requires n >= 16384
    ensures exists k {:trigger BitsOf(0xC0 + k, 8)} ::
              1 <= k <= 4 && BlockOctet(n) == BitsOf(0xC0 + k, 8) && BlockSize(n) == k * 16384 <= n && (k == 4 || n < (k + 1) * 16384)
  {
    var k := Blocks(n);
    assert BlockOctet(n) == BitsOf(0xC0 + k, 8);
  }

  lemma {:induction false} ItemsSize(encs: seq<Bits>)
    ensures |PutItems(encs)| == LengthBits(|encs|) + |Concat(encs)|
    decreases |encs|
  {
    hide Concat, BitsOf, PutLength;
    if |encs| < 16384 {
      LengthSize(|encs|);
    } else {
      hide LengthBits, PutItems;
      var m := BlockSize(|encs|);
      HeaderLargest(|encs|);
      ItemsBlock(encs, m);
      ItemsSize(encs[m..]);
      ConcatSplit(encs[..m], encs[m..]);
      assert encs == encs[..m] + encs[m..];
      LengthBitsStep(|encs|, Blocks(|encs|));
    }
  }

  // However octets are split into fragments, the encoder's split is no longer.
  lemma {:induction false} OctetsShortest(n: nat, b: Bits, s: Bits)
    requires GetOctets(b + s).Ok? && GetOctets(b + s).rest == s && |GetOctets(b + s).v| == 8 * n
    ensures LengthBits(n) + 8 * n <= |b|
    decreases |b|
  {
    hide NatOf, LengthBits, GetOctets;
    var first := Get(8, b + s);
    OctetsRead(b + s);
    if first.v >= 0xC0 {
      var k := first.v - 0xC0;
      var size := 8 * k * FRAGMENT;
      var rest := first.rest[size..];
      var b' := b[8 + size..];
      assert rest == b' + s;
      OctetsShortest(n - k * 16384, b', s);
      LengthBitsStep(n, k);
    } else {
      var len := GetLength(b + s);
      assert len.v == n && |len.rest| == 8 * n + |s|;
      var h := (b + s)[..|b| - 8 * n];
      assert b + s == h + len.rest by { LengthSuffix(b + s); }
      LengthBelow(b + s);
      LengthShortest(n, h, len.rest);
      LengthSize(n);
      ShortLengthBits(n);
    }
  }

  lemma ShortLengthBits(n: nat)
    requires n < 16384
    ensures LengthBits(n) == if n < 128 then 8 else 16
  {
  }

  lemma LengthSuffix(b: Bits)
    requires GetLength(b).Ok?
    ensures GetLength(b).rest == b[|b| - |GetLength(b).rest|..]
  {
  }

  lemma LengthBelow(b: Bits)
    requires GetLength(b).Ok?
    ensures GetLength(b).v < 16384
  {
    hide NatOf;
    Pow2Of8();
  }

  // One step of reading octets.
  lemma OctetsRead(b: Bits)
    requires GetOctets(b).Ok?
    ensures |b| >= 8
    ensures var first, r := Get(8, b), GetOctets(b);
            if first.v >= 0xC0 then
              var k := first.v - 0xC0;
              && 1 <= k <= 4 && |b| >= 8 + 8 * k * FRAGMENT
              && var more := GetOctets(first.rest[8 * k * FRAGMENT..]);
                 more.Ok? && more.rest == r.rest && |r.v| == 8 * k * FRAGMENT + |more.v|
            else
              var len := GetLength(b);
              len.Ok? && |r.v| == 8 * len.v && |len.rest| == 8 * len.v + |r.rest|
  {
    hide NatOf;
  }

  // The count of a list: one flag where the size is extensible, a field of the
  // constraint's width where it applies, length octets everywhere else.  Only
  // a count outside a size that is small and not extensible is refused.
  lemma SizeForm(size: SizeC, ext: bool, encs: seq<Bits>)
    ensures var n, r := |encs|, PutExtSized(size, ext, encs);
            && (r.Some? <==> size.AnySize? || size.hi >= 65536 || ext || size.lo <= n <= size.hi)
            && (r.Some? ==>
                  && (ext && size.Size? ==> r.value != [] && (r.value[0] <==> !(size.lo <= n <= size.hi)))
                  && |r.value| == |Concat(encs)| + (if ext && size.Size? then 1 else 0)
                     + (if size.Size? && size.hi < 65536 && size.lo <= n <= size.hi then size.bits else LengthBits(n)))
  {
    hide PutItems, Concat, BitsOf, LengthBits;
    ItemsSize(encs);
  }

  lemma {:induction false} OctetItemsSize(S: Schema, vs: seq<Value>)
    requires EncItems(S, OctetItem, vs).Some?
    ensures |Concat(EncItems(S, OctetItem, vs).value)| == 8 * |vs|
    decreases |vs|
  {
    if vs != [] { OctetItemsSize(S, vs[1..]); }
  }

  // An OCTET STRING without a SIZE.
  lemma OctetStringSize(S: Schema, ext: bool, vs: seq<Value>)
    requires EncAs(S, List(OctetItem, AnySize, ext, false), ListV(vs)).Some?
    ensures |EncAs(S, List(OctetItem, AnySize, ext, false), ListV(vs)).value| == 8 * |vs| + LengthBits(|vs|)
    ensures |vs| < 128 ==> LengthBits(|vs|) == 8
    ensures 128 <= |vs| < 16384 ==> LengthBits(|vs|) == 16
  {
    hide PutItems, PutExtSized, EncItems, Concat;
    OctetItemsSize(S, vs);
    SizeForm(AnySize, ext, EncItems(S, OctetItem, vs).value);
  }

  // ---- open types ----

  // An open type takes whole octets, one at least.
  lemma OpenSize(b: Bits)
    ensures var octets := if b == [] then 1 else (|b| + 7) / 8; |PutOpen(b)| == LengthBits(octets) + 8 * octets
  {
    hide PutItems, Pack, OctetItems, Concat, LengthBits;
    var _ := PackBits(b);
    ItemsSize(OctetItems(Pack(b)));
    OctetItemsConcat(Pack(b));
  }

  // ---- INTEGER, ENUMERATED and CHOICE ----

  // The extension bit tells values outside the constraint; they and those of
  // an unconstrained type take a count and octets, the others a field of the
  // range's width or the octets of the offset.
  lemma IntegerForm(c: Bounds, i: int)
    ensures var inside := c.Unbounded? || (c.lo <= i && (c.Range? ==> i <= c.hi));
            var flag := if c.Unbounded? || !c.ext then 0 else 1;
            var b := PutInt(c, i);
            && (flag == 1 ==> b != [] && (b[0] <==> !inside))
            && |b| == flag + (if c.Unbounded? || (flag == 1 && !inside) then 8 + 8 * SOctets(WrapS(i))
                              else if c.Range? then c.bits
                              else 8 + 8 * UOctets(WrapU(i - c.lo)))
  {
    hide SOctets, UOctets, BitsOf, WrapS, WrapU;
  }

  // The first `rootCount` values of the table, or all of it, are the root.
  lemma EnumForm(S: Schema, e: EnumSpec, p: nat)
    requires var root := if e.rootCount > 0 then e.rootCount else |e.entries|;
             root <= |e.entries| < INT_LIMIT && (e.extensible || root == |e.entries|)
    requires Sorted(e.entries) && p < |e.entries|
    ensures var root := if e.rootCount > 0 then e.rootCount else |e.entries|;
            && EncAs(S, Enum(e), IntV(e.entries[p])).Some?
            && var b := EncAs(S, Enum(e), IntV(e.entries[p])).value;
               && (e.extensible ==> b != [] && (b[0] <==> p >= root))
               && |b| == (if e.extensible then 1 else 0) + (if p < root then RangeBits(root) else |PutNsNumber(p - root)|)
  {
    hide IndexOf, RangeBits, PutNsNumber, BitsOf;
    assert IndexOf(e.entries, e.entries[p]) == Some(p);
  }

  lemma ChoiceForm(S: Schema, alts: seq<nat>, bits: nat, more: Option<seq<nat>>, v: Value)
    requires v.ChoiceV? && EncChoice(S, alts, bits, more, v).Some?
    ensures var b := EncChoice(S, alts, bits, more, v).value;
            && (more.Some? ==> b != [] && (b[0] <==> v.index >= |alts|))
            && if v.index < |alts| then
                 Enc(S, alts[v.index], v.v).Some?
                 && |b| == (if more.Some? then 1 else 0) + bits + |Enc(S, alts[v.index], v.v).value|
               else
                 more.Some? && v.index - |alts| < |more.value| && v.index - |alts| < INT_LIMIT
                 && EncOpen(S, more.value[v.index - |alts|], v.v).Some?
                 && |b| == 1 + |PutNsNumber(v.index - |alts|)| + |EncOpen(S, more.value[v.index - |alts|], v.v).value|
  {
    hide BitsOf, PutNsNumber, EncOpen, Enc;
  }

  // ---- character strings ----

  // Bits of a character in the type's own code.
  lemma NaturalBits(kind: StringKind, octets: seq<Byte>)
    ensures var c := PutChar(NaturalCode(kind), octets);
            && (c.Some? <==> |octets| == match kind case Bmp => 2 case Universal => 4 case _ => 1)
            && (c.Some? ==> |c.value| == match kind case NumericString => 4 case Ia5String => 7 case SevenBit => 7
                                                    case EightBit => 8 case Bmp => 16 case Universal => 32)
  {
  }

  // A NumericString character that is no digit is written as a space.
  lemma NumericForm(c: Byte)
    ensures PutChar(Numeric, [c]) == Some(BitsOf(if 48 <= c <= 57 then c - 47 else 0, 4))
    ensures CharSeen(Numeric, [c]) == if 48 <= c <= 57 then [c] else [32]
  {
  }

  // The type has this character, where the encoder checks its own set at all.
  predicate Legal(kind: StringKind, c: Value) {
    c.CharV? && |c.octets| == 1 ==>
      && (kind.NumericString? ==> c.octets[0] == 32 || 48 <= c.octets[0] <= 57)
      && (kind.Ia5String? ==> c.octets[0] < 128)
  }

  // The permitted alphabet has it.
  predicate Listed(alphabet: seq<Byte>, c: Value) {
    && c.CharV? && c.octets != [] && c.octets[|c.octets| - 1] in alphabet
    && forall i :: 0 <= i < |c.octets| - 1 ==> c.octets[i] == 0
  }

  predicate AllLegal(kind: StringKind, chars: seq<Value>) {
    forall i :: 0 <= i < |chars| ==> Legal(kind, chars[i])
  }

  predicate AllListed(from: Option<CharCode>, chars: seq<Value>)
    requires from.Some? ==> from.value.Indexed?
  {
    from.Some? ==> forall i :: 0 <= i < |chars| ==> Listed(from.value.alphabet, chars[i])
  }

  // Every character has as many octets as the type's characters.
  predicate Whole(kind: StringKind, chars: seq<Value>) {
    forall i :: 0 <= i < |chars| ==> chars[i].CharV? && |chars[i].octets| == match kind case Bmp => 2 case Universal => 4 case _ => 1
  }

  lemma ListedIsInAlphabet(code: CharCode, width: nat, c: Value)
    requires code.Indexed? && CodeWf(code, width) && c.CharV? && |c.octets| == width
    ensures Listed(code.alphabet, c) <==> InAlphabet(code, c.octets)
  {
    var last := c.octets[width - 1];
    if last in code.alphabet {
      var i :| 0 <= i < |code.alphabet| && code.alphabet[i] == last;
      assert code.table[last] == i;
    }
  }

  lemma {:induction false} CharsEncoded(kind: StringKind, from: Option<CharCode>, chars: seq<Value>)
    requires Whole(kind, chars) && (from.Some? ==> from.value.Indexed? && CodeWf(from.value, CharWidth(kind)))
    ensures EncChars(NaturalCode(kind), chars).Some?
    ensures EncChars(CodeOf(kind, from), chars).Some? <==> AllListed(from, chars)
    decreases |chars|
  {
    hide InAlphabet, Listed;
    if chars != [] {
      CharsEncoded(kind, from, chars[1..]);
      NaturalBits(kind, chars[0].octets);
      if from.Some? {
        ListedIsInAlphabet(from.value, CharWidth(kind), chars[0]);
        assert forall i :: 0 < i < |chars| ==> chars[i] == chars[1..][i - 1];
        assert AllListed(from, chars) <==> Listed(from.value.alphabet, chars[0]) && AllListed(from, chars[1..]);
      }
    }
  }

  lemma RootIsListed(kind: StringKind, from: Option<CharCode>, size: SizeC, chars: seq<Value>)
    requires Whole(kind, chars) && (from.Some? ==> from.value.Indexed? && CodeWf(from.value, CharWidth(kind)))
    ensures StrInRoot(CodeOf(kind, from), size, chars) <==> (size.Size? ==> size.lo <= |chars| <= size.hi) && AllListed(from, chars)
    ensures NaturalOk(kind, chars) <==> AllLegal(kind, chars)
  {
    hide InAlphabet, Listed;
    if from.Some? {
      forall i | 0 <= i < |chars| ensures Listed(from.value.alphabet, chars[i]) <==> InAlphabet(from.value, chars[i].octets) {
        ListedIsInAlphabet(from.value, CharWidth(kind), chars[i]);
      }
    }
  }

  // Which strings are accepted, and what the extension bit tells of them: an
  // extensible type takes what is in its root, and anything its own set has.
  lemma StringAccepted(kind: StringKind, from: Option<CharCode>, size: SizeC, ext: bool, chars: seq<Value>)
    requires Whole(kind, chars) && (from.Some? ==> from.value.Indexed? && CodeWf(from.value, CharWidth(kind)))
    ensures var inRoot := (size.Size? ==> size.lo <= |chars| <= size.hi) && AllListed(from, chars);
            var r := PutStr(kind, from, size, ext, chars);
            && (r.Some? <==> if ext then inRoot || AllLegal(kind, chars) else inRoot && (from.None? ==> AllLegal(kind, chars)))
            && (r.Some? && ext ==> r.value != [] && (r.value[0] <==> !inRoot))
  {
    hide EncChars, PutItems, BitsOf, StrInRoot, NaturalOk, AllLegal, AllListed, Whole, Concat;
    RootIsListed(kind, from, size, chars);
    CharsEncoded(kind, from, chars);
  }

  // ---- SEQUENCE ----

  // The preamble has a bit for each optional member, set when a value other
  // than the DEFAULT is there.
  lemma {:induction false} PreambleAt(ms: seq<Member>, fs: seq<Field>, i: nat)
    requires |ms| == |fs| && i < |ms| && ms[i].optional
    ensures OptionalCount(ms[..i]) < |Preamble(ms, fs)|
    ensures Preamble(ms, fs)[OptionalCount(ms[..i])] <==> fs[i].Has? && fs[i] != ms[i].dflt
    decreases i
  {
    if i > 0 {
      PreambleAt(ms[1..], fs[1..], i - 1);
      assert ms[..i] == [ms[0]] + ms[1..][..i - 1];
      assert ms[..i][1..] == ms[1..][..i - 1];
    }
  }

  // Inside an extension addition group a DEFAULT is not left out.
  lemma {:induction false} GroupBitmapAt(ms: seq<Member>, fs: seq<Field>, i: nat)
    requires |ms| == |fs| && i < |ms| && ms[i].optional
    ensures OptionalCount(ms[..i]) < |GroupBitmap(ms, fs)|
    ensures GroupBitmap(ms, fs)[OptionalCount(ms[..i])] <==> fs[i].Has?
    decreases i
  {
    if i > 0 {
      GroupBitmapAt(ms[1..], fs[1..], i - 1);
      assert ms[..i] == [ms[0]] + ms[1..][..i - 1];
      assert ms[..i][1..] == ms[1..][..i - 1];
    }
  }

  // A root member that equals its DEFAULT is written as if it were absent.
  lemma {:induction false} MembersOmit(S: Schema, ms: seq<Member>, fs: seq<Field>, i: nat)
    requires |ms| == |fs| && i < |ms| && ms[i].optional && fs[i] == ms[i].dflt
    ensures Preamble(ms, fs) == Preamble(ms, fs[i := Absent])
    ensures EncMembers(S, ms, fs) == EncMembers(S, ms, fs[i := Absent])
    decreases i
  {
    hide EncField;
    if i > 0 {
      MembersOmit(S, ms[1..], fs[1..], i - 1);
      assert fs[i := Absent][1..] == fs[1..][i - 1 := Absent];
    } else {
      assert fs[0 := Absent][1..] == fs[1..];
    }
  }

  lemma DefaultOmitted(S: Schema, root: seq<Member>, additions: Option<seq<Unit>>, fields: seq<Field>, units: seq<UnitV>, i: nat)
    requires |fields| == |root| && |units| == if additions.Some? then |additions.value| else 0
    requires i < |root| && root[i].optional && fields[i] == root[i].dflt
    ensures EncAs(S, Sequence(root, additions), RecordV(fields, units))
         == EncAs(S, Sequence(root, additions), RecordV(fields[i := Absent], units))
  {
    hide EncMembers, Preamble, EncUnits, PutNsLength, UnitBitmap;
    MembersOmit(S, root, fields, i);
  }

  // The extension bit says whether any addition has a value.
  lemma ExtensionBit(S: Schema, root: seq<Member>, units: seq<Unit>, v: Value)
    requires v.RecordV? && EncAs(S, Sequence(root, Some(units)), v).Some?
    ensures var b := EncAs(S, Sequence(root, Some(units)), v).value;
            && b != []
            && (b[0] <==> exists i, j :: 0 <= i < |v.units| && 0 <= j < |v.units[i].fields| && v.units[i].fields[j].Has?)
  {
    hide EncMembers, Preamble, EncUnits, PutNsLength, UnitBitmap;
  }
}
