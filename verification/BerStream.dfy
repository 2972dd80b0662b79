/** The BER writer and reader: octets appended and patched in place, a cursor over a span. */
module BerStream {
  import opened Bits
  import opened Integers
  import opened Octets
  import opened Options
  import opened BerTlv

  // The septets of a tag number, last one first.
  method Septets(number: nat) returns (tmp: seq<Byte>)
    ensures tmp != [] && forall i :: 0 <= i < |tmp| ==> tmp[i] < 128
    ensures Unreversed(tmp) == HighSeptets(number / 128) + [number % 128]
  {
    hide HighSeptets;
    tmp := [number % 128];
    var n: nat := number / 128;
    assert Unreversed(tmp) == [number % 128] by { assert tmp[1..] == []; }
    while n > 0
      invariant tmp != [] && forall i :: 0 <= i < |tmp| ==> tmp[i] < 128
      invariant HighSeptets(number / 128) + [number % 128] == HighSeptets(n) + Unreversed(tmp)
      decreases n
    {
      UnreversedMore(tmp, n % 128);
      HighSeptetsStep(n, Unreversed(tmp));
      tmp := tmp + [n % 128];
      n := n / 128;
    }
    HighSeptetsStep(0, Unreversed(tmp));
  }

  lemma HighSeptetsStep(n: nat, u: seq<Byte>)
    ensures n > 0 ==> HighSeptets(n) + u == HighSeptets(n / 128) + ([128 + n % 128] + u)
    ensures n == 0 ==> HighSeptets(n) + u == u
  {
  }

  // From last to first, all but the first with the top bit set.
  function Unreversed(tmp: seq<Byte>): seq<Byte>
    requires tmp != [] && forall i :: 0 <= i < |tmp| ==> tmp[i] < 128
  {
    Marked(tmp[1..]) + [tmp[0]]
  }

  function Marked(tmp: seq<Byte>): seq<Byte>
    requires forall i :: 0 <= i < |tmp| ==> tmp[i] < 128
  {
    if tmp == [] then [] else [128 + tmp[|tmp| - 1]] + Marked(tmp[..|tmp| - 1])
  }

  lemma UnreversedMore(tmp: seq<Byte>, c: Byte)
    requires tmp != [] && c < 128 && forall i :: 0 <= i < |tmp| ==> tmp[i] < 128
    ensures Unreversed(tmp + [c]) == [128 + c] + Unreversed(tmp)
  {
    assert (tmp + [c])[1..] == tmp[1..] + [c];
    assert (tmp[1..] + [c])[..|tmp| - 1] == tmp[1..];
  }

  // The octets of a tag in a buffer of their own.
  method EncodeTagToBuf(t: Tag) returns (out: seq<Byte>)
    requires TagWf(t)
    ensures out == TagOctets(t)
  {
    hide HighSeptets;
    if t.number < 31 { return [Leading(t, t.number)]; }
    out := [Leading(t, 31)];
    var tmp := Septets(t.number);
    var rest: seq<Byte> := [];
    var j := |tmp|;
    assert tmp[1..] == tmp[1..j];
    assert rest + Marked(tmp[1..j]) == Marked(tmp[1..]);
    while j > 1
      invariant 1 <= j <= |tmp|
      invariant rest + Marked(tmp[1..j]) == Marked(tmp[1..])
    {
      j := j - 1;
      assert tmp[1..j + 1][..j - 1] == tmp[1..j];
      MarkedLast(rest, tmp[1..j + 1]);
      rest := rest + [128 + tmp[j]];
    }
    assert tmp[1..1] == [];
    out := out + (rest + [tmp[0]]);
  }

  lemma MarkedLast(rest: seq<Byte>, t: seq<Byte>)
    requires t != [] && forall i :: 0 <= i < |t| ==> t[i] < 128
    ensures rest + Marked(t) == (rest + [128 + t[|t| - 1]]) + Marked(t[..|t| - 1])
  {
    hide Marked;
    MarkedStep(t);
    Regroup(rest, [128 + t[|t| - 1]], Marked(t[..|t| - 1]));
  }

  lemma Regroup(a: seq<Byte>, b: seq<Byte>, c: seq<Byte>)
    ensures a + (b + c) == (a + b) + c
  {
  }

  lemma MarkedStep(t: seq<Byte>)
    requires t != [] && forall i :: 0 <= i < |t| ==> t[i] < 128
    ensures Marked(t) == [128 + t[|t| - 1]] + Marked(t[..|t| - 1])
  {
  }

  class BerWriter {
    var buf: seq<Byte>
    var failed: bool

    constructor ()
      ensures buf == [] && !failed
    {
      buf, failed := [], false;
    }

    method WriteTag(t: Tag)
      requires TagWf(t)
      modifies this
      ensures buf == old(buf) + TagOctets(t) && failed == old(failed)
    {
      var octets := EncodeTagToBuf(t);
      buf := buf + octets;
    }

    method WriteLength(len: nat)
      modifies this
      ensures buf == old(buf) + LengthOctets(len) && failed == old(failed)
    {
      var octets := EncodeLength(len);
      buf := buf + octets;
    }

    method WritePrimitive(t: Tag, value: seq<Byte>)
      requires TagWf(t)
      modifies this
      ensures buf == old(buf) + TlvOctets(t, value) && failed == old(failed)
    {
      hide TagOctets, LengthOctets;
      WriteTag(t);
      WriteLength(|value|);
      buf := buf + value;
      assert buf == old(buf) + (TagOctets(t) + (LengthOctets(|value|) + value));
    }

    method Append(data: seq<Byte>)
      modifies this
      ensures buf == old(buf) + data && failed == old(failed)
    {
      buf := buf + data;
    }

    method SetEncodeFailed()
      modifies this
      ensures failed && buf == old(buf)
    {
      failed := true;
    }

    // Overwrites `oldN` octets at `p`, moving the tail when the size changes.
    method ReplaceAt(p: nat, oldN: nat, data: seq<Byte>)
      requires p + oldN <= |buf|
      modifies this
      ensures buf == old(buf)[..p] + data + old(buf)[p + oldN..] && failed == old(failed)
    {
      var newN := |data|;
      if oldN == newN {
        buf := buf[..p] + data + buf[p + newN..];
      } else if newN < oldN {
        var tail := buf[p + oldN..];
        buf := buf[..p] + data + buf[p + newN..];
        buf := buf[..p + newN] + tail + buf[p + newN + |tail|..];
        buf := buf[..|buf| - (oldN - newN)];
      } else {
        buf := buf[..p + oldN] + seq(newN - oldN, _ => 0) + buf[p + oldN..];
        buf := buf[..p] + data + buf[p + newN..];
      }
    }

    // Octets of the tag written at `p`.
    method TagByteCount(p: nat) returns (n: nat)
      requires p < |buf| && TagComplete(buf[p..])
      ensures n == TagSize(buf[p..])
    {
      if buf[p] % 32 != 31 { return 1; }
      n := 1;
      ghost var total := SeptetCount(buf[p + 1..]);
      assert buf[p..][1..] == buf[p + 1..];
      while buf[p + n] >= 128
        invariant 1 <= n <= total && p + n < |buf|
        invariant SeptetCount(buf[p + 1..]) == n - 1 + SeptetCount(buf[p + n..])
        decreases |buf| - n
      {
        assert buf[p + n..][1..] == buf[p + n + 1..];
        EndsLow(buf, p, n, total);
        n := n + 1;
      }
      n := n + 1;
    }

    // A constructed TLV is written between `OpenConstructed` and
    // `CloseConstructed`: the tag and three octets for the length.
    method OpenConstructed(t: Tag) returns (lenPos: nat)
      requires TagWf(t)
      modifies this
      ensures lenPos == |old(buf) + TagOctets(t)| && buf == old(buf) + TagOctets(t) + [0, 0, 0] && failed == old(failed)
    {
      WriteTag(t);
      lenPos := |buf|;
      buf := buf + [0, 0, 0];
    }

    // Fills in the length of everything written since, in its shortest form.
    method CloseConstructed(lenPos: nat)
      requires lenPos + 3 <= |buf|
      modifies this
      ensures var content := old(buf)[lenPos + 3..]; buf == old(buf)[..lenPos] + (LengthOctets(|content|) + content)
      ensures failed == old(failed)
    {
      hide LengthOctets, ToOctets;
      var start := lenPos + 3;
      var size := |buf| - start;
      ghost var b := buf;
      LengthForms(size);
      if size < 128 {
        ShortForm(b, lenPos);
        buf := buf[..start - 2] + buf[start..] + buf[|buf| - 2..];
        buf := buf[..lenPos + 1 + size];
        buf := buf[lenPos := size];
      } else if size < 256 {
        ByteForm(b, lenPos);
        buf := buf[..start - 1] + buf[start..] + buf[|buf| - 1..];
        buf := buf[..lenPos + 2 + size];
        buf := buf[lenPos := 0x81][lenPos + 1 := size];
      } else if size < 65536 {
        WordForm(b, lenPos, size / 256, size % 256);
        buf := buf[lenPos := 0x82][lenPos + 1 := size / 256][lenPos + 2 := size % 256];
      } else {
        var n := OctetsIn(size);
        LongForm(b, lenPos, n, ToOctets(size, n), (128 + n) % 256);
        LengthLong(size);
        buf := buf[..start] + seq(n - 2, _ => 0) + buf[start..];
        buf := buf[lenPos := (128 + n) % 256];
        buf := FillLength(buf, lenPos + 1, size, n);
      }
    }
  }

  // ---- the four ways of filling in a length ----

  lemma ShortForm(b: seq<Byte>, lenPos: nat)
    requires lenPos + 3 <= |b| && |b| - (lenPos + 3) < 128
    ensures var start, size := lenPos + 3, |b| - (lenPos + 3);
            (b[..start - 2] + b[start..] + b[|b| - 2..])[..lenPos + 1 + size][lenPos := size] == b[..lenPos] + ([size] + b[start..])
  {
    var start := lenPos + 3;
    MovedDown(b, start, 2);
    assert (b[..start - 2] + b[start..])[lenPos := |b| - start] == b[..lenPos] + ([|b| - start] + b[start..]);
  }

  lemma ByteForm(b: seq<Byte>, lenPos: nat)
    requires lenPos + 3 <= |b| && |b| - (lenPos + 3) < 256
    ensures var start, size := lenPos + 3, |b| - (lenPos + 3);
            (b[..start - 1] + b[start..] + b[|b| - 1..])[..lenPos + 2 + size][lenPos := 0x81][lenPos + 1 := size]
            == b[..lenPos] + ([0x81, size] + b[start..])
  {
    var start := lenPos + 3;
    MovedDown(b, start, 1);
    assert (b[..start - 1] + b[start..])[lenPos := 0x81][lenPos + 1 := |b| - start] == b[..lenPos] + ([0x81, |b| - start] + b[start..]);
  }

  lemma WordForm(b: seq<Byte>, lenPos: nat, hi: Byte, lo: Byte)
    requires lenPos + 3 <= |b|
    ensures b[lenPos := 0x82][lenPos + 1 := hi][lenPos + 2 := lo] == b[..lenPos] + ([0x82, hi, lo] + b[lenPos + 3..])
  {
  }

  lemma LongForm(b: seq<Byte>, lenPos: nat, n: nat, octets: seq<Byte>, first: Byte)
    requires lenPos + 3 <= |b| && n >= 2 && |octets| == n
    ensures var start := lenPos + 3;
            var c := (b[..start] + seq(n - 2, _ => 0) + b[start..])[lenPos := first];
            |c| == |b| + n - 2 && c[..lenPos + 1] + octets + c[lenPos + 1 + n..] == b[..lenPos] + (([first] + octets) + b[start..])
  {
    var start := lenPos + 3;
    var c := (b[..start] + seq(n - 2, _ => 0) + b[start..])[lenPos := first];
    assert c[..lenPos + 1] == b[..lenPos] + [first];
    assert c[lenPos + 1 + n..] == b[start..];
    assert (b[..lenPos] + [first]) + octets + b[start..] == b[..lenPos] + (([first] + octets) + b[start..]);
  }

  lemma LengthLong(n: nat)
    requires n >= 128
    ensures LengthOctets(n) == [(128 + UOctets(n)) % 256] + ToOctets(n, UOctets(n))
  {
  }

  // Moving the end of a buffer down and cutting it off.
  lemma MovedDown(b: seq<Byte>, start: nat, d: nat)
    requires d <= start <= |b|
    ensures (b[..start - d] + b[start..] + b[|b| - d..])[..|b| - d] == b[..start - d] + b[start..]
  {
  }

  lemma {:induction false} EndsLow(buf: seq<Byte>, p: nat, n: nat, total: nat)
    requires 1 <= n <= total && p + n < |buf| && buf[p + n] >= 128
    requires total == n - 1 + SeptetCount(buf[p + n..]) && p + total + 1 <= |buf| && buf[p + total] < 128
    ensures n + 1 <= total && p + n + 1 < |buf|
  {
  }

  method EncodeLength(len: nat) returns (out: seq<Byte>)
    ensures out == LengthOctets(len)
  {
    hide ToOctets;
    if len < 128 { return [len]; }
    var tmp: seq<Byte> := [];
    var n: nat := len;
    UOctetsStep(len);
    assert ToOctets(len, UOctets(len)) == ToOctets(n, UOctets(n)) + tmp;
    while n > 0
      invariant n > 0 ==> UOctets(len) == UOctets(n) + |tmp| && ToOctets(len, UOctets(len)) == ToOctets(n, UOctets(n)) + tmp
      invariant n == 0 ==> UOctets(len) == |tmp| && ToOctets(len, UOctets(len)) == tmp
      decreases n
    {
      UOctetsStep(n);
      assert ToOctets(n / 256, UOctets(n) - 1) + ([n % 256] + tmp) == (ToOctets(n / 256, UOctets(n) - 1) + [n % 256]) + tmp;
      tmp := [n % 256] + tmp;
      n := n / 256;
    }
    out := [(128 + |tmp|) % 256] + tmp;
  }

  lemma UOctetsStep(n: nat)
    ensures ToOctets(n, UOctets(n)) == ToOctets(n / 256, UOctets(n) - 1) + [n % 256]
    ensures n < 256 ==> UOctets(n) == 1 && ToOctets(n / 256, 0) == [] && n / 256 == 0
    ensures n >= 256 ==> UOctets(n / 256) == UOctets(n) - 1 && n / 256 > 0
  {
  }

  // The forms that fit the reserved octets.
  lemma LengthForms(n: nat)
    ensures n < 128 ==> LengthOctets(n) == [n]
    ensures 128 <= n < 256 ==> LengthOctets(n) == [0x81, n]
    ensures 256 <= n < 65536 ==> LengthOctets(n) == [0x82, n / 256, n % 256]
    ensures n >= 65536 ==> UOctets(n) >= 3
  {
    UOctetsStep(n);
    if n >= 256 {
      UOctetsStep(n / 256);
      assert n < 65536 ==> n / 256 < 256;
    }
  }

  method OctetsIn(size: nat) returns (n: nat)
    requires size > 0
    ensures n == UOctets(size)
  {
    n := 0;
    var v: nat := size;
    while v > 0
      invariant v > 0 ==> n + UOctets(v) == UOctets(size)
      invariant v == 0 ==> n == UOctets(size)
      decreases v
    {
      UOctetsStep(v);
      v := v / 256;
      n := n + 1;
    }
  }

  // Writes the `n` octets of `size` at `at`.
  method FillLength(buf: seq<Byte>, at: nat, size: nat, n: nat) returns (r: seq<Byte>)
    requires at + n <= |buf|
    ensures r == buf[..at] + ToOctets(size, n) + buf[at + n..]
  {
    r := buf;
    assert ToOctets(size, 0) == [];
    for i := 0 to n
      invariant |r| == |buf| && r == buf[..at] + ToOctets(Shr(size, 8 * (n - i)), i) + buf[at + i..]
    {
      OctetAt(size, n, i);
      r := r[at + i := Shr(size, 8 * (n - 1 - i)) % 256];
    }
    assert Shr(size, 0) == size;
  }

  lemma OctetAt(size: nat, n: nat, i: nat)
    requires i < n
    ensures ToOctets(Shr(size, 8 * (n - (i + 1))), i + 1)
         == ToOctets(Shr(size, 8 * (n - i)), i) + [Shr(size, 8 * (n - 1 - i)) % 256]
  {
    ShrShr(size, 8 * (n - 1 - i), 8);
    Shr8(Shr(size, 8 * (n - 1 - i)));
  }

  // ---- reading ----

  class BerReader {
    const data: seq<Byte>
    var pos: nat
    var levels: nat  // constructed levels entered

    ghost predicate Valid()
      reads this
    {
      pos <= |data|
    }

    function Rest(): seq<Byte>
      requires Valid()
      reads this
    {
      data[pos..]
    }

    constructor (octets: seq<Byte>, depth: nat)
      ensures Valid() && Rest() == octets && data == octets && levels == depth
    {
      data, pos, levels := octets, 0, depth;
      new;
      assert data[0..] == data;
    }
  }

  // What a reading step promises: `spec` of the octets left before it.
  twostate predicate Reads<T>(r: BerReader, new got: Option<T>, new spec: Parse<T>)
    reads r
  {
    && r.Valid() && r.levels == old(r.levels)
    && (got.None? <==> spec.Failed?)
    && (spec.Parsed? ==> got == Some(spec.v) && r.Rest() == spec.rest)
  }

  method ReadTagNumber(r: BerReader) returns (number: Option<nat>)
    requires r.Valid()
    modifies r
    ensures Reads(r, number, ReadSeptets(old(r.Rest()), 5, 0))
  {
    var num: nat := 0;
    ghost var b := r.Rest();
    for i := 0 to 5
      invariant r.Valid() && r.levels == old(r.levels)
      invariant ReadSeptets(b, 5, 0) == ReadSeptets(r.Rest(), 5 - i, num)
    {
      if r.pos >= |r.data| { return None; }
      var c := r.data[r.pos];
      assert r.Rest()[1..] == r.data[r.pos + 1..];
      r.pos := r.pos + 1;
      num := (num * 128 + c % 128) % U32;
      if c < 128 { return Some(num); }
    }
    return None;
  }

  method TakeTag(r: BerReader) returns (t: Option<Tag>)
    requires r.Valid()
    modifies r
    ensures Reads(r, t, ReadTag(old(r.Rest())))
  {
    if r.pos >= |r.data| { return None; }
    var first := r.data[r.pos];
    assert r.Rest()[1..] == r.data[r.pos + 1..];
    r.pos := r.pos + 1;
    if first % 32 != 31 { return Some(Tag(first / 64, first % 32, (first / 32) % 2 == 1)); }
    var number := ReadTagNumber(r);
    if number.None? || number.value == NO_TAG { return None; }
    t := Some(Tag(first / 64, number.value, (first / 32) % 2 == 1));
  }

  method TakeLength(r: BerReader) returns (l: Option<Length>)
    requires r.Valid()
    modifies r
    ensures Reads(r, l, ReadLength(old(r.Rest())))
  {
    hide BigEndian;
    if r.pos >= |r.data| { return None; }
    ghost var b := r.Rest();
    var first := r.data[r.pos];
    r.pos := r.pos + 1;
    if first == 0x80 { return Some(Indefinite); }
    if first < 0x80 { return Some(Definite(first)); }
    var n := first - 0x80;
    if n > 8 || |r.data| - r.pos < n { return None; }
    var len: nat := 0;
    var start := r.pos;
    assert r.data[start..start] == [];
    EmptyNumber();
    for i := 0 to n
      invariant r.Valid() && r.levels == old(r.levels) && r.pos == start + i
      invariant len == BigEndian(r.data[start..start + i])
    {
      assert r.data[start..start + i + 1] == r.data[start..start + i] + [r.data[r.pos]];
      BigEndianSnoc(r.data[start..start + i], r.data[r.pos]);
      len := len * 256 + r.data[r.pos];
      r.pos := r.pos + 1;
    }
    assert b[1..1 + n] == r.data[start..start + n];
    l := Some(Definite(len));
  }

  lemma EmptyNumber()
    ensures BigEndian([]) == 0
  {
  }

  lemma SkipStep(b: seq<Byte>, depth: nat)
    requires depth > 0
    ensures SkipLevels(b, depth)
         == if |b| < 2 then Failed
            else if b[0] == 0 && b[1] == 0 then SkipLevels(b[2..], depth - 1)
            else
              var t := ReadTag(b);
              if t.Failed? then Failed else
              var l := ReadLength(t.rest);
              if l.Failed? then Failed
              else if l.v.Indefinite? then if t.v.constructed then SkipLevels(l.rest, depth + 1) else Failed
              else if |l.rest| < l.v.n then Failed
              else SkipLevels(l.rest[l.v.n..], depth)
  {
    hide ReadTag, ReadLength;
  }

  lemma SkipNothing(b: seq<Byte>)
    ensures SkipLevels(b, 0) == Parsed((), b)
  {
  }

  // Walks nested TLVs to the octets that close the outermost open one.
  method SkipIndefinite(r: BerReader) returns (ok: Option<()>)
    requires r.Valid()
    modifies r
    ensures Reads(r, ok, SkipLevels(old(r.Rest()), 1))
  {
    hide ReadTag, ReadLength, SkipLevels;
    var depth := 1;
    ghost var b := r.Rest();
    while depth > 0
      invariant r.Valid() && r.levels == old(r.levels)
      invariant SkipLevels(b, 1) == SkipLevels(r.Rest(), depth)
      decreases |r.Rest()|, depth
    {
      SkipStep(r.Rest(), depth);
      if |r.data| - r.pos < 2 { return None; }
      if r.data[r.pos] == 0 && r.data[r.pos + 1] == 0 {
        assert r.Rest()[2..] == r.data[r.pos + 2..];
        r.pos := r.pos + 2;
        depth := depth - 1;
      } else {
        var t := TakeTag(r);
        if t.None? { return None; }
        var l := TakeLength(r);
        if l.None? { return None; }
        if l.value.Indefinite? {
          if !t.value.constructed { return None; }
          depth := depth + 1;
        } else {
          if |r.data| - r.pos < l.value.n { return None; }
          assert r.Rest()[l.value.n..] == r.data[r.pos + l.value.n..];
          r.pos := r.pos + l.value.n;
        }
      }
    }
    SkipNothing(r.Rest());
    ok := Some(());
  }

  // The general reading of one TLV.
  method TakeTlvSlow(r: BerReader) returns (tlv: Option<Tlv>)
    requires r.Valid()
    modifies r
    ensures Reads(r, tlv, ReadTlv(old(r.Rest())))
  {
    hide ReadTag, ReadLength, SkipLevels;
    var t := TakeTag(r);
    if t.None? { return None; }
    var l := TakeLength(r);
    if l.None? { return None; }
    var start := r.pos;
    if l.value.Indefinite? {
      if !t.value.constructed { return None; }
      SkipShrinks(r.Rest());
      var ok := SkipIndefinite(r);
      if ok.None? { return None; }
      assert r.data[start..][..r.pos - 2 - start] == r.data[start..r.pos - 2];
      tlv := Some(Tlv(t.value, r.data[start..r.pos - 2], true));
    } else {
      var n := l.value.n;
      if |r.data| - r.pos < n { return None; }
      assert r.data[start..][..n] == r.data[start..start + n] && r.data[start..][n..] == r.data[start + n..];
      r.pos := r.pos + n;
      tlv := Some(Tlv(t.value, r.data[start..start + n], false));
    }
  }

  lemma SkipShrinks(b: seq<Byte>)
    ensures SkipLevels(b, 1).Parsed? ==> |SkipLevels(b, 1).rest| + 2 <= |b|
  {
  }

  // One-octet tag and a definite length of at most four octets: what the
  // general reading would give.
  lemma FastTlv(b: seq<Byte>, nb: nat, n: nat)
    requires |b| >= 2 + nb + n && b[0] % 32 != 31
    requires if b[1] < 0x80 then nb == 0 && n == b[1] else nb == b[1] - 0x80 && 0 < nb <= 4 && n == BigEndian(b[2..2 + nb])
    ensures ReadTlv(b) == Parsed(Tlv(Tag(b[0] / 64, b[0] % 32, (b[0] / 32) % 2 == 1), b[2 + nb..2 + nb + n], false), b[2 + nb + n..])
  {
    hide BigEndian;
    assert b[1..][1..1 + nb] == b[2..2 + nb] && b[1..][1 + nb..] == b[2 + nb..];
    assert b[2 + nb..][..n] == b[2 + nb..2 + nb + n] && b[2 + nb..][n..] == b[2 + nb + n..];
  }

  // Reads one TLV; the common headers are parsed in place.
  method TakeTlv(r: BerReader) returns (tlv: Option<Tlv>)
    requires r.Valid()
    modifies r
    ensures Reads(r, tlv, ReadTlv(old(r.Rest())))
  {
    hide ReadTlv, BigEndian;
    var avail, p := |r.data| - r.pos, r.pos;
    ghost var b := r.Rest();
    if avail >= 2 && r.data[p] % 32 != 31 {
      var tb, lb := r.data[p], r.data[p + 1];
      var tag := Tag(tb / 64, tb % 32, (tb / 32) % 2 == 1);
      if lb < 0x80 {
        if avail >= 2 + lb {
          FastTlv(b, 0, lb);
          assert b[2..2 + lb] == r.data[p + 2..p + 2 + lb] && b[2 + lb..] == r.data[p + 2 + lb..];
          r.pos := p + 2 + lb;
          return Some(Tlv(tag, r.data[p + 2..p + 2 + lb], false));
        }
      } else if lb != 0x80 && lb - 0x80 <= 4 {
        var nb: nat := lb - 0x80;
        if avail >= 2 + nb {
          var n := NumberAt(r.data, p + 2, nb);
          if avail >= 2 + nb + n {
            assert b[2..2 + nb] == r.data[p + 2..p + 2 + nb];
            FastTlv(b, nb, n);
            assert b[2 + nb..2 + nb + n] == r.data[p + 2 + nb..p + 2 + nb + n] && b[2 + nb + n..] == r.data[p + 2 + nb + n..];
            r.pos := p + 2 + nb + n;
            return Some(Tlv(tag, r.data[p + 2 + nb..p + 2 + nb + n], false));
          }
        }
      }
    }
    tlv := TakeTlvSlow(r);
  }

  method NumberAt(data: seq<Byte>, at: nat, count: nat) returns (n: nat)
    requires at + count <= |data|
    ensures n == BigEndian(data[at..at + count])
  {
    hide BigEndian;
    n := 0;
    assert data[at..at] == [];
    EmptyNumber();
    for k := 0 to count
      invariant n == BigEndian(data[at..at + k])
    {
      assert data[at..at + k + 1] == data[at..at + k] + [data[at + k]];
      BigEndianSnoc(data[at..at + k], data[at + k]);
      n := n * 256 + data[at + k];
    }
  }
}
