/**
 * JSON strings (section 7 of RFC 8259): escaping on output, and a reader that
 * undoes every escape, combining surrogate pairs into UTF-8.
 */
module JerText {
  import opened Bits
  import opened Options

  const QUOTE: Byte := 34
  const SLASH: Byte := 47
  const BACKSLASH: Byte := 92
  const COMMA: Byte := 44
  const COLON: Byte := 58
  const OPEN_BRACE: Byte := 123
  const CLOSE_BRACE: Byte := 125
  const OPEN_BRACKET: Byte := 91
  const CLOSE_BRACKET: Byte := 93
  const LETTER_U: Byte := 117

  datatype Taken<+T> = Taken(v: T, rest: seq<Byte>) | Bad

  // Tab, line feed, form feed, carriage return and space.
  predicate IsSpace(c: Byte) {
    c == 9 || c == 10 || c == 12 || c == 13 || c == 32
  }

  function SkipSpace(b: seq<Byte>): (r: seq<Byte>)
    ensures |r| <= |b| && (r != [] ==> !IsSpace(r[0]))
  {
    if b == [] || !IsSpace(b[0]) then b else SkipSpace(b[1..])
  }

  lemma SpaceStep(b: seq<Byte>)
    ensures SkipSpace(b) == if b == [] || !IsSpace(b[0]) then b else SkipSpace(b[1..])
  {
  }

  // ---- escapes ----

  function HexValue(c: Byte): Option<nat> {
    if 48 <= c <= 57 then Some(c - 48)
    else if 97 <= c <= 102 then Some(c - 97 + 10)
    else if 65 <= c <= 70 then Some(c - 65 + 10)
    else None
  }

  // Four digits on top of those read so far.
  function HexDigits(b: seq<Byte>, count: nat, acc: nat): (r: Taken<nat>)
    ensures r.Taken? ==> |r.rest| + count == |b|
    decreases count
  {
    if count == 0 then Taken(acc, b)
    else if b == [] || HexValue(b[0]).None? then Bad
    else HexDigits(b[1..], count - 1, acc * 16 + HexValue(b[0]).value)
  }

  // A code point in UTF-8.
  function Utf8(cp: nat): (o: seq<Byte>)
    requires cp < 0x20_0000
  {
    if cp < 0x80 then [cp]
    else if cp < 0x800 then [0xC0 + cp / 64, 0x80 + cp % 64]
    else if cp < 0x1_0000 then [0xE0 + cp / 4096, 0x80 + cp / 64 % 64, 0x80 + cp % 64]
    else [0xF0 + cp / 262144, 0x80 + cp / 4096 % 64, 0x80 + cp / 64 % 64, 0x80 + cp % 64]
  }

  predicate HighSurrogate(cu: nat) {
    0xD800 <= cu <= 0xDBFF
  }

  predicate LowSurrogate(cu: nat) {
    0xDC00 <= cu <= 0xDFFF
  }

  // What a four-digit escape stands for, behind its letter.
  function CodePoint(b: seq<Byte>): (r: Taken<nat>)
    ensures r.Taken? ==> |r.rest| < |b| && r.v < 0x11_0000
  {
    HexBound(b, 4, 0);
    var h := HexDigits(b, 4, 0);
    if h.Bad? || LowSurrogate(h.v) then Bad
    else if !HighSurrogate(h.v) then h
    else if |h.rest| < 2 || h.rest[0] != BACKSLASH || h.rest[1] != LETTER_U then Bad
    else
      var l := HexDigits(h.rest[2..], 4, 0);
      if l.Bad? || !LowSurrogate(l.v) then Bad else Taken(0x1_0000 + (h.v - 0xD800) * 1024 + (l.v - 0xDC00), l.rest)
  }

  lemma {:induction false} HexBound(b: seq<Byte>, count: nat, acc: nat)
    requires count <= 4
    ensures HexDigits(b, count, acc).Taken? ==>
              acc * (if count == 0 then 1 else if count == 1 then 16 else if count == 2 then 256 else if count == 3 then 4096 else 65536)
              <= HexDigits(b, count, acc).v
              < (acc + 1) * (if count == 0 then 1 else if count == 1 then 16 else if count == 2 then 256 else if count == 3 then 4096 else 65536)
    decreases count
  {
    if count > 0 && b != [] && HexValue(b[0]).Some? { HexBound(b[1..], count - 1, acc * 16 + HexValue(b[0]).value); }
  }

  // The octet of a one-letter escape.
  function Simple(c: Byte): Option<Byte> {
    if c == QUOTE || c == BACKSLASH || c == SLASH then Some(c)
    else if c == 98 then Some(8)
    else if c == 102 then Some(12)
    else if c == 110 then Some(10)
    else if c == 114 then Some(13)
    else if c == 116 then Some(9)
    else None
  }

  // What follows a backslash.
  function Escaped(b: seq<Byte>): (r: Taken<seq<Byte>>)
    ensures r.Taken? ==> |r.rest| < |b|
  {
    if b == [] then Bad
    else if Simple(b[0]).Some? then Taken([Simple(b[0]).value], b[1..])
    else if b[0] != LETTER_U then Bad
    else
      var cp := CodePoint(b[1..]);
      if cp.Bad? then Bad else Taken(Utf8(cp.v), cp.rest)
  }

  function Prepend(out: seq<Byte>, r: Taken<seq<Byte>>): Taken<seq<Byte>> {
    if r.Bad? then Bad else Taken(out + r.v, r.rest)
  }

  // The content up to the closing quote.
  function Chars(b: seq<Byte>): (r: Taken<seq<Byte>>)
    ensures r.Taken? ==> |r.rest| < |b|
    decreases |b|
  {
    if b == [] then Bad
    else if b[0] == QUOTE then Taken([], b[1..])
    else if b[0] == BACKSLASH then
      var e := Escaped(b[1..]);
      if e.Bad? then Bad else Prepend(e.v, Chars(e.rest))
    else Prepend([b[0]], Chars(b[1..]))
  }

  function JsonString(b: seq<Byte>): (r: Taken<seq<Byte>>)
    ensures r.Taken? ==> |r.rest| < |b|
  {
    var s := SkipSpace(b);
    if s == [] || s[0] != QUOTE then Bad else Chars(s[1..])
  }

  // ---- the stream ----

  class JerDecodeStream {
    const buf: seq<Byte>
    var pos: nat

    ghost predicate Valid()
      reads this
    {
      pos <= |buf|
    }

    ghost function Rest(): seq<Byte>
      requires Valid()
      reads this
    {
      buf[pos..]
    }

    constructor (text: seq<Byte>)
      ensures Valid() && buf == text && pos == 0 && Rest() == text
    {
      buf, pos := text, 0;
    }

    method SkipWs()
      requires Valid()
      modifies this
      ensures Valid() && Rest() == SkipSpace(old(Rest()))
    {
      hide SkipSpace;
      ghost var start := Rest();
      while pos < |buf| && IsSpace(buf[pos])
        invariant Valid() && SkipSpace(start) == SkipSpace(Rest())
      {
        ghost var b := Rest();
        SpaceStep(b);
        pos := pos + 1;
        assert b[1..] == Rest();
      }
      SpaceStep(Rest());
    }

    method ReadHex4() returns (cu: Option<nat>)
      requires Valid()
      modifies this
      ensures Valid()
      ensures var h := HexDigits(old(Rest()), 4, 0); if h.Bad? then cu.None? else cu == Some(h.v) && Rest() == h.rest
    {
      var acc := 0;
      for i := 0 to 4
        invariant Valid() && acc >= 0 && HexDigits(old(Rest()), 4, 0) == HexDigits(Rest(), 4 - i, acc)
      {
        if pos == |buf| { return None; }
        var d := HexValue(buf[pos]);
        if d.None? { return None; }
        ghost var b := Rest();
        acc := acc * 16 + d.value;
        pos := pos + 1;
        assert b[1..] == Rest();
      }
      return Some(acc);
    }

    // Behind the letter of a four-digit escape.
    method ReadCodePoint() returns (cp: Option<nat>)
      requires Valid()
      modifies this
      ensures Valid()
      ensures var r := CodePoint(old(Rest())); if r.Bad? then cp.None? else cp == Some(r.v) && Rest() == r.rest
    {
      hide HexDigits;
      HexBound(Rest(), 4, 0);
      var cu := ReadHex4();
      if cu.None? || LowSurrogate(cu.value) { return None; }
      if !HighSurrogate(cu.value) { return cu; }
      if |buf| - pos < 2 || buf[pos] != BACKSLASH || buf[pos + 1] != LETTER_U { return None; }
      ghost var b := Rest();
      pos := pos + 2;
      assert b[2..] == Rest();
      var lo := ReadHex4();
      if lo.None? || !LowSurrogate(lo.value) { return None; }
      return Some(0x1_0000 + (cu.value - 0xD800) * 1024 + (lo.value - 0xDC00));
    }

    method ReadJsonString() returns (out: Option<seq<Byte>>)
      requires Valid()
      modifies this
      ensures Valid()
      ensures var r := JsonString(old(Rest())); if r.Bad? then out.None? else out == Some(r.v) && Rest() == r.rest
    {
      hide SkipSpace, Escaped, CodePoint, Utf8, Simple;
      SkipWs();
      if pos == |buf| || buf[pos] != QUOTE { return None; }
      ghost var start := Rest();
      pos := pos + 1;
      assert start[1..] == Rest();
      ghost var whole := Chars(Rest());
      var acc, esc := [], false;
      assert Prepend([], whole) == whole by { if whole.Taken? { assert [] + whole.v == whole.v; } }
      while pos < |buf|
        invariant Valid()
        invariant whole == Prepend(acc, if esc then AfterBackslash(Rest()) else Chars(Rest()))
        decreases |buf| - pos
      {
        var c := buf[pos];
        ghost var b := Rest();
        pos := pos + 1;
        assert b[1..] == Rest();
        if esc {
          var simple := Simple(c);
          EscapedStep(b);
          if simple.Some? {
            PrependMore(acc, [simple.value], Chars(Rest()));
            acc := acc + [simple.value];
          } else if c == LETTER_U {
            var cp := ReadCodePoint();
            if cp.None? { return None; }
            PrependMore(acc, Utf8(cp.value), Chars(Rest()));
            acc := acc + Utf8(cp.value);
          } else {
            return None;
          }
          esc := false;
        } else if c == BACKSLASH {
          esc := true;
        } else if c == QUOTE {
          assert acc + [] == acc;
          return Some(acc);
        } else {
          PrependMore(acc, [c], Chars(Rest()));
          acc := acc + [c];
        }
      }
      return None;
    }
  }

  ghost function AfterBackslash(b: seq<Byte>): Taken<seq<Byte>> {
    var e := Escaped(b);
    if e.Bad? then Bad else Prepend(e.v, Chars(e.rest))
  }

  lemma EscapedStep(b: seq<Byte>)
    requires b != []
    ensures Escaped(b) == if Simple(b[0]).Some? then Taken([Simple(b[0]).value], b[1..])
                          else if b[0] != LETTER_U || CodePoint(b[1..]).Bad? then Bad
                          else Taken(Utf8(CodePoint(b[1..]).v), CodePoint(b[1..]).rest)
  {
  }

  lemma PrependMore(a: seq<Byte>, b: seq<Byte>, r: Taken<seq<Byte>>)
    ensures Prepend(a, Prepend(b, r)) == Prepend(a + b, r)
  {
    if r.Taken? { assert a + (b + r.v) == (a + b) + r.v; }
  }

  // ---- what is written ----

  function UpperHex(n: nat): Byte
    requires n < 16
  {
    if n < 10 then 48 + n else 55 + n
  }

  // A code unit as four upper-case digits.
  function HexText(cu: nat): seq<Byte>
    requires cu < 0x1_0000
  {
    [UpperHex(cu / 4096), UpperHex(cu / 256 % 16), UpperHex(cu / 16 % 16), UpperHex(cu % 16)]
  }

  function EscapeByte(c: Byte): seq<Byte> {
    if c == QUOTE then [BACKSLASH, QUOTE]
    else if c == BACKSLASH then [BACKSLASH, BACKSLASH]
    else if c < 32 then [BACKSLASH, LETTER_U] + HexText(c)
    else [c]
  }

  function Escape(s: seq<Byte>): seq<Byte> {
    if s == [] then [] else Escape(s[..|s| - 1]) + EscapeByte(s[|s| - 1])
  }

  method JsonEscape(sv: seq<Byte>) returns (out: seq<Byte>)
    ensures out == Escape(sv)
  {
    out := [];
    for i := 0 to |sv|
      invariant out == Escape(sv[..i])
    {
      assert sv[..i + 1][..i] == sv[..i];
      out := out + EscapeByte(sv[i]);
    }
    assert sv[..|sv|] == sv;
  }

  lemma UpperHexRead(n: nat)
    requires n < 16
    ensures HexValue(UpperHex(n)) == Some(n)
  {
  }

  lemma HexTextRead(cu: nat, t: seq<Byte>)
    requires cu < 0x1_0000
    ensures HexDigits(HexText(cu) + t, 4, 0) == Taken(cu, t)
  {
    var a, b, c, d := cu / 4096, cu / 256 % 16, cu / 16 % 16, cu % 16;
    Nibbles(cu);
    hide HexDigits, HexValue, UpperHex;
    assert HexText(cu) + t == [UpperHex(a)] + ([UpperHex(b)] + ([UpperHex(c)] + ([UpperHex(d)] + t)));
    OneDigit(a, [UpperHex(b)] + ([UpperHex(c)] + ([UpperHex(d)] + t)), 4, 0);
    OneDigit(b, [UpperHex(c)] + ([UpperHex(d)] + t), 3, a);
    OneDigit(c, [UpperHex(d)] + t, 2, a * 16 + b);
    OneDigit(d, t, 1, (a * 16 + b) * 16 + c);
    AllDigits(t, ((a * 16 + b) * 16 + c) * 16 + d);
  }

  lemma AllDigits(t: seq<Byte>, acc: nat)
    ensures HexDigits(t, 0, acc) == Taken(acc, t)
  {
  }

  lemma Nibbles(cu: nat)
    requires cu < 0x1_0000
    ensures ((cu / 4096 * 16 + cu / 256 % 16) * 16 + cu / 16 % 16) * 16 + cu % 16 == cu && cu / 4096 < 16
  {
    var x, y := cu / 16, cu / 256;
    assert cu == x * 16 + cu % 16;
    assert x / 16 == y && y / 16 == cu / 4096;
  }

  lemma OneDigit(n: nat, t: seq<Byte>, count: nat, acc: nat)
    requires n < 16 && count > 0
    ensures HexDigits([UpperHex(n)] + t, count, acc) == HexDigits(t, count - 1, acc * 16 + n)
  {
    UpperHexRead(n);
    hide HexValue, UpperHex;
    assert ([UpperHex(n)] + t)[1..] == t;
  }

  // One escaped octet reads back as itself, whatever comes next.
  lemma ByteReadBack(c: Byte, t: seq<Byte>)
    ensures Chars(EscapeByte(c) + t) == Prepend([c], Chars(t))
  {
    hide HexDigits;
    var b := EscapeByte(c) + t;
    if c == QUOTE || c == BACKSLASH {
      assert b[1..] == [c] + t && b[1..][1..] == t;
    } else if c < 32 {
      assert b[1..] == [LETTER_U] + (HexText(c) + t);
      assert b[1..][1..] == HexText(c) + t;
      HexTextRead(c, t);
      assert Escaped(b[1..]) == Taken([c], t);
    } else {
      assert b[1..] == t;
    }
  }

  lemma {:induction false} CharsReadBack(s: seq<Byte>, t: seq<Byte>)
    ensures Chars(Escape(s) + t) == Prepend(s, Chars(t))
    decreases |s|
  {
    hide Chars;
    if s == [] {
      assert Escape(s) + t == t;
      if Chars(t).Taken? { assert [] + Chars(t).v == Chars(t).v; }
    } else {
      var n := |s| - 1;
      CharsReadBack(s[..n], EscapeByte(s[n]) + t);
      ByteReadBack(s[n], t);
      assert Escape(s) + t == Escape(s[..n]) + (EscapeByte(s[n]) + t);
      PrependMore(s[..n], [s[n]], Chars(t));
      assert s[..n] + [s[n]] == s;
    }
  }

  // Reading undoes escaping, for every string of octets.
  lemma StringReadBack(s: seq<Byte>, t: seq<Byte>)
    ensures JsonString([QUOTE] + (Escape(s) + ([QUOTE] + t))) == Taken(s, t)
  {
    hide Chars;
    var b := [QUOTE] + (Escape(s) + ([QUOTE] + t));
    assert b[1..] == Escape(s) + ([QUOTE] + t);
    CharsReadBack(s, [QUOTE] + t);
    ClosingQuote(t);
    assert s + [] == s;
  }

  lemma ClosingQuote(t: seq<Byte>)
    ensures Chars([QUOTE] + t) == Taken([], t)
  {
    assert ([QUOTE] + t)[1..] == t;
  }

  // ---- escapes of code points ----

  // Any code point as one or two four-digit escapes.
  function EscapeCodePoint(cp: nat): seq<Byte>
    requires cp < 0x11_0000
  {
    if cp < 0x1_0000 then [BACKSLASH, LETTER_U] + HexText(cp)
    else [BACKSLASH, LETTER_U] + (HexText(0xD800 + (cp - 0x1_0000) / 1024) + ([BACKSLASH, LETTER_U] + HexText(0xDC00 + (cp - 0x1_0000) % 1024)))
  }

  // It is read as its UTF-8 form, unless it is a surrogate: a low one is
  // refused, and a high one without another escape behind it.
  lemma CodePointRead(cp: nat, t: seq<Byte>)
    requires cp < 0x11_0000
    ensures !HighSurrogate(cp) && !LowSurrogate(cp) ==> Chars(EscapeCodePoint(cp) + t) == Prepend(Utf8(cp), Chars(t))
    ensures LowSurrogate(cp) ==> Chars(EscapeCodePoint(cp) + t) == Bad
    ensures HighSurrogate(cp) && !([BACKSLASH, LETTER_U] <= t) ==> Chars(EscapeCodePoint(cp) + t) == Bad
  {
    hide HexDigits, Chars, HexText, Utf8, CodePoint;
    var hi, lo := 0xD800 + (cp - 0x1_0000) / 1024, 0xDC00 + (cp - 0x1_0000) % 1024;
    if cp < 0x1_0000 {
      assert EscapeCodePoint(cp) + t == [BACKSLASH, LETTER_U] + (HexText(cp) + t);
      UnicodeEscape(HexText(cp) + t);
      UnitRead(cp, t);
    } else {
      var more := [BACKSLASH, LETTER_U] + (HexText(lo) + t);
      assert EscapeCodePoint(cp) + t == [BACKSLASH, LETTER_U] + (HexText(hi) + more);
      UnicodeEscape(HexText(hi) + more);
      PairRead(hi, lo, t);
    }
  }

  lemma UnitRead(cu: nat, t: seq<Byte>)
    requires cu < 0x1_0000
    ensures !HighSurrogate(cu) ==> CodePoint(HexText(cu) + t) == if LowSurrogate(cu) then Bad else Taken(cu, t)
    ensures HighSurrogate(cu) && !([BACKSLASH, LETTER_U] <= t) ==> CodePoint(HexText(cu) + t) == Bad
  {
    hide HexDigits, HexText;
    HexTextRead(cu, t);
  }

  lemma PairRead(hi: nat, lo: nat, t: seq<Byte>)
    requires HighSurrogate(hi) && LowSurrogate(lo)
    ensures CodePoint(HexText(hi) + ([BACKSLASH, LETTER_U] + (HexText(lo) + t)))
         == Taken(0x1_0000 + (hi - 0xD800) * 1024 + (lo - 0xDC00), t)
  {
    hide HexDigits, HexText;
    var low := HexText(lo) + t;
    var more := [BACKSLASH, LETTER_U] + low;
    HexTextRead(hi, more);
    assert more[2..] == low;
    HexTextRead(lo, t);
  }

  lemma UnicodeEscape(b: seq<Byte>)
    ensures Chars([BACKSLASH, LETTER_U] + b)
         == if CodePoint(b).Bad? then Bad else Prepend(Utf8(CodePoint(b).v), Chars(CodePoint(b).rest))
  {
    hide CodePoint, Utf8;
    var e := [BACKSLASH, LETTER_U] + b;
    assert e[1..] == [LETTER_U] + b && e[1..][1..] == b;
    EscapedStep(e[1..]);
  }

  // ---- UTF-8 (section 3 of RFC 3629) ----

  predicate Tail(b: seq<Byte>, n: nat) {
    |b| > n && forall i {:trigger b[i]} :: 1 <= i <= n ==> 0x80 <= b[i] < 0xC0
  }

  // Six more bits from a continuation octet.
  function Join(acc: nat, c: Byte): nat
    requires 0x80 <= c < 0xC0
  {
    acc * 64 + (c - 0x80)
  }

  function FromUtf8(b: seq<Byte>): Taken<nat> {
    if b == [] then Bad
    else if b[0] < 0x80 then Taken(b[0], b[1..])
    else if 0xC0 <= b[0] < 0xE0 && Tail(b, 1) then Taken(Join(b[0] - 0xC0, b[1]), b[2..])
    else if 0xE0 <= b[0] < 0xF0 && Tail(b, 2) then Taken(Join(Join(b[0] - 0xE0, b[1]), b[2]), b[3..])
    else if 0xF0 <= b[0] < 0xF8 && Tail(b, 3) then
      Taken(Join(Join(Join(b[0] - 0xF0, b[1]), b[2]), b[3]), b[4..])
    else Bad
  }

  lemma Sextets(cp: nat)
    requires cp < 0x20_0000
    ensures cp == cp / 64 * 64 + cp % 64
    ensures cp / 64 == cp / 4096 * 64 + cp / 64 % 64
    ensures cp / 4096 == cp / 262144 * 64 + cp / 4096 % 64
  {
    assert cp / 64 / 64 == cp / 4096;
    assert cp / 4096 / 64 == cp / 262144;
  }

  // The octets written for a code point stand for it, in the shortest form.
  lemma Utf8ReadBack(cp: nat, t: seq<Byte>)
    requires cp < 0x11_0000
    ensures FromUtf8(Utf8(cp) + t) == Taken(cp, t)
    ensures |Utf8(cp)| == if cp < 0x80 then 1 else if cp < 0x800 then 2 else if cp < 0x1_0000 then 3 else 4
  {
    Sextets(cp);
    var b := Utf8(cp) + t;
    assert b[|Utf8(cp)|..] == t;
    if cp < 0x80 {
    } else if cp < 0x800 {
      assert Tail(b, 1);
    } else if cp < 0x1_0000 {
      assert Tail(b, 2);
    } else {
      assert Tail(b, 3);
    }
  }
}
