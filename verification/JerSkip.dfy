/**
 * Skipping a JSON value.  The skipper counts one kind of bracket only; the
 * grammar of RFC 8259 says what it has to skip.
 */
module JerSkip {
  import opened Bits
  import opened Options
  import opened JerText

  // ---- the grammar ----

  // The content of a string, up to and with the closing quote.
  function StringEnd(b: seq<Byte>): (r: Option<seq<Byte>>)
    ensures r.Some? ==> |r.value| < |b|
    decreases |b|
  {
    if b == [] then None
    else if b[0] == QUOTE then Some(b[1..])
    else if b[0] == BACKSLASH then
      if |b| < 2 then None
      else if Simple(b[1]).Some? then StringEnd(b[2..])
      else if b[1] == LETTER_U && HexDigits(b[2..], 4, 0).Taken? then StringEnd(HexDigits(b[2..], 4, 0).rest)
      else None
    else if b[0] < 32 then None
    else StringEnd(b[1..])
  }

  predicate Digit(c: Byte) {
    48 <= c <= 57
  }

  function Digits(b: seq<Byte>): (r: seq<Byte>)
    ensures |r| <= |b|
  {
    if b == [] || !Digit(b[0]) then b else Digits(b[1..])
  }

  // At least one digit.
  function SomeDigits(b: seq<Byte>): (r: Option<seq<Byte>>)
    ensures r.Some? ==> |r.value| < |b|
  {
    if b == [] || !Digit(b[0]) then None else Some(Digits(b[1..]))
  }

  function IntegerEnd(b: seq<Byte>): (r: Option<seq<Byte>>)
    ensures r.Some? ==> |r.value| < |b|
  {
    if b != [] && b[0] == 48 then Some(b[1..]) else SomeDigits(b)
  }

  function FractionEnd(b: seq<Byte>): (r: Option<seq<Byte>>)
    ensures r.Some? ==> |r.value| <= |b|
  {
    if b != [] && b[0] == 46 then SomeDigits(b[1..]) else Some(b)
  }

  function ExponentEnd(b: seq<Byte>): (r: Option<seq<Byte>>)
    ensures r.Some? ==> |r.value| <= |b|
  {
    if b != [] && (b[0] == 69 || b[0] == 101) then
      SomeDigits(if |b| > 1 && (b[1] == 43 || b[1] == 45) then b[2..] else b[1..])
    else Some(b)
  }

  function NumberEnd(b: seq<Byte>): (r: Option<seq<Byte>>)
    ensures r.Some? ==> |r.value| < |b|
  {
    var i := IntegerEnd(if b != [] && b[0] == 45 then b[1..] else b);
    if i.None? then None else
    var f := FractionEnd(i.value);
    if f.None? then None else ExponentEnd(f.value)
  }

  const TRUE: seq<Byte> := [116, 114, 117, 101]
  const FALSE: seq<Byte> := [102, 97, 108, 115, 101]
  const NULL: seq<Byte> := [110, 117, 108, 108]

  function TokenEnd(b: seq<Byte>): (r: Option<seq<Byte>>)
    ensures r.Some? ==> |r.value| < |b|
  {
    if TRUE <= b then Some(b[4..])
    else if FALSE <= b then Some(b[5..])
    else if NULL <= b then Some(b[4..])
    else NumberEnd(b)
  }

  function ValueEnd(b: seq<Byte>): (r: Option<seq<Byte>>)
    ensures r.Some? ==> |r.value| < |b|
    decreases |b|, 0
  {
    var s := SkipSpace(b);
    if s == [] then None
    else if s[0] == QUOTE then StringEnd(s[1..])
    else if s[0] == OPEN_BRACKET then
      var e := SkipSpace(s[1..]);
      if e != [] && e[0] == CLOSE_BRACKET then Some(e[1..]) else ElementsEnd(s[1..])
    else if s[0] == OPEN_BRACE then
      var e := SkipSpace(s[1..]);
      if e != [] && e[0] == CLOSE_BRACE then Some(e[1..]) else MembersEnd(s[1..])
    else TokenEnd(s)
  }

  function ElementsEnd(b: seq<Byte>): (r: Option<seq<Byte>>)
    ensures r.Some? ==> |r.value| < |b|
    decreases |b|, 1
  {
    var v := ValueEnd(b);
    if v.None? then None else
    var s := SkipSpace(v.value);
    if s == [] then None
    else if s[0] == COMMA then ElementsEnd(s[1..])
    else if s[0] == CLOSE_BRACKET then Some(s[1..])
    else None
  }

  function NameEnd(b: seq<Byte>): (r: Option<seq<Byte>>)
    ensures r.Some? ==> |r.value| < |b|
  {
    var s := SkipSpace(b);
    if s == [] || s[0] != QUOTE then None else
    var k := StringEnd(s[1..]);
    if k.None? then None else
    var c := SkipSpace(k.value);
    if c == [] || c[0] != COLON then None else Some(c[1..])
  }

  function MembersEnd(b: seq<Byte>): (r: Option<seq<Byte>>)
    ensures r.Some? ==> |r.value| < |b|
    decreases |b|, 1
  {
    var n := NameEnd(b);
    if n.None? then None else
    var v := ValueEnd(n.value);
    if v.None? then None else
    var s := SkipSpace(v.value);
    if s == [] then None
    else if s[0] == COMMA then MembersEnd(s[1..])
    else if s[0] == CLOSE_BRACE then Some(s[1..])
    else None
  }

  // ---- the skipper ----

  predicate Ends(c: Byte) {
    c == COMMA || c == CLOSE_BRACE || c == CLOSE_BRACKET || IsSpace(c)
  }

  function SkipToken(b: seq<Byte>): seq<Byte> {
    if b == [] || Ends(b[0]) then b else SkipToken(b[1..])
  }

  // Counts `open` and `close` outside strings.
  function Scan(b: seq<Byte>, open: Byte, close: Byte, depth: int, inStr: bool, esc: bool): Option<seq<Byte>> {
    if b == [] then None
    else if esc then Scan(b[1..], open, close, depth, inStr, false)
    else if b[0] == BACKSLASH && inStr then Scan(b[1..], open, close, depth, inStr, true)
    else if b[0] == QUOTE then Scan(b[1..], open, close, depth, !inStr, false)
    else if inStr then Scan(b[1..], open, close, depth, inStr, false)
    else if b[0] == open then Scan(b[1..], open, close, depth + 1, inStr, false)
    else if b[0] == close then if depth == 1 then Some(b[1..]) else Scan(b[1..], open, close, depth - 1, inStr, false)
    else Scan(b[1..], open, close, depth, inStr, false)
  }

  function SkipValue(b: seq<Byte>): Option<seq<Byte>> {
    var s := SkipSpace(b);
    if s == [] then None
    else if s[0] == QUOTE then
      var c := Chars(s[1..]);
      if c.Bad? then None else Some(c.rest)
    else if s[0] == OPEN_BRACE || s[0] == OPEN_BRACKET then
      Scan(s, s[0], if s[0] == OPEN_BRACE then CLOSE_BRACE else CLOSE_BRACKET, 0, false, false)
    else Some(SkipToken(s))
  }

  method SkipBrackets(s: JerDecodeStream, open: Byte, close: Byte) returns (ok: bool)
    requires s.Valid()
    modifies s
    ensures s.Valid()
    ensures var r := Scan(old(s.Rest()), open, close, 0, false, false); ok == r.Some? && (ok ==> s.Rest() == r.value)
  {
    var depth, inStr, esc := 0, false, false;
    while s.pos < |s.buf|
      invariant s.Valid() && Scan(old(s.Rest()), open, close, 0, false, false) == Scan(s.Rest(), open, close, depth, inStr, esc)
      decreases |s.buf| - s.pos
    {
      var c := s.buf[s.pos];
      ghost var b := s.Rest();
      s.pos := s.pos + 1;
      assert b[1..] == s.Rest();
      if esc {
        esc := false;
      } else if c == BACKSLASH && inStr {
        esc := true;
      } else if c == QUOTE {
        inStr := !inStr;
      } else if !inStr {
        if c == open {
          depth := depth + 1;
        } else if c == close {
          depth := depth - 1;
          if depth == 0 { return true; }
        }
      }
    }
    return false;
  }

  method SkipJsonValue(s: JerDecodeStream) returns (ok: bool)
    requires s.Valid()
    modifies s
    ensures s.Valid()
    ensures var r := SkipValue(old(s.Rest())); ok == r.Some? && (ok ==> s.Rest() == r.value)
  {
    hide SkipSpace, Scan, Chars, SkipToken;
    SpaceTwice(s.Rest());
    s.SkipWs();
    if s.pos == |s.buf| { return false; }
    var first := s.buf[s.pos];
    if first == QUOTE {
      var dummy := s.ReadJsonString();
      return dummy.Some?;
    }
    if first == OPEN_BRACE || first == OPEN_BRACKET {
      ok := SkipBrackets(s, first, if first == OPEN_BRACE then CLOSE_BRACE else CLOSE_BRACKET);
      return;
    }
    SkipTokenChars(s);
    return true;
  }

  method SkipTokenChars(s: JerDecodeStream)
    requires s.Valid()
    modifies s
    ensures s.Valid() && s.Rest() == SkipToken(old(s.Rest()))
  {
    hide SkipToken;
    ghost var start := s.Rest();
    while s.pos < |s.buf| && !Ends(s.buf[s.pos])
      invariant s.Valid() && SkipToken(start) == SkipToken(s.Rest())
    {
      ghost var b := s.Rest();
      TokenStep(b);
      s.pos := s.pos + 1;
      assert b[1..] == s.Rest();
    }
    TokenStep(s.Rest());
  }

  lemma TokenStep(b: seq<Byte>)
    ensures SkipToken(b) == if b == [] || Ends(b[0]) then b else SkipToken(b[1..])
  {
  }

  lemma SpaceTwice(b: seq<Byte>)
    ensures SkipSpace(SkipSpace(b)) == SkipSpace(b)
  {
  }

  // ---- the skipper skips what the grammar says ----

  // Surrogate escapes come in pairs.
  predicate Paired(b: seq<Byte>)
    decreases |b|
  {
    if b == [] || b[0] == QUOTE then true
    else if b[0] != BACKSLASH then Paired(b[1..])
    else if |b| < 2 then true
    else if b[1] != LETTER_U then Paired(b[2..])
    else
      var h := HexDigits(b[2..], 4, 0);
      if h.Bad? then true
      else if LowSurrogate(h.v) then false
      else if !HighSurrogate(h.v) then Paired(h.rest)
      else
        && |h.rest| >= 2 && h.rest[0] == BACKSLASH && h.rest[1] == LETTER_U
        && var l := HexDigits(h.rest[2..], 4, 0); l.Taken? && LowSurrogate(l.v) && Paired(l.rest)
  }

  // A well-formed string is read exactly when its surrogates are paired.
  lemma {:induction false} StringRead(b: seq<Byte>)
    requires StringEnd(b).Some?
    ensures Chars(b).Taken? <==> Paired(b)
    ensures Chars(b).Taken? ==> Chars(b).rest == StringEnd(b).value
    decreases |b|
  {
    hide HexDigits, Utf8;
    if b[0] == QUOTE {
    } else if b[0] == BACKSLASH {
      assert b[1..][1..] == b[2..];
      if Simple(b[1]).Some? {
        StringRead(b[2..]);
      } else {
        var h := HexDigits(b[2..], 4, 0);
        if HighSurrogate(h.v) {
          if |h.rest| >= 2 && h.rest[0] == BACKSLASH && h.rest[1] == LETTER_U {
            var l := HexDigits(h.rest[2..], 4, 0);
            if LowSurrogate(l.v) { StringRead(l.rest); }
          }
        } else {
          StringRead(h.rest);
        }
      }
    } else {
      StringRead(b[1..]);
    }
  }

  predicate Brackets(open: Byte, close: Byte) {
    (open == OPEN_BRACKET && close == CLOSE_BRACKET) || (open == OPEN_BRACE && close == CLOSE_BRACE)
  }

  // Outside strings, below the outermost bracket.
  function Count(b: seq<Byte>, open: Byte, close: Byte, depth: int): Option<seq<Byte>> {
    Scan(b, open, close, depth, false, false)
  }

  lemma {:induction false} CountSpace(b: seq<Byte>, open: Byte, close: Byte, depth: int)
    requires Brackets(open, close)
    ensures Count(b, open, close, depth) == Count(SkipSpace(b), open, close, depth)
    decreases |b|
  {
    if b != [] && IsSpace(b[0]) { CountSpace(b[1..], open, close, depth); }
  }

  lemma {:induction false} CountHex(b: seq<Byte>, count: nat, acc: nat, open: Byte, close: Byte, depth: int)
    requires HexDigits(b, count, acc).Taken?
    ensures Scan(b, open, close, depth, true, false) == Scan(HexDigits(b, count, acc).rest, open, close, depth, true, false)
    decreases count
  {
    if count > 0 { CountHex(b[1..], count - 1, acc * 16 + HexValue(b[0]).value, open, close, depth); }
  }

  // Brackets inside a string do not count.
  lemma {:induction false} CountString(b: seq<Byte>, open: Byte, close: Byte, depth: int)
    requires StringEnd(b).Some?
    ensures Scan(b, open, close, depth, true, false) == Count(StringEnd(b).value, open, close, depth)
    decreases |b|
  {
    hide HexDigits, Simple;
    if b[0] == BACKSLASH {
      assert b[1..][1..] == b[2..];
      assert Scan(b, open, close, depth, true, false) == Scan(b[2..], open, close, depth, true, false);
      if Simple(b[1]).Some? {
        CountString(b[2..], open, close, depth);
      } else {
        CountHex(b[2..], 4, 0, open, close, depth);
        CountString(HexDigits(b[2..], 4, 0).rest, open, close, depth);
      }
    } else if b[0] != QUOTE {
      CountString(b[1..], open, close, depth);
    }
  }

  // No quote, bracket, comma or space.
  predicate Plain(c: Byte) {
    c != QUOTE && !Ends(c) && c != OPEN_BRACE && c != OPEN_BRACKET
  }

  // `r` is what is left of `b` behind plain characters.
  ghost predicate AfterPlain(b: seq<Byte>, r: seq<Byte>) {
    |r| <= |b| && r == b[|b| - |r|..] && forall i {:trigger b[i]} :: 0 <= i < |b| - |r| ==> Plain(b[i])
  }

  lemma AfterPlainTrans(a: seq<Byte>, b: seq<Byte>, c: seq<Byte>)
    requires AfterPlain(a, b) && AfterPlain(b, c)
    ensures AfterPlain(a, c)
  {
    forall i {:trigger a[i]} | 0 <= i < |a| - |c| ensures Plain(a[i]) {
      if i >= |a| - |b| { assert a[i] == b[i - (|a| - |b|)]; }
    }
  }

  lemma AfterOne(b: seq<Byte>)
    requires b != [] && Plain(b[0])
    ensures AfterPlain(b, b[1..])
  {
  }

  lemma {:induction false} DigitsPlain(b: seq<Byte>)
    ensures AfterPlain(b, Digits(b))
    decreases |b|
  {
    if b != [] && Digit(b[0]) {
      AfterOne(b);
      DigitsPlain(b[1..]);
      AfterPlainTrans(b, b[1..], Digits(b));
    }
  }

  lemma SomeDigitsPlain(b: seq<Byte>)
    requires SomeDigits(b).Some?
    ensures AfterPlain(b, SomeDigits(b).value)
  {
    AfterOne(b);
    DigitsPlain(b[1..]);
    AfterPlainTrans(b, b[1..], Digits(b[1..]));
  }

  lemma NumberPlain(b: seq<Byte>)
    requires NumberEnd(b).Some?
    ensures AfterPlain(b, NumberEnd(b).value)
  {
    hide IntegerEnd, FractionEnd, ExponentEnd, AfterPlain;
    var a := if b != [] && b[0] == 45 then b[1..] else b;
    AfterNone(b);
    if a != b { AfterOne(b); }
    var i := IntegerEnd(a).value;
    var f := FractionEnd(i).value;
    IntegerPlain(a);
    FractionPlain(i);
    ExponentPlain(f);
    AfterPlainTrans(b, a, i);
    AfterPlainTrans(b, i, f);
    AfterPlainTrans(b, f, ExponentEnd(f).value);
  }

  lemma IntegerPlain(b: seq<Byte>)
    requires IntegerEnd(b).Some?
    ensures AfterPlain(b, IntegerEnd(b).value)
  {
    hide SomeDigits, AfterPlain;
    if b != [] && b[0] == 48 { AfterOne(b); } else { SomeDigitsPlain(b); }
  }

  lemma FractionPlain(b: seq<Byte>)
    requires FractionEnd(b).Some?
    ensures AfterPlain(b, FractionEnd(b).value)
  {
    hide SomeDigits, AfterPlain;
    AfterNone(b);
    if b != [] && b[0] == 46 {
      AfterOne(b);
      SomeDigitsPlain(b[1..]);
      AfterPlainTrans(b, b[1..], SomeDigits(b[1..]).value);
    }
  }

  lemma ExponentPlain(b: seq<Byte>)
    requires ExponentEnd(b).Some?
    ensures AfterPlain(b, ExponentEnd(b).value)
  {
    hide SomeDigits, AfterPlain;
    AfterNone(b);
    if b != [] && (b[0] == 69 || b[0] == 101) {
      AfterOne(b);
      var d := b[1..];
      if |b| > 1 && (b[1] == 43 || b[1] == 45) {
        AfterOne(b[1..]);
        assert b[1..][1..] == b[2..];
        AfterPlainTrans(b, b[1..], b[2..]);
        d := b[2..];
      }
      SomeDigitsPlain(d);
      AfterPlainTrans(b, d, SomeDigits(d).value);
    }
  }

  lemma AfterNone(b: seq<Byte>)
    ensures AfterPlain(b, b)
  {
  }

  lemma TokenPlain(b: seq<Byte>)
    requires TokenEnd(b).Some?
    ensures AfterPlain(b, TokenEnd(b).value)
  {
    hide NumberEnd;
    if !(TRUE <= b) && !(FALSE <= b) && !(NULL <= b) { NumberPlain(b); }
  }

  lemma {:induction false} CountPlain(b: seq<Byte>, r: seq<Byte>, open: Byte, close: Byte, depth: int)
    requires AfterPlain(b, r) && Brackets(open, close)
    ensures Count(b, open, close, depth) == Count(r, open, close, depth)
    decreases |b|
  {
    if |b| == |r| {
      assert b == r;
    } else {
      assert Plain(b[0]);
      CountPlain(b[1..], r, open, close, depth);
    }
  }

  lemma {:induction false} SkipPlain(b: seq<Byte>, r: seq<Byte>)
    requires AfterPlain(b, r)
    ensures SkipToken(b) == SkipToken(r)
    decreases |b|
  {
    if |b| == |r| {
      assert b == r;
    } else {
      assert Plain(b[0]);
      SkipPlain(b[1..], r);
    }
  }

  // The counter's state behind a closing bracket.
  function Closed(r: seq<Byte>, open: Byte, close: Byte, depth: int, c: Byte): Option<seq<Byte>> {
    if c != close then Count(r, open, close, depth)
    else if depth == 1 then Some(r)
    else Count(r, open, close, depth - 1)
  }

  lemma CountStep(b: seq<Byte>, open: Byte, close: Byte, depth: int)
    requires b != [] && Brackets(open, close)
    ensures b[0] == QUOTE ==> Count(b, open, close, depth) == Scan(b[1..], open, close, depth, true, false)
    ensures b[0] == COMMA || b[0] == COLON ==> Count(b, open, close, depth) == Count(b[1..], open, close, depth)
    ensures b[0] == OPEN_BRACE || b[0] == OPEN_BRACKET ==>
              Count(b, open, close, depth) == Count(b[1..], open, close, if b[0] == open then depth + 1 else depth)
    ensures b[0] == CLOSE_BRACE || b[0] == CLOSE_BRACKET ==> Count(b, open, close, depth) == Closed(b[1..], open, close, depth, b[0])
  {
  }

  lemma ClosingStep(b: seq<Byte>, open: Byte, close: Byte, depth: int, c: Byte)
    requires Brackets(open, close) && (c == CLOSE_BRACE || c == CLOSE_BRACKET)
    requires SkipSpace(b) != [] && SkipSpace(b)[0] == c
    ensures Count(b, open, close, depth) == Closed(SkipSpace(b)[1..], open, close, depth, c)
  {
    hide SkipSpace, Scan;
    CountSpace(b, open, close, depth);
    CountStep(SkipSpace(b), open, close, depth);
  }

  // A value inside brackets leaves the count as it was.
  lemma {:induction false} CountValue(b: seq<Byte>, open: Byte, close: Byte, depth: int)
    requires Brackets(open, close) && depth >= 1 && ValueEnd(b).Some?
    ensures Count(b, open, close, depth) == Count(ValueEnd(b).value, open, close, depth)
    decreases |b|, 0
  {
    hide SkipSpace, Scan, StringEnd, TokenEnd, Count;
    var s := SkipSpace(b);
    CountSpace(b, open, close, depth);
    CountStep(s, open, close, depth);
    if s[0] == QUOTE {
      CountString(s[1..], open, close, depth);
    } else if s[0] == OPEN_BRACKET || s[0] == OPEN_BRACE {
      BracketEnds(b);
      CountRest(s[1..], open, close, if s[0] == open then depth + 1 else depth, s[0]);
    } else {
      TokenPlain(s);
      CountPlain(s, TokenEnd(s).value, open, close, depth);
    }
  }

  // From behind an opening bracket to behind its closing one.
  function RestEnd(b: seq<Byte>, first: Byte): Option<seq<Byte>> {
    var e := SkipSpace(b);
    var c := if first == OPEN_BRACE then CLOSE_BRACE else CLOSE_BRACKET;
    if e != [] && e[0] == c then Some(e[1..])
    else if first == OPEN_BRACE then MembersEnd(b) else ElementsEnd(b)
  }

  lemma BracketEnds(b: seq<Byte>)
    ensures var s := SkipSpace(b);
            s != [] && (s[0] == OPEN_BRACE || s[0] == OPEN_BRACKET) ==> ValueEnd(b) == RestEnd(s[1..], s[0])
  {
    hide SkipSpace, ElementsEnd, MembersEnd;
  }

  lemma {:induction false} CountRest(b: seq<Byte>, open: Byte, close: Byte, depth: int, first: Byte)
    requires Brackets(open, close) && depth >= 1 && (first == OPEN_BRACE || first == OPEN_BRACKET) && RestEnd(b, first).Some?
    ensures Count(b, open, close, depth)
         == Closed(RestEnd(b, first).value, open, close, depth, if first == OPEN_BRACE then CLOSE_BRACE else CLOSE_BRACKET)
    decreases |b|, 2
  {
    hide SkipSpace, Scan, Count, Closed, ElementsEnd, MembersEnd;
    var c := if first == OPEN_BRACE then CLOSE_BRACE else CLOSE_BRACKET;
    var e := SkipSpace(b);
    if e != [] && e[0] == c {
      ClosingStep(b, open, close, depth, c);
    } else if first == OPEN_BRACE {
      CountMembers(b, open, close, depth);
    } else {
      CountElements(b, open, close, depth);
    }
  }

  lemma {:induction false} CountElements(b: seq<Byte>, open: Byte, close: Byte, depth: int)
    requires Brackets(open, close) && depth >= 1 && ElementsEnd(b).Some?
    ensures Count(b, open, close, depth) == Closed(ElementsEnd(b).value, open, close, depth, CLOSE_BRACKET)
    decreases |b|, 1
  {
    hide SkipSpace, Scan, Count, Closed, ValueEnd;
    var v := ValueEnd(b).value;
    var s := SkipSpace(v);
    CountValue(b, open, close, depth);
    CountSpace(v, open, close, depth);
    CountStep(s, open, close, depth);
    if s[0] == COMMA { CountElements(s[1..], open, close, depth); }
  }

  lemma CountName(b: seq<Byte>, open: Byte, close: Byte, depth: int)
    requires Brackets(open, close) && NameEnd(b).Some?
    ensures Count(b, open, close, depth) == Count(NameEnd(b).value, open, close, depth)
  {
    hide SkipSpace, Scan, Closed, StringEnd, Count;
    var s := SkipSpace(b);
    CountSpace(b, open, close, depth);
    CountStep(s, open, close, depth);
    CountString(s[1..], open, close, depth);
    var k := StringEnd(s[1..]).value;
    CountSpace(k, open, close, depth);
    CountStep(SkipSpace(k), open, close, depth);
  }

  lemma {:induction false} CountMembers(b: seq<Byte>, open: Byte, close: Byte, depth: int)
    requires Brackets(open, close) && depth >= 1 && MembersEnd(b).Some?
    ensures Count(b, open, close, depth) == Closed(MembersEnd(b).value, open, close, depth, CLOSE_BRACE)
    decreases |b|, 1
  {
    hide SkipSpace, Scan, Count, Closed, ValueEnd, NameEnd;
    var n := NameEnd(b).value;
    CountName(b, open, close, depth);
    var v := ValueEnd(n).value;
    CountValue(n, open, close, depth);
    var s := SkipSpace(v);
    CountSpace(v, open, close, depth);
    CountStep(s, open, close, depth);
    if s[0] == COMMA { CountMembers(s[1..], open, close, depth); }
  }

  // Whether the skipper can tell where the value ends: a string's surrogates
  // must be paired, and behind a token something must end it.
  predicate Skippable(b: seq<Byte>)
    requires ValueEnd(b).Some?
  {
    var s, r := SkipSpace(b), ValueEnd(b).value;
    if s[0] == QUOTE then Paired(s[1..])
    else if s[0] == OPEN_BRACE || s[0] == OPEN_BRACKET then true
    else r == [] || Ends(r[0])
  }

  // The skipper consumes exactly one well-formed value, whatever it nests.
  lemma SkipExact(b: seq<Byte>)
    requires ValueEnd(b).Some?
    ensures SkipValue(b) == ValueEnd(b) <==> Skippable(b)
  {
    hide SkipSpace, Scan, StringEnd, TokenEnd, Chars, Paired, Count, RestEnd;
    var s, r := SkipSpace(b), ValueEnd(b).value;
    if s[0] == QUOTE {
      StringRead(s[1..]);
    } else if s[0] == OPEN_BRACE || s[0] == OPEN_BRACKET {
      var c := if s[0] == OPEN_BRACE then CLOSE_BRACE else CLOSE_BRACKET;
      BracketEnds(b);
      OpeningStep(s, c);
      CountRest(s[1..], s[0], c, 1, s[0]);
    } else {
      TokenPlain(s);
      SkipPlain(s, r);
      TokenShort(r);
    }
  }

  lemma OpeningStep(s: seq<Byte>, close: Byte)
    requires s != [] && Brackets(s[0], close)
    ensures Scan(s, s[0], close, 0, false, false) == Count(s[1..], s[0], close, 1)
  {
  }

  lemma TokenShort(r: seq<Byte>)
    ensures SkipToken(r) == r <==> r == [] || Ends(r[0])
  {
    if r != [] && !Ends(r[0]) { SkipTokenSize(r[1..]); }
  }

  lemma {:induction false} SkipTokenSize(b: seq<Byte>)
    ensures |SkipToken(b)| <= |b|
  {
    if b != [] && !Ends(b[0]) { SkipTokenSize(b[1..]); }
  }

  // "\uD800" is a string of the grammar and is not skipped.
  lemma LoneSurrogateNotSkipped()
    ensures var b := [QUOTE, BACKSLASH, LETTER_U, 68, 56, 48, 48, QUOTE]; ValueEnd(b) == Some([]) && SkipValue(b) == None
  {
    hide HexDigits;
    var b := [QUOTE, BACKSLASH, LETTER_U, 68, 56, 48, 48, QUOTE];
    var s, h := b[1..], b[3..];
    assert h == [68, 56, 48, 48, QUOTE] && s[2..] == h && s[1..][1..] == h;
    HexOfD800(h);
    assert StringEnd([QUOTE]) == Some([]);
    assert StringEnd(s) == Some([]);
    assert Chars(s) == Bad;
    SpaceStep(b);
  }

  // 1" starts with a number, and everything is skipped.
  lemma UnendedTokenSkipped()
    ensures ValueEnd([49, QUOTE]) == Some([QUOTE]) && SkipValue([49, QUOTE]) == Some([])
  {
    SpaceStep([49, QUOTE]);
    assert [49, QUOTE][1..] == [QUOTE];
    assert SomeDigits([49, QUOTE]) == Some([QUOTE]);
    assert TokenEnd([49, QUOTE]) == Some([QUOTE]);
    assert SkipToken([QUOTE]) == [];
    assert SkipToken([49, QUOTE]) == [];
  }

  lemma HexOfD800(h: seq<Byte>)
    requires h == [68, 56, 48, 48, QUOTE]
    ensures HexDigits(h, 4, 0) == Taken(0xD800, [QUOTE])
  {
    assert h[1..] == [56, 48, 48, QUOTE] && h[1..][1..] == [48, 48, QUOTE];
    assert h[1..][1..][1..] == [48, QUOTE] && h[1..][1..][1..][1..] == [QUOTE];
    assert HexDigits([QUOTE], 0, 0xD800) == Taken(0xD800, [QUOTE]);
    assert HexDigits([48, QUOTE], 1, 0xD80) == Taken(0xD800, [QUOTE]);
    assert HexDigits([48, 48, QUOTE], 2, 0xD8) == Taken(0xD800, [QUOTE]);
    assert HexDigits([56, 48, 48, QUOTE], 3, 0xD) == Taken(0xD800, [QUOTE]);
  }
}
