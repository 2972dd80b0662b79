/**
 * The escapes of JSON strings (section 7 of RFC 8259): every spelling of a
 * code point reads alike, and what is written is a string of the grammar.
 */
module JerEscapes {
  import opened Bits
  import opened Options
  import opened JerText
  import opened JerSkip
  import opened JerSequence

  // A one-letter escape and the code point it stands for.
  datatype Letter = Letter(letter: Byte, cp: nat)

  // The quotation mark, the backslash, the slash, and the letters b, t, n, f
  // and r for backspace, tab, line feed, form feed and carriage return.
  const LETTERS: seq<Letter> := [
    Letter(34, 0x22), Letter(92, 0x5C), Letter(47, 0x2F), Letter(98, 0x08),
    Letter(116, 0x09), Letter(110, 0x0A), Letter(102, 0x0C), Letter(114, 0x0D)]

  predicate IsLetter(c: Byte) {
    exists i :: 0 <= i < |LETTERS| && LETTERS[i].letter == c
  }

  // A one-letter escape reads like the four-digit escape of its code point.
  lemma LetterIsCodePoint(i: nat, t: seq<Byte>)
    requires i < |LETTERS|
    ensures LETTERS[i].cp < 0x80
    ensures Chars([BACKSLASH, LETTERS[i].letter] + t) == Chars(EscapeCodePoint(LETTERS[i].cp) + t)
    ensures Chars([BACKSLASH, LETTERS[i].letter] + t) == Prepend([LETTERS[i].cp], Chars(t))
  {
    hide Chars, EscapeCodePoint;
    var l := LETTERS[i];
    CodePointRead(l.cp, t);
    EscapeRead(l.letter, t);
    assert Utf8(l.cp) == [l.cp];
  }

  lemma EscapeRead(c: Byte, t: seq<Byte>)
    ensures Chars([BACKSLASH, c] + t) == if Escaped([c] + t).Bad? then Bad else Prepend(Escaped([c] + t).v, Chars(Escaped([c] + t).rest))
    ensures Simple(c).Some? ==> Escaped([c] + t) == Taken([Simple(c).value], t)
    ensures Simple(c).None? && c != LETTER_U ==> Escaped([c] + t).Bad?
  {
    hide CodePoint, Utf8;
    var b := [BACKSLASH, c] + t;
    assert b[1..] == [c] + t && b[1..][1..] == t;
  }

  // No other letter but u may follow a backslash.
  lemma OtherLettersRefused(c: Byte, t: seq<Byte>)
    requires !IsLetter(c) && c != 117
    ensures Chars([BACKSLASH, c] + t).Bad?
  {
    hide Chars, Escaped;
    EscapeRead(c, t);
    assert LETTERS[0].letter != c && LETTERS[1].letter != c && LETTERS[2].letter != c && LETTERS[3].letter != c;
    assert LETTERS[4].letter != c && LETTERS[5].letter != c && LETTERS[6].letter != c && LETTERS[7].letter != c;
  }

  // Octets outside escapes stand for themselves, control characters included.
  lemma PlainRead(c: Byte, t: seq<Byte>)
    requires c != 34 && c != 92
    ensures Chars([c] + t) == Prepend([c], Chars(t))
  {
    assert ([c] + t)[1..] == t;
  }

  // Hexadecimal digits in either case, and nothing else.
  lemma HexDigitRead(c: Byte)
    ensures HexValue(c) == if 48 <= c <= 57 then Some(c - 48)
                           else if 97 <= c <= 102 then Some(c - 87)
                           else if 65 <= c <= 70 then Some(c - 55)
                           else None
  {
  }

  // ---- what is written ----

  lemma ByteIsString(c: Byte, t: seq<Byte>)
    ensures StringEnd(EscapeByte(c) + t) == StringEnd(t)
  {
    hide HexDigits;
    var b := EscapeByte(c) + t;
    if c == QUOTE || c == BACKSLASH {
      assert b[2..] == t;
    } else if c < 32 {
      HexTextRead(c, t);
      assert b[2..] == HexText(c) + t;
    } else {
      assert b[1..] == t;
    }
  }

  lemma {:induction false} EscapedIsString(s: seq<Byte>, t: seq<Byte>)
    ensures StringEnd(Escape(s) + t) == StringEnd(t)
    decreases |s|
  {
    hide StringEnd, EscapeByte;
    if s == [] {
      assert Escape(s) + t == t;
    } else {
      var n := |s| - 1;
      EscapedIsString(s[..n], EscapeByte(s[n]) + t);
      ByteIsString(s[n], t);
      assert Escape(s) + t == Escape(s[..n]) + (EscapeByte(s[n]) + t);
    }
  }

  // What is written between quotes is one string of the grammar, which allows
  // no control character, and its escapes' digits are upper-case.
  lemma WrittenString(s: seq<Byte>, t: seq<Byte>)
    ensures StringEnd(Escape(s) + ([QUOTE] + t)) == Some(t)
    ensures EscapeByte(0x1F) == [92, 117, 48, 48, 49, 70]
  {
    hide Escape;
    EscapedIsString(s, [QUOTE] + t);
    assert ([QUOTE] + t)[1..] == t;
  }

  // Only what has to be escaped is.
  lemma {:induction false} PlainUnchanged(s: seq<Byte>)
    ensures (forall i :: 0 <= i < |s| ==> s[i] >= 32 && s[i] != 34 && s[i] != 92) <==> Escape(s) == s
    decreases |s|
  {
    if s != [] {
      var n := |s| - 1;
      assert s == s[..n] + [s[n]];
      PlainUnchanged(s[..n]);
      EscapeGrows(s[..n]);
      if Escape(s) == s {
        assert |EscapeByte(s[n])| == 1 && Escape(s)[n] == s[n];
        assert Escape(s[..n]) == Escape(s)[..n] == s[..n];
      }
    }
  }

  lemma {:induction false} EscapeGrows(s: seq<Byte>)
    ensures |Escape(s)| >= |s|
    decreases |s|
  {
    if s != [] { EscapeGrows(s[..|s| - 1]); }
  }

  // ---- spaces and the end of a token ----

  // Exactly tab, line feed, form feed, carriage return and space are skipped.
  lemma SpaceSkipped(c: Byte, t: seq<Byte>)
    ensures SkipSpace([c] + t) == if c == 9 || c == 10 || c == 12 || c == 13 || c == 32 then SkipSpace(t) else [c] + t
  {
    assert ([c] + t)[1..] == t;
  }

  // A number, true, false or null ends in front of a comma, a closing bracket
  // or a space, or with the text.
  lemma TokenEnds(c: Byte, t: seq<Byte>)
    ensures SkipToken([c] + t) == if c == 44 || c == 93 || c == 125 || c == 9 || c == 10 || c == 12 || c == 13 || c == 32 then [c] + t else SkipToken(t)
  {
    assert ([c] + t)[1..] == t;
  }

  // null is recognised where a token may end behind it, and nowhere else.
  lemma NullRead(t: seq<Byte>)
    ensures NullLength([110, 117, 108, 108] + t)
         == if t == [] || t[0] == 44 || t[0] == 93 || t[0] == 125 || t[0] == 9 || t[0] == 10 || t[0] == 12 || t[0] == 13 || t[0] == 32
            then 4 else 0
    ensures t != [] && !IsSpace(t[0]) && !([110, 117, 108, 108] <= t) ==> NullLength(t) == 0
  {
    var b := [110, 117, 108, 108] + t;
    assert SkipSpace(b) == b;
    assert b[4..] == t;
  }
}
