/**
 * The order of the members of a JSON object does not matter, nor do unknown
 * members among them.
 */
module JerOrder {
  import opened Bits
  import opened Options
  import opened JerText
  import opened JerSkip
  import opened JerSequence

  // ---- a value reads the same whatever follows it ----

  // Nothing that could go on with a number.
  predicate Follows(t: seq<Byte>) {
    t == [] || Ends(t[0])
  }

  lemma {:induction false} SpaceLocal(b: seq<Byte>, t: seq<Byte>)
    requires SkipSpace(b) != []
    ensures SkipSpace(b + t) == SkipSpace(b) + t
    decreases |b|
  {
    if IsSpace(b[0]) {
      assert (b + t)[1..] == b[1..] + t;
      SpaceLocal(b[1..], t);
    }
  }

  lemma {:induction false} HexLocal(b: seq<Byte>, count: nat, acc: nat, t: seq<Byte>)
    requires HexDigits(b, count, acc).Taken?
    ensures HexDigits(b + t, count, acc) == Taken(HexDigits(b, count, acc).v, HexDigits(b, count, acc).rest + t)
    decreases count
  {
    if count > 0 {
      assert (b + t)[1..] == b[1..] + t;
      HexLocal(b[1..], count - 1, acc * 16 + HexValue(b[0]).value, t);
    }
  }

  lemma {:induction false} StringLocal(b: seq<Byte>, t: seq<Byte>)
    requires StringEnd(b).Some?
    ensures StringEnd(b + t) == Some(StringEnd(b).value + t)
    decreases |b|
  {
    hide HexDigits, Simple;
    assert (b + t)[1..] == b[1..] + t;
    if b[0] == BACKSLASH {
      assert (b + t)[2..] == b[2..] + t;
      if Simple(b[1]).Some? {
        StringLocal(b[2..], t);
      } else {
        HexLocal(b[2..], 4, 0, t);
        StringLocal(HexDigits(b[2..], 4, 0).rest, t);
      }
    } else if b[0] != QUOTE {
      StringLocal(b[1..], t);
    }
  }

  lemma {:induction false} PairedLocal(b: seq<Byte>, t: seq<Byte>)
    requires StringEnd(b).Some?
    ensures Paired(b + t) == Paired(b)
    decreases |b|
  {
    hide HexDigits;
    assert (b + t)[1..] == b[1..] + t;
    if b[0] == BACKSLASH {
      assert (b + t)[2..] == b[2..] + t;
      if b[1] != LETTER_U {
        PairedLocal(b[2..], t);
      } else {
        HexLocal(b[2..], 4, 0, t);
        var h := HexDigits(b[2..], 4, 0);
        if !HighSurrogate(h.v) {
          PairedLocal(h.rest, t);
        } else if |h.rest| >= 2 && h.rest[0] == BACKSLASH && h.rest[1] == LETTER_U {
          assert (h.rest + t)[2..] == h.rest[2..] + t;
          HexLocal(h.rest[2..], 4, 0, t);
          PairedLocal(HexDigits(h.rest[2..], 4, 0).rest, t);
        }
      }
    } else if b[0] != QUOTE {
      PairedLocal(b[1..], t);
    }
  }

  lemma DigitsStep(b: seq<Byte>)
    ensures Digits(b) == if b == [] || !Digit(b[0]) then b else Digits(b[1..])
  {
  }

  lemma {:induction false} DigitsLocal(b: seq<Byte>, t: seq<Byte>)
    requires Follows(t) || Digits(b) != []
    ensures Digits(b + t) == Digits(b) + t
    decreases |b|
  {
    hide Digits;
    DigitsStep(b);
    DigitsStep(b + t);
    if b == [] {
      assert b + t == t;
    } else {
      assert (b + t)[1..] == b[1..] + t;
      if Digit(b[0]) { DigitsLocal(b[1..], t); }
    }
  }

  lemma SomeDigitsLocal(b: seq<Byte>, t: seq<Byte>)
    requires SomeDigits(b).Some? && (Follows(t) || SomeDigits(b).value != [])
    ensures SomeDigits(b + t) == Some(SomeDigits(b).value + t)
  {
    assert (b + t)[1..] == b[1..] + t;
    DigitsLocal(b[1..], t);
  }

  lemma IntegerLocal(b: seq<Byte>, t: seq<Byte>)
    requires IntegerEnd(b).Some? && (Follows(t) || IntegerEnd(b).value != [])
    ensures IntegerEnd(b + t) == Some(IntegerEnd(b).value + t)
  {
    assert (b + t)[1..] == b[1..] + t;
    if b[0] != 48 { SomeDigitsLocal(b, t); }
  }

  lemma FractionLocal(b: seq<Byte>, t: seq<Byte>)
    requires FractionEnd(b).Some? && (Follows(t) || FractionEnd(b).value != [])
    ensures FractionEnd(b + t) == Some(FractionEnd(b).value + t)
  {
    if b == [] {
      assert b + t == t;
    } else {
      assert (b + t)[1..] == b[1..] + t;
      if b[0] == 46 { SomeDigitsLocal(b[1..], t); }
    }
  }

  lemma ExponentLocal(b: seq<Byte>, t: seq<Byte>)
    requires ExponentEnd(b).Some? && (Follows(t) || ExponentEnd(b).value != [])
    ensures ExponentEnd(b + t) == Some(ExponentEnd(b).value + t)
  {
    hide SomeDigits;
    if b == [] {
      assert b + t == t;
    } else if b[0] == 69 || b[0] == 101 {
      assert (b + t)[1..] == b[1..] + t;
      NoDigits();
      assert b[1..] != [];
      if b[1] == 43 || b[1] == 45 {
        assert (b + t)[2..] == b[2..] + t;
        SomeDigitsLocal(b[2..], t);
      } else {
        SomeDigitsLocal(b[1..], t);
      }
    }
  }

  lemma NoDigits()
    ensures SomeDigits([]) == None
  {
  }

  lemma NumberLocal(b: seq<Byte>, t: seq<Byte>)
    requires NumberEnd(b).Some? && (Follows(t) || NumberEnd(b).value != [])
    ensures NumberEnd(b + t) == Some(NumberEnd(b).value + t)
  {
    var a := if b != [] && b[0] == 45 then b[1..] else b;
    NoInteger();
    assert b != [];
    hide IntegerEnd, FractionEnd, ExponentEnd;
    if b[0] == 45 { assert (b + t)[1..] == b[1..] + t; }
    NoFraction();
    IntegerLocal(a, t);
    FractionLocal(IntegerEnd(a).value, t);
    ExponentLocal(FractionEnd(IntegerEnd(a).value).value, t);
  }

  lemma NoFraction()
    ensures FractionEnd([]) == Some([]) && ExponentEnd([]) == Some([])
  {
  }

  lemma NoInteger()
    ensures IntegerEnd([]) == None
  {
  }

  lemma TokenLocal(b: seq<Byte>, t: seq<Byte>)
    requires TokenEnd(b).Some? && (Follows(t) || TokenEnd(b).value != [])
    ensures TokenEnd(b + t) == Some(TokenEnd(b).value + t)
  {
    assert b != [] ==> (b + t)[0] == b[0];
    if TRUE <= b {
      assert (b + t)[4..] == b[4..] + t;
    } else if NULL <= b {
      assert (b + t)[0] == NULL[0];
      assert (b + t)[4..] == b[4..] + t;
    } else if FALSE <= b {
      assert (b + t)[5..] == b[5..] + t;
    } else {
      NumberLocal(b, t);
      NumberStarts(b);
      hide NumberEnd;
      assert (b + t)[0] == b[0];
    }
  }

  lemma NumberStarts(b: seq<Byte>)
    requires NumberEnd(b).Some?
    ensures b != [] && (Digit(b[0]) || b[0] == 45)
  {
  }

  // A value that closes itself: anything but a token.
  predicate Closed(b: seq<Byte>) {
    var s := SkipSpace(b);
    s != [] && (s[0] == QUOTE || s[0] == OPEN_BRACE || s[0] == OPEN_BRACKET)
  }

  // A value is delimited alike whatever is appended; only a token at the very
  // end needs something that ends it.
  lemma {:induction false} ValueLocal(b: seq<Byte>, t: seq<Byte>)
    requires ValueEnd(b).Some? && (Follows(t) || ValueEnd(b).value != [] || Closed(b))
    ensures ValueEnd(b + t) == Some(ValueEnd(b).value + t)
    ensures SkipSpace(b) != [] && SkipSpace(b + t) == SkipSpace(b) + t
    decreases |b|, 0
  {
    hide SkipSpace, StringEnd, TokenEnd;
    var s := SkipSpace(b);
    SpaceLocal(b, t);
    assert (s + t)[1..] == s[1..] + t;
    if s[0] == QUOTE {
      StringLocal(s[1..], t);
    } else if s[0] == OPEN_BRACE || s[0] == OPEN_BRACKET {
      BracketEnds(b);
      BracketEnds(b + t);
      RestLocal(s[1..], t, s[0]);
    } else {
      TokenLocal(s, t);
    }
  }

  lemma {:induction false} RestLocal(b: seq<Byte>, t: seq<Byte>, first: Byte)
    requires (first == OPEN_BRACE || first == OPEN_BRACKET) && RestEnd(b, first).Some?
    ensures RestEnd(b + t, first) == Some(RestEnd(b, first).value + t)
    decreases |b|, 2
  {
    hide SkipSpace, ElementsEnd, MembersEnd;
    NoRest(b);
    SpaceLocal(b, t);
    var e := SkipSpace(b);
    assert (e + t)[1..] == e[1..] + t;
    if e[0] != (if first == OPEN_BRACE then CLOSE_BRACE else CLOSE_BRACKET) {
      if first == OPEN_BRACE { MembersLocal(b, t); } else { ElementsLocal(b, t); }
    }
  }

  lemma NoSpace()
    ensures SkipSpace([]) == []
  {
  }

  lemma NoRest(b: seq<Byte>)
    ensures SkipSpace(b) == [] ==> ElementsEnd(b).None? && MembersEnd(b).None?
  {
  }

  lemma {:induction false} ElementsLocal(b: seq<Byte>, t: seq<Byte>)
    requires ElementsEnd(b).Some?
    ensures ElementsEnd(b + t) == Some(ElementsEnd(b).value + t)
    decreases |b|, 1
  {
    hide SkipSpace, ValueEnd;
    NoSpace();
    var v := ValueEnd(b).value;
    ValueLocal(b, t);
    var s := SkipSpace(v);
    SpaceLocal(v, t);
    assert (s + t)[1..] == s[1..] + t;
    if s[0] == COMMA { ElementsLocal(s[1..], t); }
  }

  lemma NameLocal(b: seq<Byte>, t: seq<Byte>)
    requires NameEnd(b).Some?
    ensures NameEnd(b + t) == Some(NameEnd(b).value + t)
  {
    hide SkipSpace, StringEnd;
    var s := SkipSpace(b);
    SpaceLocal(b, t);
    assert (s + t)[1..] == s[1..] + t;
    StringLocal(s[1..], t);
    var k := StringEnd(s[1..]).value;
    SpaceLocal(k, t);
    assert (SkipSpace(k) + t)[1..] == SkipSpace(k)[1..] + t;
  }

  lemma {:induction false} MembersLocal(b: seq<Byte>, t: seq<Byte>)
    requires MembersEnd(b).Some?
    ensures MembersEnd(b + t) == Some(MembersEnd(b).value + t)
    decreases |b|, 1
  {
    hide SkipSpace, ValueEnd, NameEnd;
    NoSpace();
    var n := NameEnd(b).value;
    NameLocal(b, t);
    var v := ValueEnd(n).value;
    ValueLocal(n, t);
    var s := SkipSpace(v);
    SpaceLocal(v, t);
    assert (s + t)[1..] == s[1..] + t;
    if s[0] == COMMA { MembersLocal(s[1..], t); }
  }

  // ---- objects ----

  // A member: the text of its key and the key it stands for, the text of its
  // value and what that stands for; spaces may stand before the key and around
  // the colon and the value.
  datatype Entry<V> = Entry(before: seq<Byte>, name: seq<Byte>, key: seq<Byte>, between: seq<Byte>, text: seq<Byte>, after: seq<Byte>, val: Option<V>)

  predicate Spaces(b: seq<Byte>) {
    forall i {:trigger b[i]} :: 0 <= i < |b| ==> IsSpace(b[i])
  }

  function EntryText<V>(e: Entry<V>): seq<Byte> {
    e.before + ([QUOTE] + (e.name + ([QUOTE] + (e.between + ([COLON] + (e.text + e.after))))))
  }

  function Body<V>(es: seq<Entry<V>>): seq<Byte> {
    if es == [] then [] else EntryText(es[0]) + (if |es| == 1 then [] else [COMMA] + Body(es[1..]))
  }

  function ObjectText<V>(es: seq<Entry<V>>): seq<Byte> {
    [OPEN_BRACE] + (Body(es) + [CLOSE_BRACE])
  }

  // The decoder of member `i` takes the text for the value.
  ghost predicate Reads<V(!new)>(dec: Codec<V>, i: nat, text: seq<Byte>, v: V) {
    forall t {:trigger dec(i, text + t)} :: t != [] && Ends(t[0]) ==> dec(i, text + t) == Taken(v, t)
  }

  // The text between quotes, with whatever escapes, is read as the key.
  ghost predicate KeyReads(name: seq<Byte>, key: seq<Byte>) {
    forall t: seq<Byte> {:trigger [QUOTE] + t} :: JsonString([QUOTE] + (name + ([QUOTE] + t))) == Taken(key, t)
  }

  // One value that the skipper can skip.
  predicate WellFormed(text: seq<Byte>) {
    ValueEnd(text) == Some([]) && Skippable(text)
  }

  ghost predicate Good<V(!new)>(spec: seq<Member>, dec: Codec<V>, e: Entry<V>) {
    && Spaces(e.before) && Spaces(e.between) && Spaces(e.after) && KeyReads(e.name, e.key)
    && var i := MemberAt(spec, e.key);
       if i == |spec| || !spec[i].known then WellFormed(e.text)
       else if e.val.None? then spec[i].optional && !spec[i].nullable && SkipSpace(e.text) == NULL
       else Reads(dec, i, e.text, e.val.value) && (spec[i].optional && !spec[i].nullable ==> SkipSpace(e.text) != [] && SkipSpace(e.text)[0] != NULL[0])
  }

  predicate Targets<V>(spec: seq<Member>, e: Entry<V>, i: nat) {
    i < |spec| && spec[i].known && MemberAt(spec, e.key) == i
  }

  function Update<V>(spec: seq<Member>, fields: seq<Option<V>>, e: Entry<V>): (r: seq<Option<V>>)
    requires |fields| == |spec|
    ensures |r| == |spec|
  {
    var i := MemberAt(spec, e.key);
    if Targets(spec, e, i) then fields[i := e.val] else fields
  }

  function UpdateAll<V>(spec: seq<Member>, fields: seq<Option<V>>, es: seq<Entry<V>>): (r: seq<Option<V>>)
    requires |fields| == |spec|
    ensures |r| == |spec|
    decreases |es|
  {
    if es == [] then fields else UpdateAll(spec, Update(spec, fields, es[0]), es[1..])
  }

  lemma {:induction false} SkipSpaces(a: seq<Byte>, t: seq<Byte>)
    requires Spaces(a)
    ensures SkipSpace(a + t) == SkipSpace(t)
    decreases |a|
  {
    if a == [] {
      assert a + t == t;
    } else {
      assert IsSpace(a[0]);
      assert (a + t)[1..] == a[1..] + t;
      SkipSpaces(a[1..], t);
    }
  }

  lemma SpaceNone(t: seq<Byte>)
    requires t != [] && !IsSpace(t[0])
    ensures SkipSpace(t) == t
  {
  }

  lemma NullRead(text: seq<Byte>, t: seq<Byte>)
    requires SkipSpace(text) == NULL && t != [] && Ends(t[0])
    ensures NullLength(text + t) == |text| && (text + t)[|text|..] == t
  {
    hide SkipSpace;
    SpaceLocal(text, t);
  }

  lemma NotNull(text: seq<Byte>, t: seq<Byte>)
    requires SkipSpace(text) != [] && SkipSpace(text)[0] != NULL[0]
    ensures NullLength(text + t) == 0
  {
    hide SkipSpace;
    SpaceLocal(text, t);
    NullStarts(SkipSpace(text + t));
  }

  lemma NullStarts(s: seq<Byte>)
    ensures NULL <= s ==> s[0] == NULL[0]
  {
  }

  // A value is decoded, or skipped, up to its end.
  lemma ValueStep<V(!new)>(spec: seq<Member>, dec: Codec<V>, e: Entry<V>, t: seq<Byte>, fields: seq<Option<V>>)
    requires Forward(dec) && |fields| == |spec| && Good(spec, dec, e) && t != [] && Ends(t[0])
    ensures OneMember(spec, dec, MemberAt(spec, e.key), e.text + t, fields) == Taken(Update(spec, fields, e), t)
  {
    hide NullLength, SkipValue, SkipSpace, Skippable, ValueEnd, Forward;
    var i := MemberAt(spec, e.key);
    if i == |spec| || !spec[i].known {
      WellFormedSkipped(e.text, t);
    } else if e.val.None? {
      NullRead(e.text, t);
    } else {
      assert dec(i, e.text + t) == Taken(e.val.value, t);
      if spec[i].optional && !spec[i].nullable { NotNull(e.text, t); }
    }
  }

  lemma WellFormedSkipped(text: seq<Byte>, t: seq<Byte>)
    requires WellFormed(text) && t != [] && Ends(t[0])
    ensures SkipValue(text + t) == Some(t)
  {
    hide SkipSpace, ValueEnd, SkipValue, Paired;
    ValueLocal(text, t);
    assert [] + t == t;
    var s := SkipSpace(text);
    assert (s + t)[0] == s[0];
    if s[0] == QUOTE {
      StringOfValue(text);
      PairedLocal(s[1..], t);
      assert (s + t)[1..] == s[1..] + t;
    }
    SkipExact(text + t);
  }

  lemma StringOfValue(b: seq<Byte>)
    requires ValueEnd(b).Some? && SkipSpace(b) != [] && SkipSpace(b)[0] == QUOTE
    ensures StringEnd(SkipSpace(b)[1..]).Some?
  {
  }

  // One entry of an object.
  lemma EntryStep<V(!new)>(spec: seq<Member>, dec: Codec<V>, e: Entry<V>, t: seq<Byte>, fields: seq<Option<V>>)
    requires Forward(dec) && |fields| == |spec| && Good(spec, dec, e) && t != [] && (t[0] == COMMA || t[0] == CLOSE_BRACE)
    ensures Members(spec, dec, EntryText(e) + t, fields) == Members(spec, dec, t, Update(spec, fields, e))
  {
    hide SkipSpace, OneMember, Members, Forward, Good, Update, JsonString;
    var value := e.text + (e.after + t);
    var colon := [COLON] + value;
    var name := e.name + ([QUOTE] + (e.between + colon));
    EntryForm(e, t);
    GoodSpaces(spec, dec, e);
    SkipSpaces(e.before, [QUOTE] + name);
    SpaceNone([QUOTE] + name);
    assert JsonString([QUOTE] + name) == Taken(e.key, e.between + colon) by { assert KeyReads(e.name, e.key); }
    SkipSpaces(e.between, colon);
    SpaceNone(colon);
    assert colon[1..] == value;
    assert Ends((e.after + t)[0]) by { if e.after != [] { assert IsSpace(e.after[0]); } }
    ValueStep(spec, dec, e, e.after + t, fields);
    MembersStep(spec, dec, EntryText(e) + t, fields);
    SkipSpaces(e.after, t);
    MembersStep(spec, dec, e.after + t, Update(spec, fields, e));
    MembersStep(spec, dec, t, Update(spec, fields, e));
  }

  lemma EntryForm<V>(e: Entry<V>, t: seq<Byte>)
    ensures EntryText(e) + t
         == e.before + ([QUOTE] + (e.name + ([QUOTE] + (e.between + ([COLON] + (e.text + (e.after + t)))))))
  {
  }

  lemma GoodSpaces<V(!new)>(spec: seq<Member>, dec: Codec<V>, e: Entry<V>)
    requires Good(spec, dec, e)
    ensures Spaces(e.before) && Spaces(e.between) && Spaces(e.after) && KeyReads(e.name, e.key)
  {
  }

  lemma {:induction false} BodyRead<V(!new)>(spec: seq<Member>, dec: Codec<V>, es: seq<Entry<V>>, t: seq<Byte>, fields: seq<Option<V>>)
    requires Forward(dec) && |fields| == |spec| && forall k :: 0 <= k < |es| ==> Good(spec, dec, es[k])
    ensures Members(spec, dec, Body(es) + ([CLOSE_BRACE] + t), fields) == Taken(UpdateAll(spec, fields, es), t)
    decreases |es|
  {
    hide SkipSpace, Members, Forward, Good, Update, EntryText;
    var end := [CLOSE_BRACE] + t;
    SpaceNone(end);
    assert end[1..] == t;
    if es == [] {
      assert Body(es) + end == end;
      MembersStep(spec, dec, end, fields);
    } else {
      var now := Update(spec, fields, es[0]);
      if |es| == 1 {
        assert Body(es) == EntryText(es[0]) && es[1..] == [];
        EntryStep(spec, dec, es[0], end, fields);
        MembersStep(spec, dec, end, now);
      } else {
        BodyRead(spec, dec, es[1..], t, now);
        var more := [COMMA] + (Body(es[1..]) + end);
        assert Body(es) + end == EntryText(es[0]) + more;
        EntryStep(spec, dec, es[0], more, fields);
        SpaceNone(more);
        assert more[1..] == Body(es[1..]) + end;
        MembersStep(spec, dec, more, now);
      }
    }
  }

  // Decoding an object gives each member the value of its entry.
  lemma ObjectRead<V(!new)>(spec: seq<Member>, dec: Codec<V>, es: seq<Entry<V>>, t: seq<Byte>)
    requires Forward(dec) && forall k :: 0 <= k < |es| ==> Good(spec, dec, es[k])
    ensures var fields := UpdateAll(spec, Absent(|spec|), es);
            Object(spec, dec, ObjectText(es) + t) == if Missing(spec, fields) then Bad else Taken(fields, t)
    ensures Object(spec, dec, ObjectText(es) + t).Bad?
       <==> exists i {:trigger spec[i]} :: 0 <= i < |spec| && !spec[i].optional && spec[i].known && UpdateAll(spec, Absent(|spec|), es)[i].None?
  {
    hide Object, Members, Forward, Good, UpdateAll, Body;
    var rest := Body(es) + ([CLOSE_BRACE] + t);
    assert ObjectText(es) + t == [OPEN_BRACE] + rest;
    ObjectStep(spec, dec, rest);
    BodyRead(spec, dec, es, t, Absent(|spec|));
  }

  lemma ObjectStep<V(!new)>(spec: seq<Member>, dec: Codec<V>, rest: seq<Byte>)
    requires Forward(dec)
    ensures Object(spec, dec, [OPEN_BRACE] + rest)
         == var r := Members(spec, dec, rest, Absent(|spec|)); if r.Bad? || Missing(spec, r.v) then Bad else r
  {
    hide SkipSpace, Members, Missing, Forward;
    var b := [OPEN_BRACE] + rest;
    SpaceNone(b);
    assert b[1..] == rest;
  }

  // No two entries for the same member.
  ghost predicate OncePerMember<V>(spec: seq<Member>, es: seq<Entry<V>>) {
    forall i, j, m: nat {:trigger Targets(spec, es[i], m), Targets(spec, es[j], m)} ::
      0 <= i < |es| && 0 <= j < |es| && Targets(spec, es[i], m) && Targets(spec, es[j], m) ==> i == j
  }

  lemma {:induction false} Untouched<V>(spec: seq<Member>, fields: seq<Option<V>>, es: seq<Entry<V>>, m: nat)
    requires |fields| == |spec| && m < |spec| && forall k :: 0 <= k < |es| ==> !Targets(spec, es[k], m)
    ensures UpdateAll(spec, fields, es)[m] == fields[m]
    decreases |es|
  {
    if es != [] {
      assert !Targets(spec, es[0], m);
      Untouched(spec, Update(spec, fields, es[0]), es[1..], m);
    }
  }

  // Of several entries for a member the last one counts.
  lemma {:induction false} LastEntryWins<V>(spec: seq<Member>, fields: seq<Option<V>>, es: seq<Entry<V>>, k: nat, m: nat)
    requires |fields| == |spec| && k < |es| && Targets(spec, es[k], m)
    requires forall j {:trigger es[j]} :: k < j < |es| ==> !Targets(spec, es[j], m)
    ensures UpdateAll(spec, fields, es)[m] == es[k].val
    decreases |es|
  {
    var now := Update(spec, fields, es[0]);
    forall j {:trigger es[1..][j]} | 0 <= j < |es| - 1 && k <= j ensures !Targets(spec, es[1..][j], m) { assert es[1..][j] == es[j + 1]; }
    if k == 0 { Untouched(spec, now, es[1..], m); } else { LastEntryWins(spec, now, es[1..], k - 1, m); }
  }

  lemma TakesValue<V>(spec: seq<Member>, fields: seq<Option<V>>, es: seq<Entry<V>>, k: nat, m: nat)
    requires |fields| == |spec| && OncePerMember(spec, es) && k < |es| && Targets(spec, es[k], m)
    ensures UpdateAll(spec, fields, es)[m] == es[k].val
  {
    forall j {:trigger es[j]} | k < j < |es| ensures !Targets(spec, es[j], m) {}
    LastEntryWins(spec, fields, es, k, m);
  }

  // Each member's entry occurs in the other list.
  ghost predicate Covers<V(!new)>(spec: seq<Member>, es: seq<Entry<V>>, fs: seq<Entry<V>>) {
    forall k, m: nat {:trigger Targets(spec, es[k], m)} :: 0 <= k < |es| && Targets(spec, es[k], m) ==>
      exists j :: 0 <= j < |fs| && Targets(spec, fs[j], m) && fs[j].val == es[k].val
  }

  // Two objects that give the same members the same values decode alike: in
  // any order, with any spacing and any unknown members.
  lemma OrderIndependent<V(!new)>(spec: seq<Member>, dec: Codec<V>, es: seq<Entry<V>>, fs: seq<Entry<V>>, t: seq<Byte>)
    requires Forward(dec)
    requires forall k :: 0 <= k < |es| ==> Good(spec, dec, es[k])
    requires forall k :: 0 <= k < |fs| ==> Good(spec, dec, fs[k])
    requires OncePerMember(spec, es) && OncePerMember(spec, fs) && Covers(spec, es, fs) && Covers(spec, fs, es)
    ensures Object(spec, dec, ObjectText(es) + t) == Object(spec, dec, ObjectText(fs) + t)
  {
    hide Object, Good, Forward, UpdateAll, OncePerMember, ObjectText;
    ObjectRead(spec, dec, es, t);
    ObjectRead(spec, dec, fs, t);
    var a, b := UpdateAll(spec, Absent(|spec|), es), UpdateAll(spec, Absent(|spec|), fs);
    forall m | 0 <= m < |spec| ensures a[m] == b[m] {
      if k :| 0 <= k < |es| && Targets(spec, es[k], m) {
        var j :| 0 <= j < |fs| && Targets(spec, fs[j], m) && fs[j].val == es[k].val;
        TakesValue(spec, Absent(|spec|), es, k, m);
        TakesValue(spec, Absent(|spec|), fs, j, m);
      } else {
        Untouched(spec, Absent(|spec|), es, m);
        Untouched(spec, Absent(|spec|), fs, m);
      }
    }
    assert a == b;
  }
}
