/**
 * Decoding a SEQUENCE from a JSON object: members in any order, unknown ones
 * skipped, absent optional ones left out or sent as null.
 */
module JerSequence {
  import opened Bits
  import opened Options
  import opened JerText
  import opened JerSkip

  // `known` when the member has a type; `nullable` when null is one of its
  // type's own values.
  datatype Member = Member(name: seq<Byte>, optional: bool, known: bool, nullable: bool)

  // Decodes the value of a member by its index.
  type Codec<V> = (nat, seq<Byte>) -> Taken<V>

  // A decoder goes forward in its input.
  ghost predicate Forward<V(!new)>(dec: Codec<V>) {
    forall i, b {:trigger dec(i, b)} :: dec(i, b).Taken? ==> |dec(i, b).rest| <= |b| && dec(i, b).rest == b[|b| - |dec(i, b).rest|..]
  }

  function MemberAt(spec: seq<Member>, key: seq<Byte>): (k: nat)
    ensures k <= |spec| && (k < |spec| ==> spec[k].name == key)
    ensures forall j :: 0 <= j < k ==> spec[j].name != key
  {
    if spec == [] || spec[0].name == key then 0 else 1 + MemberAt(spec[1..], key)
  }

  // Octets up to the end of a null, 0 when the next value is another.
  function NullLength(b: seq<Byte>): (n: nat)
    ensures n <= |b|
  {
    var s := SkipSpace(b);
    if !(NULL <= s) || (|s| > 4 && !Ends(s[4])) then 0 else |b| - |s| + 4
  }

  // What follows a key.
  function AfterColon(b: seq<Byte>): (r: Option<seq<Byte>>)
    ensures r.Some? ==> |r.value| < |b|
  {
    var s := SkipSpace(b);
    if s == [] || s[0] != COLON then None else Some(s[1..])
  }

  // The members up to the closing brace.
  function Members<V(!new)>(spec: seq<Member>, dec: Codec<V>, b: seq<Byte>, fields: seq<Option<V>>): (r: Taken<seq<Option<V>>>)
    requires Forward(dec) && |fields| == |spec|
    ensures r.Taken? ==> |r.v| == |spec|
    decreases |b|
  {
    var s := SkipSpace(b);
    if s == [] || s[0] == 0 then Bad
    else if s[0] == CLOSE_BRACE then Taken(fields, s[1..])
    else if s[0] == COMMA then Members(spec, dec, s[1..], fields)
    else
      var key := JsonString(s);
      if key.Bad? then Bad else
      var value := AfterColon(key.rest);
      if value.None? then Bad else
      var m := OneMember(spec, dec, MemberAt(spec, key.v), value.value, fields);
      if m.Bad? then Bad else Members(spec, dec, m.rest, m.v)
  }

  // The value of one member, or of a key that is none.
  function OneMember<V(!new)>(spec: seq<Member>, dec: Codec<V>, i: nat, b: seq<Byte>, fields: seq<Option<V>>): (r: Taken<seq<Option<V>>>)
    requires Forward(dec) && |fields| == |spec| && i <= |spec|
    ensures r.Taken? ==> |r.v| == |spec| && |r.rest| <= |b|
  {
    if i == |spec| || !spec[i].known then
      SkipShorter(b);
      var r := SkipValue(b);
      if r.None? then Bad else Taken(fields, r.value)
    else if spec[i].optional && !spec[i].nullable && NullLength(b) > 0 then Taken(fields[i := None], b[NullLength(b)..])
    else
      var v := dec(i, b);
      if v.Bad? then Bad else Taken(fields[i := Some(v.v)], v.rest)
  }

  lemma {:induction false} ScanShorter(b: seq<Byte>, open: Byte, close: Byte, depth: int, inStr: bool, esc: bool)
    ensures var r := Scan(b, open, close, depth, inStr, esc); r.Some? ==> |r.value| < |b|
    decreases |b|
  {
    if b != [] {
      ScanShorter(b[1..], open, close, depth, inStr, false);
      ScanShorter(b[1..], open, close, depth, inStr, true);
      ScanShorter(b[1..], open, close, depth, !inStr, false);
      ScanShorter(b[1..], open, close, depth + 1, inStr, false);
      ScanShorter(b[1..], open, close, depth - 1, inStr, false);
    }
  }

  lemma SkipShorter(b: seq<Byte>)
    ensures SkipValue(b).Some? ==> |SkipValue(b).value| <= |b|
  {
    hide SkipSpace, Scan, Chars;
    var s := SkipSpace(b);
    if s != [] {
      ScanShorter(s, s[0], if s[0] == OPEN_BRACE then CLOSE_BRACE else CLOSE_BRACKET, 0, false, false);
      SkipTokenSize(s);
    }
  }

  predicate Missing<V>(spec: seq<Member>, fields: seq<Option<V>>)
    requires |fields| == |spec|
  {
    exists i :: 0 <= i < |spec| && !spec[i].optional && spec[i].known && fields[i].None?
  }

  function Absent<V>(n: nat): seq<Option<V>> {
    seq(n, _ => None)
  }

  // A whole object.
  function Object<V(!new)>(spec: seq<Member>, dec: Codec<V>, b: seq<Byte>): Taken<seq<Option<V>>>
    requires Forward(dec)
  {
    var s := SkipSpace(b);
    if s == [] || s[0] != OPEN_BRACE then Bad else
    var r := Members(spec, dec, s[1..], Absent(|spec|));
    if r.Bad? || Missing(spec, r.v) then Bad else r
  }

  // ---- the decoder ----

  method ExpectChar(s: JerDecodeStream, c: Byte) returns (ok: bool)
    requires s.Valid()
    modifies s
    ensures s.Valid()
    ensures var b := SkipSpace(old(s.Rest())); ok == (b != [] && b[0] == c) && (ok ==> s.Rest() == b[1..])
  {
    hide SkipSpace;
    s.SkipWs();
    if s.pos == |s.buf| || s.buf[s.pos] != c { return false; }
    ghost var b := s.Rest();
    s.pos := s.pos + 1;
    assert b[1..] == s.Rest();
    return true;
  }

  method PeekNull(s: JerDecodeStream) returns (n: nat)
    requires s.Valid()
    ensures n == NullLength(s.Rest())
  {
    hide SkipSpace;
    var i := s.pos;
    assert s.buf[i..] == s.Rest();
    while i < |s.buf| && IsSpace(s.buf[i])
      invariant s.pos <= i <= |s.buf| && SkipSpace(s.Rest()) == SkipSpace(s.buf[i..])
    {
      SpaceStep(s.buf[i..]);
      assert s.buf[i..][1..] == s.buf[i + 1..];
      i := i + 1;
    }
    SpaceStep(s.buf[i..]);
    var rest := s.buf[i..];
    if |rest| < 4 || rest[..4] != NULL { return 0; }
    if |rest| > 4 && !Ends(rest[4]) { return 0; }
    return i - s.pos + 4;
  }

  method FindMember(spec: seq<Member>, key: seq<Byte>) returns (k: nat)
    ensures k == MemberAt(spec, key)
  {
    k := 0;
    assert spec[0..] == spec;
    while k < |spec| && spec[k].name != key
      invariant k <= |spec| && MemberAt(spec, key) == k + MemberAt(spec[k..], key)
    {
      assert spec[k..][1..] == spec[k + 1..];
      k := k + 1;
    }
  }

  method DecodeMember<V(!new)>(s: JerDecodeStream, spec: seq<Member>, dec: Codec<V>, i: nat, fields: seq<Option<V>>)
    returns (r: Option<seq<Option<V>>>)
    requires s.Valid() && Forward(dec) && |fields| == |spec| && i <= |spec|
    modifies s
    ensures s.Valid()
    ensures var m := OneMember(spec, dec, i, old(s.Rest()), fields); if m.Bad? then r.None? else r == Some(m.v) && s.Rest() == m.rest
  {
    hide SkipValue, NullLength;
    ghost var b := s.Rest();
    if i == |spec| || !spec[i].known {
      var ok := SkipJsonValue(s);
      return if ok then Some(fields) else None;
    }
    var n := 0;
    if spec[i].optional { n := PeekNull(s); }
    if n > 0 && !spec[i].nullable {
      s.pos := s.pos + n;
      assert b[n..] == s.Rest();
      return Some(fields[i := None]);
    }
    var v := dec(i, s.buf[s.pos..]);
    if v.Bad? { return None; }
    s.pos := |s.buf| - |v.rest|;
    assert b[|b| - |v.rest|..] == s.Rest();
    return Some(fields[i := Some(v.v)]);
  }

  method CheckRequired<V>(spec: seq<Member>, fields: seq<Option<V>>) returns (r: Option<seq<Option<V>>>)
    requires |fields| == |spec|
    ensures r == if Missing(spec, fields) then None else Some(fields)
  {
    for i := 0 to |spec|
      invariant forall j :: 0 <= j < i ==> spec[j].optional || !spec[j].known || fields[j].Some?
    {
      if !spec[i].optional && spec[i].known && fields[i].None? { return None; }
    }
    return Some(fields);
  }

  method Decode<V(!new)>(s: JerDecodeStream, spec: seq<Member>, dec: Codec<V>) returns (r: Option<seq<Option<V>>>)
    requires s.Valid() && Forward(dec)
    modifies s
    ensures s.Valid()
    ensures var o := Object(spec, dec, old(s.Rest())); if o.Bad? then r.None? else r == Some(o.v) && s.Rest() == o.rest
  {
    hide SkipSpace, JsonString, OneMember, Members, Forward;
    var fields: seq<Option<V>> := seq(|spec|, _ => None);
    assert fields == Absent(|spec|);
    var ok := ExpectChar(s, OPEN_BRACE);
    if !ok { return None; }
    ghost var whole := Members(spec, dec, s.Rest(), fields);
    while true
      invariant s.Valid() && |fields| == |spec| && whole == Members(spec, dec, s.Rest(), fields)
      decreases |s.buf| - s.pos
    {
      MembersStep(spec, dec, s.Rest(), fields);
      s.SkipWs();
      if s.pos == |s.buf| || s.buf[s.pos] == 0 { return None; }
      ghost var b := s.Rest();
      if s.buf[s.pos] == CLOSE_BRACE || s.buf[s.pos] == COMMA {
        var end := s.buf[s.pos] == CLOSE_BRACE;
        s.pos := s.pos + 1;
        assert b[1..] == s.Rest();
        if end {
          r := CheckRequired(spec, fields);
          return;
        }
        continue;
      }
      var key := s.ReadJsonString();
      if key.None? { return None; }
      ok := ExpectChar(s, COLON);
      if !ok { return None; }
      var i := FindMember(spec, key.value);
      var now := DecodeMember(s, spec, dec, i, fields);
      if now.None? { return None; }
      fields := now.value;
    }
  }

  lemma MembersStep<V(!new)>(spec: seq<Member>, dec: Codec<V>, b: seq<Byte>, fields: seq<Option<V>>)
    requires Forward(dec) && |fields| == |spec|
    ensures Members(spec, dec, b, fields)
         == var s := SkipSpace(b);
            if s == [] || s[0] == 0 then Bad
            else if s[0] == CLOSE_BRACE then Taken(fields, s[1..])
            else if s[0] == COMMA then Members(spec, dec, s[1..], fields)
            else if JsonString(s).Bad? || AfterColon(JsonString(s).rest).None? then Bad
            else
              var m := OneMember(spec, dec, MemberAt(spec, JsonString(s).v), AfterColon(JsonString(s).rest).value, fields);
              if m.Bad? then Bad else Members(spec, dec, m.rest, m.v)
  {
    hide JsonString, SkipSpace, AfterColon, OneMember;
  }
}
