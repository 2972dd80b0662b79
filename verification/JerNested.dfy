/**
 * SEQUENCEs inside SEQUENCEs as JSON objects inside objects: an object decoder
 * is itself the codec of a member.
 */
module JerNested {
  import opened Bits
  import opened Options
  import opened JerText
  import opened JerSkip
  import opened JerSequence
  import opened JerOrder
  import opened JerRoundTrip

  // ---- every reader stops inside its text ----

  predicate EndOf(r: seq<Byte>, b: seq<Byte>) {
    |r| <= |b| && r == b[|b| - |r|..]
  }

  lemma EndStep(r: seq<Byte>, b: seq<Byte>, n: nat)
    requires n <= |b| && EndOf(r, b[n..])
    ensures EndOf(r, b)
  {
    assert b[n..][|b| - n - |r|..] == b[|b| - |r|..];
  }

  lemma EndTrans(a: seq<Byte>, b: seq<Byte>, c: seq<Byte>)
    requires EndOf(a, b) && EndOf(b, c)
    ensures EndOf(a, c)
  {
    EndStep(a, c, |c| - |b|);
  }

  lemma {:induction false} SpaceEnd(b: seq<Byte>)
    ensures EndOf(SkipSpace(b), b)
    decreases |b|
  {
    hide EndOf;
    SpaceStep(b);
    if b != [] && IsSpace(b[0]) {
      SpaceEnd(b[1..]);
      EndStep(SkipSpace(b), b, 1);
    } else {
      Whole(b);
    }
  }

  lemma Whole(b: seq<Byte>)
    ensures EndOf(b, b)
  {
  }

  lemma Behind(b: seq<Byte>, n: nat)
    requires n <= |b|
    ensures EndOf(b[n..], b)
  {
  }

  lemma {:induction false} HexEnd(b: seq<Byte>, count: nat, acc: nat)
    ensures HexDigits(b, count, acc).Taken? ==> EndOf(HexDigits(b, count, acc).rest, b)
    decreases count
  {
    hide EndOf;
    if count == 0 {
      Whole(b);
    } else if b != [] && HexValue(b[0]).Some? {
      var acc' := acc * 16 + HexValue(b[0]).value;
      HexEnd(b[1..], count - 1, acc');
      if HexDigits(b, count, acc).Taken? { EndStep(HexDigits(b, count, acc).rest, b, 1); }
    }
  }

  lemma EscapeEnd(b: seq<Byte>)
    ensures Escaped(b).Taken? ==> EndOf(Escaped(b).rest, b)
  {
    hide EndOf, HexDigits, Utf8;
    if b != [] {
      Behind(b, 1);
      CodePointEnd(b[1..]);
      if Simple(b[0]).None? && Escaped(b).Taken? { EndStep(CodePoint(b[1..]).rest, b, 1); }
    }
  }

  lemma CodePointEnd(b: seq<Byte>)
    ensures CodePoint(b).Taken? ==> EndOf(CodePoint(b).rest, b)
  {
    hide EndOf, HexDigits;
    HexEnd(b, 4, 0);
    var h := HexDigits(b, 4, 0);
    if h.Taken? && |h.rest| >= 2 {
      HexEnd(h.rest[2..], 4, 0);
      var l := HexDigits(h.rest[2..], 4, 0);
      if l.Taken? {
        EndStep(l.rest, h.rest, 2);
        EndTrans(l.rest, h.rest, b);
      }
    }
  }

  lemma {:induction false} CharsEnd(b: seq<Byte>)
    ensures Chars(b).Taken? ==> EndOf(Chars(b).rest, b)
    decreases |b|
  {
    hide EndOf, Escaped;
    if b != [] {
      Behind(b, 1);
      if b[0] == BACKSLASH {
        EscapeEnd(b[1..]);
        var e := Escaped(b[1..]);
        if e.Taken? {
          CharsEnd(e.rest);
          if Chars(b).Taken? {
            EndTrans(Chars(b).rest, e.rest, b[1..]);
            EndStep(Chars(b).rest, b, 1);
          }
        }
      } else if b[0] != QUOTE {
        CharsEnd(b[1..]);
        if Chars(b).Taken? { EndStep(Chars(b).rest, b, 1); }
      }
    }
  }

  lemma StringEndOf(b: seq<Byte>)
    ensures JsonString(b).Taken? ==> EndOf(JsonString(b).rest, b)
  {
    hide EndOf, Chars, SkipSpace;
    var s := SkipSpace(b);
    SpaceEnd(b);
    if s != [] {
      CharsEnd(s[1..]);
      if JsonString(b).Taken? {
        EndStep(JsonString(b).rest, s, 1);
        EndTrans(JsonString(b).rest, s, b);
      }
    }
  }

  lemma {:induction false} TokenEndOf(b: seq<Byte>)
    ensures EndOf(SkipToken(b), b)
    decreases |b|
  {
    hide EndOf;
    if b == [] || Ends(b[0]) {
      Whole(b);
    } else {
      TokenEndOf(b[1..]);
      EndStep(SkipToken(b), b, 1);
    }
  }

  lemma {:induction false} ScanEnd(b: seq<Byte>, open: Byte, close: Byte, depth: int, inStr: bool, esc: bool)
    ensures var r := Scan(b, open, close, depth, inStr, esc); r.Some? ==> EndOf(r.value, b)
    decreases |b|
  {
    hide EndOf;
    if b != [] {
      Behind(b, 1);
      ScanEnd(b[1..], open, close, depth, inStr, false);
      ScanEnd(b[1..], open, close, depth, inStr, true);
      ScanEnd(b[1..], open, close, depth, !inStr, false);
      ScanEnd(b[1..], open, close, depth + 1, inStr, false);
      ScanEnd(b[1..], open, close, depth - 1, inStr, false);
      var r := Scan(b, open, close, depth, inStr, esc);
      if r.Some? && r.value != b[1..] {
        assert EndOf(r.value, b[1..]);
        EndStep(r.value, b, 1);
      }
    }
  }

  lemma SkipEndOf(b: seq<Byte>)
    ensures SkipValue(b).Some? ==> EndOf(SkipValue(b).value, b)
  {
    hide EndOf, Chars, SkipSpace, Scan, SkipToken;
    var s := SkipSpace(b);
    SpaceEnd(b);
    if s != [] {
      CharsEnd(s[1..]);
      TokenEndOf(s);
      ScanEnd(s, s[0], if s[0] == OPEN_BRACE then CLOSE_BRACE else CLOSE_BRACKET, 0, false, false);
      if SkipValue(b).Some? {
        if s[0] == QUOTE { EndStep(SkipValue(b).value, s, 1); }
        EndTrans(SkipValue(b).value, s, b);
      }
    }
  }

  lemma ColonEnd(b: seq<Byte>)
    ensures AfterColon(b).Some? ==> EndOf(AfterColon(b).value, b)
  {
    hide EndOf, SkipSpace;
    SpaceEnd(b);
    var s := SkipSpace(b);
    if s != [] {
      Behind(s, 1);
      EndTrans(s[1..], s, b);
    }
  }

  lemma OneMemberEnd<V(!new)>(spec: seq<Member>, dec: Codec<V>, i: nat, b: seq<Byte>, fields: seq<Option<V>>)
    requires Forward(dec) && |fields| == |spec| && i <= |spec|
    ensures OneMember(spec, dec, i, b, fields).Taken? ==> EndOf(OneMember(spec, dec, i, b, fields).rest, b)
  {
    hide SkipValue, NullLength;
    SkipEndOf(b);
    Behind(b, NullLength(b));
  }

  lemma {:induction false} MembersEndOf<V(!new)>(spec: seq<Member>, dec: Codec<V>, b: seq<Byte>, fields: seq<Option<V>>)
    requires Forward(dec) && |fields| == |spec|
    ensures Members(spec, dec, b, fields).Taken? ==> EndOf(Members(spec, dec, b, fields).rest, b)
    decreases |b|
  {
    hide EndOf, SkipSpace, JsonString, AfterColon, OneMember, Forward, Members;
    MembersStep(spec, dec, b, fields);
    var s, r := SkipSpace(b), Members(spec, dec, b, fields);
    SpaceEnd(b);
    if s != [] && r.Taken? {
      Behind(s, 1);
      EndTrans(s[1..], s, b);
      if s[0] == COMMA {
        MembersEndOf(spec, dec, s[1..], fields);
        EndTrans(r.rest, s[1..], b);
      } else if s[0] != CLOSE_BRACE {
        var key := JsonString(s);
        StringEndOf(s);
        ColonEnd(key.rest);
        var value := AfterColon(key.rest).value;
        var m := OneMember(spec, dec, MemberAt(spec, key.v), value, fields);
        OneMemberEnd(spec, dec, MemberAt(spec, key.v), value, fields);
        MembersEndOf(spec, dec, m.rest, m.v);
        EndTrans(r.rest, m.rest, value);
        EndTrans(r.rest, value, key.rest);
        EndTrans(r.rest, key.rest, s);
        EndTrans(r.rest, s, b);
      }
    }
  }

  // An object decoder goes forward, as its members' decoders do.
  lemma ObjectForward<V(!new)>(spec: seq<Member>, dec: Codec<V>, b: seq<Byte>)
    requires Forward(dec)
    ensures Object(spec, dec, b).Taken? ==> EndOf(Object(spec, dec, b).rest, b)
  {
    hide EndOf, SkipSpace, Members, Missing, Forward;
    var s := SkipSpace(b);
    SpaceEnd(b);
    if s != [] {
      MembersEndOf(spec, dec, s[1..], Absent(|spec|));
      if Object(spec, dec, b).Taken? {
        EndStep(Object(spec, dec, b).rest, s, 1);
        EndTrans(Object(spec, dec, b).rest, s, b);
      }
    }
  }

  // ---- types of any nesting ----

  // A type is a leaf with a codec of its own or a SEQUENCE.
  datatype Shape = Leaf(codec: nat) | Node(spec: seq<Member>, kids: seq<Shape>)

  // A value of such a type.
  datatype Tree<V> = Single(v: V) | Record(fields: seq<Option<Tree<V>>>)

  // `d` is the number of levels the depth guard still allows.
  function DecTree<V(!new)>(shape: Shape, leaf: Codec<V>, d: nat, b: seq<Byte>): (r: Taken<Tree<V>>)
    requires Forward(leaf)
    ensures r.Taken? ==> EndOf(r.rest, b)
    decreases shape, 1
  {
    match shape
    case Leaf(i) =>
      var r := leaf(i, b);
      if r.Bad? then Bad else Taken(Single(r.v), r.rest)
    case Node(spec, _) =>
      if d == 0 then Bad else
      var kids := KidDec(shape, leaf, d - 1);
      assert Forward(kids);
      ObjectForward(spec, kids, b);
      var r := Object(spec, kids, b);
      if r.Bad? then Bad else Taken(Record(r.v), r.rest)
  }

  // The members' decoders of a SEQUENCE.
  function KidDec<V(!new)>(shape: Shape, leaf: Codec<V>, d: nat): (dec: Codec<Tree<V>>)
    requires Forward(leaf) && shape.Node?
    ensures forall k, b {:trigger dec(k, b)} :: dec(k, b).Taken? ==> EndOf(dec(k, b).rest, b)
    ensures forall k: nat, b {:trigger dec(k, b)} :: k < |shape.kids| ==> dec(k, b) == DecTree(shape.kids[k], leaf, d, b)
    decreases shape, 0
  {
    (k: nat, b: seq<Byte>) => if k < |shape.kids| then DecTree(shape.kids[k], leaf, d, b) else Bad
  }

  function EncTree<V(!new)>(shape: Shape, enc: Encoder<V>, tree: Tree<V>): seq<Byte>
    decreases shape, 1
  {
    match (shape, tree)
    case (Leaf(i), Single(v)) => enc(i, v)
    case (Node(spec, _), Record(fields)) => if |fields| == |spec| then ObjectText(Entries(spec, KidEnc(shape, enc), fields, |spec|)) else []
    case _ => []
  }

  // The members' encoders of a SEQUENCE.
  function KidEnc<V(!new)>(shape: Shape, enc: Encoder<V>): (e: Encoder<Tree<V>>)
    requires shape.Node?
    ensures forall k: nat, t {:trigger e(k, t)} :: k < |shape.kids| ==> e(k, t) == EncTree(shape.kids[k], enc, t)
    decreases shape, 0
  {
    (k: nat, t: Tree<V>) => if k < |shape.kids| then EncTree(shape.kids[k], enc, t) else []
  }

  // The value is made like the type, nested within `d` levels, and its leaves' codecs read back what
  // they write; no optional member writes what looks like null unless null is
  // one of its values.
  ghost predicate Fits<V(!new)>(shape: Shape, leaf: Codec<V>, enc: Encoder<V>, tree: Tree<V>, d: nat)
    decreases shape
  {
    match (shape, tree)
    case (Leaf(i), Single(v)) => Reads(leaf, i, enc(i, v), v)
    case (Node(spec, kids), Record(fields)) =>
      && d > 0 && |kids| == |spec| && NamesOk(spec) && Conforms(spec, fields)
      && forall k {:trigger kids[k]} :: 0 <= k < |kids| && fields[k].Some? ==>
           && Fits(kids[k], leaf, enc, fields[k].value, d - 1)
           && (spec[k].optional && !spec[k].nullable ==> NotNullLike(EncTree(kids[k], enc, fields[k].value)))
    case _ => false
  }

  predicate NotNullLike(text: seq<Byte>) {
    SkipSpace(text) != [] && SkipSpace(text)[0] != NULL[0]
  }

  // A nested value is read back, and reading stops behind it.
  lemma {:induction false} TreeReadBack<V(!new)>(shape: Shape, leaf: Codec<V>, enc: Encoder<V>, tree: Tree<V>, d: nat, t: seq<Byte>)
    requires Forward(leaf) && Fits(shape, leaf, enc, tree, d) && t != [] && Ends(t[0])
    ensures DecTree(shape, leaf, d, EncTree(shape, enc, tree) + t) == Taken(tree, t)
    decreases shape
  {
    hide Object, ObjectText, Entries, NamesOk, SkipSpace;
    match shape
    case Leaf(i) =>
    case Node(spec, kids) =>
      var dec, e, fields := KidDec(shape, leaf, d - 1), KidEnc(shape, enc), tree.fields;
      assert Forward(dec);
      forall k {:trigger fields[k]} | 0 <= k < |spec| && fields[k].Some?
        ensures Reads(dec, k, e(k, fields[k].value), fields[k].value)
        ensures spec[k].optional && !spec[k].nullable ==> NotNullLike(e(k, fields[k].value))
      {
        assert Fits(kids[k], leaf, enc, fields[k].value, d - 1);
        forall u {:trigger dec(k, e(k, fields[k].value) + u)} | u != [] && Ends(u[0])
          ensures dec(k, e(k, fields[k].value) + u) == Taken(fields[k].value, u)
        {
          TreeReadBack(kids[k], leaf, enc, fields[k].value, d - 1, u);
        }
      }
      assert ReadsBack(spec, dec, e, fields);
      ObjectReadBack(spec, dec, e, fields, t);
  }

  // An object whose entries are good is one for a member of an outer object,
  // so the laws of objects hold for it there: any order, spacing and unknown
  // members, at every level.
  lemma ObjectIsMember<V(!new)>(shape: Shape, leaf: Codec<V>, d: nat, k: nat, es: seq<Entry<Tree<V>>>)
    requires d > 0 && Forward(leaf) && shape.Node? && k < |shape.kids| && shape.kids[k].Node?
    requires var kid := shape.kids[k];
             forall i :: 0 <= i < |es| ==> Good(kid.spec, KidDec(kid, leaf, d - 1), es[i])
    requires !Missing(shape.kids[k].spec, UpdateAll(shape.kids[k].spec, Absent(|shape.kids[k].spec|), es))
    ensures Reads(KidDec(shape, leaf, d), k, ObjectText(es), Record(UpdateAll(shape.kids[k].spec, Absent(|shape.kids[k].spec|), es)))
  {
    hide Object, ObjectText, Good, UpdateAll, Missing, Forward;
    var kid, dec := shape.kids[k], KidDec(shape, leaf, d);
    var inner := KidDec(kid, leaf, d - 1);
    assert Forward(inner) by { KidForward(kid, leaf, d - 1); }
    var v := Record(UpdateAll(kid.spec, Absent(|kid.spec|), es));
    forall t {:trigger dec(k, ObjectText(es) + t)} | t != [] && Ends(t[0]) ensures dec(k, ObjectText(es) + t) == Taken(v, t) {
      ObjectRead(kid.spec, inner, es, t);
      assert dec(k, ObjectText(es) + t) == DecTree(kid, leaf, d, ObjectText(es) + t);
    }
  }

  lemma KidForward<V(!new)>(shape: Shape, leaf: Codec<V>, d: nat)
    requires Forward(leaf) && shape.Node?
    ensures Forward(KidDec(shape, leaf, d))
  {
  }
}
