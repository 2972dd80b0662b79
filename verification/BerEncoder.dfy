/** The handlers of the BER encoder, proved to write what BerTypes says. */
module BerEncoder {
  import opened Bits
  import opened Options
  import opened Integers
  import opened Octets
  import opened BerTlv
  import opened BerStream
  import opened BerOrder
  import opened BerTypes

  // Tags fit their storage.
  predicate MemberTagsWf(ms: seq<Member>) {
    forall i :: 0 <= i < |ms| ==> TagWf(ms[i].tag)
  }

  predicate DescWf(d: Desc) {
    && TagWf(d.tag) && TagWf(d.natural)
    && match d.kind
       case Sequence(ms, _) => MemberTagsWf(ms)
       case Choice(alts, _, _, _) => MemberTagsWf(alts)
       case _ => true
  }

  ghost predicate TagsWf(S: Schema) {
    forall t {:trigger DescWf(S[t])} :: 0 <= t < |S| ==> DescWf(S[t])
  }

  // ---- the failure flag ----

  // Whether encoding raises the flag.  The elements of a SET OF are written
  // through writers of their own, whose flags nobody looks at.
  predicate Flagged(S: Schema, t: nat, v: Value)
    decreases v, 4
  {
    t >= |S| || FlaggedAs(S, S[t].kind, v)
  }

  predicate FlaggedAs(S: Schema, k: Kind, v: Value)
    decreases v, 3
  {
    match k
    case SeqOf(elem, isSetOf) => !v.ListV? || (!(isSetOf && |v.items| > 1) && FlaggedList(S, elem, v.items))
    case Sequence(ms, _) => !v.RecordV? || |v.fields| != |ms| || FlaggedMembers(S, ms, v.fields)
    case Choice(alts, _, _, _) => !v.ChoiceV? || v.index >= |alts| || Flagged(S, alts[v.index].t, v.v)
    case Boolean => !v.BoolV?
    case Integer => !v.IntV? || !(I64_MIN <= v.i <= I64_MAX)
    case Null => !v.NullV?
    case OctetString => !v.OctetsV?
  }

  predicate FlaggedList(S: Schema, t: nat, vs: seq<Value>)
    decreases vs, 0
  {
    vs != [] && (Flagged(S, t, vs[0]) || FlaggedList(S, t, vs[1..]))
  }

  predicate FlaggedField(S: Schema, t: nat, f: Field)
    requires f.Has?
    decreases f, 0
  {
    Flagged(S, t, f.v)
  }

  predicate FlaggedMembers(S: Schema, ms: seq<Member>, fs: seq<Field>)
    requires |ms| == |fs|
    decreases fs, 0
  {
    ms != [] &&
    if fs[0].Absent? then ms[0].optional && FlaggedMembers(S, ms[1..], fs[1..])
    else (fs[0] != ms[0].dflt && FlaggedField(S, ms[0].t, fs[0])) || FlaggedMembers(S, ms[1..], fs[1..])
  }

  // ---- encodings start with a complete tag ----

  predicate Complete(e: seq<Byte>) {
    TagComplete(e) && TagSize(e) <= |e|
  }

  lemma TlvComplete(t: Tag, value: seq<Byte>)
    requires TagWf(t)
    ensures Complete(TlvOctets(t, value))
  {
    hide TagOctets, LengthOctets, TagSize;
    TagSizeExact(t, LengthOctets(|value|) + value);
    RetagTlv(t, t, value);
  }

  lemma RetagComplete(t: Tag, rest: seq<Byte>)
    requires TagWf(t)
    ensures Complete(TagOctets(t) + rest)
  {
    hide TagOctets, TagSize;
    TagSizeExact(t, rest);
  }

  lemma {:induction false} EncComplete(S: Schema, t: nat, v: Value)
    requires TagsWf(S) && Enc(S, t, v).Some?
    ensures Complete(Enc(S, t, v).value)
    decreases v, 4
  {
    hide Complete, EncContent, TlvOctets, EncTagged;
    assert DescWf(S[t]);
    if S[t].explicit {
      TlvComplete(S[t].tag, EncAs(S, S[t].kind, S[t].natural, v).value);
    } else if S[t].kind.Choice? {
      TaggedComplete(S, S[t].kind.alts[v.index], v.v);
    } else {
      TlvComplete(S[t].tag, EncContent(S, S[t].kind, v).value);
    }
  }

  lemma {:induction false} TaggedComplete(S: Schema, m: Member, v: Value)
    requires TagsWf(S) && TagWf(m.tag) && EncTagged(S, m, v).Some?
    ensures Complete(EncTagged(S, m, v).value)
    decreases v, 5
  {
    hide Complete, EncAs, TlvOctets, TagOctets;
    EncComplete(S, m.t, v);
    match m.tagging
    case Own =>
    case Explicit => TlvComplete(Tag(m.tag.cls, m.tag.number, true), Enc(S, m.t, v).value);
    case Implicit =>
      RetagComplete(Tag(m.tag.cls, m.tag.number, S[m.t].tag.constructed), Enc(S, m.t, v).value[TagSize(Enc(S, m.t, v).value)..]);
  }

  // ---- the handlers ----

  // `out` is appended when it exists; otherwise something that keeps what was
  // there before.  The flag is raised as `flag` says.
  twostate predicate Appended(w: BerWriter, new out: Option<seq<Byte>>, new flag: bool)
    reads w
  {
    && w.failed == (old(w.failed) || flag)
    && old(w.buf) <= w.buf
    && (out.Some? ==> w.buf == old(w.buf) + out.value)
  }

  // What one value appends starts with a complete tag, if it is anything.
  twostate predicate Whole(w: BerWriter)
    reads w
  {
    old(w.buf) <= w.buf && (w.buf == old(w.buf) || Complete(w.buf[|old(w.buf)|..]))
  }

  lemma TailIs(a: seq<Byte>, b: seq<Byte>)
    ensures (a + b)[|a|..] == b && a <= a + b
  {
  }

  lemma JoinAssoc(a: seq<Byte>, b: seq<Byte>, c: seq<Byte>)
    ensures (a + b) + c == a + (b + c)
  {
  }

  method Encode(w: BerWriter, S: Schema, t: nat, v: Value)
    requires TagsWf(S)
    modifies w
    ensures Appended(w, Enc(S, t, v), Flagged(S, t, v)) && Whole(w)
    decreases v, 10
  {
    hide EncAs, FlaggedAs, Complete, TlvOctets;
    if t >= |S| {
      w.SetEncodeFailed();
      return;
    }
    assert DescWf(S[t]);
    if S[t].explicit {
      var lenPos := w.OpenConstructed(S[t].tag);
      ghost var before := w.buf;
      EncodeAs(w, S, S[t].kind, S[t].natural, v);
      Close(w, lenPos, old(w.buf), S[t].tag, before, EncAs(S, S[t].kind, S[t].natural, v));
    } else {
      EncodeAs(w, S, S[t].kind, S[t].tag, v);
    }
  }

  // Closes a constructed TLV opened on `prefix`.
  method Close(w: BerWriter, lenPos: nat, ghost prefix: seq<Byte>, ghost tag: Tag, ghost start: seq<Byte>, ghost content: Option<seq<Byte>>)
    requires TagWf(tag) && start == prefix + TagOctets(tag) + [0, 0, 0] && lenPos == |prefix + TagOctets(tag)|
    requires start <= w.buf && (content.Some? ==> w.buf == start + content.value)
    modifies w
    ensures w.failed == old(w.failed) && prefix <= w.buf && Complete(w.buf[|prefix|..])
    ensures content.Some? ==> w.buf == prefix + TlvOctets(tag, content.value)
  {
    hide TagOctets, LengthOctets, Complete;
    ghost var inside := w.buf[lenPos + 3..];
    assert w.buf[..lenPos] == prefix + TagOctets(tag);
    w.CloseConstructed(lenPos);
    assert w.buf == prefix + TlvOctets(tag, inside) by {
      JoinAssoc(prefix, TagOctets(tag), LengthOctets(|inside|) + inside);
    }
    TailIs(prefix, TlvOctets(tag, inside));
    TlvComplete(tag, inside);
    assert content.Some? ==> inside == content.value;
  }

  method EncodeAs(w: BerWriter, S: Schema, k: Kind, tag: Tag, v: Value)
    requires TagsWf(S) && TagWf(tag)
    requires k.Sequence? ==> MemberTagsWf(k.members)
    requires k.Choice? ==> MemberTagsWf(k.alts)
    modifies w
    ensures Appended(w, EncAs(S, k, tag, v), FlaggedAs(S, k, v)) && Whole(w)
    decreases v, 9
  {
    if k.Choice? { EncodeChoice(w, S, k, tag, v); }
    else if k.SeqOf? { EncodeListOf(w, S, k, tag, v); }
    else if k.Sequence? { EncodeSequence(w, S, k, tag, v); }
    else { EncodePrimitive(w, S, k, tag, v); }
  }

  method EncodePrimitive(w: BerWriter, S: Schema, k: Kind, tag: Tag, v: Value)
    requires TagWf(tag) && !Counts(k)
    modifies w
    ensures Appended(w, EncAs(S, k, tag, v), FlaggedAs(S, k, v)) && Whole(w)
  {
    hide TlvOctets, Complete, SignedOctets;
    if FlaggedAs(S, k, v) {
      w.SetEncodeFailed();
    } else {
      var content: seq<Byte> := [];
      match k {
        case Boolean => content := [if v.b then 0xFF else 0];
        case Integer =>
          I64FitsOctets(v.i);
          content := PutSigned(v.i, 8);
        case Null =>
        case OctetString => content := v.octets;
        case _ => assert false;
      }
      w.WritePrimitive(tag, content);
      TailIs(old(w.buf), TlvOctets(tag, content));
      TlvComplete(tag, content);
    }
  }

  method EncodeChoice(w: BerWriter, S: Schema, k: Kind, tag: Tag, v: Value)
    requires TagsWf(S) && k.Choice? && MemberTagsWf(k.alts)
    modifies w
    ensures Appended(w, EncAs(S, k, tag, v), FlaggedAs(S, k, v)) && Whole(w)
    decreases v, 8
  {
    hide EncTagged, Flagged, Complete;
    if !v.ChoiceV? || v.index >= |k.alts| {
      w.SetEncodeFailed();
    } else {
      EncodeTagged(w, S, k.alts[v.index], v.v);
    }
  }

  // A member or alternative under its own tag, its type's tag replaced by it,
  // or wrapped in it.
  method EncodeTagged(w: BerWriter, S: Schema, m: Member, v: Value)
    requires TagsWf(S) && TagWf(m.tag)
    modifies w
    ensures Appended(w, EncTagged(S, m, v), Flagged(S, m.t, v)) && Whole(w)
    decreases v, 11
  {
    hide Enc, Flagged, Complete, TlvOctets;
    match m.tagging
    case Own => Encode(w, S, m.t, v);
    case Explicit =>
      var tag := Tag(m.tag.cls, m.tag.number, true);
      var lenPos := w.OpenConstructed(tag);
      ghost var before := w.buf;
      Encode(w, S, m.t, v);
      Close(w, lenPos, old(w.buf), tag, before, Enc(S, m.t, v));
    case Implicit => EncodeImplicit(w, S, m, v);
  }

  // Replaces the tag at `tagPos`, the last encoding in the buffer.
  method ReplaceTag(w: BerWriter, tagPos: nat, tag: Tag)
    requires TagWf(tag) && tagPos < |w.buf| && Complete(w.buf[tagPos..])
    modifies w
    ensures w.buf == old(w.buf)[..tagPos] + Retag(old(w.buf)[tagPos..], tag) && w.failed == old(w.failed)
  {
    hide TagOctets, TagSize, TagComplete;
    var octets := EncodeTagToBuf(tag);
    var size := w.TagByteCount(tagPos);
    ghost var e := w.buf[tagPos..];
    w.ReplaceAt(tagPos, size, octets);
    assert e[size..] == old(w.buf)[tagPos + size..];
  }

  method EncodeImplicit(w: BerWriter, S: Schema, m: Member, v: Value)
    requires TagsWf(S) && TagWf(m.tag) && m.tagging.Implicit?
    modifies w
    ensures Appended(w, EncTagged(S, m, v), Flagged(S, m.t, v)) && Whole(w)
    decreases v, 11, 0
  {
    hide Enc, Flagged, TlvOctets, TagOctets, TagSize;
    var tagPos := |w.buf|;
    Encode(w, S, m.t, v);
    if Enc(S, m.t, v).Some? { EncComplete(S, m.t, v); }
    if |w.buf| == tagPos || m.t >= |S| { return; }
    var tag := Tag(m.tag.cls, m.tag.number, S[m.t].tag.constructed);
    ghost var e := w.buf[tagPos..];
    ReplaceTag(w, tagPos, tag);
    assert w.buf == old(w.buf) + Retag(e, tag);
    TailIs(old(w.buf), Retag(e, tag));
    RetagComplete(tag, e[TagSize(e)..]);
  }

  method EncodeListOf(w: BerWriter, S: Schema, k: Kind, tag: Tag, v: Value)
    requires TagsWf(S) && TagWf(tag) && k.SeqOf?
    modifies w
    ensures Appended(w, EncAs(S, k, tag, v), FlaggedAs(S, k, v)) && Whole(w)
    decreases v, 8
  {
    hide TlvOctets, EncList, FlaggedList, Flat, Sort, Complete, TagOctets;
    if !v.ListV? {
      w.SetEncodeFailed();
      return;
    }
    var lenPos := w.OpenConstructed(tag);
    ghost var before, encs := w.buf, EncList(S, k.elem, v.items);
    if k.isSetOf && |v.items| > 1 {
      EncodeSorted(w, S, k.elem, v.items);
    } else {
      EncodeElements(w, S, k.elem, v.items);
      if encs.Some? && k.isSetOf { ShortSorted(encs.value); }
    }
    Close(w, lenPos, old(w.buf), tag, before, EncContent(S, k, v));
  }

  lemma ShortSorted(encs: seq<seq<Byte>>)
    ensures |encs| <= 1 ==> Sort(encs) == encs
  {
    if |encs| == 1 {
      assert encs[..0] == [];
      assert Sort(encs) == Insert([], encs[0]);
    }
  }

  method EncodeElements(w: BerWriter, S: Schema, t: nat, vs: seq<Value>)
    requires TagsWf(S)
    modifies w
    ensures Appended(w, Flattened(EncList(S, t, vs)), FlaggedList(S, t, vs))
    decreases vs, 7
  {
    hide Enc, Flagged, Complete;
    ghost var total, before := Flattened(EncList(S, t, vs)), w.buf;
    var i := 0;
    assert vs[0..] == vs;
    while i < |vs|
      invariant i <= |vs| && before <= w.buf
      invariant w.failed || FlaggedList(S, t, vs[i..]) <==> old(w.failed) || FlaggedList(S, t, vs)
      invariant total.Some? ==> EncList(S, t, vs[i..]).Some? && w.buf + Flattened(EncList(S, t, vs[i..])).value == before + total.value
    {
      ghost var b, rest := w.buf, Flattened(EncList(S, t, vs[i + 1..]));
      assert vs[i..][1..] == vs[i + 1..];
      ListStep(S, t, vs[i..]);
      Encode(w, S, t, vs[i]);
      if total.Some? { JoinAssoc(b, Enc(S, t, vs[i]).value, rest.value); }
      i := i + 1;
    }
    ListEnd(S, t, vs[|vs|..]);
  }

  lemma ListEnd(S: Schema, t: nat, vs: seq<Value>)
    ensures vs == [] ==> Flattened(EncList(S, t, vs)) == Some([]) && !FlaggedList(S, t, vs)
  {
  }

  ghost function Flattened(encs: Option<seq<seq<Byte>>>): Option<seq<Byte>> {
    if encs.Some? then Some(Flat(encs.value)) else None
  }

  lemma ListStep(S: Schema, t: nat, vs: seq<Value>)
    requires vs != []
    ensures Flattened(EncList(S, t, vs)) == Cat(Enc(S, t, vs[0]), Flattened(EncList(S, t, vs[1..])))
    ensures FlaggedList(S, t, vs) <==> Flagged(S, t, vs[0]) || FlaggedList(S, t, vs[1..])
  {
    hide Enc, Flagged;
    var first, rest := Enc(S, t, vs[0]), EncList(S, t, vs[1..]);
    if first.Some? && rest.Some? { assert ([first.value] + rest.value)[1..] == rest.value; }
  }

  lemma ListCons(S: Schema, t: nat, vs: seq<Value>)
    requires vs != []
    ensures EncList(S, t, vs)
         == var first, rest := Enc(S, t, vs[0]), EncList(S, t, vs[1..]);
            if first.Some? && rest.Some? then Some([first.value] + rest.value) else None
  {
    hide Enc;
  }

  lemma ListNil(S: Schema, t: nat)
    ensures EncList(S, t, []) == Some([])
  {
  }

  // Each element into a buffer of its own, sorted, then appended.
  method EncodeSorted(w: BerWriter, S: Schema, t: nat, vs: seq<Value>)
    requires TagsWf(S)
    modifies w
    ensures Appended(w, if EncList(S, t, vs).Some? then Some(Flat(Sort(EncList(S, t, vs).value))) else None, false)
    decreases vs, 7
  {
    hide Enc, Flagged, Complete, Sort, Flat, EncList;
    var bufs: seq<seq<Byte>> := [];
    ghost var encs := EncList(S, t, vs);
    var i := 0;
    assert vs[0..] == vs;
    while i < |vs|
      invariant i <= |vs| && |bufs| == i && w.buf == old(w.buf) && w.failed == old(w.failed)
      invariant encs.Some? ==> EncList(S, t, vs[i..]).Some? && encs.value == bufs + EncList(S, t, vs[i..]).value
    {
      assert vs[i..][1..] == vs[i + 1..];
      ListCons(S, t, vs[i..]);
      var ew := new BerWriter();
      Encode(ew, S, t, vs[i]);
      if encs.Some? {
        assert [] + Enc(S, t, vs[i]).value == ew.buf;
        var more := EncList(S, t, vs[i + 1..]).value;
        assert bufs + ([ew.buf] + more) == (bufs + [ew.buf]) + more;
      }
      bufs := bufs + [ew.buf];
      i := i + 1;
    }
    assert vs[|vs|..] == [];
    ListNil(S, t);
    assert encs.Some? ==> encs.value == bufs;
    var sorted := new seq<Byte>[|bufs|](k requires 0 <= k < |bufs| => bufs[k]);
    assert sorted[..] == bufs;
    SortElements(sorted);
    AppendAll(w, sorted[..]);
  }

  method AppendAll(w: BerWriter, parts: seq<seq<Byte>>)
    modifies w
    ensures w.buf == old(w.buf) + Flat(parts) && w.failed == old(w.failed)
  {
    var i := 0;
    assert parts[0..] == parts;
    while i < |parts|
      invariant i <= |parts| && w.failed == old(w.failed)
      invariant w.buf + Flat(parts[i..]) == old(w.buf) + Flat(parts)
    {
      assert parts[i..][1..] == parts[i + 1..];
      JoinAssoc(w.buf, parts[i], Flat(parts[i + 1..]));
      w.Append(parts[i]);
      i := i + 1;
    }
    assert parts[|parts|..] == [];
  }

  method EncodeSequence(w: BerWriter, S: Schema, k: Kind, tag: Tag, v: Value)
    requires TagsWf(S) && TagWf(tag) && k.Sequence? && MemberTagsWf(k.members)
    modifies w
    ensures Appended(w, EncAs(S, k, tag, v), FlaggedAs(S, k, v)) && Whole(w)
    decreases v, 8
  {
    hide TlvOctets, EncMembers, FlaggedMembers, Complete, TagOctets;
    if !v.RecordV? || |v.fields| != |k.members| {
      w.SetEncodeFailed();
      return;
    }
    var lenPos := w.OpenConstructed(tag);
    ghost var before := w.buf;
    EncodeMembers(w, S, k.members, v.fields);
    Close(w, lenPos, old(w.buf), tag, before, EncMembers(S, k.members, v.fields));
  }

  method EncodeField(w: BerWriter, S: Schema, m: Member, f: Field)
    requires TagsWf(S) && TagWf(m.tag) && f.Has?
    modifies w
    ensures Appended(w, EncField(S, m, f), FlaggedField(S, m.t, f))
    decreases f, 0
  {
    hide Complete, EncTagged, Flagged;
    EncodeTagged(w, S, m, f.v);
  }

  lemma MembersStep(S: Schema, ms: seq<Member>, fs: seq<Field>)
    requires |ms| == |fs| && ms != []
    ensures var rest, flag := EncMembers(S, ms[1..], fs[1..]), FlaggedMembers(S, ms[1..], fs[1..]);
            if fs[0].Absent? then
              if ms[0].optional then EncMembers(S, ms, fs) == rest && FlaggedMembers(S, ms, fs) == flag
              else EncMembers(S, ms, fs) == Some([]) && !FlaggedMembers(S, ms, fs)
            else if fs[0] == ms[0].dflt then EncMembers(S, ms, fs) == rest && FlaggedMembers(S, ms, fs) == flag
            else EncMembers(S, ms, fs) == Cat(EncField(S, ms[0], fs[0]), rest)
                 && FlaggedMembers(S, ms, fs) == (FlaggedField(S, ms[0].t, fs[0]) || flag)
  {
    hide EncField, FlaggedField;
  }

  lemma NoMembers(S: Schema)
    ensures EncMembers(S, [], []) == Some([]) && !FlaggedMembers(S, [], [])
  {
  }

  method EncodeMembers(w: BerWriter, S: Schema, ms: seq<Member>, fs: seq<Field>)
    requires TagsWf(S) && MemberTagsWf(ms) && |ms| == |fs|
    modifies w
    ensures Appended(w, EncMembers(S, ms, fs), FlaggedMembers(S, ms, fs))
    decreases fs, 1
  {
    hide EncField, FlaggedField, EncMembers, FlaggedMembers;
    ghost var total, before := EncMembers(S, ms, fs), w.buf;
    var i := 0;
    assert ms[0..] == ms && fs[0..] == fs;
    while i < |ms|
      invariant i <= |ms| && before <= w.buf
      invariant w.failed || FlaggedMembers(S, ms[i..], fs[i..]) <==> old(w.failed) || FlaggedMembers(S, ms, fs)
      invariant total.Some? ==> EncMembers(S, ms[i..], fs[i..]).Some?
                                && w.buf + EncMembers(S, ms[i..], fs[i..]).value == before + total.value
    {
      ghost var b, rest := w.buf, EncMembers(S, ms[i + 1..], fs[i + 1..]);
      assert ms[i..][1..] == ms[i + 1..] && fs[i..][1..] == fs[i + 1..];
      MembersStep(S, ms[i..], fs[i..]);
      if fs[i].Absent? {
        if !ms[i].optional {
          assert total.Some? ==> w.buf + [] == w.buf;
          return;
        }
      } else if fs[i] != ms[i].dflt {
        EncodeField(w, S, ms[i], fs[i]);
        if total.Some? { JoinAssoc(b, EncField(S, ms[i], fs[i]).value, rest.value); }
      }
      i := i + 1;
    }
    assert ms[|ms|..] == [] && fs[|ms|..] == [];
    NoMembers(S);
  }
}
