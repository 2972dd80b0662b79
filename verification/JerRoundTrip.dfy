/** A SEQUENCE written as a JSON object is read back. */
module JerRoundTrip {
  import opened Bits
  import opened Options
  import opened JerText
  import opened JerSkip
  import opened JerSequence
  import opened JerOrder

  // The text of a member's value.
  type Encoder<!V> = (nat, V) -> seq<Byte>

  // Names as in a schema: nothing to escape, and different from each other.
  predicate NamesOk(spec: seq<Member>) {
    && (forall i {:trigger spec[i]} :: 0 <= i < |spec| ==> Unescaped(spec[i].name))
    && (forall i, j {:trigger spec[i], spec[j]} :: 0 <= i < j < |spec| ==> spec[i].name != spec[j].name)
  }

  predicate Unescaped(s: seq<Byte>) {
    forall i {:trigger s[i]} :: 0 <= i < |s| ==> s[i] >= 32 && s[i] != QUOTE && s[i] != BACKSLASH
  }

  // Mandatory members have values, members without a type have none.
  predicate Conforms<V>(spec: seq<Member>, fields: seq<Option<V>>) {
    |fields| == |spec| && forall i {:trigger fields[i]} :: 0 <= i < |spec| ==>
      (spec[i].known && !spec[i].optional ==> fields[i].Some?) && (!spec[i].known ==> fields[i].None?)
  }

  function EntryOf<V>(spec: seq<Member>, enc: Encoder<V>, i: nat, v: V): Entry<V>
    requires i < |spec|
  {
    Entry([], Escape(spec[i].name), spec[i].name, [], enc(i, v), [], Some(v))
  }

  // The members with values, in table order.
  function Entries<V>(spec: seq<Member>, enc: Encoder<V>, fields: seq<Option<V>>, n: nat): seq<Entry<V>>
    requires |fields| == |spec| && n <= |spec|
  {
    if n == 0 then []
    else Entries(spec, enc, fields, n - 1) + (if fields[n - 1].Some? then [EntryOf(spec, enc, n - 1, fields[n - 1].value)] else [])
  }

  lemma {:induction false} EscapeNothing(s: seq<Byte>)
    requires Unescaped(s)
    ensures Escape(s) == s
    decreases |s|
  {
    if s != [] {
      var n := |s| - 1;
      assert s[..n] + [s[n]] == s;
      EscapeNothing(s[..n]);
    }
  }

  lemma {:induction false} BodySnoc<V>(es: seq<Entry<V>>, e: Entry<V>)
    ensures Body(es + [e]) == Body(es) + (if es == [] then [] else [COMMA]) + EntryText(e)
    decreases |es|
  {
    hide EntryText;
    if es == [] {
      assert es + [e] == [e];
      assert EntryText(e) + [] == EntryText(e);
    } else {
      assert (es + [e])[1..] == es[1..] + [e];
      BodySnoc(es[1..], e);
      if |es| == 1 {
        assert es[1..] == [];
        assert EntryText(es[0]) + ([COMMA] + EntryText(e)) == (EntryText(es[0]) + [] + [COMMA]) + EntryText(e);
      } else {
        var b := Body(es[1..]);
        assert EntryText(es[0]) + ([COMMA] + (b + [COMMA] + EntryText(e))) == (EntryText(es[0]) + ([COMMA] + b)) + [COMMA] + EntryText(e);
      }
    }
  }

  lemma PlainEntry<V>(spec: seq<Member>, enc: Encoder<V>, i: nat, v: V)
    requires NamesOk(spec) && i < |spec|
    ensures EntryText(EntryOf(spec, enc, i, v)) == [QUOTE] + spec[i].name + [QUOTE, COLON] + enc(i, v)
  {
    hide Escape;
    EscapeNothing(spec[i].name);
  }

  method Encode<V>(spec: seq<Member>, enc: Encoder<V>, fields: seq<Option<V>>) returns (out: seq<Byte>)
    requires NamesOk(spec) && Conforms(spec, fields)
    ensures out == ObjectText(Entries(spec, enc, fields, |spec|))
  {
    hide Body, EntryText, NamesOk;
    out := [OPEN_BRACE];
    var first := true;
    NoBody(Entries(spec, enc, fields, 0));
    for i := 0 to |spec|
      invariant out == [OPEN_BRACE] + Body(Entries(spec, enc, fields, i))
      invariant first <==> Entries(spec, enc, fields, i) == []
    {
      ghost var es := Entries(spec, enc, fields, i);
      assert es + [] == es;
      if !spec[i].known { continue; }
      if spec[i].optional && fields[i].None? { continue; }
      var text := enc(i, fields[i].value);
      PlainEntry(spec, enc, i, fields[i].value);
      BodySnoc(Entries(spec, enc, fields, i), EntryOf(spec, enc, i, fields[i].value));
      MoreText(es, EntryText(EntryOf(spec, enc, i, fields[i].value)));
      if !first { out := out + [COMMA]; }
      first := false;
      out := out + ([QUOTE] + spec[i].name + [QUOTE, COLON] + text);
    }
    out := out + [CLOSE_BRACE];
  }

  lemma MoreText<V>(es: seq<Entry<V>>, text: seq<Byte>)
    ensures [OPEN_BRACE] + (Body(es) + (if es == [] then [] else [COMMA]) + text)
         == if es == [] then ([OPEN_BRACE] + Body(es)) + text else (([OPEN_BRACE] + Body(es)) + [COMMA]) + text
  {
  }

  lemma NoBody<V>(es: seq<Entry<V>>)
    ensures es == [] ==> Body(es) == []
  {
  }

  lemma NameAt(spec: seq<Member>, i: nat)
    requires NamesOk(spec) && i < |spec|
    ensures MemberAt(spec, spec[i].name) == i
  {
  }

  lemma {:induction false} UpdateSnoc<V>(spec: seq<Member>, fields: seq<Option<V>>, es: seq<Entry<V>>, e: Entry<V>)
    requires |fields| == |spec|
    ensures UpdateAll(spec, fields, es + [e]) == Update(spec, UpdateAll(spec, fields, es), e)
    decreases |es|
  {
    hide Update;
    if es == [] {
      assert es + [e] == [e] && [e][1..] == [];
    } else {
      assert (es + [e])[1..] == es[1..] + [e];
      UpdateSnoc(spec, Update(spec, fields, es[0]), es[1..], e);
    }
  }

  // The written members fill their fields and leave the others absent.
  lemma {:induction false} Filled<V>(spec: seq<Member>, enc: Encoder<V>, fields: seq<Option<V>>, n: nat)
    requires NamesOk(spec) && Conforms(spec, fields) && n <= |spec|
    ensures UpdateAll(spec, Absent(|spec|), Entries(spec, enc, fields, n)) == fields[..n] + Absent(|spec| - n)
    decreases n
  {
    hide UpdateAll, NamesOk;
    if n == 0 {
      NoUpdate(spec, Absent<V>(|spec|));
      assert fields[..0] + Absent(|spec|) == Absent(|spec|);
    } else {
      Filled(spec, enc, fields, n - 1);
      var before := fields[..n - 1] + Absent(|spec| - (n - 1));
      if fields[n - 1].Some? {
        NameAt(spec, n - 1);
        UpdateSnoc(spec, Absent(|spec|), Entries(spec, enc, fields, n - 1), EntryOf(spec, enc, n - 1, fields[n - 1].value));
        assert before[n - 1 := fields[n - 1]] == fields[..n] + Absent(|spec| - n);
      } else {
        assert Entries(spec, enc, fields, n - 1) + [] == Entries(spec, enc, fields, n - 1);
        assert before == fields[..n] + Absent(|spec| - n);
      }
    }
  }

  lemma NoUpdate<V>(spec: seq<Member>, fields: seq<Option<V>>)
    requires |fields| == |spec|
    ensures UpdateAll(spec, fields, []) == fields
  {
  }

  // The member codecs read back what they write; no optional member writes
  // what looks like null unless null is one of its values.
  ghost predicate ReadsBack<V(!new)>(spec: seq<Member>, dec: Codec<V>, enc: Encoder<V>, fields: seq<Option<V>>)
    requires |fields| == |spec|
  {
    forall i {:trigger fields[i]} :: 0 <= i < |spec| && fields[i].Some? ==>
      var text := enc(i, fields[i].value);
      && Reads(dec, i, text, fields[i].value)
      && (spec[i].optional && !spec[i].nullable ==> SkipSpace(text) != [] && SkipSpace(text)[0] != NULL[0])
  }

  lemma EscapedKeyReads(key: seq<Byte>)
    ensures KeyReads(Escape(key), key)
  {
    forall t: seq<Byte> {:trigger [QUOTE] + t} ensures JsonString([QUOTE] + (Escape(key) + ([QUOTE] + t))) == Taken(key, t) {
      StringReadBack(key, t);
    }
  }

  lemma {:induction false} EntriesGood<V(!new)>(spec: seq<Member>, dec: Codec<V>, enc: Encoder<V>, fields: seq<Option<V>>, n: nat)
    requires NamesOk(spec) && Conforms(spec, fields) && ReadsBack(spec, dec, enc, fields) && n <= |spec|
    ensures forall k :: 0 <= k < |Entries(spec, enc, fields, n)| ==> Good(spec, dec, Entries(spec, enc, fields, n)[k])
    decreases n
  {
    hide NamesOk, Reads, SkipSpace, KeyReads, Escape;
    if n > 0 {
      EntriesGood(spec, dec, enc, fields, n - 1);
      NameAt(spec, n - 1);
      EscapedKeyReads(spec[n - 1].name);
      if fields[n - 1].Some? { assert Good(spec, dec, EntryOf(spec, enc, n - 1, fields[n - 1].value)); }
    }
  }

  // Decoding what was encoded gives the value back and stops behind it.
  lemma ObjectReadBack<V(!new)>(spec: seq<Member>, dec: Codec<V>, enc: Encoder<V>, fields: seq<Option<V>>, t: seq<Byte>)
    requires Forward(dec) && NamesOk(spec) && Conforms(spec, fields) && ReadsBack(spec, dec, enc, fields)
    ensures Object(spec, dec, ObjectText(Entries(spec, enc, fields, |spec|)) + t) == Taken(fields, t)
  {
    hide Object, Good, Forward, UpdateAll, ObjectText, NamesOk, ReadsBack, Entries;
    EntriesGood(spec, dec, enc, fields, |spec|);
    ObjectRead(spec, dec, Entries(spec, enc, fields, |spec|), t);
    Filled(spec, enc, fields, |spec|);
    assert fields[..|spec|] + Absent(0) == fields;
  }
}
