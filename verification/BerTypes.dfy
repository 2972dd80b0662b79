/**
 * The type descriptors the BER codec interprets, and what it writes and reads
 * for each of them.  A schema is a table of descriptors that refer to each
 * other by index, so self-referential types are ordinary entries.
 */
module BerTypes {
  import opened Bits
  import opened Options
  import opened Integers
  import opened Octets
  import opened BerTlv
  import opened BerOrder

  const MAX_DECODE_DEPTH: nat := 256

  // How a member or alternative is tagged: by its type alone, by replacing the
  // type's tag, or by wrapping it.
  datatype Tagging = Own | Implicit | Explicit

  // `tag` is the override, or for `Own` the type's tag restated for matching
  // (universal 0 for an untagged CHOICE).
  datatype Member = Member(t: nat, tagging: Tagging, tag: Tag, optional: bool, dflt: Field)

  // The two optional CHOICE dispatch tables: by context tag number from `base`
  // on (-1 for none), and a flattened list of tags.
  datatype TagIndex = TagIndex(base: nat, slots: seq<int>)
  datatype TagEntry = TagEntry(tag: Tag, alt: nat)

  datatype Kind =
    | Boolean
    | Integer
    | Null
    | OctetString
    | SeqOf(elem: nat, isSetOf: bool)
    | Sequence(members: seq<Member>, isSet: bool)
    | Choice(alts: seq<Member>, index: Option<TagIndex>, table: Option<seq<TagEntry>>, extensible: bool)

  // `natural` is the type's own tag inside its EXPLICIT wrapper `tag`.
  datatype Desc = Desc(tag: Tag, explicit: bool, natural: Tag, kind: Kind)

  type Schema = seq<Desc>

  datatype Value =
    | BoolV(b: bool)
    | IntV(i: int)
    | NullV
    | OctetsV(octets: seq<Byte>)
    | ListV(items: seq<Value>)
    | RecordV(fields: seq<Field>)
    | ChoiceV(index: nat, v: Value)
    | NoChoice

  datatype Field = Absent | Has(v: Value)

  // The kinds the depth guard counts.
  predicate Counts(k: Kind) {
    k.SeqOf? || k.Sequence? || k.Choice?
  }

  // ---- the encoder ----

  function Cat(a: Option<seq<Byte>>, b: Option<seq<Byte>>): Option<seq<Byte>> {
    if a.Some? && b.Some? then Some(a.value + b.value) else None
  }

  function TlvOf(t: Tag, value: Option<seq<Byte>>): Option<seq<Byte>> {
    if value.Some? && TagWf(t) then Some(TlvOctets(t, value.value)) else None
  }

  function Enc(S: Schema, t: nat, v: Value): Option<seq<Byte>>
    decreases v, 4
  {
    if t >= |S| then None
    else if S[t].explicit then TlvOf(S[t].tag, EncAs(S, S[t].kind, S[t].natural, v))
    else EncAs(S, S[t].kind, S[t].tag, v)
  }

  // A CHOICE has no tag of its own.
  function EncAs(S: Schema, k: Kind, tag: Tag, v: Value): Option<seq<Byte>>
    decreases v, 3
  {
    if k.Choice? then if v.ChoiceV? && v.index < |k.alts| then EncTagged(S, k.alts[v.index], v.v) else None
    else TlvOf(tag, EncContent(S, k, v))
  }

  function EncContent(S: Schema, k: Kind, v: Value): Option<seq<Byte>>
    decreases v, 2
  {
    match k
    case Boolean => if v.BoolV? then Some([if v.b then 0xFF else 0]) else None
    case Integer => if v.IntV? && I64_MIN <= v.i <= I64_MAX then Some(SignedOctets(v.i)) else None
    case Null => if v.NullV? then Some([]) else None
    case OctetString => if v.OctetsV? then Some(v.octets) else None
    case SeqOf(elem, isSetOf) =>
      if !v.ListV? then None
      else
        var encs := EncList(S, elem, v.items);
        if encs.None? then None else Some(Flat(if isSetOf then Sort(encs.value) else encs.value))
    case Sequence(ms, _) => if v.RecordV? && |v.fields| == |ms| then EncMembers(S, ms, v.fields) else None
    case Choice(_, _, _, _) => None
  }

  function EncList(S: Schema, t: nat, vs: seq<Value>): (r: Option<seq<seq<Byte>>>)
    ensures r.Some? ==> |r.value| == |vs|
    decreases vs, 0
  {
    if vs == [] then Some([])
    else
      var first, rest := Enc(S, t, vs[0]), EncList(S, t, vs[1..]);
      if first.Some? && rest.Some? then Some([first.value] + rest.value) else None
  }

  // A member's or alternative's own tag over its type's encoding.
  function EncTagged(S: Schema, m: Member, v: Value): Option<seq<Byte>>
    decreases v, 5
  {
    var e := Enc(S, m.t, v);
    match m.tagging
    case Own => e
    case Explicit => TlvOf(Tag(m.tag.cls, m.tag.number, true), e)
    case Implicit =>
      if e.None? || m.t >= |S| || !TagWf(m.tag) || !TagComplete(e.value) || TagSize(e.value) > |e.value| then None
      else Some(Retag(e.value, Tag(m.tag.cls, m.tag.number, S[m.t].tag.constructed)))
  }

  function EncField(S: Schema, m: Member, f: Field): Option<seq<Byte>>
    requires f.Has?
    decreases f, 0
  {
    EncTagged(S, m, f.v)
  }

  // Writing stops silently at an absent mandatory member.
  function EncMembers(S: Schema, ms: seq<Member>, fs: seq<Field>): Option<seq<Byte>>
    requires |ms| == |fs|
    decreases fs, 0
  {
    if ms == [] then Some([])
    else if fs[0].Absent? then if ms[0].optional then EncMembers(S, ms[1..], fs[1..]) else Some([])
    else if fs[0] == ms[0].dflt then EncMembers(S, ms[1..], fs[1..])
    else Cat(EncField(S, ms[0], fs[0]), EncMembers(S, ms[1..], fs[1..]))
  }

  // ---- the decoder ----

  predicate BelongsTag(g: Tag, tags: seq<Tag>) {
    exists k :: 0 <= k < |tags| && Matches(g, tags[k])
  }

  function MemberTagList(ms: seq<Member>): (tags: seq<Tag>)
    ensures |tags| == |ms|
  {
    seq(|ms|, i requires 0 <= i < |ms| => ms[i].tag)
  }

  function EntryTags(es: seq<TagEntry>): (tags: seq<Tag>)
    ensures |tags| == |es|
  {
    seq(|es|, i requires 0 <= i < |es| => es[i].tag)
  }

  // The tags a CHOICE is recognised by.
  function ChoiceTags(k: Kind): seq<Tag>
    requires k.Choice?
  {
    if k.table.Some? && k.table.value != [] then EntryTags(k.table.value) else MemberTagList(k.alts)
  }

  // The tags a member is recognised by.
  function MatchTags(S: Schema, m: Member): seq<Tag> {
    if m.t < |S| && S[m.t].kind.Choice? && m.tag.cls == 0 && m.tag.number == 0 then ChoiceTags(S[m.t].kind) else [m.tag]
  }

  function FindEntry(es: seq<TagEntry>, g: Tag): (r: Option<nat>)
  {
    if es == [] then None else if Matches(g, es[0].tag) then Some(es[0].alt) else FindEntry(es[1..], g)
  }

  function FindTag(tags: seq<Tag>, g: Tag): (r: Option<nat>)
    ensures r.Some? ==> r.value < |tags|
  {
    if tags == [] then None
    else if Matches(g, tags[0]) then Some(0)
    else
      var r := FindTag(tags[1..], g);
      if r.None? then None else Some(r.value + 1)
  }

  // The three forms of CHOICE dispatch.
  function FindAlt(k: Kind, g: Tag): Option<nat>
    requires k.Choice?
  {
    if k.index.Some? && g.cls == 2 then
      var rel := g.number - k.index.value.base;
      if 0 <= rel < |k.index.value.slots| && k.index.value.slots[rel] >= 0 then Some(k.index.value.slots[rel]) else None
    else if k.table.Some? then FindEntry(k.table.value, g)
    else FindTag(MemberTagList(k.alts), g)
  }

  predicate Present(S: Schema, m: Member, b: seq<Byte>) {
    b != [] && BelongsTag(PeekTag(b), MatchTags(S, m))
  }

  function Dec(S: Schema, t: nat, d: nat, b: seq<Byte>): (r: Parse<Value>)
    ensures r.Parsed? ==> |r.rest| < |b|
    decreases d, 1, 5
  {
    if t >= |S| then Failed
    else if Counts(S[t].kind) && d == 0 then Failed
    else if S[t].explicit then
      var outer := ReadTlv(b);
      if outer.Failed? || outer.v.tag != S[t].tag then Failed
      else
        var r := DecAs(S, S[t].kind, S[t].natural, d, outer.v.value);
        if r.Failed? then Failed else Parsed(r.v, outer.rest)
    else DecAs(S, S[t].kind, S[t].tag, d, b)
  }

  // One level down for a counted kind.
  function DecAs(S: Schema, k: Kind, tag: Tag, d: nat, b: seq<Byte>): (r: Parse<Value>)
    requires Counts(k) ==> d > 0
    ensures r.Parsed? ==> |r.rest| < |b|
    decreases d, 1, 4
  {
    if k.Choice? then DecAlternative(S, k, d - 1, b)
    else
      var tlv := ReadTlv(b);
      if tlv.Failed? || tlv.v.tag != tag then Failed
      else if k.Boolean? && |tlv.v.value| != 1 then Failed
      else
        var v := DecContent(S, k, d, tlv.v.value);
        if v.None? then Failed else Parsed(v.value, tlv.rest)
  }

  // The contents octets of anything but a CHOICE.
  function DecContent(S: Schema, k: Kind, d: nat, value: seq<Byte>): Option<Value>
    requires Counts(k) ==> d > 0
    decreases d, 1, 3
  {
    match k
    case Boolean => if value == [] then None else Some(BoolV(value[0] != 0))
    case Integer => if value == [] || |value| > 8 then None else Some(IntV(SignedBig(value)))
    case Null => Some(NullV)
    case OctetString => Some(OctetsV(value))
    case SeqOf(elem, _) =>
      var vs := DecElements(S, elem, d - 1, value);
      if vs.None? then None else Some(ListV(vs.value))
    case Sequence(ms, isSet) =>
      var ordered := if isSet then SetContents(S, ms, value) else Some(value);
      if ordered.None? then None
      else
        var fs := DecMembers(S, ms, d - 1, ordered.value);
        if fs.Failed? then None else Some(RecordV(fs.v))
    case Choice(_, _, _, _) => None
  }

  function AllMatchTags(S: Schema, ms: seq<Member>): (tags: seq<MemberTags>)
    ensures |tags| == |ms|
  {
    seq(|ms|, i requires 0 <= i < |ms| => MatchTags(S, ms[i]))
  }

  // A SET's components in table order.
  function SetContents(S: Schema, ms: seq<Member>, value: seq<Byte>): Option<seq<Byte>> {
    var raws := Split(value);
    if raws.None? then None else Some(TableOrder(AllMatchTags(S, ms), raws.value))
  }

  function DecElements(S: Schema, t: nat, d: nat, b: seq<Byte>): Option<seq<Value>>
    decreases d, 2, 7, |b|
  {
    if b == [] then Some([])
    else
      var first := Dec(S, t, d, b);
      if first.Failed? then None
      else
        var rest := DecElements(S, t, d, first.rest);
        if rest.None? then None else Some([first.v] + rest.value)
  }

  // Members in table order; an optional one is taken when the next tag is its.
  function DecMembers(S: Schema, ms: seq<Member>, d: nat, b: seq<Byte>): (r: Parse<seq<Field>>)
    ensures r.Parsed? ==> |r.v| == |ms|
    decreases d, 2, 8, |ms|
  {
    if ms == [] then Parsed([], b)
    else if ms[0].optional && !Present(S, ms[0], b) then
      var rest := DecMembers(S, ms[1..], d, b);
      if rest.Failed? then Failed else Parsed([ms[0].dflt] + rest.v, rest.rest)
    else
      var first := DecTagged(S, ms[0], true, d, b);
      if first.Failed? then Failed
      else
        var rest := DecMembers(S, ms[1..], d, first.rest);
        if rest.Failed? then Failed else Parsed([Has(first.v)] + rest.v, rest.rest)
  }

  // `check` says whether the override's tag is compared.
  function DecTagged(S: Schema, m: Member, check: bool, d: nat, b: seq<Byte>): (r: Parse<Value>)
    ensures r.Parsed? ==> |r.rest| < |b|
    decreases d, 2, 7
  {
    if m.tagging.Own? then Dec(S, m.t, d, b)
    else
      var outer := ReadTlv(b);
      if outer.Failed? || (check && !Matches(outer.v.tag, m.tag)) then Failed
      else if m.tagging.Explicit? then
        var r := Dec(S, m.t, d, outer.v.value);
        if r.Failed? then Failed else Parsed(r.v, outer.rest)
      else
        var v := DecValue(S, m.t, d, outer.v.value);
        if v.None? then Failed else Parsed(v.value, outer.rest)
  }

  // Contents octets under another tag; an EXPLICIT wrapper of the type itself
  // is not looked for.
  function DecValue(S: Schema, t: nat, d: nat, value: seq<Byte>): Option<Value>
    decreases d, 2, 6
  {
    if t >= |S| || (Counts(S[t].kind) && d == 0) then None
    else if S[t].kind.Choice? then
      var r := DecAlternative(S, S[t].kind, d - 1, value);
      if r.Failed? then None else Some(r.v)
    else DecContent(S, S[t].kind, d, value)
  }

  function DecAlternative(S: Schema, k: Kind, d: nat, b: seq<Byte>): (r: Parse<Value>)
    requires k.Choice?
    ensures r.Parsed? ==> |r.rest| < |b|
    decreases d, 2, 8
  {
    var a := FindAlt(k, PeekTag(b));
    if a.Some? then
      if a.value >= |k.alts| then Failed
      else
        var r := DecTagged(S, k.alts[a.value], false, d, b);
        if r.Failed? then Failed else Parsed(ChoiceV(a.value, r.v), r.rest)
    else if k.extensible then
      var skipped := ReadTlv(b);
      if skipped.Failed? then Failed else Parsed(NoChoice, skipped.rest)
    else Failed
  }
}
