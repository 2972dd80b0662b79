/**
 * Navigation over sibling TLVs: a stepping cursor, a layer that is expanded
 * once and cached, and the recursive walk.  Indefinite lengths end a level.
 */
module BerCursor {
  import opened Bits
  import opened Options
  import opened Integers
  import opened BerTlv
  import opened BerStream

  // ---- one level of a buffer ----

  // A TLV at `offset`: `hdr` octets of tag and length, then `vlen` of value.
  datatype Entry = Entry(tag: Tag, offset: nat, hdr: nat, vlen: nat)

  // A complete TLV of definite length comes first.
  predicate HasTlv(b: seq<Byte>) {
    ReadTlv(b).Parsed? && !ReadTlv(b).v.indefinite
  }

  function FirstEntry(b: seq<Byte>, offset: nat): (e: Entry)
    requires HasTlv(b)
    ensures e.offset == offset && e.hdr > 0 && e.hdr + e.vlen <= |b|
  {
    var r := ReadTlv(b);
    Entry(r.v.tag, offset, |b| - |r.rest| - |r.v.value|, |r.v.value|)
  }

  // The siblings of a buffer, up to the first malformed one.
  function Siblings(b: seq<Byte>, offset: nat): seq<Entry>
    decreases |b|
  {
    if !HasTlv(b) then []
    else
      var e := FirstEntry(b, offset);
      [e] + Siblings(ReadTlv(b).rest, offset + e.hdr + e.vlen)
  }

  lemma NothingToRead()
    ensures !HasTlv([])
  {
  }

  // The octets of a definite TLV: header, value, rest; only the header is read.
  lemma DefiniteForm(b: seq<Byte>)
    requires HasTlv(b)
    ensures var r, e := ReadTlv(b), FirstEntry(b, 0);
            && b == b[..e.hdr] + (r.v.value + r.rest)
            && r.rest == b[e.hdr + e.vlen..] && r.v.value == b[e.hdr..e.hdr + e.vlen]
  {
    hide ReadTag, ReadLength, SkipLevels;
    var t := ReadTag(b);
    var l := ReadLength(t.rest);
    TagSuffix(b);
    LengthSuffix(t.rest);
    var k, n := |b| - |l.rest|, l.v.n;
    assert l.rest == b[k..];
    assert l.rest[..n] == b[k..k + n] && l.rest[n..] == b[k + n..];
    assert FirstEntry(b, 0).hdr == k;
    Cut3(b, k, n);
  }

  lemma Cut3(b: seq<Byte>, k: nat, n: nat)
    requires k + n <= |b|
    ensures b == b[..k] + (b[k..k + n] + b[k + n..])
  {
  }

  lemma {:induction false} SeptetsSuffix(b: seq<Byte>, left: nat, acc: nat)
    requires ReadSeptets(b, left, acc).Parsed?
    ensures var r := ReadSeptets(b, left, acc).rest; |r| < |b| && r == b[|b| - |r|..]
    decreases left
  {
    if b[0] >= 128 { SeptetsSuffix(b[1..], left - 1, (acc * 128 + b[0] % 128) % U32); }
  }

  lemma TagSuffix(b: seq<Byte>)
    requires ReadTag(b).Parsed?
    ensures var r := ReadTag(b).rest; |r| < |b| && r == b[|b| - |r|..]
  {
    if b[0] % 32 == 31 { SeptetsSuffix(b[1..], 5, 0); }
  }

  lemma LengthSuffix(b: seq<Byte>)
    requires ReadLength(b).Parsed?
    ensures var r := ReadLength(b).rest; |r| < |b| && r == b[|b| - |r|..]
  {
  }

  // Another value of the same length behind the same header.
  lemma SameHeader(b: seq<Byte>, value: seq<Byte>, rest: seq<Byte>)
    requires HasTlv(b) && |value| == |ReadTlv(b).v.value|
    ensures var e := FirstEntry(b, 0);
            ReadTlv(b[..e.hdr] + (value + rest)) == Parsed(Tlv(ReadTlv(b).v.tag, value, false), rest)
  {
    hide ReadTag, ReadLength, SkipLevels;
    var hdr := FirstEntry(b, 0).hdr;
    var t := ReadTag(b);
    var l := ReadLength(t.rest);
    TagSuffix(b);
    LengthSuffix(t.rest);
    TagCut(b, hdr);
    LengthCut(t.rest, |t.rest| - (|b| - hdr));
    var h, tail := b[..hdr], value + rest;
    TagLocal(h, tail);
    LengthLocal(ReadTag(h).rest, tail);
    assert ReadLength(ReadTag(h).rest).rest == [];
    assert [] + tail == tail;
    assert tail[..|value|] == value && tail[|value|..] == rest;
  }

  // The first sibling with a tag.
  function Find(es: seq<Entry>, t: Tag): (r: Option<Entry>)
    ensures r.Some? ==> r.value in es && Matches(r.value.tag, t)
    ensures r.None? ==> forall k :: 0 <= k < |es| ==> !Matches(es[k].tag, t)
  {
    if es == [] then None else if Matches(es[0].tag, t) then Some(es[0])
    else
      assert es == [es[0]] + es[1..];
      Find(es[1..], t)
  }

  // ---- the stepping cursor ----

  class Cursor {
    var buf: seq<Byte>  // from the current TLV to the end of its level
    var tag: Tag
    var hdr: nat
    var vlen: nat
    var valid: bool
    var at: nat         // where `buf` starts, counted from the outermost buffer

    ghost predicate Valid()
      reads this
    {
      && (valid ==> HasTlv(buf) && FirstEntry(buf, at) == Entry(tag, at, hdr, vlen))
      && (!valid ==> !HasTlv(buf))
    }

    // The TLVs from the current one on.
    ghost function Left(): seq<Entry>
      requires Valid()
      reads this
    {
      Siblings(buf, at)
    }

    constructor (data: seq<Byte>, offset: nat)
      ensures Valid() && buf == data && at == offset && Left() == Siblings(data, offset)
      ensures valid <==> HasTlv(data)
    {
      buf, at, valid, tag, hdr, vlen := data, offset, false, Tag(0, 0, false), 0, 0;
      new;
      Parse();
    }

    method Parse()
      modifies this
      ensures Valid() && buf == old(buf) && at == old(at)
    {
      valid := false;
      if buf == [] { return; }
      var r := new BerReader(buf, 0);
      var tlv := TakeTlv(r);
      if tlv.None? || tlv.value.indefinite { return; }
      assert |r.Rest()| == |buf| - r.pos;
      tag, vlen := tlv.value.tag, |tlv.value.value|;
      hdr := r.pos - vlen;
      valid := true;
    }

    function Value(): seq<Byte>
      requires Valid()
      reads this
    {
      if valid then buf[hdr..hdr + vlen] else []
    }

    // To the next sibling; the cursor turns invalid behind the last one.
    method Next()
      requires Valid()
      modifies this
      ensures Valid() && Left() == (if old(Left()) == [] then [] else old(Left())[1..])
      ensures old(valid) ==> |buf| < |old(buf)|
      ensures old(valid) ==> old(hdr) + old(vlen) <= |old(buf)| && (valid <==> HasTlv(old(buf)[old(hdr) + old(vlen)..]))
      ensures !valid || (old(valid) && buf == old(buf)[old(hdr) + old(vlen)..] && at == old(at) + old(hdr) + old(vlen))
    {
      hide Siblings, HasTlv, FirstEntry;
      SiblingsRest(buf, at);
      if !valid { return; }
      SiblingsRest([], at + hdr + vlen);
      NothingToRead();
      var step := hdr + vlen;
      at := at + step;
      if step >= |buf| {
        assert buf[step..] == [];
        buf, valid := [], false;
        return;
      }
      buf := buf[step..];
      Parse();
    }

    // The first sibling from here on that carries the tag.
    method FindTag(t: Tag) returns (c: Cursor)
      requires Valid()
      ensures c.Valid() && (c.valid <==> Find(Left(), t).Some?)
      ensures c.valid ==> Entry(c.tag, c.at, c.hdr, c.vlen) == Find(Left(), t).value
      ensures c.valid ==> at <= c.at <= at + |buf| && c.buf == buf[c.at - at..]
    {
      hide HasTlv, FirstEntry;
      c := new Cursor(buf, at);
      while c.valid
        invariant c.Valid() && fresh(c) && Find(Left(), t) == Find(c.Left(), t)
        invariant c.valid ==> c.at >= at && c.at - at <= |buf| && c.buf == buf[c.at - at..]
        decreases |c.buf|
      {
        LeftFirst(c);
        if Matches(c.tag, t) { return; }
        ghost var b, a := c.buf, c.at;
        c.Next();
        if c.valid { Slice(buf, b, a - at, c.at - a); }
      }
      NothingLeft(c);
    }
  }

  lemma Slice(buf: seq<Byte>, b: seq<Byte>, i: nat, j: nat)
    requires i <= |buf| && b == buf[i..] && j <= |b|
    ensures b[j..] == buf[i + j..]
  {
  }

  lemma LeftFirst(c: Cursor)
    requires c.Valid() && c.valid
    ensures c.Left() != [] && c.Left()[0] == Entry(c.tag, c.at, c.hdr, c.vlen)
    ensures c.hdr + c.vlen <= |c.buf|
  {
  }

  lemma NothingLeft(c: Cursor)
    requires c.Valid() && !c.valid
    ensures c.Left() == []
  {
  }

  // ---- the cached layer ----

  // The next TLV of a level, if it is whole and of definite length.
  method NextEntry(r: BerReader) returns (e: Option<Entry>)
    requires r.Valid() && r.pos < |r.data|
    modifies r
    ensures r.Valid()
    ensures e.None? ==> Siblings(old(r.Rest()), old(r.pos)) == []
    ensures e.Some? ==> r.pos > old(r.pos) && Siblings(old(r.Rest()), old(r.pos)) == [e.value] + Siblings(r.Rest(), r.pos)
  {
    hide ReadTlv, FirstEntry, Siblings;
    var start := r.pos;
    SiblingsStep(r.Rest(), start);
    var tlv := TakeTlv(r);
    if tlv.None? || tlv.value.indefinite { return None; }
    assert |r.Rest()| == |r.data| - r.pos;
    var total := r.pos - start;
    return Some(Entry(tlv.value.tag, start, total - |tlv.value.value|, |tlv.value.value|));
  }

  method ScanLevel(data: seq<Byte>) returns (es: seq<Entry>)
    ensures es == Siblings(data, 0)
  {
    hide ReadTlv, FirstEntry, Siblings;
    es := [];
    var r := new BerReader(data, 0);
    ghost var all := Siblings(data, 0);
    NoEntries(all);
    while r.pos < |data|
      invariant r.Valid() && r.data == data && fresh(r)
      invariant all == es + Siblings(r.Rest(), r.pos)
      decreases |data| - r.pos
    {
      ghost var before := es;
      var e := NextEntry(r);
      NoEntries(before);
      if e.None? { return; }
      MoreEntries(before, e.value, Siblings(r.Rest(), r.pos));
      es := es + [e.value];
    }
    SiblingsEnd(r.pos);
    assert r.Rest() == [];
    NoEntries(es);
  }

  lemma NoEntries(es: seq<Entry>)
    ensures es + [] == es && [] + es == es
  {
  }

  class Layer {
    const data: seq<Byte>
    var entries: seq<Entry>
    var expanded: bool

    ghost predicate Valid()
      reads this
    {
      expanded ==> entries == Siblings(data, 0)
    }

    constructor (octets: seq<Byte>)
      ensures Valid() && data == octets
    {
      data, entries, expanded := octets, [], false;
    }

    // Scans the level once.
    method Expand()
      requires Valid()
      modifies this
      ensures Valid() && expanded && entries == Siblings(data, 0)
    {
      if expanded { return; }
      expanded := true;
      entries := ScanLevel(data);
    }

    method FindTag(t: Tag) returns (c: Cursor)
      requires Valid()
      modifies this
      ensures Valid() && c.Valid() && (c.valid <==> Find(Siblings(data, 0), t).Some?)
      ensures c.valid ==> Entry(c.tag, c.at, c.hdr, c.vlen) == Find(Siblings(data, 0), t).value
      ensures c.valid ==> c.at <= |data| && c.buf == data[c.at..]
    {
      hide HasTlv, FirstEntry, Siblings, Find;
      Expand();
      var j := FirstMatch(entries, t);
      if j < |entries| {
        EntryParses(data, 0, j);
        c := new Cursor(data[entries[j].offset..], entries[j].offset);
      } else {
        NoTlv();
        c := new Cursor([], 0);
      }
    }

    method Size() returns (n: nat)
      requires Valid()
      modifies this
      ensures Valid() && n == |Siblings(data, 0)|
    {
      Expand();
      n := |entries|;
    }
  }

  // Position of the first entry with the tag, or the number of entries.
  method FirstMatch(es: seq<Entry>, t: Tag) returns (j: nat)
    ensures j <= |es| && Find(es, t) == if j < |es| then Some(es[j]) else None
  {
    j := 0;
    assert es[0..] == es;
    while j < |es|
      invariant j <= |es| && Find(es, t) == Find(es[j..], t)
    {
      assert es[j..][1..] == es[j + 1..];
      if Matches(es[j].tag, t) { return; }
      j := j + 1;
    }
  }

  lemma NoTlv()
    ensures !HasTlv([])
  {
  }

  lemma SiblingsStep(b: seq<Byte>, offset: nat)
    ensures if ReadTlv(b).Failed? || ReadTlv(b).v.indefinite then Siblings(b, offset) == []
            else
              var r := ReadTlv(b);
              var size := |b| - |r.rest|;
              size >= |r.v.value|
              && Siblings(b, offset) == [Entry(r.v.tag, offset, size - |r.v.value|, |r.v.value|)] + Siblings(r.rest, offset + size)
  {
    hide ReadTag, ReadLength, SkipLevels;
  }

  lemma SiblingsEnd(offset: nat)
    ensures Siblings([], offset) == []
  {
  }

  lemma MoreEntries(es: seq<Entry>, e: Entry, more: seq<Entry>)
    ensures es + ([e] + more) == (es + [e]) + more
  {
  }

  // The octets of `b`, which starts at `offset`, hold `e` where it says.
  predicate ParsesAt(b: seq<Byte>, offset: nat, e: Entry) {
    && offset <= e.offset <= offset + |b|
    && HasTlv(b[e.offset - offset..]) && FirstEntry(b[e.offset - offset..], e.offset) == e
  }

  // The octets at an entry's offset parse as that entry.
  lemma {:induction false} EntryParses(b: seq<Byte>, offset: nat, j: nat)
    requires j < |Siblings(b, offset)|
    ensures ParsesAt(b, offset, Siblings(b, offset)[j])
    decreases j
  {
    hide FirstEntry, ReadTlv, HasTlv, Siblings;
    SiblingsCons(b, offset);
    FirstEntryMoves(b, offset);
    if j == 0 {
      assert b[0..] == b;
    } else {
      var size := FirstEntry(b, offset).hdr + FirstEntry(b, offset).vlen;
      EntryParses(b[size..], offset + size, j - 1);
      Slice(b, b[size..], size, Siblings(b, offset)[j].offset - offset - size);
    }
  }

  lemma SiblingsRest(b: seq<Byte>, offset: nat)
    ensures !HasTlv(b) ==> Siblings(b, offset) == []
    ensures HasTlv(b) ==>
              var e := FirstEntry(b, offset);
              && FirstEntry(b, 0) == Entry(e.tag, 0, e.hdr, e.vlen)
              && 0 < e.hdr && e.hdr + e.vlen <= |b| && Siblings(b, offset) != []
              && Siblings(b, offset)[1..] == Siblings(b[e.hdr + e.vlen..], offset + e.hdr + e.vlen)
  {
    if HasTlv(b) {
      DefiniteForm(b);
      FirstEntryMoves(b, offset);
      SiblingsCons(b, offset);
    }
  }

  lemma SiblingsCons(b: seq<Byte>, offset: nat)
    requires Siblings(b, offset) != []
    ensures HasTlv(b)
    ensures var e := FirstEntry(b, offset);
            e.hdr + e.vlen <= |b| && Siblings(b, offset) == [e] + Siblings(b[e.hdr + e.vlen..], offset + e.hdr + e.vlen)
  {
    DefiniteForm(b);
    FirstEntryMoves(b, offset);
  }

  lemma FirstEntryMoves(b: seq<Byte>, offset: nat)
    requires HasTlv(b)
    ensures var e, f := FirstEntry(b, 0), FirstEntry(b, offset);
            f.hdr == e.hdr && f.vlen == e.vlen && f.tag == e.tag && f.offset == offset && f.hdr + f.vlen <= |b|
  {
  }

  // Layer and cursor find the same TLV, in any buffer.
  method FindBothWays(data: seq<Byte>, t: Tag) returns (stepped: Cursor, cached: Cursor)
    ensures stepped.Valid() && cached.Valid() && (stepped.valid <==> cached.valid)
    ensures stepped.valid ==> stepped.buf == cached.buf && stepped.tag == cached.tag && stepped.hdr == cached.hdr && stepped.vlen == cached.vlen
  {
    var c := new Cursor(data, 0);
    stepped := c.FindTag(t);
    var layer := new Layer(data);
    cached := layer.FindTag(t);
  }

  // The sizes of the siblings add up to the whole buffer exactly when nothing
  // malformed is left at its end.
  function TotalSize(es: seq<Entry>): nat {
    if es == [] then 0 else es[0].hdr + es[0].vlen + TotalSize(es[1..])
  }

  // All of the buffer is TLVs of definite length.
  predicate AllTlvs(b: seq<Byte>)
    decreases |b|
  {
    b == [] || (HasTlv(b) && AllTlvs(ReadTlv(b).rest))
  }

  lemma {:induction false} SiblingsCover(b: seq<Byte>, offset: nat)
    ensures TotalSize(Siblings(b, offset)) <= |b|
    ensures TotalSize(Siblings(b, offset)) == |b| <==> AllTlvs(b)
    decreases |b|
  {
    hide ReadTlv, FirstEntry;
    if HasTlv(b) {
      DefiniteForm(b);
      FirstEntryMoves(b, offset);
      var e := FirstEntry(b, offset);
      SiblingsCover(ReadTlv(b).rest, offset + e.hdr + e.vlen);
      assert ([e] + Siblings(ReadTlv(b).rest, offset + e.hdr + e.vlen))[1..] == Siblings(ReadTlv(b).rest, offset + e.hdr + e.vlen);
    } else if b == [] {
      NoTlv();
    }
  }

  // ---- the recursive walk ----

  datatype Visit = Visit(tag: Tag, value: seq<Byte>, depth: nat)

  // What the visitor sees; a negative `maxDepth` is no limit.
  function Walk(b: seq<Byte>, maxDepth: int, depth: nat): seq<Visit>
    decreases |b|
  {
    if !HasTlv(b) then []
    else
      var r := ReadTlv(b);
      [Visit(r.v.tag, r.v.value, depth)]
      + (if r.v.tag.constructed && (maxDepth < 0 || depth < maxDepth) then Walk(r.v.value, maxDepth, depth + 1) else [])
      + Walk(r.rest, maxDepth, depth)
  }

  method BerWalk(b: seq<Byte>, maxDepth: int, depth: nat) returns (visits: seq<Visit>)
    ensures visits == Walk(b, maxDepth, depth)
    decreases |b|
  {
    hide ReadTlv, FirstEntry;
    visits := [];
    var c := new Cursor(b, 0);
    ghost var total := Walk(b, maxDepth, depth);
    assert [] + total == total;
    WalkEnds(c.buf, maxDepth, depth);
    while c.valid
      invariant c.Valid() && fresh(c) && |c.buf| <= |b|
      invariant total == visits + (if c.valid then Walk(c.buf, maxDepth, depth) else [])
      decreases |c.buf|
    {
      ghost var buf := c.buf;
      CurrentTlv(c);
      var value := c.Value();
      var inner: seq<Visit> := [];
      if c.tag.constructed && (maxDepth < 0 || depth < maxDepth) { inner := BerWalk(value, maxDepth, depth + 1); }
      ghost var rest := ReadTlv(buf).rest;
      MoreVisits(visits, [Visit(c.tag, value, depth)], inner, Walk(rest, maxDepth, depth));
      visits := visits + [Visit(c.tag, value, depth)] + inner;
      c.Next();
      WalkEnds(rest, maxDepth, depth);
    }
    assert visits + [] == visits;
  }

  lemma WalkEnds(b: seq<Byte>, maxDepth: int, depth: nat)
    ensures !HasTlv(b) ==> Walk(b, maxDepth, depth) == []
  {
  }

  lemma CurrentTlv(c: Cursor)
    requires c.Valid() && c.valid
    ensures HasTlv(c.buf) && ReadTlv(c.buf).v.tag == c.tag && ReadTlv(c.buf).v.value == c.Value() && |c.Value()| < |c.buf|
    ensures ReadTlv(c.buf).rest == c.buf[c.hdr + c.vlen..] && c.hdr + c.vlen <= |c.buf|
  {
    hide ReadTlv;
    DefiniteForm(c.buf);
  }

  lemma MoreVisits(a: seq<Visit>, b: seq<Visit>, c: seq<Visit>, d: seq<Visit>)
    ensures a + (b + c + d) == (a + b + c) + d
  {
  }

  // A tree of TLVs: constructed ones have children, primitive ones octets.
  datatype Tree = Primitive(tag: Tag, octets: seq<Byte>) | Constructed(tag: Tag, kids: seq<Tree>)

  predicate TreeOk(t: Tree) {
    TagWf(t.tag) && t.tag.number != NO_TAG && |ValueOf(t)| < U64 &&
    match t
    case Primitive(tag, _) => !tag.constructed
    case Constructed(tag, kids) => tag.constructed && ForestOk(kids)
  }

  predicate ForestOk(ts: seq<Tree>) {
    ts != [] ==> TreeOk(ts[0]) && ForestOk(ts[1..])
  }

  function ValueOf(t: Tree): seq<Byte>
    decreases t, 0
  {
    match t
    case Primitive(_, octets) => octets
    case Constructed(_, kids) => ForestOctets(kids)
  }

  function TreeOctets(t: Tree): seq<Byte>
    decreases t, 1
  {
    if TagWf(t.tag) then TlvOctets(t.tag, ValueOf(t)) else []
  }

  function ForestOctets(ts: seq<Tree>): seq<Byte>
    decreases ts, 2
  {
    if ts == [] then [] else TreeOctets(ts[0]) + ForestOctets(ts[1..])
  }

  // Parents before their children, in order; children down to `maxDepth`.
  function Preorder(ts: seq<Tree>, maxDepth: int, depth: nat): seq<Visit> {
    if ts == [] then []
    else
      [Visit(ts[0].tag, ValueOf(ts[0]), depth)]
      + (if ts[0].Constructed? && (maxDepth < 0 || depth < maxDepth) then Preorder(ts[0].kids, maxDepth, depth + 1) else [])
      + Preorder(ts[1..], maxDepth, depth)
  }

  // The walk of a valid frame visits each TLV once, in preorder.
  lemma {:induction false} WalkIsPreorder(ts: seq<Tree>, maxDepth: int, depth: nat)
    requires ForestOk(ts)
    ensures Walk(ForestOctets(ts), maxDepth, depth) == Preorder(ts, maxDepth, depth)
    decreases ts
  {
    hide ReadTlv, TlvOctets;
    if ts == [] {
      NoTlv();
    } else {
      var rest := ForestOctets(ts[1..]);
      TlvReadBack(ts[0].tag, ValueOf(ts[0]), rest);
      WalkIsPreorder(ts[1..], maxDepth, depth);
      if ts[0].Constructed? { WalkIsPreorder(ts[0].kids, maxDepth, depth + 1); }
    }
  }

  lemma {:induction false} ForestIsTlvs(ts: seq<Tree>)
    requires ForestOk(ts)
    ensures AllTlvs(ForestOctets(ts))
  {
    hide ReadTlv, TlvOctets;
    if ts != [] {
      TlvReadBack(ts[0].tag, ValueOf(ts[0]), ForestOctets(ts[1..]));
      ForestIsTlvs(ts[1..]);
    }
  }

  // The top-level TLVs of a valid frame take up the whole buffer.
  lemma ForestSizes(ts: seq<Tree>)
    requires ForestOk(ts)
    ensures TotalSize(Siblings(ForestOctets(ts), 0)) == |ForestOctets(ts)|
  {
    ForestIsTlvs(ts);
    SiblingsCover(ForestOctets(ts), 0);
  }
}
