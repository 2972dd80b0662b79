/**
 * What a projection finds in a frame: the value octets at a path of tags, and
 * the hits of a walk of the trie alongside the octets.
 */
module ProjectionSpans {
  import opened Bits
  import opened Options
  import opened BerTlv
  import opened BerCursor
  import opened ProjectionTrie

  // The first TLV of a buffer taken apart.
  datatype Cut = Cut(tag: Tag, hdr: nat, value: seq<Byte>, rest: seq<Byte>)

  function CutOf(b: seq<Byte>): (c: Cut)
    requires HasTlv(b)
    ensures c.hdr > 0 && c.hdr + |c.value| + |c.rest| == |b|
  {
    var r, e := ReadTlv(b), FirstEntry(b, 0);
    Cut(r.v.tag, e.hdr, r.v.value, r.rest)
  }

  lemma CutForm(b: seq<Byte>)
    requires HasTlv(b)
    ensures var c := CutOf(b);
            && b == b[..c.hdr] + (c.value + c.rest)
            && c.value == b[c.hdr..c.hdr + |c.value|] && c.rest == b[c.hdr + |c.value|..]
  {
    hide ReadTlv;
    DefiniteForm(b);
  }

  // Where the parts lie.
  lemma CutSlices(b: seq<Byte>)
    requires HasTlv(b)
    ensures var c := CutOf(b); c.value == b[c.hdr..c.hdr + |c.value|] && c.rest == b[c.hdr + |c.value|..]
  {
    hide HasTlv, CutOf;
    CutForm(b);
  }

  lemma CutEntry(b: seq<Byte>, off: nat)
    requires HasTlv(b)
    ensures var c := CutOf(b); FirstEntry(b, off) == Entry(c.tag, off, c.hdr, |c.value|)
    ensures var c := CutOf(b); Siblings(b, off) == [Entry(c.tag, off, c.hdr, |c.value|)] + Siblings(c.rest, off + c.hdr + |c.value|)
  {
    hide ReadTlv;
  }

  // ---- value octets by path ----

  datatype Span = Span(off: nat, value: seq<Byte>)

  // The value of the first TLV with each tag of the path; `b` lies at `off`.
  function SpanAt(b: seq<Byte>, off: nat, path: seq<Tag>): Option<Span>
    decreases |b|
  {
    if path == [] || !HasTlv(b) then None
    else
      var c := CutOf(b);
      if !Matches(c.tag, path[0]) then SpanAt(c.rest, off + c.hdr + |c.value|, path)
      else if |path| == 1 then Some(Span(off + c.hdr, c.value))
      else SpanAt(c.value, off + c.hdr, path[1..])
  }

  // A single tag is what the cursor finds among the siblings.
  lemma {:induction false} SpanIsFind(b: seq<Byte>, off: nat, t: Tag)
    ensures var f := Find(Siblings(b, off), t);
            if f.None? then SpanAt(b, off, [t]) == None
            else off <= f.value.offset && f.value.offset - off + f.value.hdr + f.value.vlen <= |b|
                 && SpanAt(b, off, [t]) == Some(Span(f.value.offset + f.value.hdr,
                                                     b[f.value.offset - off + f.value.hdr..f.value.offset - off + f.value.hdr + f.value.vlen]))
    decreases |b|
  {
    hide HasTlv, CutOf, Siblings, Find, SpanAt;
    SpanStep(b, off, [t]);
    if HasTlv(b) {
      var c := CutOf(b);
      CutForm(b);
      CutEntry(b, off);
      var next := off + c.hdr + |c.value|;
      SpanIsFind(c.rest, next, t);
      FindCons(Entry(c.tag, off, c.hdr, |c.value|), Siblings(c.rest, next), t);
      var f := Find(Siblings(b, off), t);
      if !Matches(c.tag, t) && f.Some? { Slice2(b, c.hdr + |c.value|, f.value.offset - next + f.value.hdr, f.value.vlen); }
    } else {
      NothingFound(b, off, t);
    }
  }

  lemma FindCons(e: Entry, es: seq<Entry>, t: Tag)
    ensures Find([e] + es, t) == if Matches(e.tag, t) then Some(e) else Find(es, t)
  {
    assert ([e] + es)[1..] == es;
  }

  lemma NothingFound(b: seq<Byte>, off: nat, t: Tag)
    requires !HasTlv(b)
    ensures Siblings(b, off) == [] && Find([], t) == None
  {
  }

  lemma Slice2(b: seq<Byte>, i: nat, j: nat, n: nat)
    requires i + j + n <= |b|
    ensures b[i..][j..j + n] == b[i + j..i + j + n]
  {
  }

  // The span's octets are where it says.
  lemma {:induction false} SpanInside(b: seq<Byte>, off: nat, path: seq<Tag>)
    requires SpanAt(b, off, path).Some?
    ensures var s := SpanAt(b, off, path).value;
            off < s.off && s.off - off + |s.value| <= |b| && b[s.off - off..s.off - off + |s.value|] == s.value
    decreases |b|
  {
    hide HasTlv, CutOf, SpanAt;
    SpanStep(b, off, path);
    var c, s := CutOf(b), SpanAt(b, off, path).value;
    CutSlices(b);
    if !Matches(c.tag, path[0]) {
      SpanInside(c.rest, off + c.hdr + |c.value|, path);
      Slice2(b, c.hdr + |c.value|, s.off - (off + c.hdr + |c.value|), |s.value|);
    } else if |path| > 1 {
      SpanInside(c.value, off + c.hdr, path[1..]);
      Slice3(b, c.hdr, |c.value|, s.off - (off + c.hdr), |s.value|);
    }
  }

  lemma Slice3(b: seq<Byte>, i: nat, m: nat, j: nat, n: nat)
    requires i + m <= |b| && j + n <= m
    ensures b[i..i + m][j..j + n] == b[i + j..i + j + n]
  {
    assert forall x {:trigger b[i..i + m][j..j + n][x]} :: 0 <= x < n ==> b[i..i + m][j..j + n][x] == b[i + j + x];
  }

  lemma SpanStep(b: seq<Byte>, off: nat, path: seq<Tag>)
    ensures SpanAt(b, off, path)
         == if path == [] || !HasTlv(b) then None
            else
              var c := CutOf(b);
              if !Matches(c.tag, path[0]) then SpanAt(c.rest, off + c.hdr + |c.value|, path)
              else if |path| == 1 then Some(Span(off + c.hdr, c.value))
              else SpanAt(c.value, off + c.hdr, path[1..])
  {
  }

  lemma {:induction false} SameSpan(b: seq<Byte>, off: nat, p: seq<Tag>, q: seq<Tag>)
    requires SamePath(p, q)
    ensures SpanAt(b, off, p) == SpanAt(b, off, q)
    decreases |b|
  {
    hide HasTlv, CutOf, SpanAt;
    SpanStep(b, off, p);
    SpanStep(b, off, q);
    if p != [] && HasTlv(b) {
      var c := CutOf(b);
      assert Matches(p[0], q[0]);
      if Matches(c.tag, p[0]) {
        if |p| > 1 {
          SameTail(p, q);
          SameSpan(CutOf(b).value, off + c.hdr, p[1..], q[1..]);
        }
      } else {
        SameSpan(CutOf(b).rest, off + c.hdr + |c.value|, p, q);
      }
    }
  }

  lemma SameTail(p: seq<Tag>, q: seq<Tag>)
    requires SamePath(p, q) && p != []
    ensures SamePath(p[1..], q[1..])
  {
    forall i {:trigger p[1..][i]} | 0 <= i < |p| - 1 ensures Matches(p[1..][i], q[1..][i]) { assert Matches(p[i + 1], q[i + 1]); }
  }

  // A longer path goes on inside the span of its first tag.
  lemma {:induction false} SpanChain(b: seq<Byte>, off: nat, path: seq<Tag>)
    requires |path| > 1
    ensures var s := SpanAt(b, off, path[..1]);
            SpanAt(b, off, path) == if s.None? then None else SpanAt(s.value.value, s.value.off, path[1..])
    decreases |b|
  {
    hide HasTlv, CutOf, SpanAt;
    SpanStep(b, off, path);
    SpanStep(b, off, path[..1]);
    if HasTlv(b) && !Matches(CutOf(b).tag, path[0]) {
      SpanChain(CutOf(b).rest, off + CutOf(b).hdr + |CutOf(b).value|, path);
    }
  }

  // The cursor at the end of a path.
  method BerPath(buf: seq<Byte>, path: seq<Tag>) returns (c: Cursor)
    ensures c.Valid() && (path == [] ==> c.buf == buf)
    ensures path != [] ==> (c.valid <==> SpanAt(buf, 0, path).Some?)
    ensures path != [] && c.valid ==> SpanAt(buf, 0, path) == Some(Span(c.at + c.hdr, c.Value()))
  {
    hide HasTlv, CutOf, SpanAt, Siblings, Find, FirstEntry;
    c := new Cursor(buf, 0);
    if path == [] { return; }
    var cur, base, i := buf, 0, 0;
    assert path[0..] == path;
    while i < |path|
      invariant 0 <= i <= |path| && c.Valid() && base >= 0
      invariant i < |path| ==> SpanAt(buf, 0, path) == SpanAt(cur, base, path[i..])
      invariant i == |path| ==> c.valid && SpanAt(buf, 0, path) == Some(Span(c.at + c.hdr, c.Value()))
    {
      var start := new Cursor(cur, base);
      c := start.FindTag(path[i]);
      SpanIsFind(cur, base, path[i]);
      assert path[i..][..1] == [path[i]];
      if i + 1 < |path| {
        SpanChain(cur, base, path[i..]);
        assert path[i..][1..] == path[i + 1..];
      } else {
        assert path[i..] == [path[i]];
      }
      if !c.valid { return; }
      CursorSpan(c, cur, base);
      cur := c.Value();
      base := c.at + c.hdr;
      i := i + 1;
    }
  }

  lemma CursorSpan(c: Cursor, cur: seq<Byte>, base: nat)
    requires c.Valid() && c.valid && base <= c.at <= base + |cur| && c.buf == cur[c.at - base..]
    ensures c.at - base + c.hdr + c.vlen <= |cur| && c.Value() == cur[c.at - base + c.hdr..c.at - base + c.hdr + c.vlen]
  {
    Slice2(cur, c.at - base, c.hdr, c.vlen);
  }

  // ---- the walk's hits ----

  // A slot hit, and the path that led to it.
  datatype Event = Event(path: seq<Tag>, slot: int, span: Span)

  function Under(t: Tag, es: seq<Event>): (r: seq<Event>)
    ensures |r| == |es| && forall i :: 0 <= i < |es| ==> r[i] == Event([t] + es[i].path, es[i].slot, es[i].span)
  {
    seq(|es|, i requires 0 <= i < |es| => Event([t] + es[i].path, es[i].slot, es[i].span))
  }

  // Each TLV goes to the branch with its tag: a slot takes its value, any
  // other branch is entered.
  function Events(ts: seq<Branch>, b: seq<Byte>, off: nat): seq<Event>
    decreases |b|, 1
  {
    if !HasTlv(b) then [] else Here(ts, b, off) + Events(ts, CutOf(b).rest, off + CutOf(b).hdr + |CutOf(b).value|)
  }

  function Here(ts: seq<Branch>, b: seq<Byte>, off: nat): seq<Event>
    requires HasTlv(b)
    decreases |b|, 0
  {
    var c := CutOf(b);
    var k := FindBranch(ts, c.tag);
    if k == |ts| then []
    else if ts[k].field != NONE then [Event([c.tag], ts[k].field, Span(off + c.hdr, c.value))]
    else Under(c.tag, Events(ts[k].kids, c.value, off + c.hdr))
  }

  lemma EventsCons(ts: seq<Branch>, b: seq<Byte>, off: nat)
    requires HasTlv(b)
    ensures Events(ts, b, off) == Here(ts, b, off) + Events(ts, CutOf(b).rest, off + CutOf(b).hdr + |CutOf(b).value|)
  {
  }

  lemma HereForms(ts: seq<Branch>, b: seq<Byte>, off: nat)
    requires HasTlv(b)
    ensures var c := CutOf(b);
            var k := FindBranch(ts, c.tag);
            Here(ts, b, off)
            == if k == |ts| then []
               else if ts[k].field != NONE then [Event([c.tag], ts[k].field, Span(off + c.hdr, c.value))]
               else Under(c.tag, Events(ts[k].kids, c.value, off + c.hdr))
  {
  }

  predicate NoSibling(b: seq<Byte>, t: Tag)
    decreases |b|
  {
    HasTlv(b) ==> !Matches(CutOf(b).tag, t) && NoSibling(CutOf(b).rest, t)
  }

  // No tag the trie looks for repeats among siblings.
  predicate Distinct(ts: seq<Branch>, b: seq<Byte>)
    decreases |b|
  {
    HasTlv(b) ==>
      var c := CutOf(b);
      var k := FindBranch(ts, c.tag);
      && (k < |ts| ==> NoSibling(c.rest, c.tag) && (ts[k].field == NONE ==> Distinct(ts[k].kids, c.value)))
      && Distinct(ts, c.rest)
  }

  lemma {:induction false} NoSpan(b: seq<Byte>, off: nat, t: Tag, p: seq<Tag>)
    requires NoSibling(b, t) && p != [] && Matches(t, p[0])
    ensures SpanAt(b, off, p) == None
    decreases |b|
  {
    hide HasTlv, CutOf, SpanAt;
    SpanStep(b, off, p);
    if HasTlv(b) { NoSpan(CutOf(b).rest, off + CutOf(b).hdr + |CutOf(b).value|, t, p); }
  }

  lemma FieldStep(ts: seq<Branch>, p: seq<Tag>)
    ensures FieldAt(ts, p)
         == if p == [] || FindBranch(ts, p[0]) == |ts| then NONE
            else if |p| == 1 then ts[FindBranch(ts, p[0])].field
            else FieldAt(ts[FindBranch(ts, p[0])].kids, p[1..])
  {
  }

  // A hit is a registered path.
  lemma {:induction false} EventField(ts: seq<Branch>, b: seq<Byte>, off: nat, i: nat)
    requires i < |Events(ts, b, off)|
    ensures var e := Events(ts, b, off)[i]; e.path != [] && e.slot != NONE && FieldAt(ts, e.path) == e.slot
    decreases |b|
  {
    hide HasTlv, CutOf, FindBranch, FieldAt;
    var c, here := CutOf(b), Here(ts, b, off);
    var k, x := FindBranch(ts, c.tag), Events(ts, b, off)[i];
    if i < |here| {
      assert x == here[i];
      FieldStep(ts, x.path);
      if ts[k].field == NONE {
        var inner := Events(ts[k].kids, c.value, off + c.hdr);
        EventField(ts[k].kids, c.value, off + c.hdr, i);
        assert x.path[1..] == inner[i].path;
      }
    } else {
      var next := off + c.hdr + |c.value|;
      assert x == Events(ts, c.rest, next)[i - |here|];
      EventField(ts, c.rest, next, i - |here|);
    }
  }

  // Where no tag the trie looks for repeats, it lies at that path.
  lemma {:induction false} EventSound(ts: seq<Branch>, b: seq<Byte>, off: nat, i: nat)
    requires Distinct(ts, b) && i < |Events(ts, b, off)|
    ensures SpanAt(b, off, Events(ts, b, off)[i].path) == Some(Events(ts, b, off)[i].span)
    decreases |b|
  {
    hide HasTlv, CutOf, SpanAt, FindBranch, FieldAt, NoSibling;
    EventField(ts, b, off, i);
    var c, here := CutOf(b), Here(ts, b, off);
    var k, x := FindBranch(ts, c.tag), Events(ts, b, off)[i];
    SpanStep(b, off, x.path);
    if i < |here| {
      assert x == here[i];
      if ts[k].field == NONE {
        var inner := Events(ts[k].kids, c.value, off + c.hdr);
        EventField(ts[k].kids, c.value, off + c.hdr, i);
        EventSound(ts[k].kids, c.value, off + c.hdr, i);
        assert x.path[1..] == inner[i].path;
      }
    } else {
      var next := off + c.hdr + |c.value|;
      assert x == Events(ts, c.rest, next)[i - |here|];
      EventSound(ts, c.rest, next, i - |here|);
      EventElsewhere(ts, b, off, x.path);
    }
  }

  // Hits lie inside the octets walked.
  lemma {:induction false} EventsInside(ts: seq<Branch>, b: seq<Byte>, off: nat, i: nat)
    requires i < |Events(ts, b, off)|
    ensures var s := Events(ts, b, off)[i].span; off < s.off && s.off - off + |s.value| <= |b|
    decreases |b|
  {
    hide HasTlv, CutOf, FindBranch;
    var c, here := CutOf(b), Here(ts, b, off);
    var k := FindBranch(ts, c.tag);
    if i < |here| {
      assert Events(ts, b, off)[i] == here[i];
      if ts[k].field == NONE { EventsInside(ts[k].kids, c.value, off + c.hdr, i); }
    } else {
      var next := off + c.hdr + |c.value|;
      assert Events(ts, b, off)[i] == Events(ts, c.rest, next)[i - |here|];
      EventsInside(ts, c.rest, next, i - |here|);
    }
  }

  // A hit of the first TLV ends where the next TLV starts, or before.
  lemma HereInside(ts: seq<Branch>, b: seq<Byte>, off: nat, i: nat)
    requires HasTlv(b) && i < |Here(ts, b, off)|
    ensures var s, c := Here(ts, b, off)[i].span, CutOf(b); off + c.hdr <= s.off <= off + c.hdr + |c.value|
  {
    hide HasTlv, CutOf, FindBranch, Events;
    var c := CutOf(b);
    var k := FindBranch(ts, c.tag);
    if ts[k].field == NONE { EventsInside(ts[k].kids, c.value, off + c.hdr, i); }
  }

  // Hits come in the order of the octets.
  lemma {:induction false} EventsAscend(ts: seq<Branch>, b: seq<Byte>, off: nat, i: nat, j: nat)
    requires i < j < |Events(ts, b, off)|
    ensures Events(ts, b, off)[i].span.off < Events(ts, b, off)[j].span.off
    decreases |b|
  {
    hide HasTlv, CutOf, FindBranch;
    var c, here, es := CutOf(b), Here(ts, b, off), Events(ts, b, off);
    var next := off + c.hdr + |c.value|;
    if j < |here| {
      var k := FindBranch(ts, c.tag);
      assert es[i] == here[i] && es[j] == here[j];
      EventsAscend(ts[k].kids, c.value, off + c.hdr, i, j);
    } else {
      assert es[j] == Events(ts, c.rest, next)[j - |here|];
      if i < |here| {
        assert es[i] == here[i];
        HereInside(ts, b, off, i);
        EventsInside(ts, c.rest, next, j - |here|);
      } else {
        assert es[i] == Events(ts, c.rest, next)[i - |here|];
        EventsAscend(ts, c.rest, next, i - |here|, j - |here|);
      }
    }
  }

  // What lies at a hit's path, if anything, is the hit or lies before it.
  lemma {:induction false} SpanFirst(ts: seq<Branch>, b: seq<Byte>, off: nat, i: nat)
    requires i < |Events(ts, b, off)|
    ensures var e := Events(ts, b, off)[i];
            var s := SpanAt(b, off, e.path);
            s.Some? ==> s.value.off < e.span.off || s.value == e.span
    decreases |b|
  {
    hide HasTlv, CutOf, SpanAt, FindBranch;
    EventField(ts, b, off, i);
    var c, here, x := CutOf(b), Here(ts, b, off), Events(ts, b, off)[i];
    SpanStep(b, off, x.path);
    if i < |here| {
      assert x == here[i];
      var k := FindBranch(ts, c.tag);
      if ts[k].field == NONE {
        EventField(ts[k].kids, c.value, off + c.hdr, i);
        SpanFirst(ts[k].kids, c.value, off + c.hdr, i);
        assert x.path[1..] == Events(ts[k].kids, c.value, off + c.hdr)[i].path;
      }
    } else {
      var next := off + c.hdr + |c.value|;
      assert x == Events(ts, c.rest, next)[i - |here|];
      EventsInside(ts, c.rest, next, i - |here|);
      if !Matches(c.tag, x.path[0]) { SpanFirst(ts, c.rest, next, i - |here|); }
      else if |x.path| > 1 && SpanAt(c.value, off + c.hdr, x.path[1..]).Some? { SpanInside(c.value, off + c.hdr, x.path[1..]); }
    }
  }

  // A registered path with a span behind the first TLV has another tag.
  lemma EventElsewhere(ts: seq<Branch>, b: seq<Byte>, off: nat, p: seq<Tag>)
    requires HasTlv(b) && Distinct(ts, b) && FieldAt(ts, p) != NONE
    requires SpanAt(CutOf(b).rest, off + CutOf(b).hdr + |CutOf(b).value|, p).Some?
    ensures p != [] && !Matches(CutOf(b).tag, p[0])
  {
    hide HasTlv, CutOf, SpanAt, FindBranch, FieldAt, NoSibling;
    FieldStep(ts, p);
    var t := CutOf(b).tag;
    if Matches(t, p[0]) {
      FindAlike(ts, t, p[0]);
      NoSpan(CutOf(b).rest, off + CutOf(b).hdr + |CutOf(b).value|, t, p);
    }
  }

  // No path is hit twice.
  lemma {:induction false} EventsApart(ts: seq<Branch>, b: seq<Byte>, off: nat, i: nat, j: nat)
    requires Distinct(ts, b) && i < j < |Events(ts, b, off)|
    ensures !SamePath(Events(ts, b, off)[i].path, Events(ts, b, off)[j].path)
    decreases |b|
  {
    hide HasTlv, CutOf, SpanAt, FindBranch, FieldAt, NoSibling;
    var c, here := CutOf(b), Here(ts, b, off);
    var next := off + c.hdr + |c.value|;
    var k, x, y := FindBranch(ts, c.tag), Events(ts, b, off)[i], Events(ts, b, off)[j];
    if j < |here| {
      assert x == here[i] && y == here[j];
      var inner := Events(ts[k].kids, c.value, off + c.hdr);
      EventsApart(ts[k].kids, c.value, off + c.hdr, i, j);
      assert x.path[1..] == inner[i].path && y.path[1..] == inner[j].path;
      if SamePath(x.path, y.path) { SameTail(x.path, y.path); }
    } else {
      assert y == Events(ts, c.rest, next)[j - |here|];
      if i < |here| {
        assert x == here[i] && x.path[0] == c.tag;
        EventField(ts, c.rest, next, j - |here|);
        EventSound(ts, c.rest, next, j - |here|);
        EventElsewhere(ts, b, off, y.path);
      } else {
        assert x == Events(ts, c.rest, next)[i - |here|];
        EventsApart(ts, c.rest, next, i - |here|, j - |here|);
      }
    }
  }

  // No slot on the way to the end of the path.
  predicate Clear(ts: seq<Branch>, p: seq<Tag>)
    decreases |p|
  {
    |p| > 1 && FindBranch(ts, p[0]) < |ts| ==> ts[FindBranch(ts, p[0])].field == NONE && Clear(ts[FindBranch(ts, p[0])].kids, p[1..])
  }

  // A registered path with a span is hit there.
  lemma {:induction false} EventComplete(ts: seq<Branch>, b: seq<Byte>, off: nat, p: seq<Tag>) returns (i: nat)
    requires FieldAt(ts, p) != NONE && Clear(ts, p) && SpanAt(b, off, p).Some?
    ensures i < |Events(ts, b, off)| && SamePath(Events(ts, b, off)[i].path, p)
    ensures Events(ts, b, off)[i].span == SpanAt(b, off, p).value
    decreases |b|
  {
    hide HasTlv, CutOf, SpanAt, FindBranch, FieldAt, Events, Here;
    SpanStep(b, off, p);
    FieldStep(ts, p);
    EventsCons(ts, b, off);
    HereForms(ts, b, off);
    var c, here := CutOf(b), Here(ts, b, off);
    if Matches(c.tag, p[0]) {
      FindAlike(ts, c.tag, p[0]);
      var k := FindBranch(ts, c.tag);
      if |p| == 1 {
        i := 0;
        assert Events(ts, b, off)[0] == here[0];
      } else {
        i := EventComplete(ts[k].kids, c.value, off + c.hdr, p[1..]);
        assert Events(ts, b, off)[i] == here[i];
        SameCons(c.tag, Events(ts[k].kids, c.value, off + c.hdr)[i].path, p);
      }
    } else {
      i := EventComplete(ts, c.rest, off + c.hdr + |c.value|, p);
      i := i + |here|;
      assert Events(ts, b, off)[i] == Events(ts, c.rest, off + c.hdr + |c.value|)[i - |here|];
    }
  }

  lemma SameCons(t: Tag, p: seq<Tag>, q: seq<Tag>)
    requires q != [] && Matches(t, q[0]) && SamePath(p, q[1..])
    ensures SamePath([t] + p, q)
  {
    forall i {:trigger q[i]} | 0 <= i < |q| ensures Matches(([t] + p)[i], q[i]) {
      if i > 0 { assert Matches(p[i - 1], q[1..][i - 1]); }
    }
  }

  // ---- overwriting a value in place ----

  function Patched(b: seq<Byte>, at: nat, value: seq<Byte>): (r: seq<Byte>)
    requires at + |value| <= |b|
    ensures |r| == |b|
  {
    b[..at] + value + b[at + |value|..]
  }

  // Neither path leads to the other.
  predicate Apart(p: seq<Tag>, q: seq<Tag>) {
    p != [] && q != [] && (!Matches(p[0], q[0]) || Apart(p[1..], q[1..]))
  }

  // Two paths are apart when class or number differ at a common step, so that
  // neither leads through the other.
  lemma {:induction false} ApartExact(p: seq<Tag>, q: seq<Tag>)
    ensures Apart(p, q) <==> exists i :: 0 <= i < |p| && i < |q| && (p[i].cls != q[i].cls || p[i].number != q[i].number)
    decreases |p|
  {
    if p != [] && q != [] {
      ApartExact(p[1..], q[1..]);
      if Matches(p[0], q[0]) {
        if exists i :: 0 <= i < |p| && i < |q| && (p[i].cls != q[i].cls || p[i].number != q[i].number) {
          var i :| 0 <= i < |p| && i < |q| && (p[i].cls != q[i].cls || p[i].number != q[i].number);
          assert p[1..][i - 1] == p[i] && q[1..][i - 1] == q[i];
        }
        if Apart(p[1..], q[1..]) {
          var i :| 0 <= i < |p[1..]| && i < |q[1..]| && (p[1..][i].cls != q[1..][i].cls || p[1..][i].number != q[1..][i].number);
          assert p[i + 1] == p[1..][i] && q[i + 1] == q[1..][i];
        }
      }
    }
  }

  lemma CutPatched(b: seq<Byte>, value: seq<Byte>, rest: seq<Byte>)
    requires HasTlv(b) && |value| == |CutOf(b).value|
    ensures var c := CutOf(b);
            var d := b[..c.hdr] + (value + rest);
            HasTlv(d) && CutOf(d) == Cut(c.tag, c.hdr, value, rest)
  {
    hide ReadTlv;
    SameHeader(b, value, rest);
  }

  lemma PatchInValue(b: seq<Byte>, at: nat, value: seq<Byte>)
    requires HasTlv(b) && CutOf(b).hdr <= at && at + |value| <= CutOf(b).hdr + |CutOf(b).value|
    ensures var c := CutOf(b);
            var d := Patched(b, at, value);
            HasTlv(d) && CutOf(d) == Cut(c.tag, c.hdr, Patched(c.value, at - c.hdr, value), c.rest)
  {
    hide HasTlv, CutOf;
    var c := CutOf(b);
    CutForm(b);
    CutPatched(b, Patched(c.value, at - c.hdr, value), c.rest);
    assert Patched(b, at, value) == b[..c.hdr] + (Patched(c.value, at - c.hdr, value) + c.rest);
  }

  lemma PatchInRest(b: seq<Byte>, at: nat, value: seq<Byte>)
    requires HasTlv(b) && CutOf(b).hdr + |CutOf(b).value| <= at && at + |value| <= |b|
    ensures var c := CutOf(b);
            var d := Patched(b, at, value);
            HasTlv(d) && CutOf(d) == Cut(c.tag, c.hdr, c.value, Patched(c.rest, at - c.hdr - |c.value|, value))
  {
    hide HasTlv, CutOf;
    var c := CutOf(b);
    CutForm(b);
    CutPatched(b, c.value, Patched(c.rest, at - c.hdr - |c.value|, value));
    assert Patched(b, at, value) == b[..c.hdr] + (c.value + Patched(c.rest, at - c.hdr - |c.value|, value));
  }

  // The path of an overwritten value finds the new octets at the same place;
  // a path apart from it finds what it found before.
  lemma {:induction false} PatchedSpan(b: seq<Byte>, off: nat, p: seq<Tag>, value: seq<Byte>, q: seq<Tag>)
    requires SpanAt(b, off, p).Some? && |value| == |SpanAt(b, off, p).value.value|
    ensures var s := SpanAt(b, off, p).value;
            && off <= s.off && s.off - off + |value| <= |b|
            && SpanAt(Patched(b, s.off - off, value), off, p) == Some(Span(s.off, value))
            && (Apart(p, q) ==> SpanAt(Patched(b, s.off - off, value), off, q) == SpanAt(b, off, q))
    decreases |b|
  {
    hide HasTlv, CutOf, SpanAt, Patched;
    SpanInside(b, off, p);
    SpanStep(b, off, p);
    SpanStep(b, off, q);
    var c, s := CutOf(b), SpanAt(b, off, p).value;
    var d := Patched(b, s.off - off, value);
    SpanStep(d, off, p);
    SpanStep(d, off, q);
    if !Matches(c.tag, p[0]) {
      var next := off + c.hdr + |c.value|;
      PatchedSpan(c.rest, next, p, value, q);
      PatchInRest(b, s.off - off, value);
    } else if |p| == 1 {
      PatchInValue(b, s.off - off, value);
      WholePatch(c.value, value);
      if Apart(p, q) { assert p[1..] == [] && !Apart(p[1..], q[1..]); }
    } else {
      PatchedSpan(c.value, off + c.hdr, p[1..], value, if q == [] then [] else q[1..]);
      PatchInValue(b, s.off - off, value);
    }
  }

  lemma WholePatch(b: seq<Byte>, value: seq<Byte>)
    requires |b| == |value|
    ensures Patched(b, 0, value) == value
  {
  }

  // The hits with the value at `at` replaced.
  predicate HitsPatched(es: seq<Event>, es': seq<Event>, at: nat, value: seq<Byte>) {
    |es'| == |es| && forall i :: 0 <= i < |es| ==>
      es'[i] == if es[i].span.off == at then es[i].(span := Span(at, value)) else es[i]
  }

  lemma HitsJoined(a: seq<Event>, a': seq<Event>, b: seq<Event>, b': seq<Event>, at: nat, value: seq<Byte>)
    requires HitsPatched(a, a', at, value) && HitsPatched(b, b', at, value)
    ensures HitsPatched(a + b, a' + b', at, value)
  {
  }

  lemma HitsSame(es: seq<Event>, at: nat, value: seq<Byte>)
    requires forall i :: 0 <= i < |es| ==> es[i].span.off != at
    ensures HitsPatched(es, es, at, value)
  {
  }

  lemma HitsUnder(t: Tag, es: seq<Event>, es': seq<Event>, at: nat, value: seq<Byte>)
    requires HitsPatched(es, es', at, value)
    ensures HitsPatched(Under(t, es), Under(t, es'), at, value)
  {
  }

  lemma RestBehind(ts: seq<Branch>, b: seq<Byte>, off: nat, at: nat)
    requires at <= off
    ensures forall i :: 0 <= i < |Events(ts, b, off)| ==> Events(ts, b, off)[i].span.off != at
  {
    hide Events;
    forall i | 0 <= i < |Events(ts, b, off)| ensures Events(ts, b, off)[i].span.off != at { EventsInside(ts, b, off, i); }
  }

  lemma HereBefore(ts: seq<Branch>, b: seq<Byte>, off: nat, at: nat)
    requires HasTlv(b) && at > off + CutOf(b).hdr + |CutOf(b).value|
    ensures forall i :: 0 <= i < |Here(ts, b, off)| ==> Here(ts, b, off)[i].span.off != at
  {
    hide Here, CutOf, HasTlv;
    forall i | 0 <= i < |Here(ts, b, off)| ensures Here(ts, b, off)[i].span.off != at { HereInside(ts, b, off, i); }
  }

  // Overwriting a slot's value changes that hit's value and no other hit.
  lemma {:induction false} PatchedEvents(ts: seq<Branch>, b: seq<Byte>, off: nat, p: seq<Tag>, value: seq<Byte>)
    requires FieldAt(ts, p) != NONE && Clear(ts, p)
    requires SpanAt(b, off, p).Some? && |value| == |SpanAt(b, off, p).value.value|
    ensures var s := SpanAt(b, off, p).value;
            && off <= s.off && s.off - off + |value| <= |b|
            && HitsPatched(Events(ts, b, off), Events(ts, Patched(b, s.off - off, value), off), s.off, value)
    decreases |b|
  {
    hide HasTlv, CutOf, SpanAt, Patched, FindBranch, FieldAt, Events, Here, HitsPatched;
    SpanInside(b, off, p);
    SpanStep(b, off, p);
    FieldStep(ts, p);
    var c, s := CutOf(b), SpanAt(b, off, p).value;
    var d, k := Patched(b, s.off - off, value), FindBranch(ts, c.tag);
    var next := off + c.hdr + |c.value|;
    if !Matches(c.tag, p[0]) {
      SpanInside(c.rest, next, p);
      PatchedEvents(ts, c.rest, next, p, value);
      PatchInRest(b, s.off - off, value);
      HereBefore(ts, b, off, s.off);
      HitsSame(Here(ts, b, off), s.off, value);
    } else {
      FindAlike(ts, c.tag, p[0]);
      RestBehind(ts, c.rest, next, s.off) by { if |p| > 1 { SpanInside(c.value, off + c.hdr, p[1..]); } }
      HitsSame(Events(ts, c.rest, next), s.off, value);
      if |p| > 1 {
        SpanInside(c.value, off + c.hdr, p[1..]);
        PatchedEvents(ts[k].kids, c.value, off + c.hdr, p[1..], value);
        HitsUnder(c.tag, Events(ts[k].kids, c.value, off + c.hdr),
                  Events(ts[k].kids, Patched(c.value, s.off - off - c.hdr, value), off + c.hdr), s.off, value);
      } else {
        OneHitPatched(c.tag, ts[k].field, off + c.hdr, c.value, value);
        WholePatch(c.value, value);
      }
      PatchInValue(b, s.off - off, value);
    }
    HereForms(ts, b, off);
    HereForms(ts, d, off);
    EventsCons(ts, b, off);
    EventsCons(ts, d, off);
    HitsJoined(Here(ts, b, off), Here(ts, d, off), Events(ts, c.rest, next), Events(ts, CutOf(d).rest, next), s.off, value);
  }

  lemma OneHitPatched(t: Tag, slot: int, at: nat, was: seq<Byte>, value: seq<Byte>)
    ensures HitsPatched([Event([t], slot, Span(at, was))], [Event([t], slot, Span(at, value))], at, value)
  {
  }
}
