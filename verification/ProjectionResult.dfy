/**
 * Applying a projection to a frame, and writing a value back into it.
 */
module ProjectionResult {
  import opened Bits
  import opened Options
  import opened BerTlv
  import opened BerCursor
  import opened ProjectionTrie
  import opened BerProjection
  import opened ProjectionSpans
  import opened ProjectionSlots

  class BerProjectionResult {
    const proj: BerProjection
    const decodes: Decoder
    var slots: seq<Slot>
    var frame: array?<Byte>
    var writable: bool

    ghost predicate Valid()
      reads this, proj, frame
    {
      && proj.Valid() && proj.finalized && |slots| == proj.leafCount
      && (writable ==> frame != null)
      && (frame == null ==> forall k :: 0 <= k < |slots| ==> slots[k].off.None?)
      && (frame != null ==> Inside(slots, frame.Length))
    }

    // The slots hold what the frame has at the registered paths.
    ghost predicate Located()
      requires Valid()
      reads this, proj, frame
    {
      && frame != null && KeysApart(proj.keys) && FrameFirstHits(proj.Tree(), frame[..], |slots|)
      && AllLie(slots, proj.keys, frame[..])
    }

    constructor (proj: BerProjection, decodes: Decoder)
      requires proj.Valid() && proj.finalized
      ensures Valid() && this.proj == proj && frame == null
    {
      this.proj, this.decodes := proj, decodes;
      slots, frame, writable := seq(proj.leafCount, _ => Slot(None, 0, false, false)), null, false;
    }

    method Bind(h: nat)
      requires Valid() && h < |slots|
      modifies this
      ensures Valid() && frame == old(frame) && writable == old(writable)
      ensures slots == old(slots)[h := old(slots[h]).(bound := true)]
    {
      slots := slots[h := slots[h].(bound := true)];
    }

    // Hits slots until the level ends or there have been as many hits as slots.
    method Walk(nodes: seq<Node>, first: int, b: seq<Byte>, off: nat, found: nat) returns (total: nat)
      requires Linked(nodes) && NONE <= first < |nodes| && found <= |slots|
      modifies this`slots
      ensures |slots| == |old(slots)|
      ensures var es := Events(Build(nodes, first), b, off);
              var n := Least(|es|, |slots| - found);
              total == found + n && slots == Record(old(slots), es[..n], decodes)
      decreases |b|, 1
    {
      hide Build, Events, Here, Record, HasTlv, FirstEntry, FindBranch, CutOf, Siblings, Progress, Least, Linked, ReadTlv, Matches;
      ghost var ts, was, size := Build(nodes, first), slots, |slots|;
      total := found;
      var c := new Cursor(b, off);
      LevelEnds(ts, c.buf, c.at);
      ghost var es, left := Events(ts, b, off), Events(ts, b, off);
      ProgressStart(was, es, found, decodes);
      while c.valid && total < |slots|
        invariant c.Valid() && fresh(c) && |c.buf| <= |b| && |slots| == size && total <= size
        invariant left == if c.valid then Events(ts, c.buf, c.at) else []
        invariant Progress(was, slots, es, left, found, total, decodes)
        decreases |c.buf|
      {
        EventsStep(ts, c);
        ghost var here, before, mid, buf, at := Here(ts, c.buf, c.at), total, slots, c.buf, c.at;
        ghost var next, nextAt := buf[c.hdr + c.vlen..], at + c.hdr + c.vlen;
        var value := c.Value();
        total := Visit(nodes, first, c.tag, value, c.at + c.hdr, total, buf, at);
        left := Events(ts, next, nextAt);
        LevelEnds(ts, next, nextAt);
        ProgressStep(was, mid, slots, es, here, left, found, before, total, decodes);
        c.Next();
      }
      ProgressEnd(was, slots, es, left, found, total, decodes);
    }

    // One TLV of a level.
    method Visit(nodes: seq<Node>, first: int, tag: Tag, value: seq<Byte>, at: nat, found: nat, ghost b: seq<Byte>, ghost off: nat)
      returns (total: nat)
      requires Linked(nodes) && NONE <= first < |nodes| && found < |slots|
      requires HasTlv(b) && CutOf(b).tag == tag && CutOf(b).value == value && at == off + CutOf(b).hdr
      modifies this`slots
      ensures |slots| == |old(slots)|
      ensures var es := Here(Build(nodes, first), b, off);
              var n := Least(|es|, |slots| - found);
              total == found + n && slots == Record(old(slots), es[..n], decodes)
      decreases |value|, 2
    {
      hide Build, Events, HasTlv, FirstEntry, FindBranch, CutOf, Siblings, Labels, Unique, TagsDiffer;
      ghost var was, here := slots, Here(Build(nodes, first), b, off);
      var ni, prev := ScanSiblings(nodes, first, tag);
      if ni == NONE {
        assert here[..0] == [];
        return found;
      }
      BranchAtSibling(nodes, first, tag);
      var field := nodes[ni].field;
      if field != NONE {
        var bound := 0 <= field < |slots|;
        if bound { slots := slots[field := Hit(slots[field], field, Span(at, value), decodes)]; }
        OneRecorded(was, here[0], decodes);
        assert here[..1] == [here[0]];
        return found + 1;
      }
      total := Walk(nodes, nodes[ni].firstChild, value, at, found);
      ghost var inner := Events(Build(nodes, nodes[ni].firstChild), value, at);
      assert here == Under(tag, inner);
      UnderCut(tag, inner, total - found);
      RecordUnder(was, tag, inner[..total - found], decodes);
    }

    // No slot located, no bound object found.
    method Clear()
      modifies this`slots
      ensures slots == ClearedAll(old(slots))
    {
      var i := 0;
      while i < |slots|
        invariant 0 <= i <= |slots| == |old(slots)|
        invariant forall k :: 0 <= k < i ==> slots[k] == Cleared(old(slots[k]))
        invariant forall k :: i <= k < |slots| ==> slots[k] == old(slots[k])
      {
        slots := slots[i := Cleared(slots[i])];
        i := i + 1;
      }
    }

    // Locates the registered paths in a frame.
    method Apply(data: array<Byte>, mutable: bool)
      requires Valid()
      modifies this
      ensures Valid() && frame == data && writable == mutable
      ensures forall k {:trigger slots[k]} :: 0 <= k < |slots| ==> slots[k].bound == old(slots[k].bound)
      ensures KeysApart(proj.keys) ==>
                (AllHold(slots, proj.keys, data[..], decodes) <==> FrameFirstHits(proj.Tree(), data[..], |slots|))
      ensures KeysApart(proj.keys) && FrameDistinct(proj.Tree(), data[..]) ==> FrameFirstHits(proj.Tree(), data[..], |slots|)
      ensures KeysApart(proj.keys) && FrameFirstHits(proj.Tree(), data[..], |slots|) ==> Located()
      ensures var es := FrameEvents(proj.Tree(), data[..]);
              slots == Record(ClearedAll(old(slots)), es[..Least(|es|, |slots|)], decodes)
    {
      hide Build, Events, Record, HasTlv, FirstEntry, CutOf, Siblings, SlotsOk, PathsOk, FieldAt, Distinct, SpanAt, Unique, TagsDiffer, Labels, FirstHits;
      ghost var was := slots;
      frame, writable := data, mutable;
      Clear();
      ghost var ts, octets, before := proj.Tree(), data[..], slots;
      FrameRecorded(ts, proj.keys, octets, before, decodes);
      hide AllHold, AllLie, FrameFirstHits, FrameDistinct, KeysApart, Least, Inside;
      NothingRecorded(before, decodes);
      var root := new Cursor(data[..], 0);
      if !root.valid {
        assert FrameEvents(ts, octets) == [];
        return;
      }
      EventsStep(ts, root);
      var value := root.Value();
      var found := Walk(proj.nodes, proj.rootFirst, value, root.hdr, 0);
    }

    // Overwrites a located value with one of the same size; `encoded` is what
    // the codec makes of the bound object.
    method Commit(h: nat, encoded: seq<Byte>) returns (ok: bool)
      requires Valid() && h < |slots| && writable
      modifies frame
      ensures Valid()
      ensures ok <==> slots[h].bound && slots[h].found && slots[h].off.Some? && HasTlv(encoded) && |CutOf(encoded).value| == slots[h].len
      ensures frame[..] == if ok then Patched(old(frame[..]), slots[h].off.value, CutOf(encoded).value) else old(frame[..])
      ensures old(Located()) ==> Located()
      ensures old(Located()) && ok ==>
                forall k {:trigger proj.keys[k]} :: 0 <= k < |slots| ==>
                  FrameSpan(frame[..], proj.keys[k])
                  == if k == h then Some(Span(slots[h].off.value, CutOf(encoded).value)) else FrameSpan(old(frame[..]), proj.keys[k])
    {
      hide Build, Events, Record, HasTlv, FirstEntry, CutOf, Siblings, SlotsOk, PathsOk, FieldAt, Distinct, SpanAt, Unique, TagsDiffer, Labels;
      ok := false;
      if !slots[h].bound || !slots[h].found || slots[h].off.None? { return; }
      var enc := new Cursor(encoded, 0);
      if !enc.valid { return; }
      EventsStep([], enc);
      var value := enc.Value();
      if |value| != slots[h].len { return; }
      ghost var b := frame[..];
      var at := slots[h].off.value;
      CopyIn(frame, at, value);
      if old(Located()) {
        forall k {:trigger proj.keys[k]} | 0 <= k < |slots|
          ensures FrameSpan(frame[..], proj.keys[k]) == if k == h then Some(Span(at, value)) else FrameSpan(b, proj.keys[k])
        {
          FramePatched(b, proj.keys[h], value, proj.keys[k]);
        }
        FramePatchedFirst(proj.Tree(), proj.keys, b, h, value, |slots|);
      }
      ok := true;
    }
  }

  // Applying again after a commit finds every value where it was, with the
  // committed octets in that slot and no others changed.
  method CommitAndReapply(r: BerProjectionResult, h: nat, encoded: seq<Byte>) returns (ok: bool)
    requires r.Valid() && h < |r.slots| && r.writable && r.Located()
    modifies r, r.frame
    ensures r.Valid() && r.Located() && r.frame == old(r.frame) && |r.slots| == |old(r.slots)|
    ensures ok ==> HasTlv(encoded)
    ensures forall k {:trigger r.slots[k]} :: 0 <= k < |r.slots| ==>
              Kept(old(r.slots)[k], r.slots[k], old(r.frame[..]), r.frame[..], if ok && k == h then Some(CutOf(encoded).value) else None)
  {
    hide HasTlv, CutOf, Record, SlotsOk, PathsOk, TrieOk, FieldAt, Build, FrameEvents, FrameSpan, FrameFirstHits, Patched;
    ghost var before, keys, slots := r.frame[..], r.proj.keys, r.slots;
    ok := r.Commit(h, encoded);
    ghost var after := r.frame[..];
    r.Apply(r.frame, true);
    forall k {:trigger r.slots[k]} | 0 <= k < |r.slots|
      ensures Kept(slots[k], r.slots[k], before, after, if ok && k == h then Some(CutOf(encoded).value) else None)
    {
      if FrameSpan(before, keys[k]).Some? {
        FrameSpanInside(before, keys[k]);
        FrameSpanInside(after, keys[k]);
      }
    }
  }

  // The slot lies where it lay; its octets are the new ones, if any.
  predicate Kept(was: Slot, now: Slot, before: seq<Byte>, after: seq<Byte>, value: Option<seq<Byte>>) {
    && now.off == was.off
    && (now.off.Some? ==>
          && now.len == was.len && now.off.value + now.len <= |before| && |before| == |after|
          && after[now.off.value..now.off.value + now.len]
             == if value.Some? then value.value else before[now.off.value..now.off.value + now.len])
  }

  // Copies octets into a buffer.
  method CopyIn(a: array<Byte>, at: nat, value: seq<Byte>)
    requires at + |value| <= a.Length
    modifies a
    ensures a[..] == Patched(old(a[..]), at, value)
  {
    forall i | 0 <= i < |value| {
      a[at + i] := value[i];
    }
  }

  // The branch found by a scan is the node found.
  lemma BranchAtSibling(nodes: seq<Node>, first: int, t: Tag)
    requires Linked(nodes) && NONE <= first < |nodes| && FindBranch(Build(nodes, first), t) < |Build(nodes, first)|
    ensures var b := Build(nodes, first)[FindBranch(Build(nodes, first), t)];
            b.node < |nodes| && b == Branch(b.node, nodes[b.node].tag, nodes[b.node].field, Build(nodes, nodes[b.node].firstChild))
  {
    hide Build, FindBranch, Labels, Unique;
    BranchIsNode(nodes, first, [t]);
  }

  lemma UnderCut(t: Tag, es: seq<Event>, n: nat)
    requires n <= |es|
    ensures Under(t, es)[..n] == Under(t, es[..n])
  {
  }

  lemma OneRecorded(slots: seq<Slot>, e: Event, decodes: Decoder)
    ensures Record(slots, [e], decodes) == Put(slots, e, decodes)
  {
    assert [e][..0] == [];
  }

  // All hits but those `left` are recorded, as far as the limit allows.
  ghost predicate Progress(was: seq<Slot>, now: seq<Slot>, es: seq<Event>, left: seq<Event>, found: nat, total: nat, decodes: Decoder) {
    |left| <= |es| &&
    var done := es[..|es| - |left|];
    && es == done + left && found <= total <= |was| && total - found == Least(|done|, |was| - found)
    && now == Record(was, done[..total - found], decodes)
  }

  lemma ProgressStart(was: seq<Slot>, es: seq<Event>, found: nat, decodes: Decoder)
    requires found <= |was|
    ensures Progress(was, was, es, es, found, found, decodes)
  {
    assert es[..0] == [] && [] + es == es;
  }

  lemma ProgressStep(was: seq<Slot>, mid: seq<Slot>, now: seq<Slot>, es: seq<Event>, here: seq<Event>, left: seq<Event>,
                     found: nat, before: nat, total: nat, decodes: Decoder)
    requires Progress(was, mid, es, here + left, found, before, decodes) && before < |was|
    requires var n := Least(|here|, |was| - before); total == before + n && now == Record(mid, here[..n], decodes)
    ensures Progress(was, now, es, left, found, total, decodes)
  {
    var done := es[..|es| - |here + left|];
    assert done[..before - found] == done;
    assert es == (done + here) + left;
    assert es[..|es| - |left|] == done + here;
    assert (done + here)[..total - found] == done + here[..total - before];
    RecordConcat(was, done, here[..total - before], decodes);
  }

  // Nothing left to see, or no slot left to hit.
  lemma ProgressEnd(was: seq<Slot>, now: seq<Slot>, es: seq<Event>, left: seq<Event>, found: nat, total: nat, decodes: Decoder)
    requires Progress(was, now, es, left, found, total, decodes) && (left == [] || total >= |was|)
    ensures var n := Least(|es|, |was| - found); total == found + n && now == Record(was, es[..n], decodes)
  {
    hide Record;
    var done := es[..|es| - |left|];
    if left == [] { assert done == es; }
    assert total - found <= |done|;
    assert es[..total - found] == done[..total - found];
  }

  lemma LevelEnds(ts: seq<Branch>, b: seq<Byte>, off: nat)
    ensures !HasTlv(b) ==> Events(ts, b, off) == []
  {
  }

  lemma EventsStep(ts: seq<Branch>, c: Cursor)
    requires c.Valid() && c.valid
    ensures HasTlv(c.buf) && CutOf(c.buf) == Cut(c.tag, c.hdr, c.Value(), c.buf[c.hdr + c.vlen..]) && c.hdr + c.vlen <= |c.buf|
    ensures Events(ts, c.buf, c.at) == Here(ts, c.buf, c.at) + Events(ts, c.buf[c.hdr + c.vlen..], c.at + c.hdr + c.vlen)
  {
    hide ReadTlv, Here;
    CurrentTlv(c);
  }
}
