/**
 * The result slots of a projection: what a walk's hits leave in them, and when
 * that is what the frame holds at the registered paths.
 */
module ProjectionSlots {
  import opened Bits
  import opened Integers
  import opened Options
  import opened BerTlv
  import opened BerCursor
  import opened ProjectionTrie
  import opened BerProjection
  import opened ProjectionSpans

  // Where a slot's value lies; `bound` when an object receives it, `found`
  // when that object was decoded.
  datatype Slot = Slot(off: Option<nat>, len: nat, bound: bool, found: bool)

  // Whether the object bound to a slot decodes from the octets.
  type Decoder = (int, seq<Byte>) -> bool

  function Hit(slot: Slot, k: int, span: Span, decodes: Decoder): Slot {
    Slot(Some(span.off), |span.value|, slot.bound, if slot.bound then decodes(k, span.value) else slot.found)
  }

  function Put(slots: seq<Slot>, e: Event, decodes: Decoder): (r: seq<Slot>)
    ensures |r| == |slots|
  {
    if 0 <= e.slot < |slots| then slots[e.slot := Hit(slots[e.slot], e.slot, e.span, decodes)] else slots
  }

  // The slots after a sequence of hits.
  function Record(slots: seq<Slot>, es: seq<Event>, decodes: Decoder): (r: seq<Slot>)
    ensures |r| == |slots|
    ensures forall k :: 0 <= k < |slots| ==> r[k].bound == slots[k].bound
  {
    if es == [] then slots else Put(Record(slots, es[..|es| - 1], decodes), es[|es| - 1], decodes)
  }

  function Cleared(s: Slot): Slot {
    Slot(None, 0, s.bound, s.found && !s.bound)
  }

  // ---- what a frame holds ----

  function FrameSpan(frame: seq<Byte>, path: seq<Tag>): Option<Span> {
    if HasTlv(frame) then SpanAt(CutOf(frame).value, CutOf(frame).hdr, path) else None
  }

  function FrameEvents(ts: seq<Branch>, frame: seq<Byte>): seq<Event> {
    if HasTlv(frame) then Events(ts, CutOf(frame).value, CutOf(frame).hdr) else []
  }

  predicate FrameDistinct(ts: seq<Branch>, frame: seq<Byte>) {
    HasTlv(frame) ==> Distinct(ts, CutOf(frame).value)
  }

  // No registered path leads through another one.
  predicate KeysApart(keys: seq<seq<Tag>>) {
    forall i, j {:trigger keys[i], keys[j]} :: 0 <= i < |keys| && 0 <= j < |keys| && i != j ==> Apart(keys[i], keys[j])
  }

  // The slot holds exactly the span, or nothing.
  predicate Holds(slot: Slot, span: Option<Span>, k: int, decodes: Decoder) {
    match span
    case None => slot.off == None && slot.len == 0 && (slot.bound ==> !slot.found)
    case Some(s) => slot.off == Some(s.off) && slot.len == |s.value| && (slot.bound ==> slot.found == decodes(k, s.value))
  }

  // ---- hits recorded ----

  lemma {:induction false} RecordConcat(slots: seq<Slot>, a: seq<Event>, b: seq<Event>, decodes: Decoder)
    ensures Record(slots, a + b, decodes) == Record(Record(slots, a, decodes), b, decodes)
    decreases |b|
  {
    if b == [] {
      assert a + b == a;
    } else {
      var n := |b| - 1;
      assert (a + b)[..|a + b| - 1] == a + b[..n];
      RecordConcat(slots, a, b[..n], decodes);
    }
  }

  // Recording reads neither the paths nor what is cut off.
  lemma {:induction false} RecordUnder(slots: seq<Slot>, t: Tag, es: seq<Event>, decodes: Decoder)
    ensures Record(slots, Under(t, es), decodes) == Record(slots, es, decodes)
    decreases |es|
  {
    if es != [] {
      assert Under(t, es)[..|es| - 1] == Under(t, es[..|es| - 1]);
      RecordUnder(slots, t, es[..|es| - 1], decodes);
    }
  }

  ghost predicate OnceEach(es: seq<Event>) {
    forall i, j {:trigger es[i], es[j]} :: 0 <= i < j < |es| ==> es[i].slot != es[j].slot
  }

  lemma {:induction false} NotRecorded(slots: seq<Slot>, es: seq<Event>, decodes: Decoder, k: nat)
    requires k < |slots| && forall i :: 0 <= i < |es| ==> es[i].slot != k
    ensures Record(slots, es, decodes)[k] == slots[k]
    decreases |es|
  {
    if es != [] { NotRecorded(slots, es[..|es| - 1], decodes, k); }
  }

  lemma {:induction false} Recorded(slots: seq<Slot>, es: seq<Event>, decodes: Decoder, i: nat)
    requires OnceEach(es) && i < |es| && 0 <= es[i].slot < |slots|
    ensures Record(slots, es, decodes)[es[i].slot] == Hit(slots[es[i].slot], es[i].slot, es[i].span, decodes)
    decreases |es|
  {
    var n := |es| - 1;
    if i == n {
      NotRecorded(slots, es[..n], decodes, es[n].slot);
    } else {
      assert es[..n][i] == es[i];
      Recorded(slots, es[..n], decodes, i);
    }
  }

  // Hits of different slots are no more than there are slots.
  lemma {:induction false} AtMost(es: seq<Event>, free: set<int>)
    requires OnceEach(es) && forall i :: 0 <= i < |es| ==> es[i].slot in free
    ensures |es| <= |free|
    decreases |es|
  {
    if es != [] {
      var n := |es| - 1;
      forall i | 0 <= i < n ensures es[..n][i].slot in free - {es[n].slot} { assert es[i].slot != es[n].slot; }
      AtMost(es[..n], free - {es[n].slot});
    }
  }

  lemma {:induction false} Count(n: nat) returns (s: set<int>)
    ensures |s| == n && forall i :: i in s <==> 0 <= i < n
  {
    if n == 0 {
      s := {};
    } else {
      s := Count(n - 1);
      s := s + {n - 1};
    }
  }

  // ---- registered paths ----

  lemma {:induction false} ClearIf(ts: seq<Branch>, p: seq<Tag>)
    requires forall n {:trigger p[..n]} :: 0 < n < |p| ==> FieldAt(ts, p[..n]) == NONE
    ensures Clear(ts, p)
    decreases |p|
  {
    hide FindBranch, FieldAt;
    if |p| > 1 && FindBranch(ts, p[0]) < |ts| {
      var kids := ts[FindBranch(ts, p[0])].kids;
      FieldStep(ts, p[..1]);
      forall n {:trigger p[1..][..n]} | 0 < n < |p| - 1 ensures FieldAt(kids, p[1..][..n]) == NONE {
        FieldStep(ts, p[..n + 1]);
        assert p[..n + 1][1..] == p[1..][..n];
      }
      ClearIf(kids, p[1..]);
    }
  }

  lemma {:induction false} NotApart(p: seq<Tag>, n: nat, q: seq<Tag>)
    requires n <= |p| && SamePath(p[..n], q)
    ensures !Apart(q, p)
    decreases |q|
  {
    if q != [] {
      assert Matches(p[..n][0], q[0]);
      SameTail(p[..n], q);
      assert p[..n][1..] == p[1..][..n - 1];
      NotApart(p[1..], n - 1, q[1..]);
    }
  }

  lemma ClearKeys(ts: seq<Branch>, keys: seq<seq<Tag>>, s: nat)
    requires SlotsOk(ts, keys) && KeysApart(keys) && s < |keys|
    ensures Clear(ts, keys[s])
  {
    hide FieldAt;
    var p := keys[s];
    forall n {:trigger p[..n]} | 0 < n < |p| ensures FieldAt(ts, p[..n]) == NONE {
      var k := FieldAt(ts, p[..n]);
      if k != NONE {
        assert SamePath(p[..n], keys[k]);
        NotApart(p, n, keys[k]);
      }
    }
    ClearIf(ts, p);
  }

  lemma SlotKey(ts: seq<Branch>, keys: seq<seq<Tag>>, s: nat)
    requires SlotsOk(ts, keys) && s < |keys|
    ensures FieldAt(ts, keys[s]) == s
  {
  }

  lemma SameTrans(p: seq<Tag>, q: seq<Tag>, k: seq<Tag>)
    requires SamePath(p, k) && SamePath(q, k)
    ensures SamePath(p, q)
  {
    forall i {:trigger p[i]} | 0 <= i < |p| ensures Matches(p[i], q[i]) { assert Matches(p[i], k[i]) && Matches(q[i], k[i]); }
  }

  function Least(a: int, b: int): int {
    if a < b then a else b
  }

  function ClearedAll(slots: seq<Slot>): (r: seq<Slot>)
    ensures |r| == |slots| && forall k :: 0 <= k < |slots| ==> r[k] == Cleared(slots[k])
  {
    seq(|slots|, k requires 0 <= k < |slots| => Cleared(slots[k]))
  }

  // ---- distinct tags ----

  // Where tags are distinct no slot is hit twice, so the limit ends no walk.
  lemma WalkFindsAll(ts: seq<Branch>, keys: seq<seq<Tag>>, b: seq<Byte>, off: nat)
    requires SlotsOk(ts, keys) && Distinct(ts, b)
    ensures OnceEach(Events(ts, b, off)) && |Events(ts, b, off)| <= |keys|
    ensures forall i :: 0 <= i < |Events(ts, b, off)| ==> 0 <= Events(ts, b, off)[i].slot < |keys|
  {
    hide FieldAt, Events, Distinct, SpanAt;
    var es := Events(ts, b, off);
    forall i | 0 <= i < |es| ensures 0 <= es[i].slot < |keys| && SamePath(es[i].path, keys[es[i].slot]) {
      EventField(ts, b, off, i);
    }
    forall i, j {:trigger es[i], es[j]} | 0 <= i < j < |es| ensures es[i].slot != es[j].slot {
      EventsApart(ts, b, off, i, j);
      if es[i].slot == es[j].slot { SameTrans(es[i].path, es[j].path, keys[es[i].slot]); }
    }
    var all := Count(|keys|);
    AtMost(es, all);
  }

  // ---- when the slots are right ----

  // Every hit recorded, at most `limit` of them, lies in the first TLV with
  // its tag on every level.
  predicate FirstHits(ts: seq<Branch>, b: seq<Byte>, off: nat, limit: nat) {
    forall i {:trigger Events(ts, b, off)[i]} :: 0 <= i < Least(|Events(ts, b, off)|, limit) ==>
      SpanAt(b, off, Events(ts, b, off)[i].path) == Some(Events(ts, b, off)[i].span)
  }

  // The slots after a walk from cleared ones.
  function Walked(ts: seq<Branch>, b: seq<Byte>, off: nat, slots: seq<Slot>, decodes: Decoder): (r: seq<Slot>)
    ensures |r| == |slots|
  {
    Record(slots, Events(ts, b, off)[..Least(|Events(ts, b, off)|, |slots|)], decodes)
  }

  ghost predicate SlotsRight(ts: seq<Branch>, keys: seq<seq<Tag>>, b: seq<Byte>, off: nat, slots: seq<Slot>, decodes: Decoder)
    requires |slots| == |keys|
  {
    forall k {:trigger keys[k]} :: 0 <= k < |keys| ==> Holds(Walked(ts, b, off, slots, decodes)[k], SpanAt(b, off, keys[k]), k, decodes)
  }

  ghost predicate AllCleared(slots: seq<Slot>) {
    forall k {:trigger slots[k]} :: 0 <= k < |slots| ==> slots[k] == Cleared(slots[k])
  }

  lemma HitKey(ts: seq<Branch>, keys: seq<seq<Tag>>, b: seq<Byte>, off: nat, i: nat)
    requires SlotsOk(ts, keys) && i < |Events(ts, b, off)|
    ensures var e := Events(ts, b, off)[i];
            0 <= e.slot < |keys| && SamePath(e.path, keys[e.slot]) && SpanAt(b, off, e.path) == SpanAt(b, off, keys[e.slot])
  {
    hide FieldAt, Events, SpanAt;
    EventField(ts, b, off, i);
    var e := Events(ts, b, off)[i];
    SameSpan(b, off, e.path, keys[e.slot]);
  }

  // Of hits in the first TLVs no two are of the same slot.
  lemma FirstHitsOnce(ts: seq<Branch>, keys: seq<seq<Tag>>, b: seq<Byte>, off: nat, limit: nat)
    requires SlotsOk(ts, keys) && FirstHits(ts, b, off, limit)
    ensures OnceEach(Events(ts, b, off)[..Least(|Events(ts, b, off)|, limit)])
  {
    hide FieldAt, Events, SpanAt, SlotsOk, SamePath;
    var all := Events(ts, b, off);
    var es := all[..Least(|all|, limit)];
    forall i, j {:trigger es[i], es[j]} | 0 <= i < j < |es| ensures es[i].slot != es[j].slot {
      assert es[i] == all[i] && es[j] == all[j];
      HitKey(ts, keys, b, off, i);
      HitKey(ts, keys, b, off, j);
      EventsAscend(ts, b, off, i, j);
    }
  }

  // The last hit of a slot is the one recorded.
  lemma {:induction false} LastRecorded(slots: seq<Slot>, es: seq<Event>, decodes: Decoder, i: nat)
    requires i < |es| && 0 <= es[i].slot < |slots| && forall j :: i < j < |es| ==> es[j].slot != es[i].slot
    ensures var r := Record(slots, es, decodes)[es[i].slot]; Holds(r, Some(es[i].span), es[i].slot, decodes)
    decreases |es|
  {
    var n := |es| - 1;
    if i < n {
      assert es[..n][i] == es[i];
      LastRecorded(slots, es[..n], decodes, i);
    }
  }

  lemma {:induction false} LastHit(es: seq<Event>, i: nat) returns (l: nat)
    requires i < |es|
    ensures i <= l < |es| && es[l].slot == es[i].slot && forall j :: l < j < |es| ==> es[j].slot != es[i].slot
    decreases |es|
  {
    var n := |es| - 1;
    if es[n].slot == es[i].slot {
      l := n;
    } else {
      l := LastHit(es[..n], i);
      forall j | l < j < |es| ensures es[j].slot != es[i].slot { if j < n { assert es[..n][j] == es[j]; } }
    }
  }

  // As many hits as slots, of different slots, hit every slot.
  lemma AllHit(es: seq<Event>, n: nat, k: nat)
    requires OnceEach(es) && |es| == n && k < n && forall i :: 0 <= i < |es| ==> 0 <= es[i].slot < n
    ensures exists i :: 0 <= i < |es| && es[i].slot == k
  {
    if forall i :: 0 <= i < |es| ==> es[i].slot != k {
      var all := Count(n);
      AtMost(es, all - {k as int});
    }
  }

  // Where the recorded hits are first ones, every slot is right:
  lemma FirstHitsHold(ts: seq<Branch>, keys: seq<seq<Tag>>, b: seq<Byte>, off: nat, slots: seq<Slot>, decodes: Decoder, k: nat)
    requires SlotsOk(ts, keys) && KeysApart(keys) && |slots| == |keys| && k < |keys| && AllCleared(slots)
    requires FirstHits(ts, b, off, |slots|)
    ensures Holds(Walked(ts, b, off, slots, decodes)[k], SpanAt(b, off, keys[k]), k, decodes)
  {
    hide FieldAt, Events, SpanAt, Clear, Record, SlotsOk, KeysApart, Holds, SamePath, OnceEach;
    var all := Events(ts, b, off);
    var es := all[..Least(|all|, |slots|)];
    FirstHitsOnce(ts, keys, b, off, |slots|);
    forall i | 0 <= i < |es| ensures 0 <= es[i].slot < |keys| { HitKey(ts, keys, b, off, i); }
    if i :| 0 <= i < |es| && es[i].slot == k {
      HitKey(ts, keys, b, off, i);
      assert SpanAt(b, off, all[i].path) == Some(all[i].span);
      OnceIsLast(es, i);
      LastRecorded(slots, es, decodes, i);
    } else {
      if |all| >= |slots| { AllHit(es, |slots|, k); }
      if SpanAt(b, off, keys[k]).Some? {
        ClearKeys(ts, keys, k);
        SlotKey(ts, keys, k);
        var j := EventComplete(ts, b, off, keys[k]);
        EventField(ts, b, off, j);
        SameTagSameField(ts, all[j].path, keys[k]);
        assert false;
      }
      NotRecorded(slots, es, decodes, k);
      assert Holds(Cleared(slots[k]), None, k, decodes) by { ClearedHolds(slots[k], k, decodes); }
    }
  }

  lemma OnceIsLast(es: seq<Event>, i: nat)
    requires OnceEach(es) && i < |es|
    ensures forall j :: i < j < |es| ==> es[j].slot != es[i].slot
  {
    forall j | i < j < |es| ensures es[j].slot != es[i].slot { assert es[i] == es[i] && es[j] == es[j]; }
  }

  lemma ClearedHolds(s: Slot, k: int, decodes: Decoder)
    ensures Holds(Cleared(s), None, k, decodes)
  {
  }

  // and where every slot is right, they are.
  lemma RightSlotHit(ts: seq<Branch>, keys: seq<seq<Tag>>, b: seq<Byte>, off: nat, slots: seq<Slot>, decodes: Decoder, i: nat)
    requires SlotsOk(ts, keys) && |slots| == |keys| && SlotsRight(ts, keys, b, off, slots, decodes)
    requires i < Least(|Events(ts, b, off)|, |slots|)
    ensures SpanAt(b, off, Events(ts, b, off)[i].path) == Some(Events(ts, b, off)[i].span)
  {
    hide FieldAt, Events, SpanAt, Record, SlotsOk, SamePath;
    var all := Events(ts, b, off);
    var es := all[..Least(|all|, |slots|)];
    assert es[i] == all[i];
    HitKey(ts, keys, b, off, i);
    var l := LastHit(es, i);
    LastRecorded(slots, es, decodes, l);
    var k := es[i].slot;
    assert Holds(Walked(ts, b, off, slots, decodes)[k], SpanAt(b, off, keys[k]), k, decodes);
    if i < l { EventsAscend(ts, b, off, i, l); }
    SpanFirst(ts, b, off, i);
  }

  // A walk leaves every slot with exactly what the octets hold at its path if
  // and only if every hit it records lies in the first TLV with its tag on
  // every level.
  lemma WalkRight(ts: seq<Branch>, keys: seq<seq<Tag>>, b: seq<Byte>, off: nat, slots: seq<Slot>, decodes: Decoder)
    requires SlotsOk(ts, keys) && KeysApart(keys) && |slots| == |keys| && AllCleared(slots)
    ensures SlotsRight(ts, keys, b, off, slots, decodes) <==> FirstHits(ts, b, off, |slots|)
  {
    hide FieldAt, Events, SpanAt, Walked, SlotsOk, KeysApart, Holds;
    if FirstHits(ts, b, off, |slots|) {
      forall k {:trigger keys[k]} | 0 <= k < |keys|
        ensures Holds(Walked(ts, b, off, slots, decodes)[k], SpanAt(b, off, keys[k]), k, decodes)
      {
        FirstHitsHold(ts, keys, b, off, slots, decodes, k);
      }
    }
    if SlotsRight(ts, keys, b, off, slots, decodes) {
      forall i {:trigger Events(ts, b, off)[i]} | 0 <= i < Least(|Events(ts, b, off)|, |slots|)
        ensures SpanAt(b, off, Events(ts, b, off)[i].path) == Some(Events(ts, b, off)[i].span)
      {
        RightSlotHit(ts, keys, b, off, slots, decodes, i);
      }
    }
  }

  // Distinct tags suffice.
  lemma DistinctFirstHits(ts: seq<Branch>, b: seq<Byte>, off: nat, limit: nat)
    requires Distinct(ts, b)
    ensures FirstHits(ts, b, off, limit)
  {
    hide Events, SpanAt, Distinct;
    forall i {:trigger Events(ts, b, off)[i]} | 0 <= i < Least(|Events(ts, b, off)|, limit)
      ensures SpanAt(b, off, Events(ts, b, off)[i].path) == Some(Events(ts, b, off)[i].span)
    {
      EventSound(ts, b, off, i);
    }
  }

  // ---- overwriting a slot's value ----

  // First hits stay first ones.
  lemma PatchedFirstHits(ts: seq<Branch>, keys: seq<seq<Tag>>, b: seq<Byte>, off: nat, h: nat, value: seq<Byte>, limit: nat)
    requires SlotsOk(ts, keys) && KeysApart(keys) && h < |keys| && FirstHits(ts, b, off, limit)
    requires SpanAt(b, off, keys[h]).Some? && |value| == |SpanAt(b, off, keys[h]).value.value|
    ensures var s := SpanAt(b, off, keys[h]).value;
            off <= s.off && s.off - off + |value| <= |b| && FirstHits(ts, Patched(b, s.off - off, value), off, limit)
  {
    hide FieldAt, Events, SpanAt, Clear, SamePath, Patched, Apart;
    var p, s := keys[h], SpanAt(b, off, keys[h]).value;
    ClearKeys(ts, keys, h);
    SlotKey(ts, keys, h);
    PatchedEvents(ts, b, off, p, value);
    var j := EventComplete(ts, b, off, p);
    var d := Patched(b, s.off - off, value);
    var es, es' := Events(ts, b, off), Events(ts, d, off);
    forall i {:trigger Events(ts, d, off)[i]} | 0 <= i < Least(|es'|, limit)
      ensures SpanAt(d, off, es'[i].path) == Some(es'[i].span)
    {
      HitKey(ts, keys, b, off, i);
      HitKey(ts, keys, d, off, i);
      assert SpanAt(b, off, es[i].path) == Some(es[i].span);
      var k := es[i].slot;
      PatchedSpan(b, off, p, value, keys[k]);
      if k != h {
        assert Apart(keys[h], keys[k]);
        HitKey(ts, keys, b, off, j);
        assert es[j].slot == h by {
          EventField(ts, b, off, j);
          SameTagSameField(ts, es[j].path, p);
        }
        if i < j { EventsAscend(ts, b, off, i, j); } else { EventsAscend(ts, b, off, j, i); }
      }
    }
  }

  // ---- whole frames ----

  // The slot lies where the span lies.
  predicate LiesAt(slot: Slot, span: Option<Span>) {
    if span.None? then slot.off.None? else slot.off == Some(span.value.off) && slot.len == |span.value.value|
  }

  ghost predicate AllHold(slots: seq<Slot>, keys: seq<seq<Tag>>, frame: seq<Byte>, decodes: Decoder)
    requires |slots| == |keys|
  {
    forall k {:trigger keys[k]} :: 0 <= k < |keys| ==> Holds(slots[k], FrameSpan(frame, keys[k]), k, decodes)
  }

  ghost predicate AllLie(slots: seq<Slot>, keys: seq<seq<Tag>>, frame: seq<Byte>)
    requires |slots| == |keys|
  {
    forall k {:trigger keys[k]} :: 0 <= k < |keys| ==> LiesAt(slots[k], FrameSpan(frame, keys[k]))
  }

  lemma HoldLies(slots: seq<Slot>, keys: seq<seq<Tag>>, frame: seq<Byte>, decodes: Decoder)
    requires |slots| == |keys| && AllHold(slots, keys, frame, decodes)
    ensures AllLie(slots, keys, frame)
  {
    hide FrameSpan;
    forall k {:trigger keys[k]} | 0 <= k < |keys| ensures LiesAt(slots[k], FrameSpan(frame, keys[k])) {
      assert Holds(slots[k], FrameSpan(frame, keys[k]), k, decodes);
    }
  }

  predicate FrameFirstHits(ts: seq<Branch>, frame: seq<Byte>, limit: nat) {
    HasTlv(frame) ==> FirstHits(ts, CutOf(frame).value, CutOf(frame).hdr, limit)
  }

  lemma FrameDistinctFirst(ts: seq<Branch>, frame: seq<Byte>, limit: nat)
    requires FrameDistinct(ts, frame)
    ensures FrameFirstHits(ts, frame, limit)
  {
    hide HasTlv, CutOf, FirstHits, Distinct;
    if HasTlv(frame) { DistinctFirstHits(ts, CutOf(frame).value, CutOf(frame).hdr, limit); }
  }

  // The same for a frame, whose outermost TLV holds the octets walked.
  lemma FrameRight(ts: seq<Branch>, keys: seq<seq<Tag>>, frame: seq<Byte>, slots: seq<Slot>, decodes: Decoder)
    requires SlotsOk(ts, keys) && KeysApart(keys) && |slots| == |keys| && AllCleared(slots)
    ensures var es := FrameEvents(ts, frame);
            AllHold(Record(slots, es[..Least(|es|, |slots|)], decodes), keys, frame, decodes) <==> FrameFirstHits(ts, frame, |slots|)
  {
    hide HasTlv, CutOf, Events, SlotsOk, SpanAt, Record, Holds, KeysApart, FirstHits;
    var es := FrameEvents(ts, frame);
    if HasTlv(frame) {
      WalkRight(ts, keys, CutOf(frame).value, CutOf(frame).hdr, slots, decodes);
    } else {
      assert es[..Least(|es|, |slots|)] == [];
      NothingRecorded(slots, decodes);
      forall k {:trigger keys[k]} | 0 <= k < |keys| ensures Holds(Record(slots, [], decodes)[k], None, k, decodes) {
        ClearedHolds(slots[k], k, decodes);
      }
    }
  }

  // What the slots mean after a whole frame's hits.
  lemma FrameRecorded(ts: seq<Branch>, keys: seq<seq<Tag>>, frame: seq<Byte>, slots: seq<Slot>, decodes: Decoder)
    requires SlotsOk(ts, keys) && |slots| == |keys| && AllCleared(slots)
    ensures var es := FrameEvents(ts, frame);
            var now := Record(slots, es[..Least(|es|, |slots|)], decodes);
            && Inside(now, |frame|)
            && (KeysApart(keys) ==> (AllHold(now, keys, frame, decodes) <==> FrameFirstHits(ts, frame, |slots|)))
            && (KeysApart(keys) && FrameFirstHits(ts, frame, |slots|) ==> AllLie(now, keys, frame))
            && (FrameDistinct(ts, frame) ==> FrameFirstHits(ts, frame, |slots|))
  {
    hide FrameEvents, SlotsOk, Record, KeysApart, AllHold, AllLie, FrameFirstHits, FrameDistinct;
    var es := FrameEvents(ts, frame);
    var hits := es[..Least(|es|, |slots|)];
    FrameInside(ts, frame);
    RecordInside(slots, hits, decodes, |frame|);
    if KeysApart(keys) {
      FrameRight(ts, keys, frame, slots, decodes);
      if FrameFirstHits(ts, frame, |slots|) { HoldLies(Record(slots, hits, decodes), keys, frame, decodes); }
    }
    if FrameDistinct(ts, frame) { FrameDistinctFirst(ts, frame, |slots|); }
  }

  lemma NothingRecorded(slots: seq<Slot>, decodes: Decoder)
    ensures Record(slots, [], decodes) == slots
  {
  }

  lemma FrameInside(ts: seq<Branch>, frame: seq<Byte>)
    ensures forall i :: 0 <= i < |FrameEvents(ts, frame)| ==>
              FrameEvents(ts, frame)[i].span.off + |FrameEvents(ts, frame)[i].span.value| <= |frame|
  {
    hide HasTlv, CutOf, Events;
    var es := FrameEvents(ts, frame);
    forall i | 0 <= i < |es| ensures es[i].span.off + |es[i].span.value| <= |frame| {
      EventsInside(ts, CutOf(frame).value, CutOf(frame).hdr, i);
    }
  }

  predicate Inside(slots: seq<Slot>, n: nat) {
    forall k {:trigger slots[k]} :: 0 <= k < |slots| && slots[k].off.Some? ==> slots[k].off.value + slots[k].len <= n
  }

  lemma {:induction false} RecordInside(slots: seq<Slot>, es: seq<Event>, decodes: Decoder, n: nat)
    requires Inside(slots, n) && forall i :: 0 <= i < |es| ==> es[i].span.off + |es[i].span.value| <= n
    ensures Inside(Record(slots, es, decodes), n)
    decreases |es|
  {
    if es != [] {
      assert es[|es| - 1].span.off + |es[|es| - 1].span.value| <= n;
      RecordInside(slots, es[..|es| - 1], decodes, n);
    }
  }

  lemma FramePatched(frame: seq<Byte>, p: seq<Tag>, value: seq<Byte>, q: seq<Tag>)
    requires FrameSpan(frame, p).Some? && |value| == |FrameSpan(frame, p).value.value|
    ensures var s := FrameSpan(frame, p).value;
            && s.off + |value| <= |frame|
            && FrameSpan(Patched(frame, s.off, value), p) == Some(Span(s.off, value))
            && (Apart(p, q) ==> FrameSpan(Patched(frame, s.off, value), q) == FrameSpan(frame, q))
  {
    hide HasTlv, CutOf, SpanAt, Patched;
    var c, s := CutOf(frame), FrameSpan(frame, p).value;
    PatchedSpan(c.value, c.hdr, p, value, q);
    PatchInValue(frame, s.off, value);
  }

  lemma FramePatchedFirst(ts: seq<Branch>, keys: seq<seq<Tag>>, frame: seq<Byte>, h: nat, value: seq<Byte>, limit: nat)
    requires SlotsOk(ts, keys) && KeysApart(keys) && h < |keys| && FrameFirstHits(ts, frame, limit)
    requires FrameSpan(frame, keys[h]).Some? && |value| == |FrameSpan(frame, keys[h]).value.value|
    ensures var s := FrameSpan(frame, keys[h]).value;
            s.off + |value| <= |frame| && FrameFirstHits(ts, Patched(frame, s.off, value), limit)
  {
    hide HasTlv, CutOf, SpanAt, Patched, FirstHits, SlotsOk, KeysApart;
    var c, s := CutOf(frame), FrameSpan(frame, keys[h]).value;
    PatchedSpan(c.value, c.hdr, keys[h], value, keys[h]);
    PatchedFirstHits(ts, keys, c.value, c.hdr, h, value, limit);
    PatchInValue(frame, s.off, value);
  }

  lemma FrameSpanInside(frame: seq<Byte>, p: seq<Tag>)
    requires FrameSpan(frame, p).Some?
    ensures var s := FrameSpan(frame, p).value; s.off + |s.value| <= |frame| && frame[s.off..s.off + |s.value|] == s.value
  {
    hide HasTlv, CutOf, SpanAt;
    var c, s := CutOf(frame), FrameSpan(frame, p).value;
    CutForm(frame);
    SpanInside(c.value, c.hdr, p);
    Slice3(frame, c.hdr, |c.value|, s.off - c.hdr, |s.value|);
  }

  // ---- values that are lost ----

  // A repeated tag uses up a hit: the limit then ends the walk before another
  // slot's value, although it is there.
  lemma RepeatedTagLosesField(a: Tag, b: Tag, x: seq<Byte>, y: seq<Byte>, off: nat, slots: seq<Slot>, decodes: Decoder)
    requires TagWf(a) && TagWf(b) && a.number != NO_TAG && b.number != NO_TAG && !Matches(a, b)
    requires |x| < U64 && |y| < U64 && |slots| == 2
    ensures var ts := [Branch(0, a, 0, []), Branch(1, b, 1, [])];
            var v := TlvOctets(a, x) + (TlvOctets(a, x) + TlvOctets(b, y));
            var es := Events(ts, v, off);
            SpanAt(v, off, [b]).Some? && Record(slots, es[..Least(|es|, |slots|)], decodes)[1] == slots[1]
  {
    hide ReadTlv, TlvOctets, Record, SpanAt;
    var ts := [Branch(0, a, 0, []), Branch(1, b, 1, [])];
    var last := TlvOctets(b, y);
    var mid := TlvOctets(a, x) + last;
    var v := TlvOctets(a, x) + mid;
    assert last + [] == last;
    TlvReadBack(b, y, []);
    TlvReadBack(a, x, last);
    TlvReadBack(a, x, mid);
    assert FindBranch(ts, a) == 0;
    assert CutOf(v).rest == mid && CutOf(mid).rest == last;
    var c, d := CutOf(v), CutOf(mid);
    var next := off + c.hdr + |c.value|;
    SpanStep(v, off, [b]);
    SpanStep(mid, next, [b]);
    SpanStep(last, next + d.hdr + |d.value|, [b]);
    EventsCons(ts, v, off);
    EventsCons(ts, mid, next);
    var es, one, two := Events(ts, v, off), Here(ts, v, off), Here(ts, mid, next);
    hide Events, CutOf, HasTlv;
    assert |one| == 1 && |two| == 1 && one[0].slot == 0 && two[0].slot == 0;
    assert |es| >= 2 && es[0] == one[0] && es[1] == two[0];
    NotRecorded(slots, es[..2], decodes, 1);
  }

  // So does a registered path that leads through another one: the walk takes
  // the outer value and does not enter it.
  lemma OuterPathLosesField(a: Tag, b: Tag, y: seq<Byte>, off: nat, slots: seq<Slot>, decodes: Decoder)
    requires TagOkFor(a) && TagOkFor(b) && |TlvOctets(b, y)| < U64 && |slots| == 2
    ensures var ts := [Branch(0, a, 0, [Branch(1, b, 1, [])])];
            var v := TlvOctets(a, TlvOctets(b, y));
            && FieldAt(ts, [a]) == 0 && FieldAt(ts, [a, b]) == 1 && Distinct(ts, v)
            && SpanAt(v, off, [a, b]).Some? && Walked(ts, v, off, slots, decodes)[1] == slots[1]
  {
    hide ReadTlv, TlvOctets, Record, SpanAt, Distinct, Events;
    var kids := [Branch(1, b, 1, [])];
    var ts := [Branch(0, a, 0, kids)];
    var inner := TlvOctets(b, y);
    var v := TlvOctets(a, inner);
    assert |y| < |inner| by { InnerShorter(b, y); }
    assert v + [] == v && inner + [] == inner;
    TlvReadBack(a, inner, []);
    TlvReadBack(b, y, []);
    assert FindBranch(ts, a) == 0 && FindBranch(kids, b) == 0;
    assert [a, b][1..] == [b];
    FieldStep(ts, [a]);
    FieldStep(ts, [a, b]);
    FieldStep(kids, [b]);
    var c := CutOf(v);
    SpanStep(v, off, [a, b]);
    SpanStep(inner, off + c.hdr, [b]);
    OneTlvDistinct(ts, v);
    EventsCons(ts, v, off);
    HereForms(ts, v, off);
    NoEvents(ts, [], off + c.hdr + |c.value|);
    assert Events(ts, v, off) == [Event([a], 0, Span(off + c.hdr, c.value))];
    NotRecorded(slots, Events(ts, v, off)[..1], decodes, 1);
  }

  predicate TagOkFor(t: Tag) {
    TagWf(t) && t.number != NO_TAG
  }

  lemma InnerShorter(t: Tag, value: seq<Byte>)
    requires TagWf(t)
    ensures |value| < |TlvOctets(t, value)|
  {
  }

  lemma NoEvents(ts: seq<Branch>, b: seq<Byte>, off: nat)
    requires !HasTlv(b)
    ensures Events(ts, b, off) == []
  {
  }

  lemma OneTlvDistinct(ts: seq<Branch>, b: seq<Byte>)
    requires HasTlv(b) && !HasTlv(CutOf(b).rest) && (FindBranch(ts, CutOf(b).tag) < |ts| ==> ts[FindBranch(ts, CutOf(b).tag)].field != NONE)
    ensures Distinct(ts, b)
  {
    hide HasTlv, CutOf, FindBranch;
  }
}
