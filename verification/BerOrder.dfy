/**
 * Orders of BER components: SET OF elements sorted by their octets, and SET
 * components brought into the order of the member table.
 */
module BerOrder {
  import opened Bits
  import opened Options
  import opened BerTlv
  import opened BerStream

  // ---- SET OF ----

  // The order of octet vectors: a proper prefix comes first.
  predicate LexLess(a: seq<Byte>, b: seq<Byte>) {
    b != [] && (a == [] || a[0] < b[0] || (a[0] == b[0] && LexLess(a[1..], b[1..])))
  }

  // The order of section 11.6 of X.690: the shorter one is extended with zeros.
  predicate PaddedLess(a: seq<Byte>, b: seq<Byte>)
    decreases |a| + |b|
  {
    if a == [] && b == [] then false
    else
      var x, y := if a == [] then 0 else a[0], if b == [] then 0 else b[0];
      x < y || (x == y && PaddedLess(if a == [] then [] else a[1..], if b == [] then [] else b[1..]))
  }

  // The two orders agree on octet strings of which neither is a proper prefix.
  lemma {:induction false} LexIsPadded(a: seq<Byte>, b: seq<Byte>)
    requires a <= b || b <= a ==> a == b
    ensures LexLess(a, b) <==> PaddedLess(a, b)
  {
    if a == [] || b == [] {
      assert a == [] && b == [];
    } else if a[0] == b[0] {
      if a[1..] <= b[1..] { assert a == [a[0]] + a[1..] && b == [a[0]] + b[1..]; }
      if b[1..] <= a[1..] { assert a == [a[0]] + a[1..] && b == [a[0]] + b[1..]; }
      LexIsPadded(a[1..], b[1..]);
    }
  }

  lemma TlvOrder(a: seq<Byte>, b: seq<Byte>)
    requires IsTlv(a) && IsTlv(b)
    ensures LexLess(a, b) <==> PaddedLess(a, b)
  {
    hide IsTlv;
    if a <= b { TlvPrefixFree(a, b); }
    if b <= a { TlvPrefixFree(b, a); }
    LexIsPadded(a, b);
  }

  lemma {:induction false} LexTotal(a: seq<Byte>, b: seq<Byte>)
    ensures LexLess(a, b) || LexLess(b, a) || a == b
    ensures !(LexLess(a, b) && LexLess(b, a)) && !LexLess(a, a)
  {
    if a != [] {
      LexTotal(a[1..], if b == [] then a[1..] else b[1..]);
      if b != [] && a[0] == b[0] && a[1..] == b[1..] { assert a == [a[0]] + a[1..] && b == [b[0]] + b[1..]; }
    }
  }

  lemma {:induction false} LexTransitive(a: seq<Byte>, b: seq<Byte>, c: seq<Byte>)
    requires !LexLess(b, a) && !LexLess(c, b)
    ensures !LexLess(c, a)
  {
    LexTotal(a, b);
    LexTotal(b, c);
    LexTotal(a, c);
    if a != [] && b != [] && c != [] && a[0] == b[0] == c[0] { LexTransitive(a[1..], b[1..], c[1..]); }
  }

  predicate LexSorted(s: seq<seq<Byte>>) {
    forall i, j :: 0 <= i < j < |s| ==> !LexLess(s[j], s[i])
  }

  function Insert(s: seq<seq<Byte>>, x: seq<Byte>): (r: seq<seq<Byte>>)
    ensures |r| == |s| + 1
  {
    if s == [] then [x]
    else if LexLess(x, s[|s| - 1]) then Insert(s[..|s| - 1], x) + [s[|s| - 1]]
    else s + [x]
  }

  function Sort(s: seq<seq<Byte>>): (r: seq<seq<Byte>>)
    ensures |r| == |s|
  {
    if s == [] then [] else Insert(Sort(s[..|s| - 1]), s[|s| - 1])
  }

  // A greatest element goes last.
  lemma LastSorted(r: seq<seq<Byte>>, last: seq<Byte>)
    requires LexSorted(r) && forall k :: 0 <= k < |r| ==> !LexLess(last, r[k])
    ensures LexSorted(r + [last])
  {
    hide LexLess;
  }

  lemma SnocMultiset(r: seq<seq<Byte>>, last: seq<Byte>)
    ensures multiset(r + [last]) == multiset(r) + multiset{last}
  {
  }

  // The last element stays greatest when a smaller one joins the others.
  lemma NotBeforeLast(s: seq<seq<Byte>>, x: seq<Byte>, r: seq<seq<Byte>>, k: nat)
    requires s != [] && LexSorted(s) && LexLess(x, s[|s| - 1]) && k < |r|
    requires multiset(r) == multiset(s[..|s| - 1]) + multiset{x}
    ensures !LexLess(s[|s| - 1], r[k])
  {
    hide LexLess;
    assert r[k] in multiset(r);
    LexTotal(x, s[|s| - 1]);
    if r[k] != x {
      assert r[k] in multiset(s[..|s| - 1]);
      var i :| 0 <= i < |s| - 1 && s[..|s| - 1][i] == r[k];
      assert s[i] == r[k];
    }
  }

  lemma {:induction false} InsertCorrect(s: seq<seq<Byte>>, x: seq<Byte>)
    requires LexSorted(s)
    ensures LexSorted(Insert(s, x)) && multiset(Insert(s, x)) == multiset(s) + multiset{x}
  {
    InsertLast(s, x);
    SnocMultiset(s, x);
    hide LexLess, Insert;
    if s == [] {
      LastSorted(s, x);
    } else {
      var front, last := s[..|s| - 1], s[|s| - 1];
      assert s == front + [last];
      if LexLess(x, last) {
        InsertCorrect(front, x);
        InsertBefore(s, x, []);
        var r := Insert(front, x);
        forall k | 0 <= k < |r| ensures !LexLess(last, r[k]) { NotBeforeLast(s, x, r, k); }
        LastSorted(r, last);
        SnocMultiset(r, last);
        SnocMultiset(front, last);
        assert Insert(s, x) + [] == Insert(s, x) && r + ([last] + []) == r + [last];
      } else {
        forall k | 0 <= k < |s| ensures !LexLess(x, s[k]) {
          if k < |s| - 1 { LexTransitive(s[k], last, x); }
        }
        LastSorted(s, x);
      }
    }
  }

  // A sorted rearrangement.
  lemma {:induction false} SortCorrect(s: seq<seq<Byte>>)
    ensures LexSorted(Sort(s)) && multiset(Sort(s)) == multiset(s)
  {
    if s != [] {
      SortCorrect(s[..|s| - 1]);
      InsertCorrect(Sort(s[..|s| - 1]), s[|s| - 1]);
      assert s == s[..|s| - 1] + [s[|s| - 1]];
    }
  }

  lemma {:induction false} SortedUnique(a: seq<seq<Byte>>, b: seq<seq<Byte>>)
    requires LexSorted(a) && LexSorted(b) && multiset(a) == multiset(b)
    ensures a == b
    decreases |a|
  {
    hide LexLess;
    assert |a| == |multiset(a)| == |b|;
    if a != [] {
      assert a[0] in multiset(b) && b[0] in multiset(a);
      var i :| 0 <= i < |a| && a[i] == b[0];
      var j :| 0 <= j < |b| && b[j] == a[0];
      LexTotal(a[0], b[0]);
      SameTails(a, b);
      SortedUnique(a[1..], b[1..]);
      assert a == [a[0]] + a[1..] && b == [b[0]] + b[1..];
    }
  }

  lemma SameTails<T>(a: seq<T>, b: seq<T>)
    requires a != [] && b != [] && a[0] == b[0] && multiset(a) == multiset(b)
    ensures multiset(a[1..]) == multiset(b[1..])
  {
    assert a == [a[0]] + a[1..] && b == [b[0]] + b[1..];
    assert multiset(a[1..]) == multiset(a) - multiset{a[0]};
  }

  // Sorting element TLVs by their octets gives the order of section 11.6 of
  // X.690, a rearrangement of the elements, and the same for every order of them.
  lemma SetOfOrder(s: seq<seq<Byte>>, s': seq<seq<Byte>>)
    requires forall i :: 0 <= i < |s| ==> IsTlv(s[i])
    requires multiset(s) == multiset(s')
    ensures Sort(s) == Sort(s') && multiset(Sort(s)) == multiset(s)
    ensures forall i, j :: 0 <= i < j < |s| ==> !PaddedLess(Sort(s)[j], Sort(s)[i])
  {
    SortCorrect(s);
    SortCorrect(s');
    SortedUnique(Sort(s), Sort(s'));
    assert |Sort(s)| == |multiset(Sort(s))| == |s|;
    forall i, j | 0 <= i < j < |s| ensures !PaddedLess(Sort(s)[j], Sort(s)[i]) {
      assert Sort(s)[i] in multiset(s) && Sort(s)[j] in multiset(s);
      assert Sort(s)[i] in s && Sort(s)[j] in s;
      TlvOrder(Sort(s)[j], Sort(s)[i]);
    }
  }

  // Puts `x` into its place among the first `n`, which are sorted.
  // The sorted elements before `j`, a free place there, those moved up, and
  // the others behind.
  ghost predicate Shifting(a: seq<seq<Byte>>, sorted: seq<seq<Byte>>, back: seq<seq<Byte>>, tail: seq<seq<Byte>>, j: nat, n: nat) {
    && j <= n < |a| && |sorted| == n && |back| == n - j
    && a[..j] == sorted[..j] && a[j + 1..n + 1] == back && a[n + 1..] == tail
  }

  lemma ShiftOne(a: seq<seq<Byte>>, sorted: seq<seq<Byte>>, back: seq<seq<Byte>>, tail: seq<seq<Byte>>, j: nat, n: nat)
    requires Shifting(a, sorted, back, tail, j, n) && j > 0
    ensures Shifting(a[j := a[j - 1]], sorted, [a[j - 1]] + back, tail, j - 1, n)
    ensures a[j - 1] == sorted[..j][|sorted[..j]| - 1] && sorted[..j][..j - 1] == sorted[..j - 1]
  {
    var a' := a[j := a[j - 1]];
    assert a'[j..n + 1] == [a[j - 1]] + a[j + 1..n + 1];
    assert a[j - 1] == a[..j][j - 1];
    assert a'[..j - 1] == a[..j][..j - 1] && a'[n + 1..] == a[n + 1..];
  }

  lemma ShiftEnd(a: seq<seq<Byte>>, sorted: seq<seq<Byte>>, back: seq<seq<Byte>>, tail: seq<seq<Byte>>, j: nat, n: nat, x: seq<Byte>)
    requires Shifting(a, sorted, back, tail, j, n)
    ensures a[j := x][..n + 1] == sorted[..j] + [x] + back && a[j := x][n + 1..] == tail
  {
  }

  method InsertInPlace(bufs: array<seq<Byte>>, n: nat, x: seq<Byte>)
    requires n < bufs.Length
    modifies bufs
    ensures bufs[..n + 1] == Insert(old(bufs[..n]), x) && bufs[n + 1..] == old(bufs[n + 1..])
  {
    hide Insert, LexLess;
    ghost var sorted, tail := bufs[..n], bufs[n + 1..];
    ghost var back: seq<seq<Byte>> := [];
    var j := n;
    assert sorted[..n] == sorted && Insert(sorted, x) + [] == Insert(sorted, x);
    assert Shifting(bufs[..], sorted, back, tail, j, n);
    hide Shifting;
    while j > 0 && LexLess(x, bufs[j - 1])
      invariant 0 <= j <= n && Shifting(bufs[..], sorted, back, tail, j, n)
      invariant Insert(sorted, x) == Insert(sorted[..j], x) + back
    {
      ghost var a := bufs[..];
      ShiftOne(a, sorted, back, tail, j, n);
      InsertBefore(sorted[..j], x, back);
      back := [bufs[j - 1]] + back;
      bufs[j] := bufs[j - 1];
      assert bufs[..] == a[j := a[j - 1]];
      j := j - 1;
    }
    ghost var a := bufs[..];
    ShiftEnd(a, sorted, back, tail, j, n, x);
    if j > 0 { ShiftOne(a, sorted, back, tail, j, n); }
    InsertLast(sorted[..j], x);
    bufs[j] := x;
    assert bufs[..] == a[j := x];
    assert bufs[..n + 1] == a[j := x][..n + 1] && bufs[n + 1..] == a[j := x][n + 1..];
  }

  // Sorts element encodings in place.
  method SortElements(bufs: array<seq<Byte>>)
    modifies bufs
    ensures bufs[..] == Sort(old(bufs[..]))
  {
    hide Insert, Sort, LexLess;
    ghost var was := bufs[..];
    assert bufs[..0] == [];
    SortNone();
    for n := 0 to bufs.Length
      invariant bufs[..n] == Sort(was[..n]) && bufs[n..] == was[n..]
    {
      ghost var tail := bufs[n + 1..];
      assert tail == was[n + 1..];
      SortSnoc(was[..n], bufs[n]);
      InsertInPlace(bufs, n, bufs[n]);
      assert was[..n + 1] == was[..n] + [was[n]];
    }
    assert bufs[..bufs.Length] == bufs[..] && was[..bufs.Length] == was;
  }

  lemma SortNone()
    ensures Sort([]) == []
  {
  }

  lemma SortSnoc(s: seq<seq<Byte>>, x: seq<Byte>)
    ensures Sort(s + [x]) == Insert(Sort(s), x)
  {
    assert (s + [x])[..|s|] == s;
  }

  lemma InsertLast(s: seq<seq<Byte>>, x: seq<Byte>)
    ensures s == [] || !LexLess(x, s[|s| - 1]) ==> Insert(s, x) == s + [x]
  {
  }

  lemma InsertBefore(s: seq<seq<Byte>>, x: seq<Byte>, back: seq<seq<Byte>>)
    requires s != [] && LexLess(x, s[|s| - 1])
    ensures Insert(s, x) + back == Insert(s[..|s| - 1], x) + ([s[|s| - 1]] + back)
  {
  }

  // ---- SET ----

  function Flat(parts: seq<seq<Byte>>): seq<Byte> {
    if parts == [] then [] else parts[0] + Flat(parts[1..])
  }

  // A member is known by the tags its encodings may start with.
  type MemberTags = seq<Tag>

  predicate Belongs(raw: seq<Byte>, m: MemberTags) {
    exists k :: 0 <= k < |m| && Matches(PeekTag(raw), m[k])
  }

  // The first free slot of a member the TLV belongs to.
  function SlotFor(ms: seq<MemberTags>, slots: seq<seq<Byte>>, raw: seq<Byte>): (i: nat)
    requires |slots| == |ms|
    ensures i <= |ms|
    ensures i < |ms| ==> slots[i] == [] && Belongs(raw, ms[i])
  {
    if ms == [] then 0
    else if slots[0] == [] && Belongs(raw, ms[0]) then 0
    else 1 + SlotFor(ms[1..], slots[1..], raw)
  }

  datatype Placed = Placed(slots: seq<seq<Byte>>, unmatched: seq<seq<Byte>>)

  function Place(ms: seq<MemberTags>, p: Placed, raw: seq<Byte>): (r: Placed)
    requires |p.slots| == |ms|
    ensures |r.slots| == |ms|
  {
    var i := SlotFor(ms, p.slots, raw);
    if i < |ms| then Placed(p.slots[i := raw], p.unmatched) else Placed(p.slots, p.unmatched + [raw])
  }

  function EmptySlots(n: nat): (s: seq<seq<Byte>>)
    ensures |s| == n && forall i :: 0 <= i < n ==> s[i] == []
  {
    seq(n, _ => [])
  }

  function PlaceAll(ms: seq<MemberTags>, raws: seq<seq<Byte>>): (p: Placed)
    ensures |p.slots| == |ms|
  {
    if raws == [] then Placed(EmptySlots(|ms|), []) else Place(ms, PlaceAll(ms, raws[..|raws| - 1]), raws[|raws| - 1])
  }

  // Known components in table order, then the others as they came.
  function TableOrder(ms: seq<MemberTags>, raws: seq<seq<Byte>>): seq<Byte> {
    var p := PlaceAll(ms, raws);
    Flat(p.slots) + Flat(p.unmatched)
  }

  // The component TLVs of a SET's contents.
  function Split(b: seq<Byte>): Option<seq<seq<Byte>>>
    decreases |b|
  {
    if b == [] then Some([])
    else
      var r := ReadTlv(b);
      if r.Failed? then None
      else
        var more := Split(r.rest);
        if more.None? then None else Some([b[..|b| - |r.rest|]] + more.value)
  }

  // Each component is non-empty, belongs to at most one member, and no member
  // has two.
  predicate Distinct(ms: seq<MemberTags>, raws: seq<seq<Byte>>) {
    && (forall k :: 0 <= k < |raws| ==> raws[k] != [])
    && (forall k, i, j :: 0 <= k < |raws| && 0 <= i < j < |ms| ==> !(Belongs(raws[k], ms[i]) && Belongs(raws[k], ms[j])))
    && (forall i, k, l :: 0 <= i < |ms| && 0 <= k < l < |raws| ==> !(Belongs(raws[k], ms[i]) && Belongs(raws[l], ms[i])))
  }

  predicate BelongsNowhere(ms: seq<MemberTags>, raw: seq<Byte>) {
    forall i :: 0 <= i < |ms| ==> !Belongs(raw, ms[i])
  }

  lemma {:induction false} SlotForExact(ms: seq<MemberTags>, slots: seq<seq<Byte>>, raw: seq<Byte>, i: nat)
    requires |slots| == |ms| && i < |ms| && slots[i] == [] && Belongs(raw, ms[i])
    requires forall j :: 0 <= j < |ms| && j != i ==> !Belongs(raw, ms[j])
    ensures SlotFor(ms, slots, raw) == i
    decreases i
  {
    if i > 0 {
      forall j | 0 <= j < |ms[1..]| && j != i - 1 ensures !Belongs(raw, ms[1..][j]) {
        assert ms[1..][j] == ms[j + 1];
      }
      SlotForExact(ms[1..], slots[1..], raw, i - 1);
    }
  }

  // What the slots hold: slot `i` its member's only component, or nothing.
  ghost predicate Holds(ms: seq<MemberTags>, raws: seq<seq<Byte>>, p: Placed) {
    && |p.slots| == |ms|
    && (forall i :: 0 <= i < |ms| ==>
          (p.slots[i] == [] && forall x :: x in raws ==> !Belongs(x, ms[i]))
          || (p.slots[i] != [] && p.slots[i] in raws && Belongs(p.slots[i], ms[i])))
    && (forall k :: 0 <= k < |p.unmatched| ==> p.unmatched[k] in raws && BelongsNowhere(ms, p.unmatched[k]))
  }

  lemma DistinctFront(ms: seq<MemberTags>, raws: seq<seq<Byte>>)
    requires Distinct(ms, raws) && raws != []
    ensures Distinct(ms, raws[..|raws| - 1])
  {
  }

  lemma PlaceHolds(ms: seq<MemberTags>, raws: seq<seq<Byte>>)
    requires Distinct(ms, raws) && raws != []
    requires Holds(ms, raws[..|raws| - 1], PlaceAll(ms, raws[..|raws| - 1]))
    ensures Holds(ms, raws, PlaceAll(ms, raws))
  {
    hide Belongs, PlaceAll, SlotFor;
    var front, raw := raws[..|raws| - 1], raws[|raws| - 1];
    var p := PlaceAll(ms, front);
    PlaceAllStep(ms, raws);
    assert raws == front + [raw];
    if i :| 0 <= i < |ms| && Belongs(raw, ms[i]) {
      SlotForExact(ms, p.slots, raw, i);
    } else {
      SlotForNowhere(ms, p.slots, raw);
    }
  }

  lemma PlaceAllStep(ms: seq<MemberTags>, raws: seq<seq<Byte>>)
    requires raws != []
    ensures PlaceAll(ms, raws) == Place(ms, PlaceAll(ms, raws[..|raws| - 1]), raws[|raws| - 1])
  {
  }

  lemma SlotForNowhere(ms: seq<MemberTags>, slots: seq<seq<Byte>>, raw: seq<Byte>)
    requires |slots| == |ms| && BelongsNowhere(ms, raw)
    ensures SlotFor(ms, slots, raw) == |ms|
  {
  }

  lemma {:induction false} PlaceAllHolds(ms: seq<MemberTags>, raws: seq<seq<Byte>>)
    requires Distinct(ms, raws)
    ensures Holds(ms, raws, PlaceAll(ms, raws))
  {
    if raws != [] {
      DistinctFront(ms, raws);
      PlaceAllHolds(ms, raws[..|raws| - 1]);
      PlaceHolds(ms, raws);
    }
  }

  // Components that belong nowhere stay in the order they came in.
  lemma {:induction false} UnknownInOrder(ms: seq<MemberTags>, raws: seq<seq<Byte>>)
    requires forall k :: 0 <= k < |raws| ==> BelongsNowhere(ms, raws[k])
    ensures PlaceAll(ms, raws) == Placed(EmptySlots(|ms|), raws)
  {
    hide BelongsNowhere, SlotFor;
    if raws != [] {
      var front, raw := raws[..|raws| - 1], raws[|raws| - 1];
      UnknownInOrder(ms, front);
      SlotForNowhere(ms, EmptySlots(|ms|), raw);
      assert raws == front + [raw];
    }
  }

  // Rearranging the components leaves every slot as it is.
  lemma SlotsIndependentOfOrder(ms: seq<MemberTags>, raws: seq<seq<Byte>>, raws': seq<seq<Byte>>)
    requires Distinct(ms, raws) && Distinct(ms, raws') && multiset(raws) == multiset(raws')
    ensures PlaceAll(ms, raws).slots == PlaceAll(ms, raws').slots
  {
    hide Belongs, PlaceAll;
    PlaceAllHolds(ms, raws);
    PlaceAllHolds(ms, raws');
    var p, p' := PlaceAll(ms, raws), PlaceAll(ms, raws');
    forall i | 0 <= i < |ms| ensures p.slots[i] == p'.slots[i] {
      SameSlot(ms, raws, raws', p, p', i);
    }
  }

  lemma OnlyComponent(ms: seq<MemberTags>, raws: seq<seq<Byte>>, x: seq<Byte>, y: seq<Byte>, i: nat)
    requires Distinct(ms, raws) && i < |ms| && x in raws && y in raws && Belongs(x, ms[i]) && Belongs(y, ms[i])
    ensures x == y
  {
    hide Belongs;
    var k :| 0 <= k < |raws| && raws[k] == x;
    var l :| 0 <= l < |raws| && raws[l] == y;
    if k != l {
      assert Belongs(raws[k], ms[i]) && Belongs(raws[l], ms[i]);
    }
  }

  lemma SameSlot(ms: seq<MemberTags>, raws: seq<seq<Byte>>, raws': seq<seq<Byte>>, p: Placed, p': Placed, i: nat)
    requires Distinct(ms, raws) && multiset(raws) == multiset(raws')
    requires Holds(ms, raws, p) && Holds(ms, raws', p') && i < |ms|
    ensures p.slots[i] == p'.slots[i]
  {
    hide Belongs, Distinct;
    SameMembers(raws, raws');
    if p.slots[i] != [] && p'.slots[i] != [] { OnlyComponent(ms, raws, p.slots[i], p'.slots[i], i); }
  }

  lemma SameMembers(raws: seq<seq<Byte>>, raws': seq<seq<Byte>>)
    requires multiset(raws) == multiset(raws')
    ensures forall x :: x in raws <==> x in raws'
  {
    forall x ensures x in raws <==> x in raws' {
      assert x in raws <==> x in multiset(raws);
      assert x in raws' <==> x in multiset(raws');
    }
  }

  // The components in the slots.
  function Filled(slots: seq<seq<Byte>>): seq<seq<Byte>> {
    if slots == [] then [] else (if slots[0] == [] then [] else [slots[0]]) + Filled(slots[1..])
  }

  lemma {:induction false} FilledFlat(slots: seq<seq<Byte>>)
    ensures Flat(Filled(slots)) == Flat(slots)
  {
    if slots != [] {
      FilledFlat(slots[1..]);
      assert [] + Flat(slots[1..]) == Flat(slots[1..]);
      if slots[0] != [] { assert Filled(slots)[1..] == Filled(slots[1..]); }
      else { assert Filled(slots) == [] + Filled(slots[1..]) == Filled(slots[1..]); }
    }
  }

  lemma FilledStep(slots: seq<seq<Byte>>)
    requires slots != []
    ensures multiset(Filled(slots)) == multiset(Filled(slots[1..])) + (if slots[0] == [] then multiset{} else multiset{slots[0]})
  {
  }

  lemma {:induction false} FilledSet(slots: seq<seq<Byte>>, i: nat, raw: seq<Byte>)
    requires i < |slots| && slots[i] == [] && raw != []
    ensures multiset(Filled(slots[i := raw])) == multiset(Filled(slots)) + multiset{raw}
    decreases i
  {
    hide Filled;
    var now := slots[i := raw];
    FilledStep(slots);
    FilledStep(now);
    var rest, rest' := multiset(Filled(slots[1..])), multiset(Filled(now[1..]));
    if i > 0 {
      FilledSet(slots[1..], i - 1, raw);
      assert now[1..] == slots[1..][i - 1 := raw];
      assert rest' == rest + multiset{raw};
    } else {
      assert now[1..] == slots[1..];
    }
  }

  // Nothing is lost and nothing is added, whatever the components.
  lemma {:induction false} ComponentsConserved(ms: seq<MemberTags>, raws: seq<seq<Byte>>)
    requires forall k :: 0 <= k < |raws| ==> raws[k] != []
    ensures var p := PlaceAll(ms, raws); multiset(Filled(p.slots) + p.unmatched) == multiset(raws)
  {
    if raws == [] {
      NothingFilled(|ms|);
    } else {
      hide Filled, SlotFor, Belongs, PlaceAll, Place;
      var front, raw := raws[..|raws| - 1], raws[|raws| - 1];
      ComponentsConserved(ms, front);
      assert raws == front + [raw];
      var p := PlaceAll(ms, front);
      PlaceIs(ms, p, raw);
      PlaceAllStep(ms, raws);
      var i := SlotFor(ms, p.slots, raw);
      if i < |ms| { FilledSet(p.slots, i, raw); }
      OneMore(Filled(p.slots), p.unmatched, raw, front, Filled(PlaceAll(ms, raws).slots), PlaceAll(ms, raws).unmatched);
    }
  }

  lemma OneMore<T>(filled: seq<T>, unmatched: seq<T>, raw: T, front: seq<T>, filled': seq<T>, unmatched': seq<T>)
    requires multiset(filled + unmatched) == multiset(front)
    requires (multiset(filled') == multiset(filled) + multiset{raw} && unmatched' == unmatched)
          || (filled' == filled && unmatched' == unmatched + [raw])
    ensures multiset(filled' + unmatched') == multiset(front + [raw])
  {
  }

  lemma {:induction false} NothingFilled(n: nat)
    ensures Filled(EmptySlots(n)) == []
  {
    if n > 0 {
      assert EmptySlots(n)[1..] == EmptySlots(n - 1);
      NothingFilled(n - 1);
    }
  }

  method BelongsTo(t: Tag, m: MemberTags) returns (yes: bool)
    ensures yes <==> exists k :: 0 <= k < |m| && Matches(t, m[k])
  {
    for j := 0 to |m|
      invariant forall k :: 0 <= k < j ==> !Matches(t, m[k])
    {
      if Matches(t, m[j]) { return true; }
    }
    return false;
  }

  lemma SlotForSkips(ms: seq<MemberTags>, slots: seq<seq<Byte>>, raw: seq<Byte>, i: nat)
    requires |slots| == |ms| && i < |ms|
    ensures SlotFor(ms[i..], slots[i..], raw)
         == if slots[i] == [] && Belongs(raw, ms[i]) then 0 else 1 + SlotFor(ms[i + 1..], slots[i + 1..], raw)
  {
    assert ms[i..][1..] == ms[i + 1..] && slots[i..][1..] == slots[i + 1..];
  }

  method FindSlot(ms: seq<MemberTags>, slots: seq<seq<Byte>>, raw: seq<Byte>) returns (i: nat)
    requires |slots| == |ms|
    ensures i == SlotFor(ms, slots, raw)
  {
    hide SlotFor;
    i := 0;
    var t := PeekTag(raw);
    assert ms[0..] == ms && slots[0..] == slots;
    while i < |ms|
      invariant i <= |ms|
      invariant SlotFor(ms, slots, raw) == i + SlotFor(ms[i..], slots[i..], raw)
    {
      SlotForSkips(ms, slots, raw, i);
      if slots[i] == [] {
        var yes := BelongsTo(t, ms[i]);
        if yes { return; }
      }
      i := i + 1;
    }
  }

  // The octets of the next component.
  method NextComponent(scan: BerReader) returns (raw: Option<seq<Byte>>)
    requires scan.Valid() && scan.pos < |scan.data|
    modifies scan
    ensures scan.Valid()
    ensures raw.None? ==> Split(old(scan.Rest())).None?
    ensures raw.Some? ==> scan.pos > old(scan.pos) && Split(old(scan.Rest())) == Prepended([raw.value], Split(scan.Rest()))
  {
    hide ReadTlv, Split, Prepended;
    SplitStep(scan.Rest());
    var p0 := scan.pos;
    var tlv := TakeTlv(scan);
    if tlv.None? { return None; }
    CutOut(scan.data, p0, scan.pos);
    return Some(scan.data[p0..scan.pos]);
  }

  // Copies the components of a SET into table order.
  method SetInTableOrder(ms: seq<MemberTags>, content: seq<Byte>) returns (r: Option<seq<Byte>>)
    ensures r == (if Split(content).None? then None else Some(TableOrder(ms, Split(content).value)))
  {
    hide ReadTlv, Split, SlotFor, PlaceAll, Flat, Place, Prepended, TableOrder;
    var scan := new BerReader(content, 0);
    var slots := EmptySlots(|ms|);
    var unmatched: seq<seq<Byte>> := [];
    ghost var done: seq<seq<Byte>> := [];
    NothingPlaced(ms, slots);
    SplitEnd();
    PrependedNone(Split(content));
    while scan.pos < |content|
      invariant scan.Valid() && scan.data == content && fresh(scan) && |slots| == |ms|
      invariant PlaceAll(ms, done) == Placed(slots, unmatched)
      invariant Split(content) == Prepended(done, Split(scan.Rest()))
      decreases |content| - scan.pos
    {
      var raw := NextComponent(scan);
      if raw.None? {
        PrependedFails(done);
        return None;
      }
      var i := FindSlot(ms, slots, raw.value);
      PlaceNext(ms, done, raw.value);
      PrependedMore(done, raw.value, Split(scan.Rest()));
      done := done + [raw.value];
      PlaceIs(ms, Placed(slots, unmatched), raw.value);
      if i < |ms| { slots := slots[i := raw.value]; } else { unmatched := unmatched + [raw.value]; }
    }
    assert scan.Rest() == [];
    PrependedEnd(done);
    TableOrderIs(ms, done, slots, unmatched);
    r := Some(Flat(slots) + Flat(unmatched));
  }

  lemma CutOut(b: seq<Byte>, i: nat, j: nat)
    requires i <= j <= |b|
    ensures b[i..j] == b[i..][..j - i] && |b[i..]| - |b[j..]| == j - i
  {
  }

  lemma TableOrderIs(ms: seq<MemberTags>, raws: seq<seq<Byte>>, slots: seq<seq<Byte>>, unmatched: seq<seq<Byte>>)
    requires PlaceAll(ms, raws) == Placed(slots, unmatched)
    ensures TableOrder(ms, raws) == Flat(slots) + Flat(unmatched)
  {
  }

  lemma PrependedFails(done: seq<seq<Byte>>)
    ensures Prepended(done, None) == None
  {
  }

  lemma PrependedEnd(done: seq<seq<Byte>>)
    ensures Prepended(done, Some([])) == Some(done)
  {
    assert done + [] == done;
  }

  ghost function Prepended(done: seq<seq<Byte>>, more: Option<seq<seq<Byte>>>): Option<seq<seq<Byte>>> {
    if more.None? then None else Some(done + more.value)
  }

  lemma PrependedNone(more: Option<seq<seq<Byte>>>)
    ensures Prepended([], more) == more
  {
    if more.Some? { assert [] + more.value == more.value; }
  }

  lemma PrependedMore(done: seq<seq<Byte>>, raw: seq<Byte>, more: Option<seq<seq<Byte>>>)
    ensures Prepended(done, Prepended([raw], more)) == Prepended(done + [raw], more)
  {
    if more.Some? { assert done + ([raw] + more.value) == (done + [raw]) + more.value; }
  }

  lemma SplitStep(b: seq<Byte>)
    requires b != []
    ensures Split(b) == if ReadTlv(b).Failed? then None else Prepended([b[..|b| - |ReadTlv(b).rest|]], Split(ReadTlv(b).rest))
  {
  }

  lemma SplitEnd()
    ensures Split([]) == Some([])
  {
  }

  lemma NothingPlaced(ms: seq<MemberTags>, slots: seq<seq<Byte>>)
    requires |slots| == |ms| && forall i :: 0 <= i < |ms| ==> slots[i] == []
    ensures PlaceAll(ms, []) == Placed(slots, [])
  {
    assert slots == EmptySlots(|ms|);
  }

  lemma PlaceIs(ms: seq<MemberTags>, p: Placed, raw: seq<Byte>)
    requires |p.slots| == |ms|
    ensures var i := SlotFor(ms, p.slots, raw);
            Place(ms, p, raw) == if i < |ms| then Placed(p.slots[i := raw], p.unmatched) else Placed(p.slots, p.unmatched + [raw])
  {
  }

  lemma PlaceNext(ms: seq<MemberTags>, done: seq<seq<Byte>>, raw: seq<Byte>)
    ensures PlaceAll(ms, done + [raw]) == Place(ms, PlaceAll(ms, done), raw)
  {
    assert (done + [raw])[..|done|] == done;
  }
}
