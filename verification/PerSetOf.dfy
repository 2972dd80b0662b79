/**
 * PER encodings are prefix-free, so the SET OF order is total on them: every
 * arrangement of the same elements gives the same bits.
 */
module PerSetOf {
  import opened Bits
  import opened Options
  import opened PerTypes
  import opened PerEncode
  import opened PerDecode
  import opened PerItems
  import opened PerRoundTrip

  // ---- prefix-freeness ----

  lemma {:induction false} AgreeRefl(A: Schema)
    ensures Compatible(A, A)
  {
    forall t | 0 <= t < |A| ensures VersionsOf(A[t], A[t]) {
    }
  }

  // One version on both ends.
  lemma RoundTripSame(A: Schema, t: nat, v: Value, d: nat, s: Bits)
    requires SchemaWf(A) && Survives(A, A, t, v, d) && Enc(A, t, v).Some?
    ensures Dec(A, t, d, Enc(A, t, v).value + s) == Ok(Seen(A, A, t, v), s)
  {
    AgreeRefl(A);
    RoundTrip(A, A, t, v, d, s);
  }

  // No encoding of a type is a proper prefix of another one.
  lemma PrefixFree(A: Schema, t: nat, v: Value, w: Value, d: nat)
    requires SchemaWf(A) && Survives(A, A, t, v, d) && Survives(A, A, t, w, d)
    requires Enc(A, t, v).Some? && Enc(A, t, w).Some? && Enc(A, t, v).value <= Enc(A, t, w).value
    ensures Enc(A, t, v) == Enc(A, t, w) && Seen(A, A, t, v) == Seen(A, A, t, w)
  {
    var a, b := Enc(A, t, v).value, Enc(A, t, w).value;
    RoundTripSame(A, t, v, d, b[|a|..]);
    assert a + b[|a|..] == b;
    RoundTripSame(A, t, w, d, []);
    assert b + [] == b;
  }

  // ---- the padded order, as a comparison of numbers ----

  function Key(a: Bits, n: nat): nat
    requires |a| <= n
  {
    NatOf(a + Zeros(n - |a|))
  }

  lemma KeyHead(a: Bits, n: nat)
    requires |a| <= n && n > 0
    ensures var tail := if a == [] then [] else a[1..];
            |tail| <= n - 1 && Key(a, n) == (if a != [] && a[0] then Pow2(n - 1) else 0) + Key(tail, n - 1)
  {
    var tail := if a == [] then [] else a[1..];
    var x := a != [] && a[0];
    assert a + Zeros(n - |a|) == [x] + (tail + Zeros(n - 1 - |tail|));
    NatOfCons(x, tail + Zeros(n - 1 - |tail|));
  }

  lemma {:induction false} PaddedLessIsKeyOrder(a: Bits, b: Bits, n: nat)
    requires |a| <= n && |b| <= n
    ensures PaddedLess(a, b) <==> Key(a, n) < Key(b, n)
    decreases n
  {
    if a == [] && b == [] {
    } else {
      KeyHead(a, n);
      KeyHead(b, n);
      PaddedLessIsKeyOrder(if a == [] then [] else a[1..], if b == [] then [] else b[1..], n - 1);
    }
  }

  // Tied encodings differ only in trailing zeros.
  lemma TiesArePrefixes(a: Bits, b: Bits, n: nat)
    requires |a| <= |b| <= n && Key(a, n) == Key(b, n)
    ensures a <= b
  {
    var x, y := a + Zeros(n - |a|), b + Zeros(n - |b|);
    BitsOfNatOf(x);
    BitsOfNatOf(y);
    assert x == y;
    assert a == x[..|a|] && b == y[..|b|];
  }

  // ---- the stable order is a sorted permutation ----

  // In ascending padded order.
  predicate Ascending(encs: seq<Bits>) {
    forall i, j :: 0 <= i < j < |encs| ==> !PaddedLess(encs[j], encs[i])
  }

  ghost predicate Bounded(encs: seq<Bits>, n: nat) {
    forall i :: 0 <= i < |encs| ==> |encs[i]| <= n
  }

  ghost function Longest(encs: seq<Bits>): (n: nat)
    ensures Bounded(encs, n)
  {
    if encs == [] then 0
    else
      var m := Longest(encs[1..]);
      assert forall i :: 0 < i < |encs| ==> encs[i] == encs[1..][i - 1];
      if |encs[0]| > m then |encs[0]| else m
  }

  lemma SnocMultiset(front: seq<nat>, last: nat)
    ensures multiset(front + [last]) == multiset(front) + multiset{last}
  {
  }

  lemma {:induction false} InsertMultiset(encs: seq<Bits>, order: seq<nat>, i: nat)
    requires i < |encs| && forall k :: 0 <= k < |order| ==> order[k] < |encs|
    ensures multiset(InsertIndex(encs, order, i)) == multiset(order) + multiset{i}
  {
    hide PaddedLess;
    if order == [] {
    } else if PaddedLess(encs[i], encs[order[|order| - 1]]) {
      var front, last := order[..|order| - 1], order[|order| - 1];
      InsertMultiset(encs, front, i);
      assert order == front + [last];
      SnocMultiset(front, last);
      SnocMultiset(InsertIndex(encs, front, i), last);
    } else {
      SnocMultiset(order, i);
    }
  }

  lemma {:induction false} InsertSorted(encs: seq<Bits>, order: seq<nat>, i: nat, n: nat)
    requires i < |encs| && forall k :: 0 <= k < |order| ==> order[k] < |encs|
    requires Bounded(encs, n) && Ascending(Permute(order, encs))
    ensures Ascending(Permute(InsertIndex(encs, order, i), encs))
  {
    if order != [] && PaddedLess(encs[i], encs[order[|order| - 1]]) {
      var front, last := order[..|order| - 1], order[|order| - 1];
      assert Permute(front, encs) == Permute(order, encs)[..|order| - 1];
      InsertSorted(encs, front, i, n);
      InsertMultiset(encs, front, i);
      assert order == front + [last];
      InsertBeforeLast(encs, front, i, last, n);
    } else if order != [] {
      AppendLargest(encs, order, i, n);
    }
  }

  lemma AppendLargest(encs: seq<Bits>, order: seq<nat>, i: nat, n: nat)
    requires i < |encs| && forall k :: 0 <= k < |order| ==> order[k] < |encs|
    requires Bounded(encs, n) && Ascending(Permute(order, encs))
    requires order != [] && !PaddedLess(encs[i], encs[order[|order| - 1]])
    ensures Ascending(Permute(order + [i], encs))
  {
    var p, last := Permute(order, encs), order[|order| - 1];
    forall k | 0 <= k < |order| ensures !PaddedLess(encs[i], encs[order[k]]) {
      assert p[k] == encs[order[k]] && p[|order| - 1] == encs[last];
      PaddedLessIsKeyOrder(encs[last], encs[order[k]], n);
      PaddedLessIsKeyOrder(encs[i], encs[last], n);
      PaddedLessIsKeyOrder(encs[i], encs[order[k]], n);
    }
    assert Permute(order + [i], encs) == p + [encs[i]];
  }

  lemma InsertBeforeLast(encs: seq<Bits>, front: seq<nat>, i: nat, last: nat, n: nat)
    requires i < |encs| && last < |encs| && forall k :: 0 <= k < |front| ==> front[k] < |encs|
    requires Bounded(encs, n) && Ascending(Permute(front + [last], encs)) && PaddedLess(encs[i], encs[last])
    requires multiset(InsertIndex(encs, front, i)) == multiset(front) + multiset{i}
    requires Ascending(Permute(InsertIndex(encs, front, i), encs))
    ensures Ascending(Permute(InsertIndex(encs, front, i) + [last], encs))
  {
    var r, p := InsertIndex(encs, front, i), Permute(front + [last], encs);
    forall k | 0 <= k < |r| ensures !PaddedLess(encs[last], encs[r[k]]) {
      assert r[k] in multiset(r);
      if r[k] == i {
        PaddedLessIsKeyOrder(encs[i], encs[last], n);
        PaddedLessIsKeyOrder(encs[last], encs[i], n);
      } else {
        assert r[k] in multiset(front);
        var j :| 0 <= j < |front| && front[j] == r[k];
        assert p[j] == encs[r[k]] && p[|front|] == encs[last];
      }
    }
    assert Permute(r + [last], encs) == Permute(r, encs) + [encs[last]];
  }

  function Indices(n: nat): (s: seq<nat>)
    ensures |s| == n && forall k :: 0 <= k < n ==> s[k] == k
  {
    seq(n, k => k)
  }

  lemma IndicesStep(i: nat)
    ensures multiset(Indices(i + 1)) == multiset(Indices(i)) + multiset{i}
  {
    assert Indices(i + 1) == Indices(i) + [i];
  }

  lemma OrderStep(encs: seq<Bits>, n: nat)
    requires 0 < n <= |encs|
    ensures OrderOf(encs, n) == InsertIndex(encs, OrderOf(encs, n - 1), n - 1)
  {
    hide InsertIndex;
  }

  lemma {:induction false} OrderMultiset(encs: seq<Bits>, n: nat)
    requires n <= |encs|
    ensures multiset(OrderOf(encs, n)) == multiset(Indices(n))
  {
    hide InsertIndex, Indices, OrderOf;
    if n == 0 { assert OrderOf(encs, 0) == Indices(0) == []; } else {
      OrderStep(encs, n);
      OrderMultiset(encs, n - 1);
      InsertMultiset(encs, OrderOf(encs, n - 1), n - 1);
      IndicesStep(n - 1);
    }
  }

  lemma {:induction false} OrderAscending(encs: seq<Bits>, n: nat, bound: nat)
    requires n <= |encs| && Bounded(encs, bound)
    ensures Ascending(Permute(OrderOf(encs, n), encs))
  {
    if n > 0 {
      OrderAscending(encs, n - 1, bound);
      InsertSorted(encs, OrderOf(encs, n - 1), n - 1, bound);
    }
  }

  lemma RemoveAt<T>(b: seq<T>, j: nat) returns (front: seq<T>, back: seq<T>)
    requires j < |b|
    ensures b == front + ([b[j]] + back) && multiset(front + back) == multiset(b) - multiset{b[j]}
  {
    front, back := b[..j], b[j + 1..];
    assert b == front + ([b[j]] + back);
  }

  lemma PermuteSplit<T>(a: seq<nat>, b: seq<nat>, s: seq<T>)
    requires forall k :: 0 <= k < |a + b| ==> (a + b)[k] < |s|
    ensures (forall k :: 0 <= k < |a| ==> a[k] < |s|) && (forall k :: 0 <= k < |b| ==> b[k] < |s|)
    ensures Permute(a + b, s) == Permute(a, s) + Permute(b, s)
  {
    forall k | 0 <= k < |a| ensures a[k] < |s| { assert (a + b)[k] == a[k]; }
    forall k | 0 <= k < |b| ensures b[k] < |s| { assert (a + b)[|a| + k] == b[k]; }
  }

  lemma PermuteAround<T>(front: seq<nat>, x: nat, back: seq<nat>, s: seq<T>)
    requires forall k :: 0 <= k < |front + ([x] + back)| ==> (front + ([x] + back))[k] < |s|
    ensures x < |s| && forall k :: 0 <= k < |front + back| ==> (front + back)[k] < |s|
    ensures multiset(Permute(front + ([x] + back), s)) == multiset(Permute(front + back, s)) + multiset{s[x]}
  {
    PermuteSplit(front, [x] + back, s);
    PermuteSplit([x], back, s);
    assert [x][0] < |s|;
    assert Permute([x], s) == [s[x]];
    PermuteSplit(front, back, s);
  }

  lemma PermuteHead<T>(a: seq<nat>, s: seq<T>)
    requires a != [] && forall k :: 0 <= k < |a| ==> a[k] < |s|
    ensures multiset(Permute(a, s)) == multiset(Permute(a[1..], s)) + multiset{s[a[0]]}
  {
    assert Permute(a, s) == [s[a[0]]] + Permute(a[1..], s);
  }

  // Permuting by rearranged indices rearranges the elements.
  lemma {:induction false} PermuteMultiset<T>(a: seq<nat>, b: seq<nat>, s: seq<T>)
    requires multiset(a) == multiset(b)
    requires forall k :: 0 <= k < |a| ==> a[k] < |s|
    requires forall k :: 0 <= k < |b| ==> b[k] < |s|
    ensures multiset(Permute(a, s)) == multiset(Permute(b, s))
    decreases |a|
  {
    if a == [] {
      assert |b| == |multiset(b)| == 0;
    } else {
      assert a[0] in multiset(b);
      var j :| 0 <= j < |b| && b[j] == a[0];
      var front, back := RemoveAt(b, j);
      PermuteHead(a, s);
      PermuteAround(front, a[0], back, s);
      DropFirstAdded(a, b, front + back);
      PermuteMultiset(a[1..], front + back, s);
    }
  }

  lemma DropFirstAdded(a: seq<nat>, b: seq<nat>, c: seq<nat>)
    requires a != [] && multiset(a) == multiset(b) && multiset(c) == multiset(b) - multiset{a[0]}
    ensures multiset(a[1..]) == multiset(c)
  {
    assert a == [a[0]] + a[1..];
  }

  // The encoder's order: a permutation of the elements, ascending as padded
  // bit strings.
  lemma SortEncsCorrect(encs: seq<Bits>)
    ensures multiset(SortEncs(encs)) == multiset(encs)
    ensures Ascending(SortEncs(encs))
  {
    OrderMultiset(encs, |encs|);
    OrderAscending(encs, |encs|, Longest(encs));
    PermuteMultiset(Order(encs), Indices(|encs|), encs);
    assert Permute(Indices(|encs|), encs) == encs;
  }

  // ---- canonicity ----

  ghost predicate TiesEqual(encs: seq<Bits>) {
    forall i, j :: 0 <= i < |encs| && 0 <= j < |encs| && encs[i] <= encs[j] ==> encs[i] == encs[j]
  }

  lemma DropFirst<T>(a: seq<T>, b: seq<T>)
    requires multiset(a) == multiset(b) && a != [] && b != [] && a[0] == b[0]
    ensures multiset(a[1..]) == multiset(b[1..])
  {
    assert a == [a[0]] + a[1..] && b == [b[0]] + b[1..];
    assert multiset(a[1..]) == multiset(a) - multiset{a[0]};
  }

  // Ascending arrangements of the same tie-free elements coincide.
  lemma {:induction false} AscendingUnique(a: seq<Bits>, b: seq<Bits>, n: nat)
    requires multiset(a) == multiset(b) && Ascending(a) && Ascending(b)
    requires Bounded(a, n) && TiesEqual(a)
    ensures a == b
    decreases |a|
  {
    assert |multiset(a)| == |a| && |multiset(b)| == |b|;
    if a != [] {
      FirstEqual(a, b, n);
      DropFirst(a, b);
      AscendingUnique(a[1..], b[1..], n);
      assert a == [a[0]] + a[1..] && b == [b[0]] + b[1..];
    }
  }

  lemma FirstEqual(a: seq<Bits>, b: seq<Bits>, n: nat)
    requires multiset(a) == multiset(b) && Ascending(a) && Ascending(b) && a != [] && b != []
    requires Bounded(a, n) && TiesEqual(a)
    ensures a[0] == b[0]
  {
    assert b[0] in multiset(a) && a[0] in multiset(b);
    var i :| 0 <= i < |a| && a[i] == b[0];
    var j :| 0 <= j < |b| && b[j] == a[0];
    PaddedLessIsKeyOrder(a[i], a[0], n);
    PaddedLessIsKeyOrder(b[j], b[0], n);
    PaddedLessIsKeyOrder(a[0], a[0], n);
    assert Key(a[0], n) == Key(a[i], n);
    if |a[0]| <= |a[i]| { TiesArePrefixes(a[0], a[i], n); } else { TiesArePrefixes(a[i], a[0], n); }
  }

  lemma {:induction false} ItemsSurviveAt(A: Schema, t: nat, vs: seq<Value>, d: nat, i: nat)
    requires ItemsSurvive(A, A, t, vs, d) && EncItems(A, Element(t), vs).Some? && i < |vs|
    ensures Survives(A, A, t, vs[i], d) && Enc(A, t, vs[i]) == Some(EncItems(A, Element(t), vs).value[i])
    decreases i
  {
    if i > 0 { ItemsSurviveAt(A, t, vs[1..], d, i - 1); }
  }

  lemma ElementsTieFree(A: Schema, t: nat, vs: seq<Value>, d: nat)
    requires SchemaWf(A) && ItemsSurvive(A, A, t, vs, d) && EncItems(A, Element(t), vs).Some?
    ensures TiesEqual(EncItems(A, Element(t), vs).value)
  {
    var encs := EncItems(A, Element(t), vs).value;
    forall i, j | 0 <= i < |encs| && 0 <= j < |encs| && encs[i] <= encs[j] ensures encs[i] == encs[j] {
      ItemsSurviveAt(A, t, vs, d, i);
      ItemsSurviveAt(A, t, vs, d, j);
      PrefixFree(A, t, vs[i], vs[j], d);
    }
  }

  lemma EncItemsAround(A: Schema, item: Item, front: seq<Value>, x: Value, back: seq<Value>)
    requires EncItem(A, item, x).Some? && EncItems(A, item, front + back).Some?
    ensures EncItems(A, item, front + ([x] + back)).Some?
    ensures multiset(EncItems(A, item, front + ([x] + back)).value)
         == multiset(EncItems(A, item, front + back).value) + multiset{EncItem(A, item, x).value}
  {
    EncItemsSplit(A, item, front, back);
    assert ([x] + back)[1..] == back;
    EncItemsSplit(A, item, front, [x] + back);
  }

  lemma EncItemsHead(A: Schema, item: Item, a: seq<Value>)
    requires a != [] && EncItems(A, item, a).Some?
    ensures EncItem(A, item, a[0]).Some? && EncItems(A, item, a[1..]).Some?
    ensures multiset(a[1..]) == multiset(a) - multiset{a[0]}
    ensures multiset(EncItems(A, item, a).value)
         == multiset(EncItems(A, item, a[1..]).value) + multiset{EncItem(A, item, a[0]).value}
  {
    assert a == [a[0]] + a[1..];
  }

  lemma {:induction false} EncItemsMultiset(A: Schema, item: Item, a: seq<Value>, b: seq<Value>)
    requires multiset(a) == multiset(b) && EncItems(A, item, a).Some?
    ensures EncItems(A, item, b).Some?
    ensures multiset(EncItems(A, item, a).value) == multiset(EncItems(A, item, b).value)
    decreases |a|
  {
    if a == [] {
      assert |b| == |multiset(b)| == 0;
    } else {
      assert a[0] in multiset(b);
      var j :| 0 <= j < |b| && b[j] == a[0];
      var front, back := RemoveAt(b, j);
      EncItemsHead(A, item, a);
      EncItemsMultiset(A, item, a[1..], front + back);
      EncItemsAround(A, item, front, a[0], back);
    }
  }

  // Lists of the same encodings in sorted order are written alike.
  lemma SameSortedSameBits(A: Schema, t: nat, e: nat, v: Value, w: Value)
    requires t < |A| && A[t].List? && A[t].isSet && A[t].item == Element(e) && v.ListV? && w.ListV?
    requires EncItems(A, Element(e), v.items).Some? && EncItems(A, Element(e), w.items).Some?
    requires SortEncs(EncItems(A, Element(e), v.items).value) == SortEncs(EncItems(A, Element(e), w.items).value)
    ensures Enc(A, t, v) == Enc(A, t, w)
  {
    hide EncItems, SortEncs, PutExtSized;
    var ty := A[t];
    assert EncListOf(A, ty.item, ty.size, ty.ext, true, v.items) == EncListOf(A, ty.item, ty.size, ty.ext, true, w.items);
    assert EncAs(A, ty, v) == EncAs(A, ty, w);
  }

  // PER SET OF is canonical: any two orders of the same elements are written
  // as the same bits.
  lemma SetOfCanonical(A: Schema, t: nat, e: nat, v: Value, w: Value, d: nat)
    requires SchemaWf(A) && t < |A| && A[t].List? && A[t].isSet && A[t].item == Element(e)
    requires v.ListV? && w.ListV? && multiset(v.items) == multiset(w.items)
    requires ItemsSurvive(A, A, e, v.items, d)
    requires EncItems(A, Element(e), v.items).Some?
    ensures Enc(A, t, v) == Enc(A, t, w)
  {
    hide EncItems, SortEncs, Enc, ItemsSurvive, TiesEqual, Ascending, Bounded;
    EncItemsMultiset(A, Element(e), v.items, w.items);
    ElementsTieFree(A, e, v.items, d);
    SortsAlike(EncItems(A, Element(e), v.items).value, EncItems(A, Element(e), w.items).value);
    SameSortedSameBits(A, t, e, v, w);
  }

  // Tie-free encodings in any two orders sort alike.
  lemma SortsAlike(a: seq<Bits>, b: seq<Bits>)
    requires multiset(a) == multiset(b) && TiesEqual(a)
    ensures SortEncs(a) == SortEncs(b)
  {
    hide SortEncs, TiesEqual, Ascending, Bounded;
    SortEncsCorrect(a);
    SortEncsCorrect(b);
    TiesEqualMultiset(a, SortEncs(a));
    AscendingUnique(SortEncs(a), SortEncs(b), Longest(SortEncs(a)));
  }

  lemma TiesEqualMultiset(a: seq<Bits>, b: seq<Bits>)
    requires multiset(a) == multiset(b) && TiesEqual(a)
    ensures TiesEqual(b)
  {
    forall i, j | 0 <= i < |b| && 0 <= j < |b| && b[i] <= b[j] ensures b[i] == b[j] {
      assert b[i] in multiset(a) && b[j] in multiset(a);
      var i' :| 0 <= i' < |a| && a[i'] == b[i];
      var j' :| 0 <= j' < |a| && a[j'] == b[j];
    }
  }

  // A receiver of a SET OF sees the same elements, rearranged.
  lemma SetOfSeenRearranged(A: Schema, B: Schema, t: nat, e: nat, v: Value)
    requires t < |A| && t < |B| && A[t].List? && A[t].item == Element(e) && v.ListV?
    ensures Seen(A, B, t, v).ListV?
    ensures multiset(Seen(A, B, t, v).items) == multiset(SeenItems(A, B, e, v.items))
  {
    var encs := EncItems(A, Element(e), v.items);
    if A[t].isSet && encs.Some? {
      var vs := SeenItems(A, B, e, v.items);
      OrderMultiset(encs.value, |encs.value|);
      PermuteMultiset(Order(encs.value), Indices(|vs|), vs);
      assert Permute(Indices(|vs|), vs) == vs;
    }
  }
}
