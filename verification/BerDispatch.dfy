/**
 * How a tag leads to a member or an alternative.  The generator's dispatch
 * tables are described by the tags encodings start with; the three forms of
 * CHOICE dispatch then find exactly the alternative a tag belongs to.
 */
module BerDispatch {
  import opened Options
  import opened BerTlv
  import opened BerTypes

  // ---- the tags encodings start with ----

  // Class and number of `g` are among those of `tags`.
  predicate Among(g: Tag, tags: seq<Tag>) {
    exists k :: 0 <= k < |tags| && tags[k].cls == g.cls && tags[k].number == g.number
  }

  // Through at most `n` untagged CHOICEs: a CHOICE starts with the tags of its
  // alternatives, any other type with its own.
  function StartTags(S: Schema, t: nat, n: nat): seq<Tag>
    decreases n, 2, 0
  {
    if t >= |S| then []
    else if S[t].explicit || !S[t].kind.Choice? then [S[t].tag]
    else if n == 0 then []
    else AltStarts(S, S[t].kind.alts, n - 1)
  }

  function MemberStarts(S: Schema, m: Member, n: nat): seq<Tag>
    decreases n, 2, 1
  {
    if m.tagging.Own? then StartTags(S, m.t, n) else [m.tag]
  }

  function AltStarts(S: Schema, alts: seq<Member>, n: nat): seq<Tag>
    decreases n, 3, |alts|
  {
    if alts == [] then [] else MemberStarts(S, alts[0], n) + AltStarts(S, alts[1..], n)
  }

  predicate StartsWithin(S: Schema, m: Member, g: Tag, n: nat) {
    Among(g, MemberStarts(S, m, n))
  }

  ghost predicate StartsWith(S: Schema, m: Member, g: Tag) {
    exists n: nat :: StartsWithin(S, m, g, n)
  }

  ghost predicate SomeStarts(S: Schema, alts: seq<Member>, g: Tag) {
    exists a :: 0 <= a < |alts| && StartsWith(S, alts[a], g)
  }

  // ---- the tables ----

  // Slot n - base of the index is the alternative that starts with context tag
  // n, and negative when none does.
  ghost predicate IndexOk(S: Schema, alts: seq<Member>, ix: TagIndex) {
    && (forall a, g: Tag {:trigger StartsWith(S, alts[a], g)} :: 0 <= a < |alts| && g.cls == 2 && StartsWith(S, alts[a], g) ==>
          ix.base <= g.number < ix.base + |ix.slots| && ix.slots[g.number - ix.base] == a)
    && (forall i {:trigger ix.slots[i]} :: 0 <= i < |ix.slots| && ix.slots[i] >= 0 ==>
          ix.slots[i] < |alts| && StartsWith(S, alts[ix.slots[i]], Tag(2, ix.base + i, false)))
  }

  predicate SameTag(g: Tag, h: Tag) {
    g.cls == h.cls && g.number == h.number
  }

  // The entry for a tag of an alternative.
  predicate IsEntry(e: TagEntry, a: nat, g: Tag) {
    e.alt == a && SameTag(e.tag, g)
  }

  ghost predicate HasEntry(es: seq<TagEntry>, a: nat, g: Tag) {
    exists j :: 0 <= j < |es| && IsEntry(es[j], a, g)
  }

  // The flattened table has an entry for each tag an alternative starts with,
  // no other entries, and no tag twice.
  ghost predicate EntriesOk(S: Schema, alts: seq<Member>, es: seq<TagEntry>) {
    && es != []
    && (forall i, j {:trigger es[i], es[j]} :: 0 <= i < j < |es| ==> !SameTag(es[i].tag, es[j].tag))
    && (forall j {:trigger es[j]} :: 0 <= j < |es| ==> es[j].alt < |alts| && StartsWith(S, alts[es[j].alt], es[j].tag))
    && (forall a, g: Tag {:trigger StartsWith(S, alts[a], g)} :: 0 <= a < |alts| && StartsWith(S, alts[a], g) ==> HasEntry(es, a, g))
  }

  // Without one, each alternative starts with its own tag only, and no two
  // alternatives with the same.
  ghost predicate PlainOk(S: Schema, alts: seq<Member>) {
    && (forall i, j {:trigger alts[i], alts[j]} :: 0 <= i < j < |alts| ==> !SameTag(alts[i].tag, alts[j].tag))
    && (forall a, g: Tag {:trigger StartsWith(S, alts[a], g)} :: 0 <= a < |alts| ==> (StartsWith(S, alts[a], g) <==> SameTag(alts[a].tag, g)))
  }

  ghost predicate TablesOk(S: Schema, k: Kind)
    requires k.Choice?
  {
    && (k.index.Some? ==> IndexOk(S, k.alts, k.index.value))
    && (if k.table.Some? then EntriesOk(S, k.alts, k.table.value) else PlainOk(S, k.alts))
  }

  // A member's descriptive tag: universal 0 for an untagged CHOICE, else the
  // tag its encodings start with.
  predicate MemberTagOk(S: Schema, m: Member)
    requires m.t < |S|
  {
    if m.tagging.Own? && S[m.t].kind.Choice? && !S[m.t].explicit then SameTag(m.tag, Tag(0, 0, false))
    else
      && (m.tagging.Own? ==> SameTag(m.tag, S[m.t].tag))
      && (S[m.t].kind.Choice? ==> !SameTag(m.tag, Tag(0, 0, false)))
  }

  // ---- a CHOICE starts with what its alternatives start with ----

  lemma StartsAlike(S: Schema, m: Member, g: Tag, h: Tag)
    requires SameTag(g, h) && StartsWith(S, m, g)
    ensures StartsWith(S, m, h)
  {
    hide MemberStarts;
    var n: nat :| StartsWithin(S, m, g, n);
    assert StartsWithin(S, m, h, n);
  }

  lemma AmongSum(g: Tag, x: seq<Tag>, y: seq<Tag>)
    ensures Among(g, x + y) <==> Among(g, x) || Among(g, y)
  {
    if Among(g, x) {
      var k :| 0 <= k < |x| && x[k].cls == g.cls && x[k].number == g.number;
      assert (x + y)[k] == x[k];
    }
    if Among(g, y) {
      var k :| 0 <= k < |y| && y[k].cls == g.cls && y[k].number == g.number;
      assert (x + y)[|x| + k] == y[k];
    }
  }

  lemma {:induction false} AltStartsMember(S: Schema, alts: seq<Member>, n: nat, g: Tag)
    ensures Among(g, AltStarts(S, alts, n)) <==> exists a :: 0 <= a < |alts| && StartsWithin(S, alts[a], g, n)
    decreases |alts|
  {
    if alts != [] {
      AmongSum(g, MemberStarts(S, alts[0], n), AltStarts(S, alts[1..], n));
      AltStartsMember(S, alts[1..], n, g);
      hide MemberStarts, AltStarts, Among;
      if exists a :: 0 <= a < |alts[1..]| && StartsWithin(S, alts[1..][a], g, n) {
        var a :| 0 <= a < |alts[1..]| && StartsWithin(S, alts[1..][a], g, n);
        assert alts[a + 1] == alts[1..][a];
      }
      if exists a :: 0 <= a < |alts| && StartsWithin(S, alts[a], g, n) {
        var a :| 0 <= a < |alts| && StartsWithin(S, alts[a], g, n);
        if a > 0 { assert alts[1..][a - 1] == alts[a]; }
      }
    }
  }

  // An untagged CHOICE starts with a tag exactly when an alternative does.
  lemma ChoiceStarts(S: Schema, m: Member, g: Tag)
    requires m.t < |S| && m.tagging.Own? && S[m.t].kind.Choice? && !S[m.t].explicit
    ensures StartsWith(S, m, g) <==> SomeStarts(S, S[m.t].kind.alts, g)
  {
    hide AltStarts, Among;
    var alts := S[m.t].kind.alts;
    if StartsWith(S, m, g) {
      var n: nat :| StartsWithin(S, m, g, n);
      assert n > 0 by { if n == 0 { assert MemberStarts(S, m, 0) == []; NoneAmong(g); } }
      assert MemberStarts(S, m, n) == AltStarts(S, alts, n - 1);
      AltStartsMember(S, alts, n - 1, g);
      var a :| 0 <= a < |alts| && StartsWithin(S, alts[a], g, n - 1);
      assert StartsWith(S, alts[a], g);
    }
    if SomeStarts(S, alts, g) {
      var a :| 0 <= a < |alts| && StartsWith(S, alts[a], g);
      var n: nat :| StartsWithin(S, alts[a], g, n);
      AltStartsMember(S, alts, n, g);
      assert MemberStarts(S, m, n + 1) == AltStarts(S, alts, n);
      assert StartsWithin(S, m, g, n + 1);
    }
  }

  lemma NoneAmong(g: Tag)
    ensures !Among(g, [])
  {
  }

  // Any other member starts with one tag.
  lemma OneStart(S: Schema, m: Member, g: Tag)
    requires m.t < |S| && !(m.tagging.Own? && S[m.t].kind.Choice? && !S[m.t].explicit)
    ensures StartsWith(S, m, g) <==> SameTag(if m.tagging.Own? then S[m.t].tag else m.tag, g)
  {
    var tag := if m.tagging.Own? then S[m.t].tag else m.tag;
    if SameTag(tag, g) {
      assert MemberStarts(S, m, 0)[0] == tag;
      assert StartsWithin(S, m, g, 0);
    }
    if StartsWith(S, m, g) {
      var n: nat :| StartsWithin(S, m, g, n);
      assert MemberStarts(S, m, n) == [tag];
    }
  }

  // ---- what the tables are for ----

  lemma EntryOf(es: seq<TagEntry>, g: Tag)
    ensures BelongsTag(g, EntryTags(es)) <==> exists j :: 0 <= j < |es| && SameTag(es[j].tag, g)
  {
    if BelongsTag(g, EntryTags(es)) {
      var j :| 0 <= j < |EntryTags(es)| && Matches(g, EntryTags(es)[j]);
      assert SameTag(es[j].tag, g);
    }
    if exists j :: 0 <= j < |es| && SameTag(es[j].tag, g) {
      var j :| 0 <= j < |es| && SameTag(es[j].tag, g);
      assert Matches(g, EntryTags(es)[j]);
    }
  }

  lemma MemberTagOf(ms: seq<Member>, g: Tag)
    ensures BelongsTag(g, MemberTagList(ms)) <==> exists j :: 0 <= j < |ms| && SameTag(ms[j].tag, g)
  {
    if BelongsTag(g, MemberTagList(ms)) {
      var j :| 0 <= j < |ms| && Matches(g, MemberTagList(ms)[j]);
      assert SameTag(ms[j].tag, g);
    }
    if exists j :: 0 <= j < |ms| && SameTag(ms[j].tag, g) {
      var j :| 0 <= j < |ms| && SameTag(ms[j].tag, g);
      assert Matches(g, MemberTagList(ms)[j]);
    }
  }

  // A CHOICE is recognised by exactly the tags its alternatives start with.
  lemma ChoiceTagsExact(S: Schema, k: Kind, g: Tag)
    requires k.Choice? && TablesOk(S, k)
    ensures BelongsTag(g, ChoiceTags(k)) <==> SomeStarts(S, k.alts, g)
  {
    hide StartsWith, IndexOk;
    if k.table.Some? {
      var es := k.table.value;
      EntryOf(es, g);
      if exists j :: 0 <= j < |es| && SameTag(es[j].tag, g) {
        var j :| 0 <= j < |es| && SameTag(es[j].tag, g);
        assert StartsWith(S, k.alts[es[j].alt], es[j].tag);
        StartsAlike(S, k.alts[es[j].alt], es[j].tag, g);
      }
      if SomeStarts(S, k.alts, g) {
        var a :| 0 <= a < |k.alts| && StartsWith(S, k.alts[a], g);
        assert HasEntry(es, a, g);
      }
    } else {
      MemberTagOf(k.alts, g);
      if exists j :: 0 <= j < |k.alts| && SameTag(k.alts[j].tag, g) {
        var j :| 0 <= j < |k.alts| && SameTag(k.alts[j].tag, g);
        assert StartsWith(S, k.alts[j], g);
      }
      if SomeStarts(S, k.alts, g) {
        var a :| 0 <= a < |k.alts| && StartsWith(S, k.alts[a], g);
        assert SameTag(k.alts[a].tag, g);
      }
    }
  }

  // A member is recognised by exactly the tags its encodings start with.
  lemma MemberRecognised(S: Schema, m: Member, g: Tag)
    requires m.t < |S| && MemberTagOk(S, m) && (S[m.t].kind.Choice? ==> TablesOk(S, S[m.t].kind))
    ensures BelongsTag(g, MatchTags(S, m)) <==> StartsWith(S, m, g)
  {
    hide StartsWith, ChoiceTags, TablesOk, SomeStarts;
    if m.tagging.Own? && S[m.t].kind.Choice? && !S[m.t].explicit {
      ChoiceTagsExact(S, S[m.t].kind, g);
      ChoiceStarts(S, m, g);
    } else {
      OneStart(S, m, g);
      assert MatchTags(S, m) == [m.tag];
      assert BelongsTag(g, [m.tag]) <==> Matches(g, [m.tag][0]);
    }
  }

  // ---- dispatch ----

  lemma {:induction false} FindEntryIs(es: seq<TagEntry>, g: Tag, j: nat)
    requires j < |es| && SameTag(es[j].tag, g)
    requires forall i {:trigger es[i]} :: 0 <= i < |es| && i != j ==> !SameTag(es[i].tag, g)
    ensures FindEntry(es, g) == Some(es[j].alt)
    decreases |es|
  {
    if j > 0 {
      assert !SameTag(es[0].tag, g);
      assert forall i :: 0 <= i < |es| - 1 ==> es[1..][i] == es[i + 1];
      FindEntryIs(es[1..], g, j - 1);
    }
  }

  lemma {:induction false} FindEntryFound(es: seq<TagEntry>, g: Tag)
    requires FindEntry(es, g).Some?
    ensures HasEntry(es, FindEntry(es, g).value, g)
  {
    if Matches(g, es[0].tag) {
      assert IsEntry(es[0], FindEntry(es, g).value, g);
    } else {
      FindEntryFound(es[1..], g);
      var j :| 0 <= j < |es[1..]| && IsEntry(es[1..][j], FindEntry(es, g).value, g);
      assert es[j + 1] == es[1..][j];
    }
  }

  lemma {:induction false} FindTagIs(tags: seq<Tag>, g: Tag, j: nat)
    requires j < |tags| && SameTag(tags[j], g)
    requires forall i {:trigger tags[i]} :: 0 <= i < j ==> !SameTag(tags[i], g)
    ensures FindTag(tags, g) == Some(j)
    decreases |tags|
  {
    if j > 0 {
      assert forall i :: 0 <= i < |tags| - 1 ==> tags[1..][i] == tags[i + 1];
      FindTagIs(tags[1..], g, j - 1);
    }
  }

  lemma {:induction false} FindTagFound(tags: seq<Tag>, g: Tag)
    requires FindTag(tags, g).Some?
    ensures SameTag(tags[FindTag(tags, g).value], g)
  {
    if !Matches(g, tags[0]) { FindTagFound(tags[1..], g); }
  }

  lemma IndexDispatch(S: Schema, alts: seq<Member>, ix: TagIndex, g: Tag, a: nat)
    requires IndexOk(S, alts, ix) && g.cls == 2
    ensures a < |alts| && StartsWith(S, alts[a], g)
       <==> ix.base <= g.number < ix.base + |ix.slots| && ix.slots[g.number - ix.base] == a
  {
    hide StartsWith;
    if ix.base <= g.number < ix.base + |ix.slots| && ix.slots[g.number - ix.base] == a {
      var i := g.number - ix.base;
      assert ix.slots[i] >= 0;
      StartsAlike(S, alts[a], Tag(2, ix.base + i, false), g);
    }
  }

  lemma EntryDispatch(S: Schema, alts: seq<Member>, es: seq<TagEntry>, g: Tag, a: nat)
    requires EntriesOk(S, alts, es)
    ensures a < |alts| && StartsWith(S, alts[a], g) <==> FindEntry(es, g) == Some(a)
  {
    hide StartsWith, FindEntry;
    if a < |alts| && StartsWith(S, alts[a], g) {
      assert HasEntry(es, a, g);
      var j :| 0 <= j < |es| && IsEntry(es[j], a, g);
      forall i | 0 <= i < |es| && i != j ensures !SameTag(es[i].tag, g) {
        if i < j { assert !SameTag(es[i].tag, es[j].tag); } else { assert !SameTag(es[j].tag, es[i].tag); }
      }
      FindEntryIs(es, g, j);
    }
    if FindEntry(es, g) == Some(a) {
      FindEntryFound(es, g);
      var j :| 0 <= j < |es| && IsEntry(es[j], a, g);
      StartsAlike(S, alts[a], es[j].tag, g);
    }
  }

  lemma PlainDispatch(S: Schema, alts: seq<Member>, g: Tag, a: nat)
    requires PlainOk(S, alts)
    ensures a < |alts| && StartsWith(S, alts[a], g) <==> FindTag(MemberTagList(alts), g) == Some(a)
  {
    hide StartsWith, FindTag;
    var tags := MemberTagList(alts);
    if a < |alts| && StartsWith(S, alts[a], g) {
      forall i | 0 <= i < a ensures !SameTag(tags[i], g) { assert !SameTag(alts[i].tag, alts[a].tag); }
      FindTagIs(tags, g, a);
    }
    if FindTag(tags, g) == Some(a) {
      FindTagFound(tags, g);
      assert SameTag(alts[a].tag, g);
    }
  }

  // In whichever form, a tag is dispatched to an alternative exactly when the
  // alternative starts with it.
  lemma DispatchExact(S: Schema, k: Kind, g: Tag, a: nat)
    requires k.Choice? && TablesOk(S, k)
    ensures FindAlt(k, g) == Some(a) <==> a < |k.alts| && StartsWith(S, k.alts[a], g)
  {
    hide StartsWith, FindEntry, FindTag, IndexOk, EntriesOk, PlainOk;
    if k.index.Some? && g.cls == 2 { IndexDispatch(S, k.alts, k.index.value, g, a); }
    else if k.table.Some? { EntryDispatch(S, k.alts, k.table.value, g, a); }
    else { PlainDispatch(S, k.alts, g, a); }
  }

  // ---- the context tag index, as the generator emits it ----

  // The conversion to 16 bits of a table element.
  function Int16(i: int): (r: int)
    ensures -0x8000 <= r < 0x8000
  {
    (i + 0x8000) % 0x1_0000 - 0x8000
  }

  // Slot n - base holds the position of n among the first `count` numbers.
  ghost predicate Filled(numbers: seq<int>, base: nat, slots: seq<int>, count: nat)
    requires count <= |numbers|
  {
    && (forall i {:trigger numbers[i]} :: 0 <= i < count ==> base <= numbers[i] < base + |slots| && slots[numbers[i] - base] == Int16(i))
    && (forall k {:trigger slots[k]} :: 0 <= k < |slots| ==> slots[k] == -1 || base + k in numbers)
  }

  ghost predicate NumbersDiffer(numbers: seq<int>) {
    forall i, j {:trigger numbers[i], numbers[j]} :: 0 <= i < j < |numbers| ==> numbers[i] != numbers[j]
  }

  // Every alternative has a context tag.
  predicate AllContext(numbers: seq<int>) {
    forall i {:trigger numbers[i]} :: 0 <= i < |numbers| ==> numbers[i] >= 0
  }

  // The numbers lie within a range of four for each of them.
  predicate Dense(numbers: seq<int>) {
    forall i, j {:trigger numbers[i], numbers[j]} :: 0 <= i < |numbers| && 0 <= j < |numbers| ==> numbers[i] - numbers[j] < 4 * |numbers|
  }

  method Bounds(numbers: seq<int>) returns (context: bool, least: int, most: int)
    requires numbers != []
    ensures context <==> AllContext(numbers)
    ensures context ==> least in numbers && most in numbers && forall j {:trigger numbers[j]} :: 0 <= j < |numbers| ==> least <= numbers[j] <= most
  {
    context, least, most := true, numbers[0], numbers[0];
    for i := 0 to |numbers|
      invariant context && least in numbers && most in numbers
      invariant forall j {:trigger numbers[j]} :: 0 <= j < i ==> 0 <= numbers[j] && least <= numbers[j] <= most
    {
      if numbers[i] < 0 { return false, least, most; }
      if numbers[i] < least { least := numbers[i]; }
      if numbers[i] > most { most := numbers[i]; }
    }
  }

  // A table from the least context tag number to the greatest, each slot with
  // the position of its number; `numbers` are negative where an alternative
  // has no context tag.
  method EmitTagIndex(numbers: seq<int>) returns (ix: Option<TagIndex>)
    requires AllContext(numbers) ==> NumbersDiffer(numbers)
    ensures ix.Some? <==> |numbers| > 1 && AllContext(numbers) && Dense(numbers)
    ensures ix.Some? ==> Filled(numbers, ix.value.base, ix.value.slots, |numbers|)
    ensures ix.Some? ==> ix.value.slots != [] && ix.value.base in numbers && ix.value.base + |ix.value.slots| - 1 in numbers
  {
    hide Int16, Filled, NumbersDiffer;
    if |numbers| < 2 { return None; }
    var context, least, most := Bounds(numbers);
    if !context { return None; }
    if most - least + 1 > 4 * |numbers| {
      ghost var i :| 0 <= i < |numbers| && numbers[i] == most;
      ghost var j :| 0 <= j < |numbers| && numbers[j] == least;
      assert numbers[i] - numbers[j] >= 4 * |numbers|;
      return None;
    }
    assert Dense(numbers);
    var slots := seq(most - least + 1, _ => -1);
    NoneFilled(numbers, least, slots);
    for i := 0 to |numbers|
      invariant |slots| == most - least + 1 && Filled(numbers, least, slots, i)
    {
      FillOne(numbers, least, slots, i);
      slots := slots[numbers[i] - least := Int16(i)];
    }
    ix := Some(TagIndex(least, slots));
  }

  lemma NoneFilled(numbers: seq<int>, base: nat, slots: seq<int>)
    requires forall k {:trigger slots[k]} :: 0 <= k < |slots| ==> slots[k] == -1
    ensures Filled(numbers, base, slots, 0)
  {
  }

  lemma FillOne(numbers: seq<int>, base: nat, slots: seq<int>, i: nat)
    requires i < |numbers| && NumbersDiffer(numbers) && Filled(numbers, base, slots, i) && base <= numbers[i] < base + |slots|
    ensures Filled(numbers, base, slots[numbers[i] - base := Int16(i)], i + 1)
  {
    hide Int16;
    var now := slots[numbers[i] - base := Int16(i)];
    forall j {:trigger numbers[j]} | 0 <= j < i + 1
      ensures base <= numbers[j] < base + |now| && now[numbers[j] - base] == Int16(j)
    {
      if j < i { assert numbers[j] != numbers[i]; }
    }
    forall k {:trigger now[k]} | 0 <= k < |now| ensures now[k] == -1 || base + k in numbers {
      if k == numbers[i] - base { assert base + k == numbers[i]; } else { assert now[k] == slots[k]; }
    }
  }

  // Of up to 32768 alternatives with context tags only, it says exactly which
  // one starts with which tag.
  lemma EmittedIndexOk(S: Schema, alts: seq<Member>, numbers: seq<int>, ix: TagIndex)
    requires |alts| == |numbers| <= 0x8000 && Filled(numbers, ix.base, ix.slots, |numbers|)
    requires forall a {:trigger alts[a]} :: 0 <= a < |alts| ==> alts[a].tag.cls == 2 && alts[a].tag.number == numbers[a]
    requires forall a, g: Tag {:trigger StartsWith(S, alts[a], g)} :: 0 <= a < |alts| ==> (StartsWith(S, alts[a], g) <==> SameTag(alts[a].tag, g))
    ensures IndexOk(S, alts, ix)
  {
    hide StartsWith, Int16;
    forall a, g: Tag {:trigger StartsWith(S, alts[a], g)} | 0 <= a < |alts| && g.cls == 2 && StartsWith(S, alts[a], g)
      ensures ix.base <= g.number < ix.base + |ix.slots| && ix.slots[g.number - ix.base] == a
    {
      assert SameTag(alts[a].tag, g);
      assert g.number == numbers[a];
      SmallInt16(a);
    }
    forall i {:trigger ix.slots[i]} | 0 <= i < |ix.slots| && ix.slots[i] >= 0
      ensures ix.slots[i] < |alts| && StartsWith(S, alts[ix.slots[i]], Tag(2, ix.base + i, false))
    {
      assert ix.base + i in numbers;
      var a :| 0 <= a < |numbers| && numbers[a] == ix.base + i;
      SmallInt16(a);
      assert SameTag(alts[a].tag, Tag(2, ix.base + i, false));
    }
  }

  lemma SmallInt16(i: nat)
    requires i < 0x8000
    ensures Int16(i) == i
  {
  }

  // Alternatives [1] and [2] behind an index that starts at 1.
  lemma IndexFromOne(S: Schema, a: Member, b: Member, k: Kind)
    requires !a.tagging.Own? && a.tag == Tag(2, 1, true) && a.t < |S| && !b.tagging.Own? && b.tag == Tag(2, 2, true) && b.t < |S|
    requires k == Choice([a, b], Some(TagIndex(1, [0, 1])), None, false)
    ensures TablesOk(S, k)
    ensures FindAlt(k, Tag(2, 1, false)) == Some(0) && FindAlt(k, Tag(2, 2, false)) == Some(1) && FindAlt(k, Tag(2, 3, false)) == None
  {
    hide StartsWith, Int16;
    SmallInt16(0);
    SmallInt16(1);
    var alts, numbers := [a, b], [1, 2];
    forall i, g: Tag {:trigger StartsWith(S, alts[i], g)} | 0 <= i < |alts| ensures StartsWith(S, alts[i], g) <==> SameTag(alts[i].tag, g) {
      OneStart(S, alts[i], g);
    }
    assert numbers[0] == 1 && numbers[1] == 2;
    EmittedIndexOk(S, alts, numbers, TagIndex(1, [0, 1]));
  }
}
