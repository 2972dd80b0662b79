/**
 * Version skew: what a receiver with another version of the schema reads,
 * stated on the sender's own value, and what two receivers have in common.
 */
module PerSkew {
  import opened Bits
  import opened Options
  import opened PerTypes
  import opened PerEncode
  import opened PerDecode
  import opened PerRoundTrip
  import opened PerSetOf
  import opened PerLaws

  // ---- types on which two schemas agree ----

  predicate MembersIn(ms: seq<Member>, known: set<nat>) {
    forall i :: 0 <= i < |ms| ==> ms[i].t in known
  }

  predicate UnitIn(u: Unit, known: set<nat>) {
    match u
    case Single(m) => m.t in known
    case Group(ms) => MembersIn(ms, known)
  }

  // Everything a descriptor refers to is in `known`.
  predicate RefersInto(ty: Ty, known: set<nat>) {
    match ty
    case List(item, _, _, _) => item.Element? ==> item.t in known
    case Sequence(root, additions) =>
      && MembersIn(root, known)
      && (additions.Some? ==> forall i :: 0 <= i < |additions.value| ==> UnitIn(additions.value[i], known))
    case Choice(alts, _, more) =>
      && (forall i :: 0 <= i < |alts| ==> alts[i] in known)
      && (more.Some? ==> forall i :: 0 <= i < |more.value| ==> more.value[i] in known)
    case _ => true
  }

  // The types in `known` and all they are made of are the same in both.
  predicate Agreed(B: Schema, B': Schema, known: set<nat>) {
    forall t {:trigger t in known} :: t in known ==> t < |B| && t < |B'| && B[t] == B'[t] && RefersInto(B[t], known)
  }

  // ---- two receivers see agreed types alike ----

  lemma {:induction false} SeenAlike(A: Schema, B: Schema, B': Schema, known: set<nat>, t: nat, v: Value)
    requires Compatible(A, B) && Compatible(A, B') && Agreed(B, B', known) && t in known
    ensures Seen(A, B, t, v) == Seen(A, B', t, v)
    decreases v, 4
  {
    assert VersionsOf(A[t], B[t]);
    SeenAsAlike(A, B, B', known, A[t], B[t], v);
  }

  lemma {:induction false} SeenAsAlike(A: Schema, B: Schema, B': Schema, known: set<nat>, a: Ty, b: Ty, v: Value)
    requires Compatible(A, B) && Compatible(A, B') && Agreed(B, B', known) && VersionsOf(a, b) && RefersInto(b, known)
    ensures SeenAs(A, B, a, b, v) == SeenAs(A, B', a, b, v)
    decreases v, 3
  {
    hide Seen, Order, EncItems;
    match a
    case List(item, _, _, _) => if item.Element? && v.ListV? { SeenItemsAlike(A, B, B', known, item.t, v.items); }
    case Sequence(root, _) => if v.RecordV? && |v.root| == |root| { SeenRecordAlike(A, B, B', known, root, b.additions, v); }
    case Choice(alts, _, _) =>
      if v.ChoiceV? && v.index < |alts| { SeenAlike(A, B, B', known, alts[v.index], v.v); }
      else if v.ChoiceV? && b.more.Some? && v.index - |alts| < |b.more.value| {
        SeenAlike(A, B, B', known, b.more.value[v.index - |alts|], v.v);
      }
    case _ =>
  }

  lemma {:induction false} SeenItemsAlike(A: Schema, B: Schema, B': Schema, known: set<nat>, t: nat, vs: seq<Value>)
    requires Compatible(A, B) && Compatible(A, B') && Agreed(B, B', known) && t in known
    ensures SeenItems(A, B, t, vs) == SeenItems(A, B', t, vs)
    decreases vs, 0
  {
    hide Seen;
    if vs != [] {
      SeenAlike(A, B, B', known, t, vs[0]);
      SeenItemsAlike(A, B, B', known, t, vs[1..]);
    }
  }

  lemma {:induction false} SeenFieldAlike(A: Schema, B: Schema, B': Schema, known: set<nat>, t: nat, f: Field)
    requires Compatible(A, B) && Compatible(A, B') && Agreed(B, B', known) && t in known && f.Has?
    ensures SeenField(A, B, t, f) == SeenField(A, B', t, f)
    decreases f, 0
  {
    SeenAlike(A, B, B', known, t, f.v);
  }

  lemma {:induction false} SeenMembersAlike(A: Schema, B: Schema, B': Schema, known: set<nat>, ms: seq<Member>, fs: seq<Field>)
    requires Compatible(A, B) && Compatible(A, B') && Agreed(B, B', known) && |ms| == |fs| && MembersIn(ms, known)
    ensures SeenMembers(A, B, ms, fs) == SeenMembers(A, B', ms, fs)
    ensures SeenGroup(A, B, ms, fs) == SeenGroup(A, B', ms, fs)
    decreases fs, 0
  {
    hide SeenField;
    if fs != [] {
      if fs[0].Has? { SeenFieldAlike(A, B, B', known, ms[0].t, fs[0]); }
      SeenMembersAlike(A, B, B', known, ms[1..], fs[1..]);
    }
  }

  lemma {:induction false} SeenUnitAlike(A: Schema, B: Schema, B': Schema, known: set<nat>, u: Unit, uv: UnitV)
    requires Compatible(A, B) && Compatible(A, B') && Agreed(B, B', known) && UnitIn(u, known)
    ensures SeenUnit(A, B, u, uv) == SeenUnit(A, B', u, uv)
    decreases uv, 1
  {
    match u
    case Single(m) => if |uv.fields| == 1 && uv.fields[0].Has? { SeenFieldAlike(A, B, B', known, m.t, uv.fields[0]); }
    case Group(ms) => if |uv.fields| == |ms| { SeenMembersAlike(A, B, B', known, ms, uv.fields); }
  }

  lemma {:induction false} SeenUnitsAlike(A: Schema, B: Schema, B': Schema, known: set<nat>, us: seq<Unit>, uvs: seq<UnitV>)
    requires Compatible(A, B) && Compatible(A, B') && Agreed(B, B', known)
    requires forall i :: 0 <= i < |us| ==> UnitIn(us[i], known)
    ensures SeenUnits(A, B, us, uvs) == SeenUnits(A, B', us, uvs)
    decreases uvs, 0
  {
    hide SeenUnit;
    if us != [] && uvs != [] {
      SeenUnitAlike(A, B, B', known, us[0], uvs[0]);
      SeenUnitsAlike(A, B, B', known, us[1..], uvs[1..]);
    }
  }

  lemma {:induction false} SeenRecordAlike(A: Schema, B: Schema, B': Schema, known: set<nat>, root: seq<Member>, additions: Option<seq<Unit>>,
                                          v: Value)
    requires Compatible(A, B) && Compatible(A, B') && Agreed(B, B', known) && v.RecordV? && |v.root| == |root|
    requires MembersIn(root, known) && (additions.Some? ==> forall i :: 0 <= i < |additions.value| ==> UnitIn(additions.value[i], known))
    ensures SeenRecord(A, B, root, additions, v) == SeenRecord(A, B', root, additions, v)
    decreases v, 2
  {
    SeenMembersAlike(A, B, B', known, root, v.root);
    if additions.Some? { SeenUnitsAlike(A, B, B', known, additions.value, v.units); }
  }

  // Two receivers with different versions see the same in every unit they
  // share, however many more either knows: only the sender's bitmap decides.
  lemma SharedUnitsSeenAlike(A: Schema, B: Schema, B': Schema, known: set<nat>, us: seq<Unit>, us': seq<Unit>, uvs: seq<UnitV>, i: nat)
    requires Compatible(A, B) && Compatible(A, B') && Agreed(B, B', known)
    requires i < |us| && i < |us'| && us[i] == us'[i] && UnitIn(us[i], known)
    ensures SeenUnits(A, B, us, uvs)[i] == SeenUnits(A, B', us', uvs)[i]
  {
    UnitSeen(A, B, us, uvs, i);
    UnitSeen(A, B', us', uvs, i);
    if i < |uvs| { SeenUnitAlike(A, B, B', known, us[i], uvs[i]); }
  }

  // ---- the sender's value at another version ----

  function Units(ty: Ty): seq<Unit>
    requires ty.Sequence?
  {
    if ty.additions.Some? then ty.additions.value else []
  }

  function Additions(ty: Ty): seq<nat>
    requires ty.Choice?
  {
    if ty.more.Some? then ty.more.value else []
  }

  function Least(m: nat, n: nat): nat {
    if m < n then m else n
  }

  // A value cut or extended to the receiver's units.
  function AtVersion(v: Value, units: seq<Unit>): Value
    requires v.RecordV?
  {
    var k := Least(|v.units|, |units|);
    RecordV(v.root, v.units[..k] + AbsentUnits(units[k..]))
  }

  lemma CutAt(uvs: seq<UnitV>, ub: seq<Unit>, i: nat)
    requires i < |ub|
    ensures var k := Least(|uvs|, |ub|);
            (uvs[..k] + AbsentUnits(ub[k..]))[i] == if i < |uvs| then uvs[i] else AbsentUnit(ub[i], false)
  {
    hide AbsentUnits;
    var k := Least(|uvs|, |ub|);
    if i >= k { AbsentAt(ub[k..], i - k); }
  }

  // The units both versions know are the same, of agreed types.
  predicate SharedUnits(ua: seq<Unit>, ub: seq<Unit>, known: set<nat>) {
    forall i :: 0 <= i < |ua| && i < |ub| ==> ua[i] == ub[i] && UnitIn(ua[i], known)
  }

  // What receiver `B` sees of the units.
  function UnitsSeen(A: Schema, B: Schema, us: seq<Unit>, uvs: seq<UnitV>): (r: seq<UnitV>)
    ensures |r| == |us|
  {
    if HasAdditions(uvs) then SeenUnits(A, B, us, uvs) else AbsentUnits(us)
  }

  // Unit `i` of the receiver: what the sender's own version sees while both
  // know it, absent beyond.
  lemma UnitAtVersion(A: Schema, B: Schema, known: set<nat>, ua: seq<Unit>, ub: seq<Unit>, uvs: seq<UnitV>, i: nat)
    requires Compatible(A, B) && Agreed(A, B, known) && |ua| == |uvs| && i < |ub| && SharedUnits(ua, ub, known)
    ensures UnitsSeen(A, B, ub, uvs)[i] == if i < |uvs| then UnitsSeen(A, A, ua, uvs)[i] else AbsentUnit(ub[i], false)
  {
    hide SeenUnits, AbsentUnits, AbsentUnit, Compatible, Agreed, HasAdditions;
    UnitSeen(A, B, ub, uvs, i);
    AbsentAt(ub, i);
    if i < |uvs| {
      AgreeRefl(A);
      AbsentAt(ua, i);
      SharedUnitsSeenAlike(A, A, B, known, ua, ub, uvs, i);
    }
  }

  lemma UnitsAtVersion(A: Schema, B: Schema, known: set<nat>, ua: seq<Unit>, ub: seq<Unit>, uvs: seq<UnitV>)
    requires Compatible(A, B) && Agreed(A, B, known) && |ua| == |uvs| && SharedUnits(ua, ub, known)
    ensures var own, k := UnitsSeen(A, A, ua, uvs), Least(|uvs|, |ub|);
            UnitsSeen(A, B, ub, uvs) == own[..k] + AbsentUnits(ub[k..])
  {
    hide UnitsSeen, AbsentUnits, AbsentUnit, Compatible, Agreed;
    var own, k := UnitsSeen(A, A, ua, uvs), Least(|uvs|, |ub|);
    var got, want := UnitsSeen(A, B, ub, uvs), own[..k] + AbsentUnits(ub[k..]);
    assert |got| == |want|;
    forall i | 0 <= i < |ub| ensures got[i] == want[i] {
      UnitAtVersion(A, B, known, ua, ub, uvs, i);
      CutAt(own, ub, i);
    }
  }

  // What a receiver sees of a SEQUENCE, by what the sender's own version sees.
  lemma RecordAtVersion(A: Schema, B: Schema, known: set<nat>, a: Ty, b: Ty, v: Value)
    requires Compatible(A, B) && Agreed(A, B, known) && a.Sequence? && b.Sequence? && VersionsOf(a, b)
    requires MembersIn(a.root, known) && SharedUnits(Units(a), Units(b), known)
    requires v.RecordV? && |v.root| == |a.root| && |v.units| == |Units(a)|
    ensures SeenAs(A, A, a, a, v).RecordV?
    ensures SeenAs(A, B, a, b, v) == AtVersion(SeenAs(A, A, a, a, v), Units(b))
  {
    hide SeenUnits, SeenMembers, AbsentUnits, Compatible, Agreed, HasAdditions;
    AgreeRefl(A);
    SeenMembersAlike(A, A, B, known, a.root, v.root);
    UnitsAtVersion(A, B, known, Units(a), Units(b), v.units);
    assert SeenAs(A, A, a, a, v) == SeenRecord(A, A, a.root, a.additions, v);
    assert SeenAs(A, B, a, b, v) == SeenRecord(A, B, a.root, b.additions, v);
    assert UnitsSeen(A, A, Units(a), v.units) == SeenAs(A, A, a, a, v).units;
    assert UnitsSeen(A, B, Units(b), v.units) == SeenAs(A, B, a, b, v).units;
  }

  // A SEQUENCE encoded with n units and decoded with m: the root and the
  // first min(n, m) units are what a receiver of the sender's own version
  // gets, the receiver's others absent, and the stream stops behind the
  // encoding.
  lemma SequenceSkew(A: Schema, B: Schema, known: set<nat>, t: nat, v: Value, d: nat, s: Bits)
    requires SchemaWf(A) && SchemaWf(B) && Compatible(A, B) && Agreed(A, B, known)
    requires t < |A| && A[t].Sequence? && MembersIn(A[t].root, known)
    requires B[t].Sequence? ==> forall i :: 0 <= i < |Units(A[t])| && i < |Units(B[t])| ==> UnitIn(Units(A[t])[i], known)
    requires Survives(A, B, t, v, d) && Enc(A, t, v).Some?
    ensures B[t].Sequence? && Seen(A, A, t, v).RecordV?
    ensures Dec(B, t, d, Enc(A, t, v).value + s) == Ok(AtVersion(Seen(A, A, t, v), Units(B[t])), s)
  {
    hide Dec, Survives, SeenAs, AtVersion, EncSequence;
    RoundTrip(A, B, t, v, d, s);
    assert VersionsOf(A[t], B[t]);
    assert EncAs(A, A[t], v).Some?;
    assert SharedUnits(Units(A[t]), Units(B[t]), known);
    RecordAtVersion(A, B, known, A[t], B[t], v);
  }

  // Without DEFAULT and SET OF, that is the sender's own value.
  lemma SequenceSkewExact(A: Schema, B: Schema, known: set<nat>, t: nat, v: Value, d: nat, s: Bits)
    requires SchemaWf(A) && SchemaWf(B) && Compatible(A, B) && Agreed(A, B, known) && PlainSchema(A)
    requires t < |A| && A[t].Sequence? && MembersIn(A[t].root, known)
    requires B[t].Sequence? ==> forall i :: 0 <= i < |Units(A[t])| && i < |Units(B[t])| ==> UnitIn(Units(A[t])[i], known)
    requires ShapedAs(A, A[t], v) && Survives(A, B, t, v, d) && Enc(A, t, v).Some?
    ensures B[t].Sequence?
    ensures Dec(B, t, d, Enc(A, t, v).value + s) == Ok(AtVersion(v, Units(B[t])), s)
  {
    hide Dec, Enc, Survives, AtVersion, Seen;
    SequenceSkew(A, B, known, t, v, d, s);
    SeenUnchanged(A, t, v);
  }

  // A CHOICE: every alternative the receiver knows comes back as a receiver of
  // the sender's own version gets it, and one it does not know is skipped.
  lemma ChoiceSkew(A: Schema, B: Schema, known: set<nat>, t: nat, v: Value, d: nat, s: Bits)
    requires SchemaWf(A) && SchemaWf(B) && Compatible(A, B) && Agreed(A, B, known)
    requires t < |A| && A[t].Choice? && (forall i :: 0 <= i < |A[t].alts| ==> A[t].alts[i] in known)
    requires B[t].Choice? ==> forall i :: 0 <= i < |Additions(A[t])| && i < |Additions(B[t])| ==> Additions(A[t])[i] in known
    requires v.ChoiceV? && Survives(A, B, t, v, d) && Enc(A, t, v).Some?
    ensures B[t].Choice?
    ensures Dec(B, t, d, Enc(A, t, v).value + s)
         == Ok(if v.index < |B[t].alts| + |Additions(B[t])| then Seen(A, A, t, v) else NoChoice, s)
  {
    hide Dec, Survives;
    RoundTrip(A, B, t, v, d, s);
    assert VersionsOf(A[t], B[t]);
    AgreeRefl(A);
    assert EncAs(A, A[t], v).Some?;
    var k := v.index - |A[t].alts|;
    if k < 0 { SeenAlike(A, A, B, known, A[t].alts[v.index], v.v); }
    else if k < |Additions(B[t])| {
      assert Additions(A[t])[k] == Additions(B[t])[k];
      SeenAlike(A, A, B, known, Additions(A[t])[k], v.v);
    }
    assert Seen(A, B, t, v) == SeenChoice(A, B, A[t].alts, B[t].more, v);
    assert Seen(A, A, t, v) == SeenChoice(A, A, A[t].alts, A[t].more, v);
  }
}
