/**
 * Registration of field paths: each path names members of nested tables and is
 * resolved, one component at a time, into the trie.
 */
module BerProjection {
  import opened Options
  import opened BerTlv
  import opened ProjectionTrie
  import opened ProjectionNames

  // ---- the trie's invariants ----

  // Every node is reached once, and siblings' tags differ.
  ghost predicate TrieOk(nodes: seq<Node>, first: int) {
    && Linked(nodes) && NONE <= first < |nodes|
    && Unique(Build(nodes, first)) && TagsDiffer(Build(nodes, first))
    && forall i: nat :: i in Labels(Build(nodes, first)) <==> i < |nodes|
  }

  // Slot s is at the tag path keys[s], and no other slot is anywhere.
  ghost predicate SlotsOk(ts: seq<Branch>, keys: seq<seq<Tag>>) {
    && (forall s {:trigger keys[s]} :: 0 <= s < |keys| ==> keys[s] != [] && FieldAt(ts, keys[s]) == s)
    && (forall q {:trigger FieldAt(ts, q)} :: NONE <= FieldAt(ts, q) < |keys| && (FieldAt(ts, q) != NONE ==> SamePath(q, keys[FieldAt(ts, q)])))
  }

  ghost predicate PathsOk(schema: seq<Desc>, root: nat, paths: seq<string>, keys: seq<seq<Tag>>)
    requires SchemaOk(schema) && root < |schema|
  {
    |paths| == |keys|
    && forall s {:trigger paths[s]} :: 0 <= s < |paths| ==>
         Resolve(schema, root, paths[s]).Some? && Resolve(schema, root, paths[s]).value.tags == keys[s]
  }

  // A handle names the slot and the type at the path's end.
  datatype Handle = Handle(index: nat, desc: nat)

  lemma {:induction false} SameTagSameField(ts: seq<Branch>, p: seq<Tag>, q: seq<Tag>)
    requires SamePath(p, q)
    ensures FieldAt(ts, p) == FieldAt(ts, q)
    decreases |p|
  {
    if p != [] {
      assert Matches(p[0], q[0]);
      FindAlike(ts, p[0], q[0]);
      if |p| > 1 {
        forall i {:trigger p[1..][i]} | 0 <= i < |p| - 1 ensures Matches(p[1..][i], q[1..][i]) { assert Matches(p[i + 1], q[i + 1]); }
        SameTagSameField(if FindBranch(ts, p[0]) < |ts| then ts[FindBranch(ts, p[0])].kids else [], p[1..], q[1..]);
      }
    }
  }

  // ---- the chain of siblings ----

  // Scans for a tag; `prev` is the last sibling when there is none.
  method ScanSiblings(nodes: seq<Node>, first: int, t: Tag) returns (cur: int, prev: int)
    requires Linked(nodes) && NONE <= first < |nodes|
    ensures NONE <= cur < |nodes| && NONE <= prev < |nodes|
    ensures var ks := Build(nodes, first); var k := FindBranch(ks, t);
            && (k < |ks| ==> cur == ks[k].node)
            && (k == |ks| ==> cur == NONE && (ks == [] ==> prev == NONE) && (ks != [] ==> prev == ks[k - 1].node && nodes[prev].nextSibling == NONE))
  {
    hide Labels, Unique, FindBranch, Build;
    cur, prev := first, NONE;
    ghost var ks := Build(nodes, first);
    ghost var k := 0;
    assert ks[0..] == ks;
    while cur != NONE
      invariant NONE <= cur < |nodes| && NONE <= prev < |nodes| && 0 <= k <= |ks|
      invariant Build(nodes, cur) == ks[k..] && FindBranch(ks, t) == k + FindBranch(ks[k..], t)
      invariant if k == 0 then prev == NONE else prev == ks[k - 1].node && nodes[prev].nextSibling == cur
      decreases if cur == NONE then 0 else |nodes| - cur
    {
      LabelsStep(nodes, cur);
      FindStep(ks[k..], t);
      assert ks[k] == ks[k..][0] && ks[k..][1..] == ks[k + 1..];
      if Matches(nodes[cur].tag, t) { return; }
      prev := cur;
      cur := nodes[cur].nextSibling;
      k := k + 1;
    }
    FindInEmpty(t);
  }

  lemma FindInEmpty(t: Tag)
    ensures FindBranch([], t) == 0
  {
  }

  // The arena with a node `t` linked behind `prev`, or first below `parent`.
  predicate Linkup(nodes: seq<Node>, first: int, parent: int, prev: int, t: Tag, nodes': seq<Node>, first': int)
    requires NONE <= parent < |nodes| && NONE <= prev < |nodes|
  {
    var n, grown := |nodes|, nodes + [Node(t, NONE, NONE, NONE)];
    if prev != NONE then first' == first && nodes' == grown[prev := nodes[prev].(nextSibling := n)]
    else if parent != NONE then first' == first && nodes' == grown[parent := nodes[parent].(firstChild := n)]
    else first' == n && nodes' == grown
  }

  ghost predicate ParentAt(nodes: seq<Node>, first: int, path: seq<Tag>, parent: int)
    requires Linked(nodes) && NONE <= first < |nodes|
  {
    && (path == [] <==> parent == NONE)
    && (path != [] ==> At(Build(nodes, first), path).Some? && At(Build(nodes, first), path).value.node == parent)
  }

  lemma LinkupLinked(nodes: seq<Node>, first: int, parent: int, prev: int, t: Tag, nodes': seq<Node>, first': int)
    requires Linked(nodes) && NONE <= parent < |nodes| && NONE <= prev < |nodes| && Linkup(nodes, first, parent, prev, t, nodes', first')
    ensures Linked(nodes') && AgreesOutside(nodes, nodes', if prev != NONE then prev else if parent != NONE then parent else |nodes|)
    ensures nodes'[|nodes|] == Node(t, NONE, NONE, NONE)
  {
  }

  lemma {:induction false} AppendNode(nodes: seq<Node>, first: int, path: seq<Tag>, parent: int, prev: int, t: Tag,
                                      nodes': seq<Node>, first': int)
    requires TrieOk(nodes, first) && ParentAt(nodes, first, path, parent) && NONE <= parent < |nodes| && NONE <= prev < |nodes|
    requires var ks := KidsAt(Build(nodes, first), path);
             && FindBranch(ks, t) == |ks|
             && if ks == [] then prev == NONE else prev == ks[|ks| - 1].node && nodes[prev].nextSibling == NONE
    requires Linkup(nodes, first, parent, prev, t, nodes', first')
    ensures TrieOk(nodes', first')
    ensures Build(nodes', first') == Grown(Build(nodes, first), path, Branch(|nodes|, t, NONE, []))
  {
    hide FindBranch, At, Update, Build, Labels, Unique, TagsDiffer;
    var ts, ks, b := Build(nodes, first), KidsAt(Build(nodes, first), path), Branch(|nodes|, t, NONE, []);
    LinkupLinked(nodes, first, parent, prev, t, nodes', first');
    var start := if path == [] then first else nodes[parent].firstChild;
    if path != [] {
      BranchIsNode(nodes, first, path);
      UniqueAt(ts, path);
    }
    assert Build(nodes, start) == ks;
    LabelsStep(nodes', |nodes|);
    NoBranches(nodes');
    if ks != [] {
      MemberLabel(ks, |ks| - 1);
      ExtendChain(nodes, nodes', start, prev, t);
    }
    if path != [] {
      assert Build(nodes', nodes'[parent].firstChild) == ks + [b];
      UpdateBuild(nodes, nodes', first, path, if prev != NONE then prev else parent);
    }
    assert Build(nodes', first') == Grown(ts, path, b);
    GrownTags(ts, path, b);
    GrownLabels(ts, path, b);
  }

  lemma NoBranches(nodes: seq<Node>)
    requires Linked(nodes)
    ensures Build(nodes, NONE) == []
  {
  }

  class BerProjection {
    const schema: seq<Desc>
    const root: nat
    var nodes: seq<Node>
    var paths: seq<string>
    var rootFirst: int
    var leafCount: nat
    var finalized: bool
    ghost var keys: seq<seq<Tag>>  // tag path of each slot

    ghost predicate Valid()
      reads this
    {
      && SchemaOk(schema) && root < |schema|
      && TrieOk(nodes, rootFirst) && leafCount == |keys| && SlotsOk(Tree(), keys) && PathsOk(schema, root, paths, keys)
    }

    ghost function Tree(): seq<Branch>
      requires Linked(nodes) && NONE <= rootFirst < |nodes|
      reads this
    {
      Build(nodes, rootFirst)
    }

    constructor (schema: seq<Desc>, root: nat)
      requires SchemaOk(schema) && root < |schema|
      ensures Valid() && leafCount == 0 && !finalized && this.schema == schema && this.root == root
      ensures forall q :: FieldAt(Tree(), q) == NONE
    {
      this.schema, this.root := schema, root;
      nodes, paths, rootFirst, leafCount, finalized, keys := [], [], NONE, 0, false, [];
    }

    // The child of `parent` with the tag, new if there was none.  It moves no slot.
    method EnsureNode(parent: int, t: Tag, ghost path: seq<Tag>) returns (idx: nat)
      requires Valid() && NONE <= parent < |nodes| && ParentAt(nodes, rootFirst, path, parent)
      modifies this
      ensures Valid() && SameFields(old(Tree()), Tree())
      ensures keys == old(keys) && paths == old(paths) && leafCount == old(leafCount) && finalized == old(finalized)
      ensures idx < |nodes| && ParentAt(nodes, rootFirst, path + [t], idx)
      ensures old(At(Tree(), path + [t])).Some? ==> nodes == old(nodes) && rootFirst == old(rootFirst)
    {
      hide FindBranch, At, Update, Build, Labels, Unique, TagsDiffer, Grown, FieldAt, PathsOk;
      ghost var ts, ks := Tree(), KidsAt(Tree(), path);
      var first := rootFirst;
      if parent != NONE {
        BranchIsNode(nodes, rootFirst, path);
        first := nodes[parent].firstChild;
      }
      FoundBelow(ts, path, t);
      var cur, prev := ScanSiblings(nodes, first, t);
      if cur != NONE { return cur; }
      idx := |nodes|;
      ghost var before := nodes;
      nodes := nodes + [Node(t, NONE, NONE, NONE)];
      if prev != NONE {
        nodes := nodes[prev := nodes[prev].(nextSibling := idx)];
      } else if parent != NONE {
        nodes := nodes[parent := nodes[parent].(firstChild := idx)];
      } else {
        rootFirst := idx;
      }
      AppendNode(before, old(rootFirst), path, parent, prev, t, nodes, rootFirst);
      GrownFields(ts, path, Branch(idx, t, NONE, []));
      GrownAt(ts, path, Branch(idx, t, NONE, []));
      SlotsMoved(ts, Tree(), keys);
    }

    // Registers a path of names separated by slashes.  A path that fails keeps
    // the nodes it added on the way but no slot.
    method AddPath(path: string) returns (r: Option<Handle>)
      requires Valid()
      modifies this
      ensures Valid() && finalized == old(finalized)
      ensures r.Some? <==> !old(finalized) && Resolve(schema, root, path).Some?
      ensures r.Some? ==> Leads(schema, root, path, Tags(path), r.value.desc)
      ensures r.None? ==> old(finalized) || LeadsNowhere(schema, root, path)
      ensures r.Some? ==> r.value.index == FieldAt(Tree(), Tags(path)) < leafCount && r.value.desc == Resolve(schema, root, path).value.desc
      ensures forall q {:trigger FieldAt(Tree(), q)} :: (r.Some? && SamePath(q, Tags(path))) || FieldAt(Tree(), q) == old(FieldAt(Tree(), q))
      ensures if r.Some? && old(FieldAt(Tree(), Tags(path))) == NONE
              then r.value.index == old(leafCount) && paths == old(paths) + [path] && keys == old(keys) + [Tags(path)]
              else paths == old(paths) && keys == old(keys)
      ensures old(finalized) || (r.Some? && old(FieldAt(Tree(), Tags(path))) != NONE) ==> nodes == old(nodes) && rootFirst == old(rootFirst)
    {
      hide FindBranch, At, Update, Build, Labels, Unique, TagsDiffer, Grown, FieldAt, PathsOk, SlotsOk, Navigate, Leads, LeadsNowhere;
      if finalized { return None; }
      Resolved(schema, root, path);
      if path == [] {
        EmptyName(schema, root);
        return None;
      }
      var rest, parent, tail := path, NONE, true;
      var d: nat := root;
      ghost var done: seq<Tag> := [];
      ghost var full := Resolve(schema, root, path);
      assert Prefixed([], full) == full by { if full.Some? { assert [] + full.value.tags == full.value.tags; } }
      while tail
        invariant Valid() && d < |schema| && NONE <= parent < |nodes| && ParentAt(nodes, rootFirst, done, parent)
        invariant !finalized && keys == old(keys) && paths == old(paths) && SameFields(old(Tree()), Tree())
        invariant if tail then Prefixed(done, Resolve(schema, d, rest)) == full else full == Some(Target(done, d)) && done != []
        invariant full.Some? && old(At(Tree(), full.value.tags)).Some? ==> nodes == old(nodes) && rootFirst == old(rootFirst)
        decreases tail, |rest|
      {
        var k := SlashAt(rest);
        ResolveStep(schema, d, rest, done);
        var step := Navigate(schema, d, rest[..k]);
        if step.None? { return None; }
        ghost var now := done + [step.value.tag];
        if full.Some? && old(At(Tree(), full.value.tags)).Some? {
          assert full.value.tags == now + full.value.tags[|now|..];
          AtPrefix(Tree(), now, full.value.tags[|now|..]);
        }
        parent := EnsureNode(parent, step.value.tag, done);
        done, d, tail := now, step.value.desc, k < |rest|;
        rest := if tail then rest[k + 1..] else [];
      }
      FieldNeedsBranch(old(Tree()), done);
      var slot := AssignSlot(parent, done, path);
      return Some(Handle(slot, d));
    }

    // The tag path a path of names resolves to.
    ghost function Tags(path: string): seq<Tag>
      requires SchemaOk(schema) && root < |schema|
    {
      if Resolve(schema, root, path).Some? then Resolve(schema, root, path).value.tags else []
    }

    method AssignSlot(idx: int, ghost tags: seq<Tag>, path: string) returns (slot: nat)
      requires Valid() && 0 <= idx < |nodes| && ParentAt(nodes, rootFirst, tags, idx) && Tags(path) == tags
      modifies this
      ensures Valid() && finalized == old(finalized) && slot == FieldAt(Tree(), tags) && slot < leafCount
      ensures forall q {:trigger FieldAt(Tree(), q)} :: SamePath(q, tags) || FieldAt(Tree(), q) == old(FieldAt(Tree(), q))
      ensures if old(FieldAt(Tree(), tags)) == NONE
              then slot == old(leafCount) && paths == old(paths) + [path] && keys == old(keys) + [tags]
              else nodes == old(nodes) && rootFirst == old(rootFirst) && paths == old(paths) && keys == old(keys)
    {
      hide FindBranch, At, Update, Build, Labels, Unique, TagsDiffer, Grown, FieldAt;
      BranchIsNode(nodes, rootFirst, tags);
      FieldOfBranch(Tree(), tags);
      if nodes[idx].field == NONE {
        ghost var before := nodes;
        nodes := nodes[idx := nodes[idx].(field := leafCount)];
        leafCount := leafCount + 1;
        paths := paths + [path];
        keys := keys + [tags];
        SlotSet(before, rootFirst, tags, idx, nodes, old(keys));
      }
      slot := nodes[idx].field;
    }
  }

  // A search in the children at a path is a search one tag further.
  lemma FoundBelow(ts: seq<Branch>, path: seq<Tag>, t: Tag)
    requires path != [] ==> At(ts, path).Some?
    ensures var ks := KidsAt(ts, path); var k := FindBranch(ks, t);
            At(ts, path + [t]) == if k < |ks| then Some(ks[k]) else None
  {
    if path == [] {
      assert path + [t] == [t];
    } else {
      AtSnoc(ts, path, t);
    }
  }

  lemma SlotsMoved(ts: seq<Branch>, us: seq<Branch>, keys: seq<seq<Tag>>)
    requires SlotsOk(ts, keys) && SameFields(ts, us)
    ensures SlotsOk(us, keys)
  {
    forall s {:trigger keys[s]} | 0 <= s < |keys| ensures keys[s] != [] && FieldAt(us, keys[s]) == s { assert FieldAt(ts, keys[s]) == s; }
  }

  ghost function Prefixed(done: seq<Tag>, r: Option<Target>): Option<Target> {
    if r.None? then None else Some(Target(done + r.value.tags, r.value.desc))
  }

  lemma EmptyName(schema: seq<Desc>, d: nat)
    requires SchemaOk(schema) && d < |schema|
    ensures Resolve(schema, d, []).None?
  {
  }

  lemma ResolveStep(schema: seq<Desc>, d: nat, rest: string, done: seq<Tag>)
    requires SchemaOk(schema) && d < |schema|
    ensures var k := SlashAt(rest);
            var s := Navigate(schema, d, rest[..k]);
            Prefixed(done, Resolve(schema, d, rest))
            == if s.None? then None
               else if k == |rest| then Some(Target(done + [s.value.tag], s.value.desc))
               else Prefixed(done + [s.value.tag], Resolve(schema, s.value.desc, rest[k + 1..]))
  {
    var k := SlashAt(rest);
    var s := Navigate(schema, d, rest[..k]);
    if s.Some? && k < |rest| {
      var r := Resolve(schema, s.value.desc, rest[k + 1..]);
      if r.Some? { assert done + ([s.value.tag] + r.value.tags) == (done + [s.value.tag]) + r.value.tags; }
    }
  }

  // Giving a node the next free slot.
  lemma SlotSet(nodes: seq<Node>, first: int, tags: seq<Tag>, idx: nat, nodes': seq<Node>, keys: seq<seq<Tag>>)
    requires TrieOk(nodes, first) && idx < |nodes| && ParentAt(nodes, first, tags, idx) && SlotsOk(Build(nodes, first), keys)
    requires nodes[idx].field == NONE && nodes' == nodes[idx := nodes[idx].(field := |keys|)]
    ensures TrieOk(nodes', first) && SlotsOk(Build(nodes', first), keys + [tags])
    ensures forall q {:trigger FieldAt(Build(nodes', first), q)} ::
              FieldAt(Build(nodes', first), q) == if SamePath(q, tags) then |keys| else FieldAt(Build(nodes, first), q)
  {
    hide FindBranch, At, Update, Build, Labels, Unique, TagsDiffer, FieldAt, SlotsOk;
    var ts, b := Build(nodes, first), At(Build(nodes, first), tags).value;
    var c := b.(field := |keys|);
    BranchIsNode(nodes, first, tags);
    UniqueAt(ts, tags);
    FieldSetLinked(nodes, idx, |keys|);
    BuildSame(nodes, nodes', nodes[idx].firstChild, idx);
    UpdateBuild(nodes, nodes', first, tags, idx);
    assert Build(nodes', first) == Update(ts, tags, c);
    UniqueUpdate(ts, tags, c, {});
    TagsDifferAt(ts, tags);
    TagsDifferUpdate(ts, tags, c);
    forall q {:trigger FieldAt(Build(nodes', first), q)}
      ensures FieldAt(Build(nodes', first), q) == if SamePath(q, tags) then |keys| else FieldAt(ts, q)
    {
      SetField(ts, tags, |keys|, q);
    }
    FieldOfBranch(ts, tags);
    SlotAdded(ts, Build(nodes', first), keys, tags);
  }

  lemma FieldOfBranch(ts: seq<Branch>, tags: seq<Tag>)
    requires At(ts, tags).Some?
    ensures FieldAt(ts, tags) == At(ts, tags).value.field
  {
  }

  lemma FieldNeedsBranch(ts: seq<Branch>, tags: seq<Tag>)
    ensures FieldAt(ts, tags) != NONE ==> At(ts, tags).Some?
  {
  }

  lemma FieldSetLinked(nodes: seq<Node>, idx: nat, v: nat)
    requires Linked(nodes) && idx < |nodes|
    ensures AgreesOutside(nodes, nodes[idx := nodes[idx].(field := v)], idx)
  {
  }

  lemma SlotAdded(ts: seq<Branch>, us: seq<Branch>, keys: seq<seq<Tag>>, tags: seq<Tag>)
    requires SlotsOk(ts, keys) && FieldAt(ts, tags) == NONE && tags != []
    requires forall q {:trigger FieldAt(us, q)} :: FieldAt(us, q) == if SamePath(q, tags) then |keys| else FieldAt(ts, q)
    ensures SlotsOk(us, keys + [tags])
  {
    hide FieldAt;
    var now := keys + [tags];
    forall s {:trigger now[s]} | 0 <= s < |now| ensures now[s] != [] && FieldAt(us, now[s]) == s {
      if s < |keys| {
        assert now[s] == keys[s];
        if SamePath(keys[s], tags) { SameTagSameField(ts, keys[s], tags); }
      } else {
        assert SamePath(tags, tags);
      }
    }
    forall q {:trigger FieldAt(us, q)} ensures NONE <= FieldAt(us, q) < |now| && (FieldAt(us, q) != NONE ==> SamePath(q, now[FieldAt(us, q)])) {
      assert NONE <= FieldAt(ts, q) < |keys|;
    }
  }

  // ---- histories ----

  ghost predicate HandleFor(schema: seq<Desc>, root: nat, ts: seq<Branch>, count: nat, path: string, h: Option<Handle>)
    requires SchemaOk(schema) && root < |schema|
  {
    var r := Resolve(schema, root, path);
    && (h.Some? <==> r.Some?)
    && (h.Some? ==> h.value.index < count && FieldAt(ts, r.value.tags) == h.value.index && h.value.desc == r.value.desc)
  }

  predicate Names(h: Option<Handle>, s: nat) {
    h.Some? && h.value.index == s
  }

  predicate Named(handles: seq<Option<Handle>>, s: nat) {
    exists i :: 0 <= i < |handles| && Names(handles[i], s)
  }

  // Every path has its slot, and every slot a path.
  ghost predicate HandlesOk(schema: seq<Desc>, root: nat, ts: seq<Branch>, count: nat, paths: seq<string>, handles: seq<Option<Handle>>)
    requires SchemaOk(schema) && root < |schema|
  {
    && |handles| <= |paths|
    && (forall i {:trigger handles[i]} :: 0 <= i < |handles| ==> HandleFor(schema, root, ts, count, paths[i], handles[i]))
    && (forall s: nat :: s < count ==> Named(handles, s))
  }

  lemma HandlesStep(schema: seq<Desc>, root: nat, ts: seq<Branch>, us: seq<Branch>, count: nat, more: nat,
                    paths: seq<string>, handles: seq<Option<Handle>>, h: Option<Handle>)
    requires SchemaOk(schema) && root < |schema| && |handles| < |paths| && HandlesOk(schema, root, ts, count, paths, handles)
    requires HandleFor(schema, root, us, more, paths[|handles|], h)
    requires var tags := if h.Some? then Resolve(schema, root, paths[|handles|]).value.tags else [];
             && (forall q {:trigger FieldAt(us, q)} :: (h.Some? && SamePath(q, tags)) || FieldAt(us, q) == FieldAt(ts, q))
             && (if h.Some? && FieldAt(ts, tags) == NONE then h.value.index == count && more == count + 1 else more == count)
             && (h.Some? && FieldAt(ts, tags) != NONE ==> us == ts)
    ensures HandlesOk(schema, root, us, more, paths, handles + [h])
  {
    hide FieldAt, Resolve;
    var now, n := handles + [h], |handles|;
    var tags := if h.Some? then Resolve(schema, root, paths[n]).value.tags else [];
    forall i {:trigger now[i]} | 0 <= i < |now| ensures HandleFor(schema, root, us, more, paths[i], now[i]) {
      if i < n {
        assert HandleFor(schema, root, ts, count, paths[i], handles[i]);
        if h.Some? && handles[i].Some? {
          var p := Resolve(schema, root, paths[i]).value.tags;
          if SamePath(p, tags) { SameTagSameField(ts, p, tags); }
        }
      }
    }
    forall s: nat | s < more ensures Named(now, s) {
      if s < count {
        assert Named(handles, s);
        var i :| 0 <= i < n && Names(handles[i], s);
        assert Names(now[i], s);
      } else {
        assert Names(now[n], s);
      }
    }
  }

  // The same class and number at every step.
  predicate TagsAgree(t: seq<Tag>, u: seq<Tag>) {
    |t| == |u| && forall i {:trigger t[i]} :: 0 <= i < |t| ==> t[i].cls == u[i].cls && t[i].number == u[i].number
  }

  // Any history of registrations, failing ones among them: handles are equal
  // exactly for equal tags along the named members, and number the slots
  // without a gap.
  method RegisterAll(schema: seq<Desc>, root: nat, paths: seq<string>) returns (p: BerProjection, handles: seq<Option<Handle>>)
    requires SchemaOk(schema) && root < |schema|
    ensures p.Valid() && fresh(p) && p.schema == schema && p.root == root
    ensures |handles| == |paths| && HandlesOk(schema, root, p.Tree(), p.leafCount, paths, handles)
    ensures forall i {:trigger handles[i]} :: 0 <= i < |paths| ==>
              if handles[i].Some? then
                Leads(schema, root, paths[i], p.Tags(paths[i]), handles[i].value.desc) && handles[i].value.index < p.leafCount
              else LeadsNowhere(schema, root, paths[i])
    ensures forall i, j {:trigger handles[i], handles[j]} :: 0 <= i < |paths| && 0 <= j < |paths| && handles[i].Some? && handles[j].Some? ==>
              (handles[i].value.index == handles[j].value.index <==> TagsAgree(p.Tags(paths[i]), p.Tags(paths[j])))
  {
    hide FieldAt, SlotsOk, PathsOk, Build, HandlesOk, Unique, TagsDiffer, Labels, Leads, LeadsNowhere;
    p := new BerProjection(schema, root);
    handles := [];
    NoHandles(schema, root, p.Tree(), paths);
    while |handles| < |paths|
      invariant p.Valid() && fresh(p) && !p.finalized && p.schema == schema && p.root == root && |handles| <= |paths|
      invariant HandlesOk(schema, root, p.Tree(), p.leafCount, paths, handles)
    {
      ghost var was, count := p.Tree(), p.leafCount;
      var h := p.AddPath(paths[|handles|]);
      HandlesStep(schema, root, was, p.Tree(), count, p.leafCount, paths, handles, h);
      handles := handles + [h];
    }
    forall i | 0 <= i < |paths|
      ensures if handles[i].Some? then
                Leads(schema, root, paths[i], p.Tags(paths[i]), handles[i].value.desc) && handles[i].value.index < p.leafCount
              else LeadsNowhere(schema, root, paths[i])
    {
      HandleLeads(schema, root, p.Tree(), p.leafCount, paths, handles, i);
    }
    forall i, j {:trigger handles[i], handles[j]} | 0 <= i < |paths| && 0 <= j < |paths| && handles[i].Some? && handles[j].Some?
      ensures handles[i].value.index == handles[j].value.index <==> TagsAgree(p.Tags(paths[i]), p.Tags(paths[j]))
    {
      TwoHandles(schema, root, p.Tree(), p.keys, paths, handles, i, j);
    }
  }

  lemma NoHandles(schema: seq<Desc>, root: nat, ts: seq<Branch>, paths: seq<string>)
    requires SchemaOk(schema) && root < |schema|
    ensures HandlesOk(schema, root, ts, 0, paths, [])
  {
  }

  lemma HandleLeads(schema: seq<Desc>, root: nat, ts: seq<Branch>, count: nat, paths: seq<string>, handles: seq<Option<Handle>>, i: nat)
    requires SchemaOk(schema) && root < |schema| && HandlesOk(schema, root, ts, count, paths, handles) && i < |handles|
    ensures if handles[i].Some? then
              Resolve(schema, root, paths[i]).Some?
              && Leads(schema, root, paths[i], Resolve(schema, root, paths[i]).value.tags, handles[i].value.desc)
              && handles[i].value.index < count
            else LeadsNowhere(schema, root, paths[i])
  {
    hide FieldAt, Resolve, Leads, LeadsNowhere;
    assert HandleFor(schema, root, ts, count, paths[i], handles[i]);
    Resolved(schema, root, paths[i]);
  }

  lemma TwoHandles(schema: seq<Desc>, root: nat, ts: seq<Branch>, keys: seq<seq<Tag>>, paths: seq<string>,
                   handles: seq<Option<Handle>>, i: nat, j: nat)
    requires SchemaOk(schema) && root < |schema| && SlotsOk(ts, keys) && HandlesOk(schema, root, ts, |keys|, paths, handles)
    requires i < |handles| && j < |handles| && handles[i].Some? && handles[j].Some?
    ensures Resolve(schema, root, paths[i]).Some? && Resolve(schema, root, paths[j]).Some?
    ensures handles[i].value.index == handles[j].value.index
         <==> TagsAgree(Resolve(schema, root, paths[i]).value.tags, Resolve(schema, root, paths[j]).value.tags)
  {
    hide FieldAt, Resolve;
    assert HandleFor(schema, root, ts, |keys|, paths[i], handles[i]) && HandleFor(schema, root, ts, |keys|, paths[j], handles[j]);
    var p, q := Resolve(schema, root, paths[i]).value.tags, Resolve(schema, root, paths[j]).value.tags;
    if SamePath(p, q) { SameTagSameField(ts, p, q); }
    if FieldAt(ts, p) == FieldAt(ts, q) {
      var k := keys[FieldAt(ts, p)];
      assert SamePath(p, k) && SamePath(q, k);
      forall x {:trigger p[x]} | 0 <= x < |p| ensures Matches(p[x], q[x]) { assert Matches(p[x], k[x]) && Matches(q[x], k[x]); }
    }
  }
}
