/**
 * The trie of registered field paths: nodes in a flat arena, linked by index,
 * grown one path at a time.
 */
module ProjectionTrie {
  import opened Options
  import opened BerTlv

  const NONE: int := -1

  // First child, next sibling and result slot by index, NONE for none.
  datatype Node = Node(tag: Tag, firstChild: int, nextSibling: int, field: int)

  predicate LinkOk(link: int, i: nat, n: nat) {
    link == NONE || i < link < n
  }

  // Links lead to larger indices only, so every scan ends.
  predicate Linked(nodes: seq<Node>) {
    forall i {:trigger nodes[i]} :: 0 <= i < |nodes| ==>
      LinkOk(nodes[i].firstChild, i, |nodes|) && LinkOk(nodes[i].nextSibling, i, |nodes|) && nodes[i].field >= NONE
  }

  // The tree below a chain of siblings.
  datatype Branch = Branch(node: nat, tag: Tag, field: int, kids: seq<Branch>)

  ghost function Build(nodes: seq<Node>, i: int): (ts: seq<Branch>)
    requires Linked(nodes) && NONE <= i < |nodes|
    ensures i == NONE <==> ts == []
    ensures i != NONE ==> ts[0].node == i
    decreases if i == NONE then 0 else |nodes| - i
  {
    if i == NONE then []
    else [Branch(i, nodes[i].tag, nodes[i].field, Build(nodes, nodes[i].firstChild))] + Build(nodes, nodes[i].nextSibling)
  }

  ghost function Labels(ts: seq<Branch>): set<nat> {
    if ts == [] then {} else {ts[0].node} + Labels(ts[0].kids) + Labels(ts[1..])
  }

  // No node is reached twice.
  ghost predicate Unique(ts: seq<Branch>) {
    ts != [] ==>
      && ts[0].node !in Labels(ts[0].kids) && ts[0].node !in Labels(ts[1..])
      && Labels(ts[0].kids) !! Labels(ts[1..])
      && Unique(ts[0].kids) && Unique(ts[1..])
  }

  // Siblings' tags differ.
  ghost predicate TagsDiffer(ts: seq<Branch>) {
    ts != [] ==>
      && (forall k {:trigger ts[k]} :: 1 <= k < |ts| ==> !Matches(ts[k].tag, ts[0].tag))
      && TagsDiffer(ts[0].kids) && TagsDiffer(ts[1..])
  }

  // ---- nodes by tag path ----

  // The first sibling with the tag.
  function FindBranch(ts: seq<Branch>, t: Tag): (k: nat)
    ensures k <= |ts| && (k < |ts| ==> Matches(ts[k].tag, t))
    ensures forall j :: 0 <= j < k ==> !Matches(ts[j].tag, t)
  {
    if ts == [] || Matches(ts[0].tag, t) then 0 else 1 + FindBranch(ts[1..], t)
  }

  function At(ts: seq<Branch>, path: seq<Tag>): Option<Branch>
    decreases |path|
  {
    if path == [] then None
    else
      var k := FindBranch(ts, path[0]);
      if k == |ts| then None else if |path| == 1 then Some(ts[k]) else At(ts[k].kids, path[1..])
  }

  // The result slot registered for a tag path.
  function FieldAt(ts: seq<Branch>, path: seq<Tag>): int {
    if At(ts, path).None? then NONE else At(ts, path).value.field
  }

  predicate SamePath(p: seq<Tag>, q: seq<Tag>) {
    |p| == |q| && forall i :: 0 <= i < |p| ==> Matches(p[i], q[i])
  }

  // The tree with the branch at a path replaced.
  function Update(ts: seq<Branch>, path: seq<Tag>, b: Branch): (r: seq<Branch>)
    ensures |r| == |ts|
    decreases |path|
  {
    if path == [] then ts
    else
      var k := FindBranch(ts, path[0]);
      if k == |ts| then ts
      else if |path| == 1 then ts[k := b]
      else ts[k := ts[k].(kids := Update(ts[k].kids, path[1..], b))]
  }

  // The arena agrees with another one outside index `x`.
  ghost predicate AgreesOutside(nodes: seq<Node>, nodes': seq<Node>, x: nat) {
    |nodes| <= |nodes'| && Linked(nodes) && Linked(nodes') && forall i :: 0 <= i < |nodes| && i != x ==> nodes'[i] == nodes[i]
  }

  // A change outside a tree leaves it alone.
  lemma {:induction false} BuildSame(nodes: seq<Node>, nodes': seq<Node>, i: int, x: nat)
    requires AgreesOutside(nodes, nodes', x) && NONE <= i < |nodes| && x !in Labels(Build(nodes, i))
    ensures Build(nodes', i) == Build(nodes, i)
    decreases if i == NONE then 0 else |nodes| - i
  {
    if i != NONE {
      assert nodes'[i] == nodes[i];
      assert Build(nodes, i)[1..] == Build(nodes, nodes[i].nextSibling);
      BuildSame(nodes, nodes', nodes[i].firstChild, x);
      BuildSame(nodes, nodes', nodes[i].nextSibling, x);
    }
  }

  lemma LabelsStep(nodes: seq<Node>, i: nat)
    requires Linked(nodes) && i < |nodes|
    ensures Build(nodes, i)[0] == Branch(i, nodes[i].tag, nodes[i].field, Build(nodes, nodes[i].firstChild))
    ensures Build(nodes, i)[1..] == Build(nodes, nodes[i].nextSibling)
    ensures Labels(Build(nodes, i)) == {i} + Labels(Build(nodes, nodes[i].firstChild)) + Labels(Build(nodes, nodes[i].nextSibling))
    ensures Unique(Build(nodes, i)) ==>
              && i !in Labels(Build(nodes, nodes[i].firstChild)) && i !in Labels(Build(nodes, nodes[i].nextSibling))
              && Labels(Build(nodes, nodes[i].firstChild)) !! Labels(Build(nodes, nodes[i].nextSibling))
              && Unique(Build(nodes, nodes[i].firstChild)) && Unique(Build(nodes, nodes[i].nextSibling))
  {
    var ts := Build(nodes, i);
    assert ts[1..] == Build(nodes, nodes[i].nextSibling);
  }

  lemma FindStep(ts: seq<Branch>, t: Tag)
    requires ts != []
    ensures FindBranch(ts, t) == if Matches(ts[0].tag, t) then 0 else 1 + FindBranch(ts[1..], t)
  {
  }

  // A change inside the branch at a path, and nowhere else, updates that branch.
  lemma {:induction false} UpdateBuild(nodes: seq<Node>, nodes': seq<Node>, i: int, path: seq<Tag>, x: nat)
    requires AgreesOutside(nodes, nodes', x) && NONE <= i < |nodes| && Unique(Build(nodes, i))
    requires At(Build(nodes, i), path).Some?
    requires var b := At(Build(nodes, i), path).value;
             (x == b.node || x in Labels(b.kids)) && b.node < |nodes|
             && nodes'[b.node].nextSibling == nodes[b.node].nextSibling && nodes'[b.node].tag == nodes[b.node].tag
    ensures var p := At(Build(nodes, i), path).value.node;
            Build(nodes', i) == Update(Build(nodes, i), path, Branch(p, nodes'[p].tag, nodes'[p].field, Build(nodes', nodes'[p].firstChild)))
    decreases |path|, if i == NONE then 0 else |nodes| - i
  {
    var ts := Build(nodes, i);
    var p := At(ts, path).value.node;
    LabelsStep(nodes, i);
    LabelsStep(nodes', i);
    AtNonempty(ts, path);
    var q := Branch(p, nodes'[p].tag, nodes'[p].field, Build(nodes', nodes'[p].firstChild));
    hide Build, Labels, Unique, FindBranch, At, Update;
    if Matches(ts[0].tag, path[0]) {
      AtHit(ts, path, q);
      InsideLabels(ts[0].kids, path[1..], x);
      BuildSame(nodes, nodes', nodes[i].nextSibling, x);
      if |path| > 1 { UpdateBuild(nodes, nodes', nodes[i].firstChild, path[1..], x); }
    } else {
      AtSkip(ts, path, q);
      InsideLabels(ts[1..], path, x);
      BuildSame(nodes, nodes', nodes[i].firstChild, x);
      UpdateBuild(nodes, nodes', nodes[i].nextSibling, path, x);
    }
  }

  lemma AtNonempty(ts: seq<Branch>, path: seq<Tag>)
    ensures At(ts, path).Some? ==> ts != [] && path != []
  {
  }

  lemma {:induction false} AtHit(ts: seq<Branch>, path: seq<Tag>, b: Branch)
    requires ts != [] && path != [] && Matches(ts[0].tag, path[0])
    ensures At(ts, path) == if |path| == 1 then Some(ts[0]) else At(ts[0].kids, path[1..])
    ensures Update(ts, path, b) == [if |path| == 1 then b else ts[0].(kids := Update(ts[0].kids, path[1..], b))] + ts[1..]
  {
  }

  lemma {:induction false} AtSkip(ts: seq<Branch>, path: seq<Tag>, b: Branch)
    requires ts != [] && path != [] && !Matches(ts[0].tag, path[0])
    ensures At(ts, path) == At(ts[1..], path)
    ensures Update(ts, path, b) == [ts[0]] + Update(ts[1..], path, b)
  {
    var k := FindBranch(ts[1..], path[0]);
    assert FindBranch(ts, path[0]) == 1 + k;
  }

  // The branch at a path has its labels inside the tree.
  lemma {:induction false} InsideLabels(ts: seq<Branch>, path: seq<Tag>, x: nat)
    requires At(ts, path).Some? ==> x == At(ts, path).value.node || x in Labels(At(ts, path).value.kids)
    ensures At(ts, path).Some? ==> x in Labels(ts)
    decreases |path|, |ts|
  {
    if path != [] && ts != [] {
      FindStep(ts, path[0]);
      if Matches(ts[0].tag, path[0]) {
        if |path| > 1 { InsideLabels(ts[0].kids, path[1..], x); }
      } else {
        AtSkip(ts, path, ts[0]);
        InsideLabels(ts[1..], path, x);
      }
    }
  }

  // Linking a new node behind the last sibling extends the chain.
  lemma {:induction false} ExtendChain(nodes: seq<Node>, nodes': seq<Node>, i: nat, last: nat, t: Tag)
    requires Linked(nodes) && i < |nodes| && Unique(Build(nodes, i)) && last < |nodes|
    requires Build(nodes, i)[|Build(nodes, i)| - 1].node == last && nodes[last].nextSibling == NONE
    requires |nodes'| == |nodes| + 1 && nodes'[|nodes|] == Node(t, NONE, NONE, NONE)
    requires AgreesOutside(nodes, nodes', last) && nodes'[last] == nodes[last].(nextSibling := |nodes|)
    ensures Build(nodes', i) == Build(nodes, i) + [Branch(|nodes|, t, NONE, [])]
    decreases |nodes| - i
  {
    var n, ts := |nodes|, Build(nodes, i);
    LabelsStep(nodes, i);
    LabelsStep(nodes', i);
    LabelsStep(nodes', n);
    LastLabel(nodes, i);
    BuildSame(nodes, nodes', nodes[i].firstChild, last);
    if i == last {
      assert ts == [ts[0]];
    } else {
      assert ts[|ts| - 1] == ts[1..][|ts| - 2];
      ExtendChain(nodes, nodes', nodes[i].nextSibling, last, t);
    }
  }

  // The last sibling of a chain: the chain's only one, or not in the first's tree.
  lemma LastLabel(nodes: seq<Node>, i: nat)
    requires Linked(nodes) && i < |nodes| && Unique(Build(nodes, i))
    ensures var ts := Build(nodes, i); var last := ts[|ts| - 1].node;
            && last !in Labels(Build(nodes, nodes[i].firstChild))
            && (last == i <==> nodes[i].nextSibling == NONE)
            && (last != i ==> last in Labels(Build(nodes, nodes[i].nextSibling)))
  {
    LabelsStep(nodes, i);
    var ts := Build(nodes, i);
    if nodes[i].nextSibling != NONE {
      assert ts[|ts| - 1] == ts[1..][|ts| - 2];
      MemberLabel(ts[1..], |ts| - 2);
    }
  }

  lemma {:induction false} MemberLabel(ts: seq<Branch>, k: nat)
    requires k < |ts|
    ensures ts[k].node in Labels(ts) && Labels(ts[k].kids) <= Labels(ts)
    decreases k
  {
    if k > 0 { MemberLabel(ts[1..], k - 1); }
  }

  // ---- what an update does to the paths ----

  // Replacing the tree's branch at `path` by one with the same tag: paths
  // through it read from the new one, others as before.
  lemma {:induction false} AtUpdate(ts: seq<Branch>, path: seq<Tag>, b: Branch, q: seq<Tag>)
    requires At(ts, path).Some? && Matches(b.tag, At(ts, path).value.tag) && q != []
    ensures if SamePath(q, path) then At(Update(ts, path, b), q) == Some(b)
            else if |path| < |q| && SamePath(q[..|path|], path) then At(Update(ts, path, b), q) == At(b.kids, q[|path|..])
            else FieldAt(Update(ts, path, b), q) == FieldAt(ts, q) && (At(Update(ts, path, b), q).Some? <==> At(ts, q).Some?)
    decreases |path|
  {
    var k, j := FindBranch(ts, path[0]), FindBranch(ts, q[0]);
    var r := Update(ts, path, b);
    FindUnchanged(ts, r, k, q[0]);
    if Matches(q[0], path[0]) {
      FindAlike(ts, q[0], path[0]);
      if |path| > 1 && |q| > 1 {
        AtUpdate(ts[k].kids, path[1..], b, q[1..]);
        SamePathTail(q, path);
      }
      if |path| == 1 && |q| > 1 {
        assert q[..1] == [q[0]] && q[1..] == q[|path|..];
      }
    } else {
      DifferentFind(ts, q[0], path[0]);
    }
  }

  lemma SamePathTail(q: seq<Tag>, path: seq<Tag>)
    requires |q| > 1 && |path| > 1 && Matches(q[0], path[0])
    ensures SamePath(q, path) <==> SamePath(q[1..], path[1..])
    ensures |path| < |q| ==> (SamePath(q[..|path|], path) <==> SamePath(q[1..][..|path| - 1], path[1..])) && q[|path|..] == q[1..][|path| - 1..]
  {
    if SamePath(q[1..], path[1..]) {
      forall i | 0 <= i < |q| ensures Matches(q[i], path[i]) {
        if i > 0 { assert Matches(q[1..][i - 1], path[1..][i - 1]); }
      }
    }
    if |path| < |q| {
      assert q[1..][..|path| - 1] == q[..|path|][1..];
      if SamePath(q[1..][..|path| - 1], path[1..]) {
        forall i | 0 <= i < |path| ensures Matches(q[..|path|][i], path[i]) {
          if i > 0 { assert Matches(q[1..][..|path| - 1][i - 1], path[1..][i - 1]); }
        }
      }
    }
  }

  // Changing one branch but not its tag changes no search.
  lemma {:induction false} FindUnchanged(ts: seq<Branch>, r: seq<Branch>, k: nat, t: Tag)
    requires |r| == |ts| && k < |ts| && (forall i :: 0 <= i < |ts| && i != k ==> r[i] == ts[i]) && Matches(r[k].tag, ts[k].tag)
    ensures FindBranch(r, t) == FindBranch(ts, t)
  {
    FindStep(ts, t);
    FindStep(r, t);
    if k == 0 {
      assert r[1..] == ts[1..];
    } else {
      FindUnchanged(ts[1..], r[1..], k - 1, t);
    }
  }

  lemma {:induction false} FindAlike(ts: seq<Branch>, t: Tag, u: Tag)
    requires Matches(t, u)
    ensures FindBranch(ts, t) == FindBranch(ts, u)
  {
    if ts != [] { FindAlike(ts[1..], t, u); }
  }

  lemma DifferentFind(ts: seq<Branch>, t: Tag, u: Tag)
    requires !Matches(t, u)
    ensures FindBranch(ts, t) < |ts| && FindBranch(ts, u) < |ts| ==> FindBranch(ts, t) != FindBranch(ts, u)
  {
  }

  // A new childless branch without a slot registers nothing.
  lemma AtExtended(ts: seq<Branch>, b: Branch, q: seq<Tag>)
    requires b.kids == [] && b.field == NONE && q != []
    ensures FieldAt(ts + [b], q) == FieldAt(ts, q)
    ensures At(ts, q).Some? ==> At(ts + [b], q) == At(ts, q)
    ensures FindBranch(ts, b.tag) == |ts| ==> At(ts + [b], [b.tag]) == Some(b)
  {
    FindExtended(ts, b, q[0]);
    FindExtended(ts, b, b.tag);
    var k := FindBranch(ts, q[0]);
    if k == |ts| && Matches(b.tag, q[0]) {
      assert (ts + [b])[k] == b;
      assert |q| > 1 ==> At(b.kids, q[1..]).None?;
    }
  }

  lemma {:induction false} FindExtended(ts: seq<Branch>, b: Branch, t: Tag)
    ensures FindBranch(ts + [b], t)
         == if FindBranch(ts, t) < |ts| then FindBranch(ts, t) else if Matches(b.tag, t) then |ts| else |ts| + 1
  {
    if ts == [] {
      assert ts + [b] == [b];
      assert [b][1..] == [];
    } else {
      assert (ts + [b])[1..] == ts[1..] + [b];
      FindExtended(ts[1..], b, t);
    }
  }

  // ---- invariants of the tree ----

  lemma {:induction false} TagsDifferExtended(ts: seq<Branch>, b: Branch)
    requires TagsDiffer(ts) && b.kids == [] && FindBranch(ts, b.tag) == |ts|
    ensures TagsDiffer(ts + [b])
  {
    if ts == [] {
      assert ts + [b] == [b];
    } else {
      FindStep(ts, b.tag);
      assert (ts + [b])[1..] == ts[1..] + [b];
      TagsDifferExtended(ts[1..], b);
      MatchesSymmetric(b.tag, ts[0].tag);
    }
  }

  lemma MatchesSymmetric(a: Tag, b: Tag)
    ensures Matches(a, b) <==> Matches(b, a)
  {
  }

  lemma {:induction false} TagsDifferAt(ts: seq<Branch>, path: seq<Tag>)
    requires TagsDiffer(ts) && At(ts, path).Some?
    ensures TagsDiffer(At(ts, path).value.kids)
    decreases |path|
  {
    var k := FindBranch(ts, path[0]);
    TagsDifferKids(ts, k);
    if |path| > 1 { TagsDifferAt(ts[k].kids, path[1..]); }
  }

  lemma {:induction false} TagsDifferKids(ts: seq<Branch>, k: nat)
    requires TagsDiffer(ts) && k < |ts|
    ensures TagsDiffer(ts[k].kids)
    decreases k
  {
    if k > 0 { TagsDifferKids(ts[1..], k - 1); }
  }

  lemma {:induction false} TagsDifferUpdate(ts: seq<Branch>, path: seq<Tag>, b: Branch)
    requires TagsDiffer(ts) && At(ts, path).Some? && b.tag == At(ts, path).value.tag && TagsDiffer(b.kids)
    ensures TagsDiffer(Update(ts, path, b))
    decreases |path|
  {
    var k := FindBranch(ts, path[0]);
    TagsDifferKids(ts, k);
    if |path| > 1 { TagsDifferUpdate(ts[k].kids, path[1..], b); }
    TagsDifferReplace(ts, k, Update(ts, path, b)[k]);
  }

  lemma {:induction false} TagsDifferReplace(ts: seq<Branch>, k: nat, b: Branch)
    requires TagsDiffer(ts) && k < |ts| && b.tag == ts[k].tag && TagsDiffer(b.kids)
    ensures TagsDiffer(ts[k := b])
    decreases k
  {
    if k > 0 {
      TagsDifferReplace(ts[1..], k - 1, b);
      assert ts[k := b][1..] == ts[1..][k - 1 := b];
      forall j {:trigger ts[j]} | 1 <= j < |ts| ensures !Matches(ts[k := b][j].tag, ts[0].tag) { assert !Matches(ts[j].tag, ts[0].tag); }
    } else {
      assert ts[0 := b][1..] == ts[1..];
      forall j {:trigger ts[j]} | 1 <= j < |ts| ensures !Matches(ts[0 := b][j].tag, b.tag) { assert !Matches(ts[j].tag, ts[0].tag); }
    }
  }

  // ---- growing the tree by one node ----

  ghost predicate SameFields(ts: seq<Branch>, us: seq<Branch>) {
    forall q {:trigger FieldAt(us, q)} {:trigger FieldAt(ts, q)} :: FieldAt(us, q) == FieldAt(ts, q)
  }

  lemma {:induction false} UpdateSelf(ts: seq<Branch>, path: seq<Tag>)
    requires At(ts, path).Some?
    ensures Update(ts, path, At(ts, path).value) == ts
    decreases |path|
  {
    if |path| > 1 { UpdateSelf(ts[FindBranch(ts, path[0])].kids, path[1..]); }
  }

  // The branch at a path ends in its parent's children.
  lemma {:induction false} AtSnoc(ts: seq<Branch>, path: seq<Tag>, t: Tag)
    requires path != []
    ensures At(ts, path + [t]) == if At(ts, path).Some? then At(At(ts, path).value.kids, [t]) else None
    decreases |path|
  {
    assert (path + [t])[1..] == path[1..] + [t];
    var k := FindBranch(ts, path[0]);
    if k < |ts| && |path| > 1 { AtSnoc(ts[k].kids, path[1..], t); }
  }

  lemma {:induction false} AtPrefix(ts: seq<Branch>, path: seq<Tag>, more: seq<Tag>)
    requires path != [] && At(ts, path + more).Some?
    ensures At(ts, path).Some?
    decreases |path|
  {
    assert (path + more)[1..] == path[1..] + more;
    if |path| > 1 { AtPrefix(ts[FindBranch(ts, path[0])].kids, path[1..], more); }
  }

  // Only the field of the branch at `path` is set.
  lemma SetField(ts: seq<Branch>, path: seq<Tag>, field: int, q: seq<Tag>)
    requires At(ts, path).Some?
    ensures var us := Update(ts, path, At(ts, path).value.(field := field));
            FieldAt(us, q) == if SamePath(q, path) then field else FieldAt(ts, q)
  {
    hide FindBranch, At, Update;
    var b := At(ts, path).value;
    AtNonempty(ts, path);
    if q == [] {
      NothingAtEmpty(ts);
      NothingAtEmpty(Update(ts, path, b.(field := field)));
    } else {
      UpdateSelf(ts, path);
      AtUpdate(ts, path, b, q);
      AtUpdate(ts, path, b.(field := field), q);
    }
  }

  lemma NothingAtEmpty(ts: seq<Branch>)
    ensures At(ts, []) == None
  {
  }

  // A childless branch at the end of the children at `path`.
  ghost function Grown(ts: seq<Branch>, path: seq<Tag>, b: Branch): seq<Branch>
    requires path != [] ==> At(ts, path).Some?
  {
    if path == [] then ts + [b] else Update(ts, path, At(ts, path).value.(kids := At(ts, path).value.kids + [b]))
  }

  ghost function KidsAt(ts: seq<Branch>, path: seq<Tag>): seq<Branch>
    requires path != [] ==> At(ts, path).Some?
  {
    if path == [] then ts else At(ts, path).value.kids
  }

  lemma GrownFields(ts: seq<Branch>, path: seq<Tag>, b: Branch)
    requires path != [] ==> At(ts, path).Some?
    requires b.kids == [] && b.field == NONE
    ensures SameFields(ts, Grown(ts, path, b))
  {
    forall q ensures FieldAt(Grown(ts, path, b), q) == FieldAt(ts, q) { GrownField(ts, path, b, q); }
  }

  lemma GrownField(ts: seq<Branch>, path: seq<Tag>, b: Branch, q: seq<Tag>)
    requires path != [] ==> At(ts, path).Some?
    requires b.kids == [] && b.field == NONE
    ensures FieldAt(Grown(ts, path, b), q) == FieldAt(ts, q)
  {
    hide FindBranch, At, Update;
    NothingAtEmpty(ts);
    NothingAtEmpty(Grown(ts, path, b));
    if q != [] && path == [] { AtExtended(ts, b, q); }
    if q != [] && path != [] {
      var p := At(ts, path).value;
      UpdateSelf(ts, path);
      AtUpdate(ts, path, p, q);
      AtUpdate(ts, path, p.(kids := p.kids + [b]), q);
      if |path| < |q| { AtExtended(p.kids, b, q[|path|..]); }
    }
  }

  lemma GrownAt(ts: seq<Branch>, path: seq<Tag>, b: Branch)
    requires path != [] ==> At(ts, path).Some?
    requires b.kids == [] && b.field == NONE && FindBranch(KidsAt(ts, path), b.tag) == |KidsAt(ts, path)|
    ensures At(Grown(ts, path, b), path + [b.tag]) == Some(b)
  {
    hide FindBranch, At, Update;
    AtExtended(KidsAt(ts, path), b, [b.tag]);
    if path == [] {
      assert path + [b.tag] == [b.tag];
    } else {
      var p := At(ts, path).value;
      AtUpdate(ts, path, p.(kids := p.kids + [b]), path);
      AtSnoc(Grown(ts, path, b), path, b.tag);
    }
  }

  lemma GrownTags(ts: seq<Branch>, path: seq<Tag>, b: Branch)
    requires path != [] ==> At(ts, path).Some?
    requires TagsDiffer(ts) && b.kids == [] && FindBranch(KidsAt(ts, path), b.tag) == |KidsAt(ts, path)|
    ensures TagsDiffer(Grown(ts, path, b))
  {
    hide FindBranch, At, Update, TagsDiffer;
    if path != [] { TagsDifferAt(ts, path); }
    TagsDifferExtended(KidsAt(ts, path), b);
    if path != [] { TagsDifferUpdate(ts, path, At(ts, path).value.(kids := KidsAt(ts, path) + [b])); }
  }

  lemma {:induction false} UniqueExtended(ts: seq<Branch>, b: Branch)
    requires Unique(ts) && b.kids == [] && b.node !in Labels(ts)
    ensures Unique(ts + [b]) && Labels(ts + [b]) == Labels(ts) + {b.node}
  {
    if ts == [] {
      assert ts + [b] == [b];
    } else {
      assert (ts + [b])[1..] == ts[1..] + [b];
      UniqueExtended(ts[1..], b);
    }
  }

  // New labels below the branch at a path are new labels of the tree.
  lemma {:induction false} UniqueUpdate(ts: seq<Branch>, path: seq<Tag>, b: Branch, more: set<nat>)
    requires Unique(ts) && At(ts, path).Some? && b.node == At(ts, path).value.node && Unique(b.kids)
    requires Labels(b.kids) == Labels(At(ts, path).value.kids) + more && more !! Labels(ts)
    ensures Unique(Update(ts, path, b)) && Labels(Update(ts, path, b)) == Labels(ts) + more
    decreases |path|, |ts|
  {
    hide FindBranch, At, Update, Labels, Unique;
    AtNonempty(ts, path);
    LabelsCons(ts);
    LabelsCons(Update(ts, path, b));
    if Matches(ts[0].tag, path[0]) {
      AtHit(ts, path, b);
      if |path| > 1 { UniqueUpdate(ts[0].kids, path[1..], b, more); }
    } else {
      AtSkip(ts, path, b);
      UniqueUpdate(ts[1..], path, b, more);
    }
  }

  lemma LabelsCons(ts: seq<Branch>)
    requires ts != []
    ensures Labels(ts) == {ts[0].node} + Labels(ts[0].kids) + Labels(ts[1..])
    ensures Unique(ts) <==>
              && ts[0].node !in Labels(ts[0].kids) && ts[0].node !in Labels(ts[1..])
              && Labels(ts[0].kids) !! Labels(ts[1..]) && Unique(ts[0].kids) && Unique(ts[1..])
  {
  }

  lemma GrownLabels(ts: seq<Branch>, path: seq<Tag>, b: Branch)
    requires path != [] ==> At(ts, path).Some?
    requires Unique(ts) && b.kids == [] && b.node !in Labels(ts)
    ensures Unique(Grown(ts, path, b)) && Labels(Grown(ts, path, b)) == Labels(ts) + {b.node}
  {
    hide FindBranch, At, Update, Labels, Unique;
    if path == [] {
      UniqueExtended(ts, b);
    } else {
      var p := At(ts, path).value;
      UniqueAt(ts, path);
      if b.node in Labels(p.kids) { InsideLabels(ts, path, b.node); }
      UniqueExtended(p.kids, b);
      UniqueUpdate(ts, path, p.(kids := p.kids + [b]), {b.node});
    }
  }

  lemma {:induction false} UniqueAt(ts: seq<Branch>, path: seq<Tag>)
    requires Unique(ts) && At(ts, path).Some?
    ensures Unique(At(ts, path).value.kids) && At(ts, path).value.node !in Labels(At(ts, path).value.kids)
    decreases |path|, |ts|
  {
    hide FindBranch, At, Labels, Unique;
    AtNonempty(ts, path);
    LabelsCons(ts);
    if Matches(ts[0].tag, path[0]) {
      AtHit(ts, path, ts[0]);
      if |path| > 1 { UniqueAt(ts[0].kids, path[1..]); }
    } else {
      AtSkip(ts, path, ts[0]);
      UniqueAt(ts[1..], path);
    }
  }

  // The branch at a path is a node of the arena with its children.
  lemma {:induction false} BranchIsNode(nodes: seq<Node>, i: int, path: seq<Tag>)
    requires Linked(nodes) && NONE <= i < |nodes| && At(Build(nodes, i), path).Some?
    ensures var b := At(Build(nodes, i), path).value;
            b.node < |nodes| && b == Branch(b.node, nodes[b.node].tag, nodes[b.node].field, Build(nodes, nodes[b.node].firstChild))
    decreases |path|, if i == NONE then 0 else |nodes| - i
  {
    hide FindBranch, At, Labels, Unique, Build;
    var ts := Build(nodes, i);
    AtNonempty(ts, path);
    LabelsStep(nodes, i);
    if Matches(ts[0].tag, path[0]) {
      AtHit(ts, path, ts[0]);
      if |path| > 1 { BranchIsNode(nodes, nodes[i].firstChild, path[1..]); }
    } else {
      AtSkip(ts, path, ts[0]);
      BranchIsNode(nodes, nodes[i].nextSibling, path);
    }
  }
}
