/**
 * What the path of a field names: components between slashes, each the name of
 * a member or alternative of the type the components before it lead to.
 */
module ProjectionNames {
  import opened Options
  import opened BerTlv

  // A member or alternative; one without a type cannot be navigated to.
  datatype Member = Member(name: string, tag: Tag, desc: Option<nat>)

  // A SEQUENCE or CHOICE with its members, or any other type.
  datatype Desc = Table(members: seq<Member>) | Plain

  // Types refer to each other by index, so they may be recursive.
  predicate SchemaOk(schema: seq<Desc>) {
    forall i {:trigger schema[i]} :: 0 <= i < |schema| && schema[i].Table? ==>
      forall k {:trigger schema[i].members[k]} :: 0 <= k < |schema[i].members| && schema[i].members[k].desc.Some? ==>
        schema[i].members[k].desc.value < |schema|
  }

  // Position of the first slash, or the length.
  function SlashAt(path: string): (k: nat)
    ensures k <= |path| && (k < |path| ==> path[k] == '/') && '/' !in path[..k]
  {
    if path == [] || path[0] == '/' then 0
    else
      var k := 1 + SlashAt(path[1..]);
      assert path[..k] == [path[0]] + path[1..][..k - 1];
      k
  }

  // The first member with the name.
  function MemberAt(members: seq<Member>, name: string): (k: nat)
    ensures k <= |members| && (k < |members| ==> members[k].name == name)
    ensures forall j :: 0 <= j < k ==> members[j].name != name
  {
    if members == [] || members[0].name == name then 0 else 1 + MemberAt(members[1..], name)
  }

  datatype Step = Step(tag: Tag, desc: nat)

  function Navigate(schema: seq<Desc>, d: nat, name: string): (r: Option<Step>)
    requires SchemaOk(schema) && d < |schema|
    ensures r.Some? ==> r.value.desc < |schema|
  {
    if name == [] || schema[d].Plain? then None
    else
      var k := MemberAt(schema[d].members, name);
      if k == |schema[d].members| || schema[d].members[k].desc.None? then None
      else Some(Step(schema[d].members[k].tag, schema[d].members[k].desc.value))
  }

  datatype Target = Target(tags: seq<Tag>, desc: nat)

  // The tags along a path of names, and the type it ends at.
  function Resolve(schema: seq<Desc>, d: nat, path: string): (r: Option<Target>)
    requires SchemaOk(schema) && d < |schema|
    ensures r.Some? ==> r.value.tags != [] && r.value.desc < |schema|
    decreases |path|
  {
    var k := SlashAt(path);
    var s := Navigate(schema, d, path[..k]);
    if s.None? then None
    else if k == |path| then Some(Target([s.value.tag], s.value.desc))
    else
      var r := Resolve(schema, s.value.desc, path[k + 1..]);
      if r.None? then None else Some(Target([s.value.tag] + r.value.tags, r.value.desc))
  }

  // ---- components ----

  // The components with slashes between them.
  function Joined(c: seq<string>): string
    requires c != []
  {
    if |c| == 1 then c[0] else c[0] + ("/" + Joined(c[1..]))
  }

  predicate NoSlashes(c: seq<string>) {
    forall i {:trigger c[i]} :: 0 <= i < |c| ==> '/' !in c[i]
  }

  predicate ComponentsOf(c: seq<string>, path: string) {
    c != [] && NoSlashes(c) && Joined(c) == path
  }

  lemma {:induction false} SlashAtIs(path: string, k: nat)
    requires k <= |path| && (k < |path| ==> path[k] == '/') && '/' !in path[..k]
    ensures SlashAt(path) == k
    decreases |path|
  {
    if k > 0 {
      assert path[0] == path[..k][0];
      assert path[1..][..k - 1] == path[..k][1..];
      SlashAtIs(path[1..], k - 1);
    }
  }

  lemma FirstComponent(c: seq<string>, path: string)
    requires ComponentsOf(c, path)
    ensures SlashAt(path) == |c[0]| <= |path| && path[..|c[0]|] == c[0]
    ensures |c[0]| == |path| <==> |c| == 1
    ensures |c| > 1 ==> ComponentsOf(c[1..], path[|c[0]| + 1..])
  {
    assert '/' !in c[0];
    if |c| > 1 {
      assert path == c[0] + ("/" + Joined(c[1..]));
      assert path[|c[0]|] == '/' && path[|c[0]| + 1..] == Joined(c[1..]);
      forall i | 0 <= i < |c[1..]| ensures '/' !in c[1..][i] { assert '/' !in c[i + 1]; }
    }
    assert path[..|c[0]|] == c[0];
    SlashAtIs(path, |c[0]|);
  }

  // Every path has its components, and only one list of them.
  lemma {:induction false} Split(path: string) returns (c: seq<string>)
    ensures ComponentsOf(c, path)
    decreases |path|
  {
    var k := SlashAt(path);
    if k == |path| {
      c := [path];
      assert path[..k] == path;
    } else {
      var rest := Split(path[k + 1..]);
      c := [path[..k]] + rest;
      assert c[1..] == rest;
      assert path == path[..k] + ("/" + path[k + 1..]);
      forall i | 0 <= i < |c| ensures '/' !in c[i] { if i > 0 { assert c[i] == rest[i - 1]; } }
    }
  }

  lemma {:induction false} OneSplit(path: string, c: seq<string>, e: seq<string>)
    requires ComponentsOf(c, path) && ComponentsOf(e, path)
    ensures c == e
    decreases |path|
  {
    FirstComponent(c, path);
    FirstComponent(e, path);
    assert c == [c[0]] + c[1..] && e == [e[0]] + e[1..];
    if |c| > 1 { OneSplit(path[|c[0]| + 1..], c[1..], e[1..]); }
  }

  // ---- chains of members ----

  // `m` is the first member of the table with that name, and it has a type.
  predicate First(ty: Desc, name: string, tag: Tag, next: nat) {
    && ty.Table? && name != []
    && exists k {:trigger ty.members[k]} :: 0 <= k < |ty.members| && ty.members[k] == Member(name, tag, Some(next))
         && forall j {:trigger ty.members[j]} :: 0 <= j < k ==> ty.members[j].name != name
  }

  predicate Link(schema: seq<Desc>, from: nat, name: string, tag: Tag, to: nat) {
    from < |schema| && First(schema[from], name, tag, to)
  }

  // From type d[0], each component names a member with tag t[i] of type d[i],
  // which leads to type d[i + 1].
  ghost predicate Chain(schema: seq<Desc>, c: seq<string>, d: seq<nat>, t: seq<Tag>) {
    && c != [] && |t| == |c| && |d| == |c| + 1
    && forall i {:trigger c[i]} {:trigger t[i]} :: 0 <= i < |c| ==> Link(schema, d[i], c[i], t[i], d[i + 1])
  }

  // A path leads from a type along these tags to another.
  ghost predicate Leads(schema: seq<Desc>, root: nat, path: string, t: seq<Tag>, end: nat) {
    exists c, d: seq<nat> :: ComponentsOf(c, path) && Chain(schema, c, d, t) && d[0] == root && d[|c|] == end
  }

  lemma {:induction false} MemberAtIs(members: seq<Member>, name: string, k: nat)
    requires k < |members| && members[k].name == name && forall j {:trigger members[j]} :: 0 <= j < k ==> members[j].name != name
    ensures MemberAt(members, name) == k
    decreases |members|
  {
    if k > 0 {
      assert members[0].name != name;
      assert forall j :: 0 <= j < |members| - 1 ==> members[1..][j] == members[j + 1];
      MemberAtIs(members[1..], name, k - 1);
    }
  }

  lemma StepExact(schema: seq<Desc>, d: nat, name: string, tag: Tag, next: nat)
    requires SchemaOk(schema) && d < |schema|
    ensures Navigate(schema, d, name) == Some(Step(tag, next)) <==> First(schema[d], name, tag, next)
  {
    if First(schema[d], name, tag, next) {
      var ms := schema[d].members;
      var k :| 0 <= k < |ms| && ms[k] == Member(name, tag, Some(next)) && forall j {:trigger ms[j]} :: 0 <= j < k ==> ms[j].name != name;
      MemberAtIs(ms, name, k);
    }
  }

  lemma ChainTail(schema: seq<Desc>, c: seq<string>, d: seq<nat>, t: seq<Tag>)
    requires Chain(schema, c, d, t)
    ensures d[0] < |schema| && First(schema[d[0]], c[0], t[0], d[1])
    ensures |c| > 1 ==> Chain(schema, c[1..], d[1..], t[1..])
  {
    hide First;
    assert Link(schema, d[0], c[0], t[0], d[1]);
    if |c| > 1 {
      var c', d', t' := c[1..], d[1..], t[1..];
      forall i | 0 <= i < |c'| ensures Link(schema, d'[i], c'[i], t'[i], d'[i + 1]) {
        assert Link(schema, d[i + 1], c[i + 1], t[i + 1], d[i + 2]);
      }
      assert Chain(schema, c', d', t');
    }
  }

  lemma ChainCons(schema: seq<Desc>, c: seq<string>, d: seq<nat>, t: seq<Tag>, first: nat, tag: Tag)
    requires |c| > 1 && Chain(schema, c[1..], d, t) && first < |schema| && First(schema[first], c[0], tag, d[0])
    ensures Chain(schema, c, [first] + d, [tag] + t)
  {
    hide First;
    var d', t' := [first] + d, [tag] + t;
    forall i | 0 <= i < |c| ensures Link(schema, d'[i], c[i], t'[i], d'[i + 1]) {
      if i > 0 { assert Link(schema, d[i - 1], c[1..][i - 1], t[i - 1], d[i]); }
    }
    assert Chain(schema, c, d', t');
  }

  // A chain is what a path resolves to.
  lemma {:induction false} ChainResolves(schema: seq<Desc>, path: string, c: seq<string>, d: seq<nat>, t: seq<Tag>)
    requires SchemaOk(schema) && ComponentsOf(c, path) && Chain(schema, c, d, t)
    ensures d[0] < |schema| && Resolve(schema, d[0], path) == Some(Target(t, d[|c|]))
    decreases |c|
  {
    hide Navigate, First, Joined;
    FirstComponent(c, path);
    ChainTail(schema, c, d, t);
    StepExact(schema, d[0], c[0], t[0], d[1]);
    if |c| > 1 {
      ChainResolves(schema, path[|c[0]| + 1..], c[1..], d[1..], t[1..]);
      assert t == [t[0]] + t[1..];
    } else {
      assert t == [t[0]];
    }
  }

  lemma {:induction false} ResolvedChain(schema: seq<Desc>, root: nat, path: string, c: seq<string>) returns (d: seq<nat>)
    requires SchemaOk(schema) && root < |schema| && ComponentsOf(c, path) && Resolve(schema, root, path).Some?
    ensures Chain(schema, c, d, Resolve(schema, root, path).value.tags) && d[0] == root && d[|c|] == Resolve(schema, root, path).value.desc
    decreases |c|
  {
    hide Navigate, First, Joined;
    FirstComponent(c, path);
    var s := Navigate(schema, root, c[0]).value;
    StepExact(schema, root, c[0], s.tag, s.desc);
    if |c| > 1 {
      var more := ResolvedChain(schema, s.desc, path[|c[0]| + 1..], c[1..]);
      d := [root] + more;
      ChainCons(schema, c, more, Resolve(schema, s.desc, path[|c[0]| + 1..]).value.tags, root, s.tag);
    } else {
      d := [root, s.desc];
      assert Chain(schema, c, d, [s.tag]);
    }
  }

  // A path resolves exactly to what it leads to by the names of members.
  lemma ResolveExact(schema: seq<Desc>, root: nat, path: string, t: seq<Tag>, end: nat)
    requires SchemaOk(schema) && root < |schema|
    ensures Leads(schema, root, path, t, end) <==> Resolve(schema, root, path) == Some(Target(t, end))
  {
    hide Resolve, First, ComponentsOf;
    if Leads(schema, root, path, t, end) {
      var c, d: seq<nat> :| ComponentsOf(c, path) && Chain(schema, c, d, t) && d[0] == root && d[|c|] == end;
      ChainResolves(schema, path, c, d, t);
    }
    if Resolve(schema, root, path) == Some(Target(t, end)) {
      var c := Split(path);
      var d := ResolvedChain(schema, root, path, c);
    }
  }

  // A path that leads nowhere.
  ghost predicate LeadsNowhere(schema: seq<Desc>, root: nat, path: string) {
    forall t, end: nat :: !Leads(schema, root, path, t, end)
  }

  // A path resolves exactly when its components name a chain of members.
  lemma Resolved(schema: seq<Desc>, root: nat, path: string)
    requires SchemaOk(schema) && root < |schema|
    ensures var r := Resolve(schema, root, path);
            if r.Some? then Leads(schema, root, path, r.value.tags, r.value.desc) else LeadsNowhere(schema, root, path)
  {
    hide Resolve, Leads;
    if Resolve(schema, root, path).Some? {
      var r := Resolve(schema, root, path).value;
      ResolveExact(schema, root, path, r.tags, r.desc);
    } else {
      forall t, end: nat ensures !Leads(schema, root, path, t, end) { ResolveExact(schema, root, path, t, end); }
    }
  }
}
