/** The namespace trie of a module: nodes point outward to the namespace they
    lie in, and a dotted path is looked up, and completed, part by part. */
module Namespaces {
  import opened Strings

  class ASTNamespace {
    const name: string
    var outerNamespace: ASTNamespace?
    var innerNamespaces: seq<ASTNamespace>
    ghost var fullName: string  // what ToString prints
    ghost var depth: nat

    constructor (nspaceStr: string)
      ensures name == nspaceStr && outerNamespace == null && innerNamespaces == []
      ensures fullName == name + "." && depth == 0
    {
      name, outerNamespace, innerNamespaces := nspaceStr, null, [];
      fullName, depth := nspaceStr + ".", 0;
    }

    method AddNamespace(innerNspace: ASTNamespace)
      requires innerNspace != this
      modifies this`innerNamespaces, innerNspace`outerNamespace, innerNspace`fullName, innerNspace`depth
      ensures innerNamespaces == old(innerNamespaces) + [innerNspace]
      ensures innerNspace.outerNamespace == this
      ensures innerNspace.fullName == fullName + innerNspace.name + "." && innerNspace.depth == depth + 1
    {
      innerNamespaces := innerNamespaces + [innerNspace];
      innerNspace.outerNamespace := this;
      innerNspace.fullName, innerNspace.depth := fullName + innerNspace.name + ".", depth + 1;
    }

    // An empty name is never found inside a namespace.
    method FindNamespace(nspaceStr: string) returns (r: ASTNamespace?)
      ensures r == if nspaceStr == "" then null else Named(innerNamespaces, nspaceStr)
    {
      if nspaceStr == "" {
        return null;
      }
      var i := 0;
      while i < |innerNamespaces|
        invariant 0 <= i <= |innerNamespaces|
        invariant Named(innerNamespaces, nspaceStr) == Named(innerNamespaces[i..], nspaceStr)
      {
        if innerNamespaces[i].name == nspaceStr {
          return innerNamespaces[i];
        }
        assert innerNamespaces[i..][1..] == innerNamespaces[i + 1..];
        i := i + 1;
      }
      r := null;
    }

    // Walks outward; `nodes` is the trie this node belongs to.
    method ToString(ghost nodes: set<ASTNamespace>) returns (nspaceStr: string)
      requires this in nodes && WellFormed(nodes)
      ensures nspaceStr == fullName
    {
      nspaceStr := "";
      var nspace: ASTNamespace? := this;
      while nspace != null
        invariant nspace != null ==> nspace in nodes && nspace.fullName + nspaceStr == fullName
        invariant nspace == null ==> nspaceStr == fullName
        decreases if nspace == null then 0 else nspace.depth + 1
      {
        nspaceStr := nspace.name + "." + nspaceStr;
        nspace := nspace.outerNamespace;
      }
    }
  }

  // The first namespace of a list that has the name.
  function Named(list: seq<ASTNamespace>, name: string): (r: ASTNamespace?)
    ensures r != null ==> r in list && r.name == name
  {
    if list == [] then null
    else if list[0].name == name then list[0]
    else Named(list[1..], name)
  }

  lemma {:induction false} NamedStays(list: seq<ASTNamespace>, more: seq<ASTNamespace>, name: string)
    ensures Named(list + more, name) == if Named(list, name) != null then Named(list, name) else Named(more, name)
  {
    if list == [] {
      assert list + more == more;
    } else {
      assert (list + more)[1..] == list[1..] + more;
      NamedStays(list[1..], more, name);
    }
  }

  // Every node's full name is its outer namespace's with its own name and a dot
  // behind it, and walking outward ends.
  ghost predicate WellFormed(nodes: set<ASTNamespace>)
    reads nodes
  {
    forall n :: n in nodes ==>
      if n.outerNamespace == null then n.fullName == n.name + "."
      else
        && n.outerNamespace in nodes && n.outerNamespace.depth < n.depth
        && n.fullName == n.outerNamespace.fullName + n.name + "."
  }

  // Which namespaces lie directly in which, null standing for the top level.
  type Trie = map<ASTNamespace?, seq<ASTNamespace>>

  ghost predicate Rooted(t: Trie) {
    && null in t
    && (forall n, k :: n in t && k in t[n] ==> k in t)
  }

  // The namespace called `name` in `outer`.
  function Child(t: Trie, outer: ASTNamespace?, name: string): (r: ASTNamespace?)
    requires outer in t
    ensures r != null ==> r in t[outer] && r.name == name
  {
    if outer != null && name == "" then null else Named(t[outer], name)
  }

  // The namespace a path leads to, from its part at `begin`, if all parts exist.
  ghost function Resolve(t: Trie, outer: ASTNamespace?, path: string, begin: nat): (r: ASTNamespace?)
    requires Rooted(t) && outer in t
    ensures r != null ==> r in t
    decreases |path| - begin
  {
    var index := FirstMatch(path, ".", begin);
    if index == -1 || index >= |path| then outer
    else
      var child := Child(t, outer, path[begin..index]);
      if child == null then null else Resolve(t, child, path, index + 1)
  }

  // Lists only grew at the end.
  ghost predicate Grown(t: Trie, u: Trie) {
    forall n :: n in t ==> n in u && t[n] <= u[n]
  }

  lemma ChildStays(t: Trie, u: Trie, outer: ASTNamespace?, name: string)
    requires Grown(t, u) && outer in t && Child(t, outer, name) != null
    ensures Child(u, outer, name) == Child(t, outer, name)
  {
    assert u[outer] == t[outer] + u[outer][|t[outer]|..];
    NamedStays(t[outer], u[outer][|t[outer]|..], name);
  }

  // A path that leads to a namespace leads to the same one for ever.
  lemma {:induction false} ResolveStays(t: Trie, u: Trie, outer: ASTNamespace?, path: string, begin: nat)
    requires Rooted(t) && Rooted(u) && Grown(t, u) && outer in t && Resolve(t, outer, path, begin) != null
    ensures Resolve(u, outer, path, begin) == Resolve(t, outer, path, begin)
    decreases |path| - begin
  {
    var index := FirstMatch(path, ".", begin);
    if index != -1 && index < |path| {
      ChildStays(t, u, outer, path[begin..index]);
      ResolveStays(t, u, Child(t, outer, path[begin..index]), path, index + 1);
    }
  }

  // The path's part at `begin` leads from `outer` to `child`.
  lemma ResolveStep(t: Trie, outer: ASTNamespace?, path: string, begin: nat, index: nat, child: ASTNamespace)
    requires Rooted(t) && outer in t && begin <= index < |path| && index == FirstMatch(path, ".", begin)
    requires Child(t, outer, path[begin..index]) == child
    ensures Resolve(t, outer, path, begin) == Resolve(t, child, path, index + 1)
  {
  }

  // The namespaces of `trail` lie on the path, one behind the other; `marks`
  // says where each part begins.
  ghost predicate Trail(t: Trie, path: string, trail: seq<ASTNamespace?>, marks: seq<nat>) {
    && |marks| == |trail| > 0 && marks[0] == 0 && trail[0] == null
    && (forall i :: 0 <= i < |trail| ==> trail[i] in t)
    && (forall i :: 0 <= i < |trail| - 1 ==> Step(t, path, trail[i], marks[i], trail[i + 1], marks[i + 1]))
  }

  ghost predicate Step(t: Trie, path: string, outer: ASTNamespace?, begin: nat, child: ASTNamespace?, next: nat) {
    && begin < next <= |path| && FirstMatch(path, ".", begin) == next - 1
    && outer in t && child != null && Child(t, outer, path[begin..next - 1]) == child
  }

  lemma TrailStays(t: Trie, u: Trie, path: string, trail: seq<ASTNamespace?>, marks: seq<nat>)
    requires Grown(t, u) && Trail(t, path, trail, marks)
    ensures Trail(u, path, trail, marks)
  {
    forall i | 0 <= i < |trail| - 1 ensures Step(u, path, trail[i], marks[i], trail[i + 1], marks[i + 1]) {
      assert Step(t, path, trail[i], marks[i], trail[i + 1], marks[i + 1]);
      ChildStays(t, u, trail[i], path[marks[i]..marks[i + 1] - 1]);
    }
  }

  lemma {:induction false} TrailResolves(t: Trie, path: string, trail: seq<ASTNamespace?>, marks: seq<nat>, i: nat)
    requires Rooted(t) && Trail(t, path, trail, marks) && i < |trail|
    ensures Resolve(t, trail[i], path, marks[i]) == Resolve(t, trail[|trail| - 1], path, marks[|trail| - 1])
    decreases |trail| - i
  {
    if i < |trail| - 1 {
      assert Step(t, path, trail[i], marks[i], trail[i + 1], marks[i + 1]);
      ResolveStep(t, trail[i], path, marks[i], marks[i + 1] - 1, trail[i + 1]);
      TrailResolves(t, path, trail, marks, i + 1);
    }
  }

  // No two dots of the path are next to each other.
  predicate NoEmptyPart(path: string) {
    forall i :: 0 < i < |path| && path[i] == '.' ==> path[i - 1] != '.'
  }

  class ASTModule {
    var namespaces: seq<ASTNamespace>
    ghost var nodes: set<ASTNamespace>
    ghost var trie: Trie

    constructor ()
      ensures Valid() && nodes == {} && namespaces == []
    {
      namespaces, nodes, trie := [], {}, map[null := []];
    }

    ghost predicate Valid()
      reads this, nodes
    {
      && WellFormed(nodes) && Rooted(trie)
      && trie.Keys == nodes + {null} && trie[null] == namespaces
      && (forall n :: n in namespaces ==> n.outerNamespace == null)
      && (forall n :: n in nodes ==> trie[n] == n.innerNamespaces)
      && (forall n, k :: n in nodes && k in n.innerNamespaces ==> k.outerNamespace == n)
    }

    method AddNamespace(nspace: ASTNamespace)
      modifies this`namespaces
      ensures namespaces == old(namespaces) + [nspace]
    {
      namespaces := namespaces + [nspace];
    }

    method FindNamespace(nspaceStr: string) returns (r: ASTNamespace?)
      ensures r == Named(namespaces, nspaceStr)
    {
      var i := 0;
      while i < |namespaces|
        invariant 0 <= i <= |namespaces|
        invariant Named(namespaces, nspaceStr) == Named(namespaces[i..], nspaceStr)
      {
        if namespaces[i].name == nspaceStr {
          return namespaces[i];
        }
        assert namespaces[i..][1..] == namespaces[i + 1..];
        i := i + 1;
      }
      r := null;
    }

    method AddTop(ns: string) returns (nspace: ASTNamespace)
      requires Valid()
      modifies this
      ensures Valid() && fresh(nspace) && nodes == old(nodes) + {nspace} && nspace.fullName == ns + "."
      ensures forall n :: n in old(nodes) ==> n.fullName == old(n.fullName)
      ensures trie == old(trie)[null := old(trie)[null] + [nspace]][nspace := []] && nspace.name == ns
    {
      hide Named;
      nspace := new ASTNamespace(ns);
      AddNamespace(nspace);
      nodes := nodes + {nspace};
      trie := trie[null := trie[null] + [nspace]][nspace := []];
    }

    method AddInner(outer: ASTNamespace, ns: string) returns (nspace: ASTNamespace)
      requires Valid() && outer in nodes
      modifies this, outer
      ensures Valid() && fresh(nspace) && nodes == old(nodes) + {nspace}
      ensures forall n :: n in old(nodes) ==> n.fullName == old(n.fullName)
      ensures nspace.fullName == outer.fullName + ns + "."
      ensures trie == old(trie)[outer := old(trie)[outer] + [nspace]][nspace := []] && nspace.name == ns
    {
      hide Named;
      nspace := new ASTNamespace(ns);
      outer.AddNamespace(nspace);
      nodes := nodes + {nspace};
      trie := trie[outer := trie[outer] + [nspace]][nspace := []];
    }

    // One part of a path: the namespace is found, or it is added.
    method Enter(outer: ASTNamespace?, ns: string) returns (nspace: ASTNamespace)
      requires Valid() && (outer == null || outer in nodes)
      modifies this, nodes
      ensures old(nodes) <= nodes && forall n :: n in old(nodes) ==> n.fullName == old(n.fullName)
      ensures Valid() && fresh(nodes - old(nodes)) && Grown(old(trie), trie) && nspace in nodes
      ensures nspace.fullName == (if outer == null then "" else outer.fullName) + ns + "."
      ensures old(Child(trie, outer, ns)) != null ==>
                nspace == old(Child(trie, outer, ns)) && trie == old(trie) && nodes == old(nodes)
      ensures outer == null || ns != "" ==> Child(trie, outer, ns) == nspace
    {
      var found: ASTNamespace?;
      if outer == null {
        found := FindNamespace(ns);
      } else {
        found := outer.FindNamespace(ns);
      }
      if found != null {
        ChildPlaced(outer, ns);
        nspace := found;
      } else {
        if outer == null {
          nspace := AddTop(ns);
        } else {
          nspace := AddInner(outer, ns);
        }
        ChildAdded(old(trie), outer, ns, nspace);
      }
    }

    lemma ChildPlaced(outer: ASTNamespace?, ns: string)
      requires Valid() && (outer == null || outer in nodes) && Child(trie, outer, ns) != null
      ensures var r := Child(trie, outer, ns);
              r in nodes && r.fullName == (if outer == null then "" else outer.fullName) + ns + "."
    {
    }

    method ParseNamespace(nspaceStr: string) returns (currNspace: ASTNamespace?)
      requires Valid()
      modifies this, nodes
      ensures old(nodes) <= nodes && forall n :: n in old(nodes) ==> n.fullName == old(n.fullName)
      ensures Valid() && fresh(nodes - old(nodes)) && Grown(old(trie), trie)
      ensures currNspace == null <==> '.' !in nspaceStr
      ensures currNspace != null ==> currNspace in nodes && currNspace.fullName <= nspaceStr
                                     && '.' !in nspaceStr[|currNspace.fullName|..]
      ensures old(Resolve(trie, null, nspaceStr, 0)) != null ==>
                currNspace == old(Resolve(trie, null, nspaceStr, 0)) && trie == old(trie)
      ensures NoEmptyPart(nspaceStr) ==> Resolve(trie, null, nspaceStr, 0) == currNspace
    {
      hide *;
      RootIn();
      ghost var t0, target := trie, Resolve(trie, null, nspaceStr, 0);
      ghost var trail: seq<ASTNamespace?>, marks: seq<nat> := [null], [0];
      GrownSame(trie);
      TrailStart(trie, nspaceStr);
      currNspace := null;
      var begin := 0;
      AtStart(nspaceStr);
      KnownStart(t0, nspaceStr);
      var index := IndexOfChar(nspaceStr, '.', begin);
      NextDot(nspaceStr, begin, index);
      while index != -1
        invariant Valid() && fresh(nodes - old(nodes)) && Grown(t0, trie)
        invariant old(nodes) <= nodes && forall n :: n in old(nodes) ==> n.fullName == old(n.fullName)
        invariant 0 <= begin <= |nspaceStr| && -1 <= index < |nspaceStr|
        invariant index == FirstMatch(nspaceStr, ".", begin) && IsFirstDot(nspaceStr, begin, index)
        invariant At(currNspace, nspaceStr, begin)
        invariant Known(t0, target, trie, currNspace, nspaceStr, begin)
        invariant NoEmptyPart(nspaceStr) ==>
                    Trail(trie, nspaceStr, trail, marks) && |trail| == |marks| > 0
                    && trail[|trail| - 1] == currNspace && marks[|trail| - 1] == begin
        decreases |nspaceStr| - begin
      {
        FirstDotIs(nspaceStr, begin, index);
        var ns := Substring(nspaceStr, begin, index);
        ghost var t, cur := trie, currNspace;
        AtIs(currNspace, nspaceStr, begin);
        RootIn();
        InTrie(currNspace);
        KnownStep(t0, target, t, currNspace, nspaceStr, begin, index);
        var nspace := Enter(currNspace, ns);
        GrownOn(t0, t, trie);
        RootIn();
        InTrie(nspace);
        KnownNext(t0, target, t, trie, cur, nspace, nspaceStr, begin, index);
        if NoEmptyPart(nspaceStr) {
          PartNotEmpty(nspaceStr, begin, index);
          GrownIn(t, trie, cur);
          StepIs(trie, nspaceStr, cur, begin, nspace, index);
          TrailStays(t, trie, nspaceStr, trail, marks);
          TrailAppend(trie, nspaceStr, trail, marks, nspace, index + 1);
        }
        trail, marks := trail + [nspace], marks + [index + 1];
        AtNext(nspace, nspaceStr, begin, index);
        currNspace := nspace;
        begin := index + 1;
        index := IndexOfChar(nspaceStr, '.', begin);
        NextDot(nspaceStr, begin, index);
      }
      RootIn();
      AtIs(currNspace, nspaceStr, begin);
      AtEnd(currNspace, nspaceStr, begin);
      InTrie(currNspace);
      PathEnds(trie, currNspace, nspaceStr, begin);
      KnownEnd(t0, target, trie, currNspace, nspaceStr, begin);
      if NoEmptyPart(nspaceStr) {
        TrailIs(trie, nspaceStr, trail, marks);
        TrailResolves(trie, nspaceStr, trail, marks, 0);
      }
    }

    // The part of the path before `begin` leads to `cur`.
    ghost predicate At(cur: ASTNamespace?, path: string, begin: nat)
      reads this, nodes
    {
      && begin <= |path|
      && if cur == null then begin == 0
         else cur in nodes && cur.fullName == path[..begin] && begin > 0 && path[begin - 1] == '.'
    }

    lemma AtStart(path: string)
      ensures At(null, path, 0)
    {
    }

    lemma AtIs(cur: ASTNamespace?, path: string, begin: nat)
      requires At(cur, path, begin)
      ensures begin <= |path| && (cur == null || cur in nodes) && (cur == null <==> begin == 0)
      ensures (if cur == null then "" else cur.fullName) == path[..begin]
      ensures begin > 0 ==> path[begin - 1] == '.'
    {
    }

    lemma AtNext(cur: ASTNamespace, path: string, begin: nat, index: nat)
      requires cur in nodes && begin <= index < |path| && path[index] == '.'
      requires cur.fullName == path[..begin] + path[begin..index] + "."
      ensures At(cur, path, index + 1)
    {
      NextPrefix(path, begin, index);
    }

    lemma AtEnd(cur: ASTNamespace?, path: string, begin: nat)
      requires At(cur, path, begin) && IsFirstDot(path, begin, -1)
      ensures cur == null <==> '.' !in path
      ensures cur != null ==> cur.fullName <= path && '.' !in path[|cur.fullName|..]
    {
    }

    lemma RootIn()
      requires Valid()
      ensures Rooted(trie) && null in trie
    {
    }

    lemma InTrie(n: ASTNamespace?)
      requires Valid() && (n == null || n in nodes)
      ensures n in trie
    {
    }
  }

  lemma NextPrefix(path: string, begin: nat, index: nat)
    requires begin <= index < |path| && path[index] == '.'
    ensures path[..begin] + path[begin..index] + "." == path[..index + 1]
  {
  }

  lemma ChildAdded(t: Trie, outer: ASTNamespace?, ns: string, nspace: ASTNamespace)
    requires outer in t && nspace !in t && nspace.name == ns
    requires Child(t, outer, ns) == null
    ensures var u := t[outer := t[outer] + [nspace]][nspace := []];
            Grown(t, u) && (outer == null || ns != "" ==> Child(u, outer, ns) == nspace)
  {
    NamedStays(t[outer], [nspace], ns);
  }

  lemma GrownSame(t: Trie)
    ensures Grown(t, t)
  {
  }

  lemma GrownOn(t: Trie, u: Trie, v: Trie)
    requires Grown(t, u) && Grown(u, v)
    ensures Grown(t, v)
  {
  }

  lemma TrailStart(t: Trie, path: string)
    requires Rooted(t)
    ensures Trail(t, path, [null], [0])
  {
  }

  lemma TrailIs(t: Trie, path: string, trail: seq<ASTNamespace?>, marks: seq<nat>)
    requires Trail(t, path, trail, marks)
    ensures |marks| == |trail| > 0 && marks[0] == 0 && trail[0] == null
  {
  }

  // `index` is the first dot at or behind `begin`, or -1.
  predicate IsFirstDot(path: string, begin: nat, index: int) {
    (index == -1 || (begin <= index < |path| && path[index] == '.'))
    && forall i :: begin <= i < |path| && (index == -1 || i < index) ==> path[i] != '.'
  }

  lemma NextDot(path: string, begin: nat, index: int)
    requires begin <= |path| && -1 <= index < |path| && IsFirstMatch(path, ".", begin, index)
    ensures index == FirstMatch(path, ".", begin) && IsFirstDot(path, begin, index)
  {
    SingleMatch(path, '.');
  }

  lemma FirstDotIs(path: string, begin: nat, index: int)
    requires IsFirstDot(path, begin, index) && index != -1
    ensures begin <= index < |path| && path[index] == '.' && Substring(path, begin, index) == path[begin..index]
  {
  }

  // If the whole path was there to begin with, the trie has not changed and the
  // rest of the path leads on to its end.
  ghost predicate Known(t0: Trie, target: ASTNamespace?, t: Trie, cur: ASTNamespace?, path: string, begin: nat) {
    target != null ==> t == t0 && Rooted(t) && cur in t && Resolve(t, cur, path, begin) == target
  }

  lemma KnownStart(t: Trie, path: string)
    requires Rooted(t)
    ensures Known(t, Resolve(t, null, path, 0), t, null, path, 0)
  {
    hide Resolve;
  }

  lemma KnownStep(t0: Trie, target: ASTNamespace?, t: Trie, cur: ASTNamespace?, path: string, begin: nat, index: nat)
    requires Known(t0, target, t, cur, path, begin) && cur in t
    requires begin <= index < |path| && index == FirstMatch(path, ".", begin)
    ensures target != null ==> t == t0 && Child(t, cur, path[begin..index]) != null
  {
  }

  lemma KnownNext(t0: Trie, target: ASTNamespace?, t: Trie, u: Trie, cur: ASTNamespace?, child: ASTNamespace, path: string,
                  begin: nat, index: nat)
    requires Known(t0, target, t, cur, path, begin) && cur in t && child in u && Rooted(u)
    requires begin <= index < |path| && index == FirstMatch(path, ".", begin)
    requires Child(t, cur, path[begin..index]) != null ==> u == t && child == Child(t, cur, path[begin..index])
    ensures Known(t0, target, u, child, path, index + 1)
  {
  }

  lemma KnownEnd(t0: Trie, target: ASTNamespace?, t: Trie, cur: ASTNamespace?, path: string, begin: nat)
    requires Known(t0, target, t, cur, path, begin) && (target != null ==> Rooted(t) && cur in t && Resolve(t, cur, path, begin) == cur)
    ensures target != null ==> t == t0 && cur == target
  {
    hide Resolve;
  }

  lemma PartNotEmpty(path: string, begin: nat, index: nat)
    requires NoEmptyPart(path) && begin <= index < |path| && path[index] == '.' && (begin > 0 ==> path[begin - 1] == '.')
    ensures begin > 0 ==> path[begin..index] != ""
  {
  }

  lemma GrownIn(t: Trie, u: Trie, n: ASTNamespace?)
    requires Grown(t, u) && n in t
    ensures n in u
  {
  }

  lemma StepIs(t: Trie, path: string, outer: ASTNamespace?, begin: nat, child: ASTNamespace, index: nat)
    requires begin <= index < |path| && index == FirstMatch(path, ".", begin) && outer in t
    requires Child(t, outer, path[begin..index]) == child
    ensures Step(t, path, outer, begin, child, index + 1)
  {
  }

  lemma TrailAppend(t: Trie, path: string, trail: seq<ASTNamespace?>, marks: seq<nat>, child: ASTNamespace, next: nat)
    requires Trail(t, path, trail, marks) && child in t && |trail| == |marks| > 0
    requires Step(t, path, trail[|trail| - 1], marks[|trail| - 1], child, next)
    ensures Trail(t, path, trail + [child], marks + [next])
  {
    hide Step;
  }

  lemma PathEnds(t: Trie, outer: ASTNamespace?, path: string, begin: nat)
    requires Rooted(t) && outer in t && FirstMatch(path, ".", begin) == -1
    ensures Resolve(t, outer, path, begin) == outer
  {
  }

  // A path that ends in a dot prints back as it was written, empty parts or not.
  method ParseAndPrint(m: ASTModule, path: string) returns (text: string)
    requires m.Valid() && path != "" && path[|path| - 1] == '.'
    modifies m, m.nodes
    ensures m.Valid() && text == path
  {
    var nspace := m.ParseNamespace(path);
    NodesWellFormed(m);
    text := nspace.ToString(m.nodes);
    WholePath(path, text);
  }

  lemma WholePath(path: string, text: string)
    requires text <= path && path != ""
    ensures '.' !in path[|text|..] && path[|path| - 1] == '.' ==> text == path
  {
    var rest := path[|text|..];
    if rest != "" {
      assert rest[|rest| - 1] == path[|path| - 1];
    }
  }

  lemma NodesWellFormed(m: ASTModule)
    requires m.Valid()
    ensures WellFormed(m.nodes)
  {
  }

  // Whatever is parsed in between, a path without empty parts leads back to the
  // namespace it was first given.
  method ParseAgain(m: ASTModule, path: string, others: seq<string>) returns (first: ASTNamespace?, again: ASTNamespace?)
    requires m.Valid() && NoEmptyPart(path) && '.' in path
    modifies m, m.nodes
    ensures m.Valid() && first != null && again == first
  {
    hide Resolve, Grown, NoEmptyPart, ASTModule.Valid;
    first := m.ParseNamespace(path);
    ghost var t := m.trie;
    m.RootIn();
    GrownSame(t);
    var i := 0;
    while i < |others|
      invariant 0 <= i <= |others| && m.Valid() && fresh(m.nodes - old(m.nodes))
      invariant Grown(t, m.trie)
    {
      ghost var u := m.trie;
      var _ := m.ParseNamespace(others[i]);
      GrownOn(t, u, m.trie);
      i := i + 1;
    }
    m.RootIn();
    ResolveStays(t, m.trie, null, path, 0);
    again := m.ParseNamespace(path);
  }
}
