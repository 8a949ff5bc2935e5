/** From the text to the metadata: the module a successful parse leaves behind is
    one whose type graph the metadata denotes. */
module ParsedModules {
  import opened IdlAst
  import opened IdlTypes
  import opened TypeTable
  import opened Lexing
  import opened TypeText
  import opened Parsing
  import D = MetadataDumper

  // The entries of the table, each once, in whatever order the table has.
  ghost predicate Lists(entries: seq<TypeEntry>, types: Table) {
    && (forall i :: 0 <= i < |entries| ==> entries[i].key in types && types[entries[i].key] == entries[i].node)
    && (forall k :: k in types ==> exists i :: 0 <= i < |entries| && entries[i].key == k)
    && forall i, j :: 0 <= i < j < |entries| ==> entries[i].key != entries[j].key
  }

  // The module of a parse.
  ghost predicate ModuleOf(m: Module, d: Declarations) {
    m.sequenceables == d.sequenceables && m.interfaces == d.interfaces && Lists(m.types, d.types)
  }

  // What the words of a module mean: the word of a primitive type that type, and
  // every other word a declaration of the module with this short name.
  ghost predicate Meant(m: Module, names: Names) {
    && (forall p: Prim :: PrimName(p) in names)
    && forall k :: k in names ==> MeantBy(m, k, names[k])
  }

  predicate MeantBy(m: Module, word: string, t: Type) {
    match t
    case Primitive(p) => word == PrimName(p)
    case Sequenceable(nspace, name) =>
      word == name
      && exists i :: 0 <= i < |m.sequenceables| && m.sequenceables[i].nspace == nspace && m.sequenceables[i].name == name
    case Interface(nspace, name) =>
      word == name && exists i :: 0 <= i < |m.interfaces| && m.interfaces[i].nspace == nspace && m.interfaces[i].name == name
    case _ => false
  }

  // A word denotes the entry of the table under it.
  lemma WordDenotes(types: Table, pending: Option<Node>, k: string)
    requires Settled(types, pending) && k in NamesOf(types, pending)
    ensures k in types && NamesOf(types, pending)[k] == TypeOf(types[k]) && IsIdentText(k)
  {
    hide NodeText, IsIdentText, TypeOf, IsName;
  }

  lemma EntryMeant(m: Module, n: Node, k: string)
    requires NodeText(n) == k && !IsContainerNode(n) && DeclaredIn(n, m.sequenceables, m.interfaces)
    ensures MeantBy(m, k, TypeOf(n))
  {
  }

  lemma NamesMeant(m: Module, d: Declarations, pending: Option<Node>)
    requires ModuleOf(m, d) && InOrder(d, pending)
    ensures Meant(m, NamesOf(d.types, pending))
  {
    hide *;
    var names := NamesOf(d.types, pending);
    InOrderIs(d, pending);
    GoodIs(d, pending);
    PrimitivesIn(d, pending);
    forall k | k in names ensures MeantBy(m, k, names[k]) {
      WordDenotes(d.types, pending, k);
      EntryIs(m, d, k);
      if IsContainerNode(d.types[k]) {
        ContainersAreNoWords(d.types[k]);
      }
      EntryMeant(m, d.types[k], k);
    }
    MakeMeant(m, names);
  }

  lemma PrimitivesIn(d: Declarations, pending: Option<Node>)
    requires WellFormed(d.types, NamesOf(d.types, pending))
    ensures forall p: Prim :: PrimName(p) in NamesOf(d.types, pending)
  {
    hide NamesOf, PrimName;
  }

  lemma EntryIs(m: Module, d: Declarations, k: string)
    requires ModuleOf(m, d) && AllDeclared(d.types, d.sequenceables, d.interfaces) && Keyed(d.types, d.nextId) && k in d.types
    ensures NodeText(d.types[k]) == k && DeclaredIn(d.types[k], m.sequenceables, m.interfaces)
  {
    hide DeclaredIn, NodeText, IsIdentText, Lists;
  }

  lemma MakeMeant(m: Module, names: Names)
    requires (forall p: Prim :: PrimName(p) in names) && forall k :: k in names ==> MeantBy(m, k, names[k])
    ensures Meant(m, names)
  {
    hide MeantBy, PrimName;
  }

  lemma KnownIsListed(entries: seq<TypeEntry>, types: Table, pending: Option<Node>, n: Node)
    requires Lists(entries, types) && Settled(types, pending) && Known(types, pending, n)
    ensures D.Listed(entries, n)
  {
    hide NodeText;
    assert NodeText(n) in types && types[NodeText(n)] == n;
    var i :| 0 <= i < |entries| && entries[i].key == NodeText(n);
  }

  lemma IdsDistinct(m: Module, d: Declarations, pending: Option<Node>)
    requires ModuleOf(m, d) && UniqueIds(d.types, pending) && DeclsOk(d, pending)
    ensures D.Distinct(TypeIds(m.types)) && D.Distinct(SequenceableIds(m.sequenceables)) && D.Distinct(InterfaceIds(m.interfaces))
  {
    hide MethodKnown;
  }

  lemma EntriesDeclared(m: Module, d: Declarations)
    requires ModuleOf(m, d) && AllDeclared(d.types, d.sequenceables, d.interfaces)
    ensures forall i :: 0 <= i < |m.types| ==> D.Declared(m, m.types[i].node)
  {
  }

  lemma NestedListed(m: Module, d: Declarations, pending: Option<Node>)
    requires ModuleOf(m, d) && NestedKnown(d.types, pending) && Settled(d.types, pending)
    ensures forall i, n :: 0 <= i < |m.types| && n in Nested(m.types[i].node) ==> D.Listed(m.types, n)
  {
    hide D.Listed, Known, Nested, Settled;
    forall i, n | 0 <= i < |m.types| && n in Nested(m.types[i].node) ensures D.Listed(m.types, n) {
      KnownIsListed(m.types, d.types, pending, n);
    }
  }

  lemma MethodsListed(m: Module, d: Declarations, pending: Option<Node>)
    requires ModuleOf(m, d) && DeclsOk(d, pending) && Settled(d.types, pending)
    ensures forall f, x :: f in m.interfaces && x in f.methods ==> D.Listed(m.types, x.ret)
    ensures forall f, x, p :: f in m.interfaces && x in f.methods && p in x.params ==> D.Listed(m.types, p.typ)
  {
    hide D.Listed, Known, Settled, Lists;
    forall f, x | f in m.interfaces && x in f.methods ensures D.Listed(m.types, x.ret) {
      var i :| 0 <= i < |d.interfaces| && d.interfaces[i] == f;
      assert MethodKnown(d.types, pending, x);
      KnownIsListed(m.types, d.types, pending, x.ret);
    }
    forall f, x, p | f in m.interfaces && x in f.methods && p in x.params ensures D.Listed(m.types, p.typ) {
      var i :| 0 <= i < |d.interfaces| && d.interfaces[i] == f;
      assert MethodKnown(d.types, pending, x);
      KnownIsListed(m.types, d.types, pending, p.typ);
    }
  }

  // The type table a successful parse leaves behind, with distinct declared
  // names, is closed: with the theorem about the dumper every type of the
  // table is printed from the metadata as it was declared.
  lemma ParsedIsClosed(m: Module, d: Declarations, pending: Option<Node>)
    requires ModuleOf(m, d) && InOrder(d, pending)
    ensures D.Closed(m)
  {
    hide *;
    InOrderIs(d, pending);
    GoodIs(d, pending);
    IdsDistinct(m, d, pending);
    EntriesDeclared(m, d);
    NestedListed(m, d, pending);
    MethodsListed(m, d, pending);
    MakeClosed(m);
  }

  lemma MakeClosed(m: Module)
    requires D.Distinct(TypeIds(m.types)) && D.Distinct(SequenceableIds(m.sequenceables)) && D.Distinct(InterfaceIds(m.interfaces))
    requires forall i :: 0 <= i < |m.types| ==> D.Declared(m, m.types[i].node)
    requires forall i, n :: 0 <= i < |m.types| && n in Nested(m.types[i].node) ==> D.Listed(m.types, n)
    requires forall f, x :: f in m.interfaces && x in f.methods ==> D.Listed(m.types, x.ret)
    requires forall f, x, p :: f in m.interfaces && x in f.methods && p in x.params ==> D.Listed(m.types, p.typ)
    ensures D.Closed(m)
  {
    hide D.Distinct, D.Declared, D.Listed, Nested;
  }
}
