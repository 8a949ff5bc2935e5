/** The compiler from the text to the block: parse, build the metadata, and print
    its type table again. */
module Compilation {
  import opened IdlTypes
  import opened IdlAst
  import opened MetadataBlocks
  import T = TypeTable
  import X = SourceText
  import W = PrintedText
  import G = SourceGrammar
  import P = Parsing
  import M = ParsedModules
  import B = MetadataBuilder
  import D = MetadataDumper
  import N = TypeText
  import L = Lexing
  import S = StringPools

  // The entries of the table, in the order an iteration over it has.
  method ListTypes(types: T.Table) returns (entries: seq<TypeEntry>)
    ensures M.Lists(entries, types)
  {
    var todo := types.Keys;
    entries := [];
    while todo != {}
      invariant todo <= types.Keys
      invariant M.Lists(entries, map k | k in types && k !in todo :: types[k])
      decreases |todo|
    {
      var key :| key in todo;
      ghost var before := map k | k in types && k !in todo :: types[k];
      todo := todo - {key};
      OneMoreEntry(entries, before, key, types[key]);
      assert before[key := types[key]] == map k | k in types && k !in todo :: types[k];
      entries := entries + [TypeEntry(key, types[key])];
    }
    assert types == map k | k in types && k !in todo :: types[k];
  }

  lemma OneMoreEntry(entries: seq<TypeEntry>, types: T.Table, key: string, n: Node)
    requires M.Lists(entries, types) && key !in types
    ensures M.Lists(entries + [TypeEntry(key, n)], types[key := n])
  {
    var now, all := types[key := n], entries + [TypeEntry(key, n)];
    forall k | k in now ensures exists i :: 0 <= i < |all| && all[i].key == k {
      if k == key {
        assert all[|entries|].key == k;
      } else {
        var i :| 0 <= i < |entries| && entries[i].key == k;
        assert all[i].key == k;
      }
    }
  }

  // The module's strings are C strings, and the block lies within the address space.
  predicate Buildable(m: Module, base: nat) {
    B.NulFree(B.ModuleStrings(m)) && B.Layout(m, base).ComponentEnd(base) < WORD
  }

  // The words every text may use.
  function PrimitiveWords(): N.Names {
    map["boolean" := Primitive(Boolean), "byte" := Primitive(Byte), "short" := Primitive(Short), "int" := Primitive(Integer),
        "long" := Primitive(Long), "float" := Primitive(Float), "double" := Primitive(Double), "char" := Primitive(Char),
        "String" := Primitive(String), "void" := Primitive(Void)]
  }

  // What a text reads as.
  function Reading(source: string, moduleName: string, targetIsTs: bool): X.Reading<seq<X.Part>> {
    X.ReadFile(source, 0, PrimitiveWords(), X.Config(moduleName, targetIsTs))
  }

  // A reading whose names are new makes up a module if one of its interfaces is
  // not only declared.
  predicate IsProgram(r: X.Reading<seq<X.Part>>) {
    r.Got? && X.AllNew({}, r.value) && P.AnyDefined(r.value)
  }

  // The declarations of m are these, in order.
  predicate Declares(m: Module, parts: seq<X.Part>) {
    P.InterfaceForms(m.interfaces) == P.Interfaces(parts) && P.SequenceableForms(m.sequenceables) == P.Sequenceables(parts)
  }

  // A text parses, with distinct names, exactly if it reads as a program. Its
  // module has the declarations of the text, read with the words' own meaning,
  // and lists everything it mentions.
  method ParseModule(source: string, moduleName: string, targetIsTs: bool, namespaces: seq<Namespace>)
    returns (ok: bool, m: Module, ghost names: N.Names)
    requires moduleName != ""
    ensures ok ==> m.IsValid()
    ensures ok && T.DistinctNames(m.sequenceables, m.interfaces) <==> IsProgram(Reading(source, moduleName, targetIsTs))
    ensures IsProgram(Reading(source, moduleName, targetIsTs)) ==>
              && D.Closed(m) && M.Meant(m, names) && Declares(m, Reading(source, moduleName, targetIsTs).value)
  {
    hide *;
    var parser := new P.Parser(source, moduleName, targetIsTs);
    ghost var d := T.Declarations(T.FirstTypes(), 10, [], []);
    ghost var r := P.FileAt(source, 0, d, None, parser.Options());
    L.Within(parser.lexer);
    parser.OptionsAre();
    FirstReading(source, moduleName, targetIsTs, d);
    NothingUsed(d);
    ok := parser.Parse();
    var module_ := parser.module_;
    P.DIs(module_);
    var entries := ListTypes(module_.types);
    m := Module(moduleName, namespaces, module_.sequenceables, module_.interfaces, entries);
    names := T.NamesOf(module_.types, parser.parsingInterface);
    ModuleIs(m, module_.D());
    ProgramIs(r);
    if ok {
      ModuleIsValid(m);
      if T.DistinctNames(m.sequenceables, m.interfaces) {
        M.ParsedIsClosed(m, module_.D(), parser.parsingInterface);
        M.NamesMeant(m, module_.D(), parser.parsingInterface);
        DeclaresAll(m, d, module_.D(), r.value);
      }
    }
  }

  lemma FirstReading(source: string, moduleName: string, targetIsTs: bool, d: T.Declarations)
    requires d.types == T.FirstTypes()
    ensures P.FileAt(source, 0, d, None, X.Config(moduleName, targetIsTs)) == Reading(source, moduleName, targetIsTs)
  {
    hide X.ReadFile, T.FirstTypes, T.NamesOf, PrimitiveWords;
    FirstWords();
  }

  lemma FirstWords()
    ensures T.NamesOf(T.FirstTypes(), None) == PrimitiveWords()
  {
    hide T.FirstTypes, PrimitiveWords;
    var a, b := T.NamesOf(T.FirstTypes(), None), PrimitiveWords();
    forall k | k in a ensures k in b && a[k] == b[k] {
      T.FirstIs(k);
      FirstWord(k);
    }
    forall k | k in b ensures k in a {
      FirstWord(k);
      T.FirstAreWords(k);
    }
  }

  lemma FirstWord(k: string)
    ensures k in T.FirstTypes() <==> k in PrimitiveWords()
    ensures k in T.FirstTypes() ==> TypeOf(T.FirstTypes()[k]) == PrimitiveWords()[k]
  {
  }

  lemma NothingUsed(d: T.Declarations)
    requires d.interfaces == [] && d.sequenceables == []
    ensures P.Used(d) == {} && T.DistinctNames(d.sequenceables, d.interfaces)
  {
  }

  lemma ProgramIs(r: X.Reading<seq<X.Part>>)
    ensures IsProgram(r) <==> r.Got? && X.AllNew({}, r.value) && P.AnyDefined(r.value)
  {
    hide X.AllNew, P.AnyDefined;
  }

  lemma DeclaresAll(m: Module, d: T.Declarations, e: T.Declarations, parts: seq<X.Part>)
    requires d.interfaces == [] && d.sequenceables == [] && P.Adds(d, e, parts) && M.ModuleOf(m, e)
    ensures Declares(m, parts)
    ensures P.AnyDefined(parts) <==> exists i :: 0 <= i < |m.interfaces| && !m.interfaces[i].external
  {
    hide P.InterfaceForms, P.SequenceableForms, P.Interfaces, P.Sequenceables, P.AnyDefined, M.Lists;
    P.DefinedAdded(d, e, parts);
    assert e.interfaces[0..] == e.interfaces && e.sequenceables[0..] == e.sequenceables;
  }

  // Declarations, printed and parsed, are the module's.
  method ParsePrinted(parts: seq<X.Part>, moduleName: string, targetIsTs: bool, namespaces: seq<Namespace>)
    returns (ok: bool, m: Module)
    requires moduleName != "" && X.AllNew({}, parts) && P.AnyDefined(parts)
    requires W.FileSayable(parts, PrimitiveWords(), X.Config(moduleName, targetIsTs))
    ensures ok && m.IsValid() && D.Closed(m) && Declares(m, parts)
  {
    hide *;
    W.PrintedFileReads(parts, PrimitiveWords(), X.Config(moduleName, targetIsTs));
    ReadingIs(W.FileText(parts), moduleName, targetIsTs);
    ProgramIs(Reading(W.FileText(parts), moduleName, targetIsTs));
    ghost var names;
    ok, m, names := ParseModule(W.FileText(parts), moduleName, targetIsTs, namespaces);
  }

  lemma ReadingIs(source: string, moduleName: string, targetIsTs: bool)
    ensures Reading(source, moduleName, targetIsTs) == X.ReadFile(source, 0, PrimitiveWords(), X.Config(moduleName, targetIsTs))
  {
    hide X.ReadFile, PrimitiveWords;
  }

  // A program has a normal form: its declarations printed are a program of the
  // same declarations.
  lemma NormalForm(source: string, moduleName: string, targetIsTs: bool)
    requires IsProgram(Reading(source, moduleName, targetIsTs))
    ensures var parts := Reading(source, moduleName, targetIsTs).value;
            Reading(W.FileText(parts), moduleName, targetIsTs) == X.Got(parts, |W.FileText(parts)|)
  {
    hide *;
    ReadingIs(source, moduleName, targetIsTs);
    ProgramIs(Reading(source, moduleName, targetIsTs));
    PrimitiveWordsHonest();
    var parts := Reading(source, moduleName, targetIsTs).value;
    W.FilePrintsAgain(source, 0, PrimitiveWords(), X.Config(moduleName, targetIsTs), {});
    ReadingIs(W.FileText(parts), moduleName, targetIsTs);
  }

  // The programs are the texts whose words, behind a comment that comes first,
  // are words of declarations with new names of which one is an interface with
  // methods.
  lemma ProgramsAreGrammatical(source: string, moduleName: string, targetIsTs: bool)
    ensures IsProgram(Reading(source, moduleName, targetIsTs)) <==>
              exists parts :: X.AllNew({}, parts) && P.AnyDefined(parts)
                              && G.AreParts(G.WordsOf(source, X.Beginning(source, 0)), parts, PrimitiveWords(), X.Config(moduleName, targetIsTs))
  {
    hide *;
    var r, config := Reading(source, moduleName, targetIsTs), X.Config(moduleName, targetIsTs);
    ReadingIs(source, moduleName, targetIsTs);
    ProgramIs(r);
    PrimitiveWordsHonest();
    if IsProgram(r) {
      G.ReadsIffGrammar(source, 0, r.value, PrimitiveWords(), config, {});
    }
    forall parts | X.AllNew({}, parts) && P.AnyDefined(parts)
                   && G.AreParts(G.WordsOf(source, X.Beginning(source, 0)), parts, PrimitiveWords(), config)
      ensures IsProgram(r)
    {
      G.ReadsIffGrammar(source, 0, parts, PrimitiveWords(), config, {});
    }
  }

  lemma PrimitiveWordsHonest()
    ensures W.Honest(PrimitiveWords())
  {
  }

  lemma ModuleIs(m: Module, d: T.Declarations)
    requires m.sequenceables == d.sequenceables && m.interfaces == d.interfaces && M.Lists(m.types, d.types)
    ensures M.ModuleOf(m, d)
  {
    hide M.Lists;
  }

  lemma ModuleIsValid(m: Module)
    requires m.name != "" && exists i :: 0 <= i < |m.interfaces| && !m.interfaces[i].external
    ensures m.IsValid()
  {
  }

  // Every type of the table is printed from the built block as it was parsed.
  method BuildAndDump(m: Module, base: nat) returns (texts: seq<string>)
    requires m.IsValid() && D.Closed(m) && Aligned(base) && Buildable(m, base)
    ensures |texts| == |m.types| && forall i :: 0 <= i < |m.types| ==> texts[i] == NodeText(m.types[i].node)
  {
    hide *;
    BuildableIs(m, base);
    var builder := new B.Builder(m);
    var _ := builder.Build(base);
    ghost var c := B.ContextOf(m, B.AddAll([], B.ModuleStrings(m)), base);
    var mem := builder.mem;
    MakeBuilt(m, base, mem);
    D.BuiltGraph(m, base, mem);
    B.ContextIs(m);
    texts := [];
    for i := 0 to |m.types|
      invariant |texts| == i && forall j :: 0 <= j < i ==> texts[j] == NodeText(m.types[j].node)
    {
      EntryListed(m, c, i);
      var text := D.DumpMetaType(mem, base, D.TypeRecord(mem, base, i), c, m.types[i].node);
      texts := texts + [text];
    }
  }

  lemma BuildableIs(m: Module, base: nat)
    ensures Buildable(m, base) <==> B.NulFree(B.ModuleStrings(m)) && B.Layout(m, base).ComponentEnd(base) < WORD
  {
    hide B.NulFree, B.ModuleStrings, B.Layout;
  }

  lemma MakeBuilt(m: Module, at: nat, mem: Memory)
    requires B.NulFree(B.ModuleStrings(m)) && B.Layout(m, at).ComponentEnd(at) < WORD
    requires B.Layout(m, at).ComponentHolds(mem, at, 0)
    requires B.PoolHolds(mem, B.Layout(m, at).PoolBase(at), S.PoolText(B.AddAll([], B.ModuleStrings(m))))
    ensures D.Built(m, at, mem)
  {
    hide B.NulFree, B.ModuleStrings, B.Layout, B.PoolHolds, S.PoolText, B.AddAll;
  }

  lemma EntryListed(m: Module, c: B.Context, i: nat)
    requires D.Closed(m) && i < |m.types| && c.m == m
    ensures D.Listed(m.types, m.types[i].node) && c.IndexOfType(m.types[i].node) == i
  {
    hide D.Declared, D.Listed;
    assert TypeIds(m.types)[i] == m.types[i].node.id;
    D.DistinctIndex(TypeIds(m.types), i);
    ListedAt(m.types, i);
  }

  lemma ListedAt(types: seq<TypeEntry>, i: nat)
    requires i < |types|
    ensures D.Listed(types, types[i].node)
  {
  }

  // From the text to the block and back: for every program whose module can be
  // built, each type of the table is printed from the metadata as the text has it.
  method Compile(source: string, moduleName: string, targetIsTs: bool, namespaces: seq<Namespace>, base: nat)
    returns (parsed: bool, m: Module, texts: seq<string>, ghost names: N.Names)
    requires moduleName != "" && Aligned(base)
    ensures parsed && T.DistinctNames(m.sequenceables, m.interfaces) <==> IsProgram(Reading(source, moduleName, targetIsTs))
    ensures IsProgram(Reading(source, moduleName, targetIsTs)) && Buildable(m, base) ==>
              && M.Meant(m, names) && Declares(m, Reading(source, moduleName, targetIsTs).value)
              && |texts| == |m.types| && (forall i :: 0 <= i < |m.types| ==> texts[i] == NodeText(m.types[i].node))
              && (forall d, x :: d in m.interfaces && x in d.methods ==> D.Listed(m.types, x.ret))
              && (forall d, x, p :: d in m.interfaces && x in d.methods && p in x.params ==> D.Listed(m.types, p.typ))
  {
    hide *;
    texts := [];
    parsed, m, names := ParseModule(source, moduleName, targetIsTs, namespaces);
    if parsed && T.DistinctNames(m.sequenceables, m.interfaces) && Buildable(m, base) {
      MentionedListed(m);
      texts := BuildAndDump(m, base);
    }
  }

  lemma MentionedListed(m: Module)
    requires D.Closed(m)
    ensures forall d, x :: d in m.interfaces && x in d.methods ==> D.Listed(m.types, x.ret)
    ensures forall d, x, p :: d in m.interfaces && x in d.methods && p in x.params ==> D.Listed(m.types, p.typ)
  {
    hide D.Listed, D.Declared, D.Distinct;
  }
}
