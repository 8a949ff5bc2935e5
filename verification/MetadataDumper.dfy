/** The reader of the type graph in a metadata block: what it prints for every
    type of the table, and why its recursion ends. */
module MetadataDumper {
  import opened IdlAst
  import opened IdlTypes
  import opened StringPools
  import opened MetadataBlocks
  import opened MetadataSerializer
  import opened MetadataBuilder
  import opened MetadataLayout

  // ----- the modules a parse leaves behind -----

  predicate Distinct(ids: seq<nat>) {
    forall i, j :: 0 <= i < j < |ids| ==> ids[i] != ids[j]
  }

  predicate Listed(types: seq<TypeEntry>, n: Node) {
    exists i :: 0 <= i < |types| && types[i].node == n
  }

  // A declared type is one of the module's declarations, under its own full name.
  predicate Declared(m: Module, n: Node) {
    match n
    case SequenceableNode(id, nspace, name) =>
      name != "" && exists i :: 0 <= i < |m.sequenceables| && m.sequenceables[i] == SequenceableDecl(id, nspace, name)
    case InterfaceNode(id, nspace, name) =>
      name != ""
      && exists i :: 0 <= i < |m.interfaces| && m.interfaces[i].id == id && m.interfaces[i].nspace == nspace && m.interfaces[i].name == name
    case _ => true
  }

  // The type table is closed: it lists every type its entries and the methods
  // mention, each under one address.
  ghost predicate Closed(m: Module) {
    && Distinct(TypeIds(m.types)) && Distinct(SequenceableIds(m.sequenceables)) && Distinct(InterfaceIds(m.interfaces))
    && (forall i :: 0 <= i < |m.types| ==> Declared(m, m.types[i].node))
    && (forall i, n :: 0 <= i < |m.types| && n in Nested(m.types[i].node) ==> Listed(m.types, n))
    && (forall d, x :: d in m.interfaces && x in d.methods ==> Listed(m.types, x.ret))
    && (forall d, x, p :: d in m.interfaces && x in d.methods && p in x.params ==> Listed(m.types, p.typ))
  }

  lemma DistinctIndex(ids: seq<nat>, i: nat)
    requires Distinct(ids) && i < |ids|
    ensures IndexIn(ids, ids[i]) == i
  {
  }

  // The index written for a listed type leads back to exactly that type.
  lemma IndexLeadsBack(c: Context, n: Node)
    requires Distinct(TypeIds(c.m.types)) && Listed(c.m.types, n)
    ensures 0 <= c.IndexOfType(n) < |c.m.types| && c.m.types[c.IndexOfType(n)].node == n
  {
    var i :| 0 <= i < |c.m.types| && c.m.types[i].node == n;
    DistinctIndex(TypeIds(c.m.types), i);
  }

  // Every index in the block is in range.
  lemma IndexesInRange(c: Context)
    requires Closed(c.m)
    ensures forall d, x :: d in c.m.interfaces && x in d.methods ==> 0 <= c.IndexOfType(x.ret) < |c.m.types|
    ensures forall d, x, p :: d in c.m.interfaces && x in d.methods && p in x.params ==>
              0 <= c.IndexOfType(p.typ) < |c.m.types|
    ensures forall i, k :: 0 <= i < |c.m.types| && 0 <= k < |NestedIndexes(c, c.m.types[i].node)| ==>
              0 <= NestedIndexes(c, c.m.types[i].node)[k] < |c.m.types|
  {
    hide Context.IndexOfType, Listed;
    forall d, x | d in c.m.interfaces && x in d.methods ensures 0 <= c.IndexOfType(x.ret) < |c.m.types| {
      IndexLeadsBack(c, x.ret);
    }
    forall d, x, p | d in c.m.interfaces && x in d.methods && p in x.params
      ensures 0 <= c.IndexOfType(p.typ) < |c.m.types|
    {
      IndexLeadsBack(c, p.typ);
    }
    forall i, k | 0 <= i < |c.m.types| && 0 <= k < |NestedIndexes(c, c.m.types[i].node)|
      ensures 0 <= NestedIndexes(c, c.m.types[i].node)[k] < |c.m.types|
    {
      assert Nested(c.m.types[i].node)[k] in Nested(c.m.types[i].node);
      IndexLeadsBack(c, Nested(c.m.types[i].node)[k]);
    }
  }

  // ----- reading the block -----

  predicate IsCharCode(v: int) {
    0 < v < 0xD800 || 0xE000 <= v < 0x110000
  }

  // A C string of at most n characters.
  function CText(m: Memory, a: int, n: nat): string
    decreases n
  {
    if n == 0 || !IsCharCode(Read(m, a)) then "" else [Read(m, a) as char] + CText(m, a + 1, n - 1)
  }

  function PoolSize(m: Memory, mc: nat): nat {
    if Read(m, mc + 64) < 0 then 0 else Read(m, mc + 64)
  }

  // types_[i], sequenceables_[i]->name_ and interfaces_[i]->name_.
  function TypeRecord(m: Memory, mc: nat, i: int): int {
    Read(m, Read(m, mc + 56) + 8 * i)
  }

  function SequenceableName(m: Memory, mc: nat, i: int): string {
    CText(m, Read(m, Read(m, Read(m, mc + 40) + 8 * i)), PoolSize(m, mc))
  }

  function InterfaceName(m: Memory, mc: nat, i: int): string {
    CText(m, Read(m, Read(m, Read(m, mc + 48) + 8 * i) + 8), PoolSize(m, mc))
  }

  // The record of type n, wherever it lies.
  ghost predicate TypeRecordHolds(m: Memory, a: int, c: Context, n: Node) {
    && Read(m, a) == KindNumber(n) && Read(m, a + 4) == TypeIndex(c, n)
    && (Nested(n) != [] ==> IntsHold(m, Read(m, a + 16), NestedIndexes(c, n)))
  }

  // The type table and the names of the declarations, as found in memory.
  ghost predicate Graph(m: Memory, mc: nat, c: Context) {
    && (forall i :: 0 <= i < |c.m.types| ==> TypeRecordHolds(m, TypeRecord(m, mc, i), c, c.m.types[i].node))
    && (forall i :: 0 <= i < |c.m.sequenceables| && c.m.sequenceables[i].name != "" ==>
          SequenceableName(m, mc, i) == c.m.sequenceables[i].name)
    && (forall i :: 0 <= i < |c.m.interfaces| && c.m.interfaces[i].name != "" ==>
          InterfaceName(m, mc, i) == c.m.interfaces[i].name)
  }

  lemma ListedRecord(m: Memory, mc: nat, c: Context, n: Node)
    requires Closed(c.m) && Graph(m, mc, c) && Listed(c.m.types, n)
    ensures TypeRecordHolds(m, TypeRecord(m, mc, c.IndexOfType(n)), c, n)
    ensures Declared(c.m, n) && forall k :: k in Nested(n) ==> Listed(c.m.types, k)
  {
    IndexLeadsBack(c, n);
    hide TypeRecordHolds, TypeRecord, Context.IndexOfType, Declared, Listed, SequenceableName, InterfaceName;
  }

  lemma DeclaredName(m: Memory, mc: nat, c: Context, n: Node)
    requires Closed(c.m) && Graph(m, mc, c) && Declared(c.m, n)
    ensures n.SequenceableNode? ==> SequenceableName(m, mc, TypeIndex(c, n)) == n.name
    ensures n.InterfaceNode? ==> InterfaceName(m, mc, TypeIndex(c, n)) == n.name
  {
    hide TypeRecordHolds, TypeRecord, SequenceableName, InterfaceName, Listed, Distinct;
    if n.SequenceableNode? {
      var i :| 0 <= i < |c.m.sequenceables| && c.m.sequenceables[i].id == n.id && c.m.sequenceables[i].name == n.name;
      DistinctIndex(SequenceableIds(c.m.sequenceables), i);
    } else if n.InterfaceNode? {
      var i :| 0 <= i < |c.m.interfaces| && c.m.interfaces[i].id == n.id && c.m.interfaces[i].name == n.name;
      DistinctIndex(InterfaceIds(c.m.interfaces), i);
    }
  }

  lemma NestedRecord(m: Memory, mc: nat, c: Context, n: Node, mt: int, k: nat)
    requires TypeRecordHolds(m, mt, c, n) && k < |Nested(n)|
    ensures Read(m, Read(m, mt + 16) + 4 * k) == c.IndexOfType(Nested(n)[k])
  {
    hide KindNumber, TypeIndex, Read;
    assert NestedIndexes(c, n)[k] == c.IndexOfType(Nested(n)[k]);
  }

  lemma KindRead(m: Memory, mt: int, c: Context, n: Node)
    requires TypeRecordHolds(m, mt, c, n)
    ensures Read(m, mt) == KindNumber(n) && Read(m, mt + 4) == TypeIndex(c, n)
  {
    hide KindNumber, TypeIndex, Read;
  }

  // The text of the type whose record is at `mt`. The table is in no particular
  // order: what gets smaller is the type, not its index.
  function DumpMetaType(m: Memory, mc: nat, mt: int, ghost c: Context, ghost n: Node): (text: string)
    requires Closed(c.m) && Graph(m, mc, c) && Listed(c.m.types, n) && mt == TypeRecord(m, mc, c.IndexOfType(n))
    ensures text == NodeText(n)
    decreases n
  {
    hide Closed, Graph, Listed, Declared, TypeRecordHolds, TypeRecord, Context.IndexOfType, Read, TypeIndex, SequenceableName,
         InterfaceName;
    ListedRecord(m, mc, c, n);
    KindRead(m, mt, c, n);
    DeclaredName(m, mc, c, n);
    var kind := Read(m, mt);
    if kind == 1 then "char"
    else if kind == 2 then "boolean"
    else if kind == 3 then "byte"
    else if kind == 4 then "short"
    else if kind == 5 then "int"
    else if kind == 6 then "long"
    else if kind == 7 then "float"
    else if kind == 8 then "double"
    else if kind == 9 then "String"
    else if kind == 10 then "void"
    else if kind == 11 then SequenceableName(m, mc, Read(m, mt + 4))
    else if kind == 12 then InterfaceName(m, mc, Read(m, mt + 4))
    else if kind == 13 then
      NestedRecord(m, mc, c, n, mt, 0);
      var element := TypeRecord(m, mc, Read(m, Read(m, mt + 16) + 4 * 0));
      "List<" + DumpMetaType(m, mc, element, c, n.element) + ">"
    else if kind == 14 then
      NestedRecord(m, mc, c, n, mt, 0);
      NestedRecord(m, mc, c, n, mt, 1);
      var key := TypeRecord(m, mc, Read(m, Read(m, mt + 16) + 4 * 0));
      var value := TypeRecord(m, mc, Read(m, Read(m, mt + 16) + 4 * 1));
      "Map<" + DumpMetaType(m, mc, key, c, n.key) + ", " + DumpMetaType(m, mc, value, c, n.value) + ">"
    else if kind == 15 then
      NestedRecord(m, mc, c, n, mt, 0);
      var element := TypeRecord(m, mc, Read(m, Read(m, mt + 16) + 4 * 0));
      DumpMetaType(m, mc, element, c, n.element) + "[]"
    else "unknown"
  }

  // ----- a built block is such a graph -----

  lemma RecordOf(c: Context, size: nat, at: nat, m: Memory, j: nat)
    requires var r := ComponentOf(c, size); r.ComponentHolds(m, at, 0) && r.ComponentEnd(at) < WORD && j < |r.Kids()|
    ensures var r := ComponentOf(c, size); var b := KidBase(r.KidsStart(at), r.Kids(), j);
            && Read(m, at + 80 + 8 * j) == Align8(b) && HeaderHolds(m, b, r.Kids()[j], 0)
            && WellSized(r.Kids()[j]) && End(b, r.Kids()[j]) < WORD
  {
    hide *;
    var r := ComponentOf(c, size);
    TablesAre(c, size, at);
    AllSized(c, size);
    SizedIs(r);
    HoldsParts(r, m, at);
    KidRange(r.KidsStart(at), r.Kids(), j);
    KidHolds(m, r.KidsStart(at), r.Kids(), 0, j);
    TableEntry(m, r.Table(at), r.KidsStart(at), r.Kids(), j);
    HeaderOf(m, KidBase(r.KidsStart(at), r.Kids(), j), r.Kids()[j]);
  }

  lemma HoldsParts(r: Component, m: Memory, at: nat)
    requires r.ComponentHolds(m, at, 0)
    ensures r.HeadHolds(m, at, 0) && TableHolds(m, r.Table(at), r.KidsStart(at), r.Kids(), 0)
    ensures KidsHold(m, r.KidsStart(at), r.Kids(), 0)
  {
    hide Component.HeadHolds, TableHolds, KidsHold, Component.Kids, Component.KidsStart, Component.Table;
  }

  lemma HeaderOf(m: Memory, b: nat, blk: Block)
    requires Holds(m, b, blk, 0)
    ensures HeaderHolds(m, b, blk, 0)
  {
    hide HeaderHolds, KidsHold, TableHolds;
  }

  lemma TableEntry(m: Memory, table: nat, kb: nat, kids: seq<Block>, j: nat)
    requires TableHolds(m, table, kb, kids, 0) && j < |kids| && WellSized(kids[j]) && End(KidBase(kb, kids, j), kids[j]) < WORD
    ensures Read(m, table + 8 * j) == Align8(KidBase(kb, kids, j))
  {
    hide Align8, Wrap, KidBase, WellSized, End;
    ArraysAscend(KidBase(kb, kids, j), kids[j]);
    EndGrows(KidBase(kb, kids, j), kids[j]);
    WrapWrap(Align8(KidBase(kb, kids, j)), 0);
  }

  lemma TypeRecordOf(m: Memory, b: nat, c: Context, n: Node)
    requires HeaderHolds(m, b, TypeBlock(c, n), 0) && End(b, TypeBlock(c, n)) < WORD
    ensures TypeRecordHolds(m, Align8(b), c, n)
  {
    TypeIs(b, c, n);
    WrapWrap(Align8(b) + 24, 0);
    hide Align8, Wrap, Read, KindNumber, TypeIndex, NestedIndexes, WellSized, IntArrayStart, KidsBase, IntsHold, End;
    var blk, at := TypeBlock(c, n), Align8(b);
    assert blk.fields[0] == KindNumber(n) && blk.fields[4] == TypeIndex(c, n);
    assert Read(m, at + 0) == blk.fields[0] && Read(m, at + 4) == blk.fields[4];
    if Nested(n) != [] {
      assert Read(m, at + IntArrayOffset(blk.kind, 0)) == Wrap(IntArrayStart(b, blk, 0) + 0);
      assert blk.ints[0].cells == NestedIndexes(c, n);
    }
  }

  lemma SequenceableNameOf(m: Memory, b: nat, c: Context, x: SequenceableDecl)
    requires HeaderHolds(m, b, SequenceableBlock(c, x), 0) && Fits(c)
    ensures Read(m, Align8(b)) == c.Str(Text(x.name))
  {
    StrFits(c, Text(x.name));
    hide Align8, Wrap, Read, Context.Str;
    assert 0 in SequenceableBlock(c, x).fields;
  }

  lemma InterfaceNameOf(m: Memory, b: nat, c: Context, x: InterfaceDecl)
    requires HeaderHolds(m, b, InterfaceBlock(c, x), 0) && Fits(c)
    ensures Read(m, Align8(b) + 8) == c.Str(Text(x.name))
  {
    StrFits(c, Text(x.name));
    hide Align8, Wrap, Read, Context.Str, MethodBlocks;
    assert 8 in InterfaceBlock(c, x).fields;
  }

  lemma {:induction false} CTextIs(m: Memory, a: int, n: nat, s: string)
    requires |s| < n && '\0' !in s
    requires (forall i :: 0 <= i < |s| ==> Read(m, a + i) == s[i] as int) && Read(m, a + |s|) == 0
    ensures CText(m, a, n) == s
    decreases |s|
  {
    hide Read;
    if s != "" {
      assert Read(m, a + 0) == s[0] as int;
      forall i | 0 <= i < |s[1..]| ensures Read(m, a + 1 + i) == s[1..][i] as int {
        assert Read(m, a + (i + 1)) == s[i + 1] as int;
      }
      CTextIs(m, a + 1, n - 1, s[1..]);
    } else {
      assert Read(m, a + 0) == 0;
    }
  }

  lemma NamesAreStrings(m: Module)
    ensures forall i :: 0 <= i < |m.sequenceables| ==> m.sequenceables[i].name in ModuleStrings(m)
    ensures forall i :: 0 <= i < |m.interfaces| ==> m.interfaces[i].name in ModuleStrings(m)
  {
    hide Flat, NamespaceParts;
    forall i | 0 <= i < |m.sequenceables| ensures m.sequenceables[i].name in ModuleStrings(m) {
      FlatHas(SequenceableParts(m.sequenceables), i);
      assert m.sequenceables[i].name in SequenceableStrings(m.sequenceables[i]);
    }
    forall i | 0 <= i < |m.interfaces| ensures m.interfaces[i].name in ModuleStrings(m) {
      FlatHas(InterfaceParts(m.interfaces), i);
      assert InterfaceStrings(m.interfaces[i])[1] == m.interfaces[i].name;
      assert m.interfaces[i].name in InterfaceStrings(m.interfaces[i]);
    }
  }

  // The text at a string's address is the string.
  lemma PooledText(m: Module, at: nat, mem: Memory, s: string)
    requires NulFree(ModuleStrings(m)) && s in ModuleStrings(m) && s != ""
    requires PoolHolds(mem, Layout(m, at).PoolBase(at), PoolText(AddAll([], ModuleStrings(m))))
    ensures var order := AddAll([], ModuleStrings(m));
            CText(mem, ContextOf(m, order, at).Str(Text(s)), |PoolText(order)|) == s
  {
    hide *;
    var order := AddAll([], ModuleStrings(m));
    StringsReadBack(m, at, mem, s);
    NulFreeHas(ModuleStrings(m), s);
    ShorterThanPool(order, s);
    CTextIs(mem, ContextOf(m, order, at).Str(Text(s)), |PoolText(order)|, s);
  }

  lemma NulFreeHas(ss: seq<string>, s: string)
    requires NulFree(ss) && s in ss
    ensures '\0' !in s
  {
  }

  lemma ShorterThanPool(order: seq<string>, s: string)
    requires s in order
    ensures |s| < |PoolText(order)|
  {
    RangeOf(order, Position(order, s));
  }

  lemma PoolSizeRead(c: Context, size: nat, at: nat, m: Memory)
    requires ComponentOf(c, size).HeadHolds(m, at, 0)
    ensures PoolSize(m, at) == |PoolText(c.order)|
  {
    FieldsOf(c, size);
    hide ComponentOf, PoolText, Wrap, Read, Component.FirstOf, Component.Table;
    assert 64 in ComponentOf(c, size).fields.Keys;
  }

  ghost predicate Built(m: Module, at: nat, mem: Memory) {
    && NulFree(ModuleStrings(m)) && Layout(m, at).ComponentHolds(mem, at, 0) && Layout(m, at).ComponentEnd(at) < WORD
    && PoolHolds(mem, Layout(m, at).PoolBase(at), PoolText(AddAll([], ModuleStrings(m))))
  }

  lemma BuiltIs(m: Module, at: nat, mem: Memory)
    requires Built(m, at, mem)
    ensures var order := AddAll([], ModuleStrings(m)); var c, size := ContextOf(m, order, at), MetadataSize(m);
            var r := ComponentOf(c, size);
            && c.m == m && c.order == order && Fits(c) && r.ComponentHolds(mem, at, 0) && r.ComponentEnd(at) < WORD
            && r.HeadHolds(mem, at, 0) && NulFree(ModuleStrings(m))
            && PoolHolds(mem, Layout(m, at).PoolBase(at), PoolText(order)) && PoolSize(mem, at) == |PoolText(order)|
  {
    hide AddAll, ModuleStrings, ContextOf, Layout, MetadataSize, ComponentOf, Component.ComponentHolds, PoolText,
         Component.ComponentEnd, Component.PoolBase, PoolHolds, Fits, PoolSize, NulFree, Component.HeadHolds,
         Component.Sized;
    var order := AddAll([], ModuleStrings(m));
    LayoutIs(m, at);
    ContextFits(m, order, at, MetadataSize(m));
    HoldsParts(Layout(m, at), mem, at);
    PoolSizeRead(ContextOf(m, order, at), MetadataSize(m), at, mem);
  }

  lemma TypesFound(m: Module, at: nat, mem: Memory, i: nat)
    requires Built(m, at, mem) && i < |m.types|
    ensures TypeRecordHolds(mem, TypeRecord(mem, at, i), ContextOf(m, AddAll([], ModuleStrings(m)), at), m.types[i].node)
  {
    hide *;
    var c, size := ContextOf(m, AddAll([], ModuleStrings(m)), at), MetadataSize(m);
    var r := ComponentOf(c, size);
    BuiltIs(m, at, mem);
    PointersIs(mem, at, c, size);
    TablesAre(c, size, at);
    KidsAre(c, size);
    RecordOf(c, size, at, mem, r.FirstOf(3) + i);
    TypeRecordOf(mem, KidBase(r.KidsStart(at), r.Kids(), r.FirstOf(3) + i), c, m.types[i].node);
    RecordReads(mem, at, i);
  }

  lemma RecordReads(m: Memory, mc: nat, i: int)
    ensures TypeRecord(m, mc, i) == Read(m, Read(m, mc + 56) + 8 * i)
    ensures SequenceableName(m, mc, i) == CText(m, Read(m, Read(m, Read(m, mc + 40) + 8 * i)), PoolSize(m, mc))
    ensures InterfaceName(m, mc, i) == CText(m, Read(m, Read(m, Read(m, mc + 48) + 8 * i) + 8), PoolSize(m, mc))
  {
  }

  lemma SequenceablesFound(m: Module, at: nat, mem: Memory, i: nat)
    requires Built(m, at, mem) && i < |m.sequenceables| && m.sequenceables[i].name != ""
    ensures SequenceableName(mem, at, i) == m.sequenceables[i].name
  {
    hide *;
    var c, size := ContextOf(m, AddAll([], ModuleStrings(m)), at), MetadataSize(m);
    var r := ComponentOf(c, size);
    BuiltIs(m, at, mem);
    PointersIs(mem, at, c, size);
    TablesAre(c, size, at);
    KidsAre(c, size);
    RecordOf(c, size, at, mem, r.FirstOf(1) + i);
    SequenceableNameOf(mem, KidBase(r.KidsStart(at), r.Kids(), r.FirstOf(1) + i), c, m.sequenceables[i]);
    NamesAreStrings(m);
    PooledText(m, at, mem, m.sequenceables[i].name);
    RecordReads(mem, at, i);
  }

  lemma InterfacesFound(m: Module, at: nat, mem: Memory, i: nat)
    requires Built(m, at, mem) && i < |m.interfaces| && m.interfaces[i].name != ""
    ensures InterfaceName(mem, at, i) == m.interfaces[i].name
  {
    hide *;
    var c, size := ContextOf(m, AddAll([], ModuleStrings(m)), at), MetadataSize(m);
    var r := ComponentOf(c, size);
    BuiltIs(m, at, mem);
    PointersIs(mem, at, c, size);
    TablesAre(c, size, at);
    KidsAre(c, size);
    RecordOf(c, size, at, mem, r.FirstOf(2) + i);
    InterfaceNameOf(mem, KidBase(r.KidsStart(at), r.Kids(), r.FirstOf(2) + i), c, m.interfaces[i]);
    NamesAreStrings(m);
    PooledText(m, at, mem, m.interfaces[i].name);
    RecordReads(mem, at, i);
  }

  lemma BuiltGraph(m: Module, at: nat, mem: Memory)
    requires Built(m, at, mem)
    ensures Graph(mem, at, ContextOf(m, AddAll([], ModuleStrings(m)), at))
  {
    hide Built, AddAll, ModuleStrings, TypeRecordHolds, TypeRecord, SequenceableName, InterfaceName;
    forall i | 0 <= i < |m.types|
      ensures TypeRecordHolds(mem, TypeRecord(mem, at, i), ContextOf(m, AddAll([], ModuleStrings(m)), at), m.types[i].node)
    {
      TypesFound(m, at, mem, i);
    }
    forall i | 0 <= i < |m.sequenceables| && m.sequenceables[i].name != ""
      ensures SequenceableName(mem, at, i) == m.sequenceables[i].name
    {
      SequenceablesFound(m, at, mem, i);
    }
    forall i | 0 <= i < |m.interfaces| && m.interfaces[i].name != ""
      ensures InterfaceName(mem, at, i) == m.interfaces[i].name
    {
      InterfacesFound(m, at, mem, i);
    }
  }

  lemma ClosedListsOnce(m: Module)
    requires Closed(m)
    ensures Distinct(TypeIds(m.types))
  {
    hide Distinct, Declared, Listed;
  }

  // The block denotes the syntax tree: the record at the index written for any
  // listed type prints that type's text.
  lemma BlockDenotesTypes(m: Module, at: nat, mem: Memory, n: Node)
    requires Built(m, at, mem) && Closed(m) && Listed(m.types, n)
    ensures var c := ContextOf(m, AddAll([], ModuleStrings(m)), at);
            && Graph(mem, at, c) && 0 <= c.IndexOfType(n) < |m.types|
            && DumpMetaType(mem, at, TypeRecord(mem, at, c.IndexOfType(n)), c, n) == NodeText(n)
  {
    hide *;
    BuiltGraph(m, at, mem);
    ContextIs(m);
    ClosedListsOnce(m);
    IndexLeadsBack(ContextOf(m, AddAll([], ModuleStrings(m)), at), n);
  }
}
