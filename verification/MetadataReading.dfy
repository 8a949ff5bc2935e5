/** What a reader that knows the structures of the metadata header files finds in
    a block, where it was built and where it was moved to: the module it was
    built from, field by field. */
module MetadataReading {
  import opened IdlAst
  import opened IdlTypes
  import opened StringPools
  import opened MetadataBlocks
  import opened MetadataSerializer
  import opened MetadataBuilder
  import opened MetadataLayout
  import opened MetadataDumper
  import opened Relocation

  // ----- reading a block -----

  // The characters from `a` on spell the string, and a NUL ends it.
  predicate TextAt(mem: Memory, a: int, s: string) {
    (forall i :: 0 <= i < |s| ==> Read(mem, a + i) == s[i] as int) && Read(mem, a + |s|) == 0
  }

  // The pointer in cell `a` leads to the string; an empty string's leads to the
  // start of the pool, where the module's name is.
  predicate Says(m: Module, mem: Memory, a: int, s: string) {
    TextAt(mem, Read(mem, a), if s == "" then m.name else s)
  }

  // The number a reader's switch has for a primitive type.
  function PrimCase(p: Prim): int {
    match p
    case Char => 1
    case Boolean => 2
    case Byte => 3
    case Short => 4
    case Integer => 5
    case Long => 6
    case Float => 7
    case Double => 8
    case String => 9
    case Void => 10
  }

  // types_[i], sequenceables_[i] and interfaces_[i] of the component at `mc`.
  function TypeNo(mem: Memory, mc: int, i: int): int {
    Read(mem, Read(mem, mc + 56) + 8 * i)
  }

  function SequenceableNo(mem: Memory, mc: int, i: int): int {
    Read(mem, Read(mem, mc + 40) + 8 * i)
  }

  function InterfaceNo(mem: Memory, mc: int, i: int): int {
    Read(mem, Read(mem, mc + 48) + 8 * i)
  }

  // The record at `mt`, followed through nestedTypeIndexes_ and index_, is the type.
  predicate TypeReads(mem: Memory, mc: int, mt: int, n: Node)
    decreases n
  {
    match n
    case PrimitiveNode(_, p) => Read(mem, mt) == PrimCase(p) && TypeNo(mem, mc, Read(mem, mt + 4)) == mt
    case SequenceableNode(_, _, name) =>
      Read(mem, mt) == 11 && TextAt(mem, Read(mem, SequenceableNo(mem, mc, Read(mem, mt + 4))), name)
    case InterfaceNode(_, _, name) =>
      Read(mem, mt) == 12 && TextAt(mem, Read(mem, InterfaceNo(mem, mc, Read(mem, mt + 4)) + 8), name)
    case ListNode(_, e) =>
      && Read(mem, mt) == 13 && TypeNo(mem, mc, Read(mem, mt + 4)) == mt && Read(mem, mt + 8) == 1
      && TypeReads(mem, mc, TypeNo(mem, mc, Read(mem, Read(mem, mt + 16))), e)
    case MapNode(_, k, v) =>
      && Read(mem, mt) == 14 && TypeNo(mem, mc, Read(mem, mt + 4)) == mt && Read(mem, mt + 8) == 2
      && TypeReads(mem, mc, TypeNo(mem, mc, Read(mem, Read(mem, mt + 16))), k)
      && TypeReads(mem, mc, TypeNo(mem, mc, Read(mem, Read(mem, mt + 16) + 4)), v)
    case ArrayNode(_, e) =>
      && Read(mem, mt) == 15 && TypeNo(mem, mc, Read(mem, mt + 4)) == mt && Read(mem, mt + 8) == 1
      && TypeReads(mem, mc, TypeNo(mem, mc, Read(mem, Read(mem, mt + 16))), e)
  }

  // Bit 0 of attributes_ is ATTR_IN, bit 1 is ATTR_OUT.
  predicate ParamReads(m: Module, mem: Memory, mc: int, mp: int, p: Param) {
    && Says(m, mem, mp, p.name)
    && 0 <= Read(mem, mp + 8) < 4
    && (Read(mem, mp + 8) % 2 == 1 <==> p.isIn) && (Read(mem, mp + 8) / 2 == 1 <==> p.isOut)
    && TypeReads(mem, mc, TypeNo(mem, mc, Read(mem, mp + 12)), p.typ)
  }

  predicate MethodReads(m: Module, mem: Memory, mc: int, mm: int, x: Method) {
    && Says(m, mem, mm, x.name) && Says(m, mem, mm + 8, MethodText(x))
    && Read(mem, mm + 16) == (if x.oneway then 1 else 0)
    && TypeReads(mem, mc, TypeNo(mem, mc, Read(mem, mm + 20)), x.ret)
    && Read(mem, mm + 24) == |x.params|
    && forall i :: 0 <= i < |x.params| ==> ParamReads(m, mem, mc, Read(mem, Read(mem, mm + 32) + 8 * i), x.params[i])
  }

  // `null` is what a null pointer reads as.
  predicate InterfaceReads(m: Module, mem: Memory, mc: int, null_: int, mi: int, x: InterfaceDecl) {
    && (if x.license.Null? then Read(mem, mi) == null_ else Says(m, mem, mi, x.license.chars))
    && Says(m, mem, mi + 8, x.name) && Says(m, mem, mi + 16, x.nspace)
    && Read(mem, mi + 24) == (if x.oneway then 1 else 0) && Read(mem, mi + 40) == (if x.external then 1 else 0)
    && Read(mem, mi + 28) == |x.methods|
    && forall i :: 0 <= i < |x.methods| ==> MethodReads(m, mem, mc, Read(mem, Read(mem, mi + 32) + 8 * i), x.methods[i])
  }

  predicate SequenceableReads(m: Module, mem: Memory, ms: int, x: SequenceableDecl) {
    Says(m, mem, ms, x.name) && Says(m, mem, ms + 8, x.nspace)
  }

  // The index of a listed declaration leads to it; any other reads -1.
  predicate LeadsTo(ids: seq<nat>, index: int, id: nat) {
    if id in ids then 0 <= index < |ids| && ids[index] == id else index == -1
  }

  predicate NamespaceReads(m: Module, mem: Memory, mn: int, x: Namespace)
    decreases x
  {
    && Says(m, mem, mn, x.name)
    && Read(mem, mn + 8) == |x.sequenceables| && Read(mem, mn + 12) == |x.interfaces| && Read(mem, mn + 16) == |x.inner|
    && (forall i :: 0 <= i < |x.sequenceables| ==>
          LeadsTo(SequenceableIds(m.sequenceables), Read(mem, Read(mem, mn + 24) + 4 * i), x.sequenceables[i]))
    && (forall i :: 0 <= i < |x.interfaces| ==>
          LeadsTo(InterfaceIds(m.interfaces), Read(mem, Read(mem, mn + 32) + 4 * i), x.interfaces[i]))
    && forall i :: 0 <= i < |x.inner| ==> NamespaceReads(m, mem, Read(mem, Read(mem, mn + 40) + 8 * i), x.inner[i])
  }

  // The component at `mc` and everything that can be reached from it.
  ghost predicate ModuleReads(m: Module, mem: Memory, mc: int, null_: int) {
    && Read(mem, mc) == 0x1DF02ED1 && Says(m, mem, mc + 8, m.name)
    && Read(mem, mc + 16) == |m.namespaces| && Read(mem, mc + 20) == |m.sequenceables|
    && Read(mem, mc + 24) == |m.interfaces| && Read(mem, mc + 28) == |m.types|
    && TextAt(mem, Read(mem, mc + 72), m.name)
    && (forall i :: 0 <= i < |m.namespaces| ==>
          NamespaceReads(m, mem, Read(mem, Read(mem, mc + 32) + 8 * i), m.namespaces[i]))
    && (forall i :: 0 <= i < |m.sequenceables| ==> SequenceableReads(m, mem, SequenceableNo(mem, mc, i), m.sequenceables[i]))
    && (forall i :: 0 <= i < |m.interfaces| ==> InterfaceReads(m, mem, mc, null_, InterfaceNo(mem, mc, i), m.interfaces[i]))
    && (forall i :: 0 <= i < |m.types| ==> TypeReads(mem, mc, TypeNo(mem, mc, i), m.types[i].node))
  }

  // ----- a record at its place, moved by `shift` -----

  ghost predicate Rec(mem: Memory, b: nat, blk: Block, shift: int) {
    var moved := MoveBlock(blk, shift);
    Holds(mem, b, moved, 0) && WellSized(moved) && End(b, moved) < WORD
  }

  lemma RecField(mem: Memory, b: nat, blk: Block, shift: int, o: nat)
    requires Rec(mem, b, blk, shift) && o in blk.fields
    ensures Read(mem, Align8(b) + o) == if o in HeaderSlots(blk.kind) then Wrap(blk.fields[o] + shift) else blk.fields[o]
  {
    hide Align8, Wrap, WellSized, End, TableHolds, KidsHold, MoveBlock, MoveFields, MoveBlocks, Read, HeaderSlots, KidsBase;
    MovedIs(blk, shift);
    HeaderOf(mem, b, MoveBlock(blk, shift));
  }

  lemma RecRange(mem: Memory, b: nat, blk: Block, shift: int)
    requires Rec(mem, b, blk, shift)
    ensures var moved := MoveBlock(blk, shift);
            && KidsBase(b, moved) <= End(b, moved) < WORD && HeaderHolds(mem, b, moved, 0) && OwnSized(moved)
            && moved.ints == blk.ints && moved.kind == blk.kind && moved.kids == MoveBlocks(blk.kids, shift)
            && (forall i :: 0 <= i < |blk.ints| ==> IntArrayStart(b, moved, i) <= KidsBase(b, moved))
            && (HasKids(blk.kind) ==> TableStart(b, moved) + 8 * |blk.kids| == KidsBase(b, moved))
            && forall k :: k in moved.kids ==> WellSized(k)
  {
    hide Align8, TableHolds, KidsHold, MoveBlock, MoveFields, MoveBlocks, Read, KidsBase, End, IntArrayStart, TableStart;
    MovedIs(blk, shift);
    var moved := MoveBlock(blk, shift);
    HeaderOf(mem, b, moved);
    ArraysAscend(b, moved);
    EndGrows(b, moved);
    if HasKids(blk.kind) {
      TableIsLast(b, moved);
    }
  }

  lemma RecInts(mem: Memory, b: nat, blk: Block, shift: int, i: nat)
    requires Rec(mem, b, blk, shift) && i < |blk.ints|
    ensures IntsHold(mem, Read(mem, Align8(b) + IntArrayOffset(blk.kind, i)), blk.ints[i].cells)
  {
    hide Align8, Wrap, Rec, End, KidsBase, IntArrayStart, TableStart, MoveBlock, MoveBlocks, OwnSized, WellSized, IntsHold, Read,
         IntArrayOffset;
    RecRange(mem, b, blk, shift);
    WrapWrap(IntArrayStart(b, MoveBlock(blk, shift), i), 0);
  }

  // The i-th entry of the table leads to the i-th inner record.
  lemma RecKid(mem: Memory, b: nat, blk: Block, shift: int, i: nat) returns (kb: nat)
    requires Rec(mem, b, blk, shift) && HasKids(blk.kind) && i < |blk.kids|
    ensures Rec(mem, kb, blk.kids[i], shift)
    ensures Read(mem, Read(mem, Align8(b) + TableOffset(blk.kind)) + 8 * i) == Align8(kb)
  {
    hide *;
    var moved := MoveBlock(blk, shift);
    RecRange(mem, b, blk, shift);
    TablePointer(mem, b, moved);
    RecKids(mem, b, blk, shift);
    kb := KidAt(mem, TableStart(b, moved), KidsBase(b, moved), blk.kids, shift, i);
  }

  lemma TablePointer(mem: Memory, b: nat, blk: Block)
    requires HeaderHolds(mem, b, blk, 0) && HasKids(blk.kind) && TableStart(b, blk) < WORD
    ensures Read(mem, Align8(b) + TableOffset(blk.kind)) == TableStart(b, blk)
  {
    WrapWrap(TableStart(b, blk), 0);
    hide Align8, Wrap, TableStart, IntArrayStart, IntsHold, Read, TableOffset;
  }

  lemma RecKids(mem: Memory, b: nat, blk: Block, shift: int)
    requires Rec(mem, b, blk, shift) && HasKids(blk.kind)
    ensures var moved := MoveBlock(blk, shift);
            && TableHolds(mem, TableStart(b, moved), KidsBase(b, moved), MoveBlocks(blk.kids, shift), 0)
            && KidsHold(mem, KidsBase(b, moved), MoveBlocks(blk.kids, shift), 0)
            && KidsEnd(KidsBase(b, moved), MoveBlocks(blk.kids, shift)) == End(b, moved)
  {
    hide WellSized, TableHolds, KidsHold, HeaderHolds, MoveBlock, MoveBlocks, KidsBase, TableStart, KidsEnd;
    MovedIs(blk, shift);
  }

  // The same for any table of records.
  lemma KidAt(mem: Memory, table: nat, kb: nat, kids: seq<Block>, shift: int, i: nat) returns (b: nat)
    requires var moved := MoveBlocks(kids, shift);
             && TableHolds(mem, table, kb, moved, 0) && KidsHold(mem, kb, moved, 0) && KidsEnd(kb, moved) < WORD
             && forall k :: k in moved ==> WellSized(k)
    requires i < |kids|
    ensures Rec(mem, b, kids[i], shift) && Read(mem, table + 8 * i) == Align8(b)
  {
    hide *;
    var moved := MoveBlocks(kids, shift);
    MoveBlocksAt(kids, shift, i);
    b := KidBase(kb, moved, i);
    KidRange(kb, moved, i);
    KidHolds(mem, kb, moved, 0, i);
    TableEntry(mem, table, kb, moved, i);
    RecIs(mem, b, kids[i], shift);
  }

  lemma RecIs(mem: Memory, b: nat, blk: Block, shift: int)
    ensures var moved := MoveBlock(blk, shift);
            Rec(mem, b, blk, shift) <==> Holds(mem, b, moved, 0) && WellSized(moved) && End(b, moved) < WORD
  {
    hide Holds, WellSized, End, MoveBlock;
  }

  // ----- strings -----

  // Every string of the module is found where its pointers lead.
  ghost predicate StringsRead(mem: Memory, c: Context, shift: int) {
    forall s :: s in ModuleStrings(c.m) ==> TextAt(mem, Wrap(c.Str(Text(s)) + shift), if s == "" then c.m.name else s)
  }

  lemma StringCell(mem: Memory, c: Context, shift: int, a: int, s: string)
    requires StringsRead(mem, c, shift) && s in ModuleStrings(c.m) && Read(mem, a) == Wrap(c.Str(Text(s)) + shift)
    ensures Says(c.m, mem, a, s)
  {
    hide Wrap, TextAt, Read, ModuleStrings;
  }

  lemma NamespaceStringsIn(m: Module, i: nat)
    requires i < |m.namespaces|
    ensures forall s :: s in NamespaceStrings(m.namespaces[i]) ==> s in ModuleStrings(m)
  {
    hide Flat, NamespaceStrings, NamespaceParts;
    FlatHas(NamespaceParts(m.namespaces), i);
  }

  lemma InnerStringsIn(x: Namespace, i: nat)
    requires i < |x.inner|
    ensures forall s :: s in NamespaceStrings(x.inner[i]) ==> s in NamespaceStrings(x)
    ensures x.name in NamespaceStrings(x)
  {
    hide Flat, NamespaceParts;
    FlatHas(NamespaceParts(x.inner), i);
  }

  lemma OwnNameIn(x: Namespace)
    ensures x.name in NamespaceStrings(x)
  {
    assert NamespaceStrings(x)[0] == x.name;
  }

  lemma DeclaredStringsIn(m: Module)
    ensures m.name in ModuleStrings(m)
    ensures forall d :: d in m.sequenceables ==> d.name in ModuleStrings(m) && d.nspace in ModuleStrings(m)
    ensures forall d :: d in m.interfaces ==> forall s :: s in InterfaceStrings(d) ==> s in ModuleStrings(m)
  {
    hide Flat, InterfaceStrings, NamespaceParts;
    assert ModuleStrings(m)[0] == m.name;
    forall d | d in m.sequenceables ensures d.name in ModuleStrings(m) && d.nspace in ModuleStrings(m) {
      var i :| 0 <= i < |m.sequenceables| && m.sequenceables[i] == d;
      FlatHas(SequenceableParts(m.sequenceables), i);
      assert SequenceableStrings(d)[0] == d.name && SequenceableStrings(d)[1] == d.nspace;
    }
    forall d | d in m.interfaces ensures forall s :: s in InterfaceStrings(d) ==> s in ModuleStrings(m) {
      var i :| 0 <= i < |m.interfaces| && m.interfaces[i] == d;
      FlatHas(InterfaceParts(m.interfaces), i);
    }
  }

  lemma InterfaceStringsAre(x: InterfaceDecl)
    ensures var ss := InterfaceStrings(x);
            && Chars(x.license) in ss && x.name in ss && x.nspace in ss
            && forall y :: y in x.methods ==> forall s :: s in MethodStrings(y) ==> s in ss
  {
    hide Flat, MethodStrings;
    var ss := InterfaceStrings(x);
    assert ss[0] == Chars(x.license) && ss[1] == x.name && ss[2] == x.nspace;
    forall y | y in x.methods ensures forall s :: s in MethodStrings(y) ==> s in ss {
      var i :| 0 <= i < |x.methods| && x.methods[i] == y;
      FlatHas(MethodParts(x.methods), i);
    }
  }

  lemma MethodStringsAre(x: Method)
    ensures var ss := MethodStrings(x);
            x.name in ss && MethodText(x) in ss && forall p :: p in x.params ==> p.name in ss
  {
    hide Flat, MethodText;
    var ss := MethodStrings(x);
    assert ss[0] == x.name && ss[1] == MethodText(x);
    forall p | p in x.params ensures p.name in ss {
      var i :| 0 <= i < |x.params| && x.params[i] == p;
      FlatHas(ParamParts(x.params), i);
      assert ParamParts(x.params)[i][0] == p.name;
    }
  }

  // ----- each kind of record -----

  // Every type of the table reads as itself.
  ghost predicate TypesRead(mem: Memory, mc: int, c: Context) {
    forall i :: 0 <= i < |c.m.types| ==> TypeReads(mem, mc, TypeNo(mem, mc, i), c.m.types[i].node)
  }

  lemma IndexReads(mem: Memory, mc: int, c: Context, n: Node)
    requires TypesRead(mem, mc, c) && Distinct(TypeIds(c.m.types)) && Listed(c.m.types, n)
    ensures TypeReads(mem, mc, TypeNo(mem, mc, c.IndexOfType(n)), n)
  {
    hide TypeReads, TypeNo, Distinct, Listed, Context.IndexOfType;
    IndexLeadsBack(c, n);
  }

  lemma ParamRead(mem: Memory, mc: int, c: Context, shift: int, b: nat, p: Param)
    requires Rec(mem, b, ParamBlock(c, p), shift) && StringsRead(mem, c, shift) && p.name in ModuleStrings(c.m)
    requires TypesRead(mem, mc, c) && Distinct(TypeIds(c.m.types)) && Listed(c.m.types, p.typ)
    ensures ParamReads(c.m, mem, mc, Align8(b), p)
  {
    hide Align8, Wrap, Rec, StringsRead, TypesRead, TypeReads, Says, Distinct, Listed, Read, Context.Str, Context.IndexOfType,
         ModuleStrings, TypeNo;
    var blk := ParamBlock(c, p);
    RecField(mem, b, blk, shift, 0);
    RecField(mem, b, blk, shift, 8);
    RecField(mem, b, blk, shift, 12);
    StringCell(mem, c, shift, Align8(b) + 0, p.name);
    IndexReads(mem, mc, c, p.typ);
  }

  lemma MethodRead(mem: Memory, mc: int, c: Context, shift: int, b: nat, x: Method)
    requires Rec(mem, b, MethodBlock(c, x), shift) && StringsRead(mem, c, shift)
    requires forall s :: s in MethodStrings(x) ==> s in ModuleStrings(c.m)
    requires TypesRead(mem, mc, c) && Distinct(TypeIds(c.m.types)) && Listed(c.m.types, x.ret)
    requires forall p :: p in x.params ==> Listed(c.m.types, p.typ)
    ensures MethodReads(c.m, mem, mc, Align8(b), x)
  {
    hide Align8, Wrap, Rec, StringsRead, TypesRead, TypeReads, Says, Distinct, Listed, Read, Context.Str, Context.IndexOfType,
         ModuleStrings, TypeNo, MethodStrings, MethodText, ParamBlock, ParamReads;
    var blk := MethodBlock(c, x);
    MethodStringsAre(x);
    RecField(mem, b, blk, shift, 0);
    RecField(mem, b, blk, shift, 8);
    RecField(mem, b, blk, shift, 16);
    RecField(mem, b, blk, shift, 20);
    RecField(mem, b, blk, shift, 24);
    StringCell(mem, c, shift, Align8(b) + 0, x.name);
    StringCell(mem, c, shift, Align8(b) + 8, MethodText(x));
    IndexReads(mem, mc, c, x.ret);
    forall i | 0 <= i < |x.params|
      ensures ParamReads(c.m, mem, mc, Read(mem, Read(mem, Align8(b) + 32) + 8 * i), x.params[i])
    {
      var kb := RecKid(mem, b, blk, shift, i);
      assert blk.kids[i] == ParamBlock(c, x.params[i]);
      ParamRead(mem, mc, c, shift, kb, x.params[i]);
    }
  }

  // Everything that a closed module's methods mention is listed.
  ghost predicate Mentions(m: Module, x: InterfaceDecl) {
    && (forall y :: y in x.methods ==> Listed(m.types, y.ret))
    && (forall y, p :: y in x.methods && p in y.params ==> Listed(m.types, p.typ))
  }

  lemma LicenseRead(mem: Memory, c: Context, shift: int, a: int, t: Text)
    requires StringsRead(mem, c, shift) && Chars(t) in ModuleStrings(c.m) && Read(mem, a) == Wrap(c.Str(t) + shift)
    ensures if t.Null? then Read(mem, a) == Wrap(shift) else Says(c.m, mem, a, t.chars)
  {
    hide Wrap, StringsRead, Says, Read, ModuleStrings;
    if t.Text? {
      StringCell(mem, c, shift, a, t.chars);
    }
  }

  lemma InterfaceRead(mem: Memory, mc: int, c: Context, shift: int, b: nat, x: InterfaceDecl)
    requires Rec(mem, b, InterfaceBlock(c, x), shift) && StringsRead(mem, c, shift)
    requires forall s :: s in InterfaceStrings(x) ==> s in ModuleStrings(c.m)
    requires TypesRead(mem, mc, c) && Distinct(TypeIds(c.m.types)) && Mentions(c.m, x)
    ensures InterfaceReads(c.m, mem, mc, Wrap(shift), Align8(b), x)
  {
    hide Align8, Wrap, Rec, StringsRead, TypesRead, Says, Distinct, Listed, Read, Context.Str, Context.IndexOfType, ModuleStrings,
         InterfaceStrings, MethodStrings, MethodBlock, MethodReads;
    var blk := InterfaceBlock(c, x);
    InterfaceStringsAre(x);
    RecField(mem, b, blk, shift, 0);
    RecField(mem, b, blk, shift, 8);
    RecField(mem, b, blk, shift, 16);
    RecField(mem, b, blk, shift, 24);
    RecField(mem, b, blk, shift, 28);
    RecField(mem, b, blk, shift, 40);
    LicenseRead(mem, c, shift, Align8(b) + 0, x.license);
    StringCell(mem, c, shift, Align8(b) + 8, x.name);
    StringCell(mem, c, shift, Align8(b) + 16, x.nspace);
    forall i | 0 <= i < |x.methods|
      ensures MethodReads(c.m, mem, mc, Read(mem, Read(mem, Align8(b) + 32) + 8 * i), x.methods[i])
    {
      var kb := RecKid(mem, b, blk, shift, i);
      assert blk.kids[i] == MethodBlock(c, x.methods[i]);
      MethodRead(mem, mc, c, shift, kb, x.methods[i]);
    }
  }

  lemma SequenceableRead(mem: Memory, c: Context, shift: int, b: nat, x: SequenceableDecl)
    requires Rec(mem, b, SequenceableBlock(c, x), shift) && StringsRead(mem, c, shift)
    requires x.name in ModuleStrings(c.m) && x.nspace in ModuleStrings(c.m)
    ensures SequenceableReads(c.m, mem, Align8(b), x)
  {
    hide Align8, Wrap, Rec, StringsRead, Says, Read, Context.Str, ModuleStrings;
    var blk := SequenceableBlock(c, x);
    RecField(mem, b, blk, shift, 0);
    RecField(mem, b, blk, shift, 8);
    StringCell(mem, c, shift, Align8(b) + 0, x.name);
    StringCell(mem, c, shift, Align8(b) + 8, x.nspace);
  }

  lemma {:induction false} NamespaceRead(mem: Memory, c: Context, shift: int, b: nat, x: Namespace)
    requires Rec(mem, b, NamespaceBlock(c, x), shift) && StringsRead(mem, c, shift)
    requires forall s :: s in NamespaceStrings(x) ==> s in ModuleStrings(c.m)
    ensures NamespaceReads(c.m, mem, Align8(b), x)
    decreases x
  {
    hide Align8, Wrap, Rec, StringsRead, Says, Read, Context.Str, Context.IndexOfSequenceable, Context.IndexOfInterface,
         ModuleStrings, NamespaceStrings, LeadsTo, IntsHold, IndexIn;
    var blk := NamespaceBlock(c, x);
    OwnNameIn(x);
    RecField(mem, b, blk, shift, 0);
    RecField(mem, b, blk, shift, 8);
    RecField(mem, b, blk, shift, 12);
    RecField(mem, b, blk, shift, 16);
    StringCell(mem, c, shift, Align8(b) + 0, x.name);
    RecInts(mem, b, blk, shift, 0);
    RecInts(mem, b, blk, shift, 1);
    SequenceablesLed(mem, c, Read(mem, Align8(b) + 24), x.sequenceables);
    InterfacesLed(mem, c, Read(mem, Align8(b) + 32), x.interfaces);
    forall i | 0 <= i < |x.inner|
      ensures NamespaceReads(c.m, mem, Read(mem, Read(mem, Align8(b) + 40) + 8 * i), x.inner[i])
    {
      var kb := RecKid(mem, b, blk, shift, i);
      assert blk.kids[i] == NamespaceBlock(c, x.inner[i]);
      InnerStringsIn(x, i);
      NamespaceRead(mem, c, shift, kb, x.inner[i]);
    }
  }

  lemma SequenceablesLed(mem: Memory, c: Context, a: int, ids: seq<nat>)
    requires IntsHold(mem, a, SequenceableIndexes(c, ids))
    ensures forall i :: 0 <= i < |ids| ==> LeadsTo(SequenceableIds(c.m.sequenceables), Read(mem, a + 4 * i), ids[i])
  {
    hide Read;
    forall i | 0 <= i < |ids| ensures LeadsTo(SequenceableIds(c.m.sequenceables), Read(mem, a + 4 * i), ids[i]) {
      assert SequenceableIndexes(c, ids)[i] == c.IndexOfSequenceable(ids[i]);
    }
  }

  lemma InterfacesLed(mem: Memory, c: Context, a: int, ids: seq<nat>)
    requires IntsHold(mem, a, InterfaceIndexes(c, ids))
    ensures forall i :: 0 <= i < |ids| ==> LeadsTo(InterfaceIds(c.m.interfaces), Read(mem, a + 4 * i), ids[i])
  {
    hide Read;
    forall i | 0 <= i < |ids| ensures LeadsTo(InterfaceIds(c.m.interfaces), Read(mem, a + 4 * i), ids[i]) {
      assert InterfaceIndexes(c, ids)[i] == c.IndexOfInterface(ids[i]);
    }
  }

  // ----- the type table -----

  // The records of the types, and the names of the declarations they point to.
  ghost predicate GraphReads(mem: Memory, mc: int, c: Context) {
    && (forall i :: 0 <= i < |c.m.types| ==>
          TypeRecordHolds(mem, TypeNo(mem, mc, i), c, c.m.types[i].node)
          && Read(mem, TypeNo(mem, mc, i) + 8) == |Nested(c.m.types[i].node)|)
    && (forall i :: 0 <= i < |c.m.sequenceables| && c.m.sequenceables[i].name != "" ==>
          TextAt(mem, Read(mem, SequenceableNo(mem, mc, i)), c.m.sequenceables[i].name))
    && (forall i :: 0 <= i < |c.m.interfaces| && c.m.interfaces[i].name != "" ==>
          TextAt(mem, Read(mem, InterfaceNo(mem, mc, i) + 8), c.m.interfaces[i].name))
  }

  lemma ListedReads(mem: Memory, mc: int, c: Context, n: Node)
    requires Closed(c.m) && GraphReads(mem, mc, c) && Listed(c.m.types, n)
    ensures var mt := TypeNo(mem, mc, c.IndexOfType(n)); TypeRecordHolds(mem, mt, c, n) && Read(mem, mt + 8) == |Nested(n)|
    ensures Declared(c.m, n) && forall k :: k in Nested(n) ==> Listed(c.m.types, k)
  {
    hide TypeRecordHolds, TypeNo, Context.IndexOfType, Declared, Listed, SequenceableNo, InterfaceNo, TextAt, Read;
    IndexLeadsBack(c, n);
  }

  lemma DeclaredReads(mem: Memory, mc: int, c: Context, n: Node)
    requires Closed(c.m) && GraphReads(mem, mc, c) && Declared(c.m, n)
    ensures n.SequenceableNode? ==> TextAt(mem, Read(mem, SequenceableNo(mem, mc, TypeIndex(c, n))), n.name)
    ensures n.InterfaceNode? ==> TextAt(mem, Read(mem, InterfaceNo(mem, mc, TypeIndex(c, n)) + 8), n.name)
  {
    hide TypeRecordHolds, TypeNo, SequenceableNo, InterfaceNo, Listed, Distinct, TextAt, Read;
    if n.SequenceableNode? {
      var i :| 0 <= i < |c.m.sequenceables| && c.m.sequenceables[i].id == n.id && c.m.sequenceables[i].name == n.name;
      DistinctIndex(SequenceableIds(c.m.sequenceables), i);
    } else if n.InterfaceNode? {
      var i :| 0 <= i < |c.m.interfaces| && c.m.interfaces[i].id == n.id && c.m.interfaces[i].name == n.name;
      DistinctIndex(InterfaceIds(c.m.interfaces), i);
    }
  }

  // What the record of a type holds, in the reader's terms.
  lemma RecordSays(mem: Memory, mt: int, c: Context, n: Node)
    requires TypeRecordHolds(mem, mt, c, n)
    ensures match n
            case PrimitiveNode(_, p) => Read(mem, mt) == PrimCase(p) && Read(mem, mt + 4) == c.IndexOfType(n)
            case SequenceableNode(_, _, _) => Read(mem, mt) == 11 && Read(mem, mt + 4) == TypeIndex(c, n)
            case InterfaceNode(_, _, _) => Read(mem, mt) == 12 && Read(mem, mt + 4) == TypeIndex(c, n)
            case ListNode(_, e) =>
              Read(mem, mt) == 13 && Read(mem, mt + 4) == c.IndexOfType(n) && Read(mem, Read(mem, mt + 16)) == c.IndexOfType(e)
            case MapNode(_, k, v) =>
              Read(mem, mt) == 14 && Read(mem, mt + 4) == c.IndexOfType(n)
              && Read(mem, Read(mem, mt + 16)) == c.IndexOfType(k) && Read(mem, Read(mem, mt + 16) + 4) == c.IndexOfType(v)
            case ArrayNode(_, e) =>
              Read(mem, mt) == 15 && Read(mem, mt + 4) == c.IndexOfType(n) && Read(mem, Read(mem, mt + 16)) == c.IndexOfType(e)
  {
    hide Read, Context.IndexOfType, Context.IndexOfSequenceable, Context.IndexOfInterface;
    if Nested(n) != [] {
      NestedRecord(mem, 0, c, n, mt, 0);
      assert Read(mem, Read(mem, mt + 16) + 4 * 0) == Read(mem, Read(mem, mt + 16));
    }
    if |Nested(n)| == 2 {
      NestedRecord(mem, 0, c, n, mt, 1);
    }
  }

  lemma {:induction false} TypeRead(mem: Memory, mc: int, c: Context, n: Node)
    requires Closed(c.m) && GraphReads(mem, mc, c) && Listed(c.m.types, n)
    ensures TypeReads(mem, mc, TypeNo(mem, mc, c.IndexOfType(n)), n)
    decreases n
  {
    hide Closed, GraphReads, Listed, Declared, TypeRecordHolds, TypeNo, SequenceableNo, InterfaceNo, TextAt, Read, TypeIndex,
         Context.IndexOfType, PrimCase;
    var mt := TypeNo(mem, mc, c.IndexOfType(n));
    ListedReads(mem, mc, c, n);
    RecordSays(mem, mt, c, n);
    DeclaredReads(mem, mc, c, n);
    match n
    case PrimitiveNode(_, _) =>
    case SequenceableNode(_, _, _) =>
    case InterfaceNode(_, _, _) =>
    case ListNode(_, e) => TypeRead(mem, mc, c, e);
    case MapNode(_, k, v) =>
      assert k in Nested(n) && v in Nested(n);
      TypeRead(mem, mc, c, k);
      TypeRead(mem, mc, c, v);
    case ArrayNode(_, e) => TypeRead(mem, mc, c, e);
  }

  lemma AllTypesRead(mem: Memory, mc: int, c: Context)
    requires Closed(c.m) && GraphReads(mem, mc, c)
    ensures TypesRead(mem, mc, c)
  {
    hide Closed, GraphReads, TypeReads, TypeNo, Read;
    ClosedListsOnce(c.m);
    forall i | 0 <= i < |c.m.types| ensures TypeReads(mem, mc, TypeNo(mem, mc, i), c.m.types[i].node) {
      assert TypeIds(c.m.types)[i] == c.m.types[i].node.id;
      DistinctIndex(TypeIds(c.m.types), i);
      TypeRead(mem, mc, c, c.m.types[i].node);
    }
  }

  // The reader's own graph: names as C strings no longer than the pool.
  lemma GraphFrom(mem: Memory, mc: nat, c: Context)
    requires GraphReads(mem, mc, c) && PoolSize(mem, mc) == |PoolText(c.order)| && NulFree(ModuleStrings(c.m))
    requires c.order == AddAll([], ModuleStrings(c.m))
    ensures Graph(mem, mc, c)
  {
    hide TypeRecordHolds, ModuleStrings, PoolText, PoolSize, AddAll, Read, NulFree;
    NamesAreStrings(c.m);
    AddAllHasAll([], ModuleStrings(c.m));
    forall i | 0 <= i < |c.m.sequenceables| && c.m.sequenceables[i].name != ""
      ensures SequenceableName(mem, mc, i) == c.m.sequenceables[i].name
    {
      NulFreeHas(ModuleStrings(c.m), c.m.sequenceables[i].name);
      ShorterThanPool(c.order, c.m.sequenceables[i].name);
      CTextIs(mem, Read(mem, SequenceableNo(mem, mc, i)), PoolSize(mem, mc), c.m.sequenceables[i].name);
    }
    forall i | 0 <= i < |c.m.interfaces| && c.m.interfaces[i].name != ""
      ensures InterfaceName(mem, mc, i) == c.m.interfaces[i].name
    {
      NulFreeHas(ModuleStrings(c.m), c.m.interfaces[i].name);
      ShorterThanPool(c.order, c.m.interfaces[i].name);
      CTextIs(mem, Read(mem, InterfaceNo(mem, mc, i) + 8), PoolSize(mem, mc), c.m.interfaces[i].name);
    }
  }

  // ----- a block, wherever it lies -----

  // The block that was built at `at` lies at `to`, its pointers moved along.
  ghost predicate Placed(m: Module, at: nat, mem: Memory, to: nat) {
    var r := Layout(m, at);
    && NulFree(ModuleStrings(m)) && m.name != "" && Aligns(to - at)
    && Working(MoveComponent(r, to - at), to, mem, 0)
    && PoolHolds(mem, r.PoolBase(at) + (to - at), PoolText(AddAll([], ModuleStrings(m))))
  }

  // What that means for the header, the tables and the records.
  ghost predicate Found(c: Context, size: nat, at: nat, mem: Memory, to: nat) {
    var r, shift := ComponentOf(c, size), to - at;
    var kb, kids := r.KidsStart(at) + shift, MoveBlocks(r.Kids(), shift);
    && kb >= 0 && KidsEnd(kb, kids) < WORD && (forall k :: k in kids ==> WellSized(k))
    && TableHolds(mem, to + 80, kb, kids, 0) && KidsHold(mem, kb, kids, 0)
    && 0 <= c.poolBase + shift && c.poolBase + shift + |PoolText(c.order)| < WORD
    && PoolHolds(mem, c.poolBase + shift, PoolText(c.order))
    && HeadReads(c, mem, to, shift)
  }

  ghost predicate HeadReads(c: Context, mem: Memory, to: nat, shift: int) {
    && Read(mem, to) == 0x1DF02ED1
    && Read(mem, to + 8) == Wrap(c.Str(Text(c.m.name)) + shift) && Read(mem, to + 72) == Wrap(c.poolBase + shift)
    && Read(mem, to + 16) == |c.m.namespaces| && Read(mem, to + 20) == |c.m.sequenceables|
    && Read(mem, to + 24) == |c.m.interfaces| && Read(mem, to + 28) == |c.m.types|
    && Read(mem, to + 64) == |PoolText(c.order)|
    && Read(mem, to + 32) == to + 80 && Read(mem, to + 40) == to + 80 + 8 * |c.m.namespaces|
    && Read(mem, to + 48) == to + 80 + 8 * (|c.m.namespaces| + |c.m.sequenceables|)
    && Read(mem, to + 56) == to + 80 + 8 * (|c.m.namespaces| + |c.m.sequenceables| + |c.m.interfaces|)
  }

  lemma PlacedIsFound(m: Module, at: nat, mem: Memory, to: nat)
    requires Placed(m, at, mem, to)
    ensures var order := AddAll([], ModuleStrings(m));
            && Found(ContextOf(m, order, at), MetadataSize(m), at, mem, to)
            && NulFree(ModuleStrings(m)) && m.name != "" && ContextOf(m, order, at).m == m && ContextOf(m, order, at).order == order
  {
    hide *;
    var order := AddAll([], ModuleStrings(m));
    var c, size, shift := ContextOf(m, order, at), MetadataSize(m), to - at;
    PlacedParts(m, at, mem, to);
    LayoutIs(m, at);
    TablesAre(c, size, at);
    AllSized(c, size);
    var r := ComponentOf(c, size);
    var moved := MoveComponent(r, shift);
    WorkingIs(moved, to, mem, 0);
    MovedKids(r, shift);
    MovedEnd(r, at, shift, to);
    SizedIs(moved);
    EndIs(moved, to);
    TableIsAt(moved, to);
    KidsEndGrows(moved.KidsStart(to), moved.Kids());
    HeadFound(c, size, at, mem, to);
    FoundIs(c, size, at, mem, to);
  }

  lemma PlacedParts(m: Module, at: nat, mem: Memory, to: nat)
    requires Placed(m, at, mem, to)
    ensures NulFree(ModuleStrings(m)) && m.name != "" && Aligns(to - at)
    ensures Working(MoveComponent(Layout(m, at), to - at), to, mem, 0)
    ensures PoolHolds(mem, Layout(m, at).PoolBase(at) + (to - at), PoolText(AddAll([], ModuleStrings(m))))
  {
    hide NulFree, ModuleStrings, Aligns, Working, PoolHolds, PoolText, Layout;
  }

  lemma FoundIs(c: Context, size: nat, at: nat, mem: Memory, to: nat)
    ensures var r, shift := ComponentOf(c, size), to - at;
            var kb, kids := r.KidsStart(at) + shift, MoveBlocks(r.Kids(), shift);
            Found(c, size, at, mem, to) <==>
              && kb >= 0 && KidsEnd(kb, kids) < WORD && (forall k :: k in kids ==> WellSized(k))
              && TableHolds(mem, to + 80, kb, kids, 0) && KidsHold(mem, kb, kids, 0)
              && 0 <= c.poolBase + shift && c.poolBase + shift + |PoolText(c.order)| < WORD
              && PoolHolds(mem, c.poolBase + shift, PoolText(c.order))
              && HeadReads(c, mem, to, shift)
  {
    hide ComponentOf, MoveBlocks, WellSized, TableHolds, KidsHold, PoolText, PoolHolds, HeadReads, KidsEnd;
  }

  lemma HeadFound(c: Context, size: nat, at: nat, mem: Memory, to: nat)
    requires MoveComponent(ComponentOf(c, size), to - at).HeadHolds(mem, to, 0)
    requires to + 80 + 8 * |ComponentOf(c, size).Kids()| < WORD
    ensures HeadReads(c, mem, to, to - at)
  {
    hide ComponentOf, MoveComponent, Read, Wrap, PoolText, Context.Str, Component.Table, Component.FirstOf;
    var r, shift := ComponentOf(c, size), to - at;
    var moved := MoveComponent(r, shift);
    MovedTables(r, shift);
    FieldsOf(c, size);
    TablesAre(c, size, at);
    TableIsAt(moved, to);
    forall o | o in {0, 4, 8, 16, 20, 24, 28, 64, 72}
      ensures Read(mem, to + o) == if o == 8 || o == 72 then Wrap(r.fields[o] + shift + 0) else r.fields[o]
    {
      assert o in r.fields.Keys && o in moved.fields.Keys;
    }
    assert Read(mem, to + 0) == r.fields[0];
    HeadTable(moved, mem, to, 0);
    HeadTable(moved, mem, to, 1);
    HeadTable(moved, mem, to, 2);
    HeadTable(moved, mem, to, 3);
  }

  lemma HeadTable(r: Component, mem: Memory, to: nat, t: nat)
    requires r.HeadHolds(mem, to, 0) && t < 4
    ensures r.Table(to) + 8 * r.FirstOf(t) < WORD ==> Read(mem, to + 32 + 8 * t) == r.Table(to) + 8 * r.FirstOf(t)
  {
    hide Read, Component.Table, Component.FirstOf;
    if r.Table(to) + 8 * r.FirstOf(t) < WORD {
      WrapWrap(r.Table(to) + 8 * r.FirstOf(t), 0);
    }
  }

  // ----- strings of a placed block -----

  lemma OldestIsName(m: Module)
    requires m.name != ""
    ensures var order := AddAll([], ModuleStrings(m));
            m.name in order && OffsetOf(order, m.name) == 0 && "" !in order
  {
    hide *;
    var order := AddAll([], ModuleStrings(m));
    NameFirst(m);
    AddAllHasAll([m.name], ModuleStrings(m)[1..]);
    AddAllJoins([], [m.name], ModuleStrings(m)[1..]);
    AddAllOne([], m.name);
    AddedName(m.name);
    NeverEmpty([], ModuleStrings(m));
    FirstAtZero(order, m.name);
  }

  lemma NameFirst(m: Module)
    ensures ModuleStrings(m) != [] && ModuleStrings(m) == [m.name] + ModuleStrings(m)[1..]
  {
  }

  lemma AddedName(s: string)
    requires s != ""
    ensures AddOne([], s) == [s]
  {
  }

  lemma {:induction false} NeverEmpty(order: seq<string>, ss: seq<string>)
    requires "" !in order
    ensures "" !in AddAll(order, ss)
    decreases |ss|
  {
    if ss != [] {
      NeverEmpty(order, ss[..|ss| - 1]);
    }
  }

  lemma FirstAtZero(order: seq<string>, s: string)
    requires order != [] && order[0] == s
    ensures s in order && OffsetOf(order, s) == 0
  {
    assert order[..0] == [];
  }

  lemma FoundStrings(m: Module, c: Context, size: nat, at: nat, mem: Memory, to: nat)
    requires c.m == m && c.order == AddAll([], ModuleStrings(m)) && m.name != "" && Found(c, size, at, mem, to)
    ensures StringsRead(mem, c, to - at)
    ensures TextAt(mem, Wrap(c.poolBase + (to - at)), m.name)
  {
    hide *;
    var shift := to - at;
    FoundIs(c, size, at, mem, to);
    OldestIsName(m);
    AddAllHasAll([], ModuleStrings(m));
    PooledAt(c, shift, mem, m.name);
    forall s | s in ModuleStrings(m)
      ensures TextAt(mem, Wrap(c.Str(Text(s)) + shift), if s == "" then m.name else s)
    {
      if s == "" {
        NoStr(c, s);
      } else {
        PooledAt(c, shift, mem, s);
        StrIs(c, s);
      }
    }
    StringsReadIs(mem, c, shift);
  }

  lemma StringsReadIs(mem: Memory, c: Context, shift: int)
    ensures StringsRead(mem, c, shift) <==>
              forall s :: s in ModuleStrings(c.m) ==> TextAt(mem, Wrap(c.Str(Text(s)) + shift), if s == "" then c.m.name else s)
  {
    hide TextAt, Wrap, ModuleStrings, Context.Str;
  }

  lemma NoStr(c: Context, s: string)
    requires s !in c.order
    ensures c.Str(Text(s)) == c.poolBase
  {
  }

  lemma PooledAt(c: Context, shift: int, mem: Memory, s: string)
    requires s in c.order && 0 <= c.poolBase + shift && c.poolBase + shift + |PoolText(c.order)| < WORD
    requires PoolHolds(mem, c.poolBase + shift, PoolText(c.order))
    ensures TextAt(mem, Wrap(c.poolBase + OffsetOf(c.order, s) + shift), s)
  {
    hide PoolText, Wrap, Read;
    TextReadsBack(c.order, s, mem, c.poolBase + shift);
    RangeOf(c.order, Position(c.order, s));
    WrapWrap(c.poolBase + OffsetOf(c.order, s) + shift, 0);
    assert c.poolBase + shift + OffsetOf(c.order, s) == c.poolBase + OffsetOf(c.order, s) + shift;
  }

  // ----- records of a placed block -----

  lemma FoundRecord(c: Context, size: nat, at: nat, mem: Memory, to: nat, j: nat) returns (b: nat)
    requires Found(c, size, at, mem, to) && j < |ComponentOf(c, size).Kids()|
    ensures Rec(mem, b, ComponentOf(c, size).Kids()[j], to - at) && Read(mem, to + 80 + 8 * j) == Align8(b)
  {
    hide *;
    FoundIs(c, size, at, mem, to);
    var r := ComponentOf(c, size);
    b := KidAt(mem, to + 80, r.KidsStart(at) + (to - at), r.Kids(), to - at, j);
  }

  lemma HeadReadsIs(c: Context, mem: Memory, to: nat, shift: int)
    requires HeadReads(c, mem, to, shift)
    ensures forall i :: TypeNo(mem, to, i)
                        == Read(mem, to + 80 + 8 * (|c.m.namespaces| + |c.m.sequenceables| + |c.m.interfaces| + i))
    ensures forall i :: SequenceableNo(mem, to, i) == Read(mem, to + 80 + 8 * (|c.m.namespaces| + i))
    ensures forall i :: InterfaceNo(mem, to, i) == Read(mem, to + 80 + 8 * (|c.m.namespaces| + |c.m.sequenceables| + i))
    ensures forall i :: Read(mem, Read(mem, to + 32) + 8 * i) == Read(mem, to + 80 + 8 * i)
  {
    hide Read, Wrap, PoolText, Context.Str;
    forall i: int
      ensures TypeNo(mem, to, i)
              == Read(mem, to + 80 + 8 * (|c.m.namespaces| + |c.m.sequenceables| + |c.m.interfaces| + i))
    {
      assert to + 80 + 8 * (|c.m.namespaces| + |c.m.sequenceables| + |c.m.interfaces|) + 8 * i
          == to + 80 + 8 * (|c.m.namespaces| + |c.m.sequenceables| + |c.m.interfaces| + i);
    }
    forall i: int ensures SequenceableNo(mem, to, i) == Read(mem, to + 80 + 8 * (|c.m.namespaces| + i)) {
      assert to + 80 + 8 * |c.m.namespaces| + 8 * i == to + 80 + 8 * (|c.m.namespaces| + i);
    }
    forall i: int ensures InterfaceNo(mem, to, i) == Read(mem, to + 80 + 8 * (|c.m.namespaces| + |c.m.sequenceables| + i)) {
      assert to + 80 + 8 * (|c.m.namespaces| + |c.m.sequenceables|) + 8 * i
          == to + 80 + 8 * (|c.m.namespaces| + |c.m.sequenceables| + i);
    }
  }

  lemma FoundHead(c: Context, size: nat, at: nat, mem: Memory, to: nat)
    requires Found(c, size, at, mem, to)
    ensures HeadReads(c, mem, to, to - at)
  {
    hide *;
    FoundIs(c, size, at, mem, to);
  }

  lemma TypeRecordAt(mem: Memory, b: nat, c: Context, n: Node, shift: int)
    requires Rec(mem, b, TypeBlock(c, n), shift)
    ensures TypeRecordHolds(mem, Align8(b), c, n) && Read(mem, Align8(b) + 8) == |Nested(n)|
  {
    hide Align8, Wrap, Rec, Read, KindNumber, TypeIndex, NestedIndexes, IntsHold;
    var blk := TypeBlock(c, n);
    RecField(mem, b, blk, shift, 0);
    RecField(mem, b, blk, shift, 4);
    RecField(mem, b, blk, shift, 8);
    assert Read(mem, Align8(b) + 0) == Read(mem, Align8(b));
    if Nested(n) != [] {
      RecInts(mem, b, blk, shift, 0);
    }
  }

  lemma FoundGraph(c: Context, size: nat, at: nat, mem: Memory, to: nat)
    requires Found(c, size, at, mem, to) && StringsRead(mem, c, to - at)
    ensures GraphReads(mem, to, c)
  {
    hide *;
    FoundHead(c, size, at, mem, to);
    HeadReadsIs(c, mem, to, to - at);
    KidsAre(c, size);
    TablesAre(c, size, at);
    DeclaredStringsIn(c.m);
    forall i | 0 <= i < |c.m.types|
      ensures TypeRecordHolds(mem, TypeNo(mem, to, i), c, c.m.types[i].node)
      ensures Read(mem, TypeNo(mem, to, i) + 8) == |Nested(c.m.types[i].node)|
    {
      var b := FoundRecord(c, size, at, mem, to, |c.m.namespaces| + |c.m.sequenceables| + |c.m.interfaces| + i);
      TypeRecordAt(mem, b, c, c.m.types[i].node, to - at);
    }
    forall i | 0 <= i < |c.m.sequenceables|
      ensures SequenceableReads(c.m, mem, SequenceableNo(mem, to, i), c.m.sequenceables[i])
      ensures c.m.sequenceables[i].name != "" ==>
                TextAt(mem, Read(mem, SequenceableNo(mem, to, i)), c.m.sequenceables[i].name)
    {
      FoundSequenceable(c, size, at, mem, to, i);
    }
    forall i | 0 <= i < |c.m.interfaces|
      ensures c.m.interfaces[i].name != "" ==> TextAt(mem, Read(mem, InterfaceNo(mem, to, i) + 8), c.m.interfaces[i].name)
    {
      var b := FoundRecord(c, size, at, mem, to, |c.m.namespaces| + |c.m.sequenceables| + i);
      InterfaceNameAt(mem, c, to - at, b, c.m.interfaces[i]);
    }
    GraphReadsIs(mem, to, c);
  }

  lemma FoundSequenceable(c: Context, size: nat, at: nat, mem: Memory, to: nat, i: nat)
    requires Found(c, size, at, mem, to) && StringsRead(mem, c, to - at) && i < |c.m.sequenceables|
    ensures SequenceableReads(c.m, mem, SequenceableNo(mem, to, i), c.m.sequenceables[i])
    ensures c.m.sequenceables[i].name != "" ==>
              TextAt(mem, Read(mem, SequenceableNo(mem, to, i)), c.m.sequenceables[i].name)
  {
    hide *;
    FoundHead(c, size, at, mem, to);
    HeadReadsIs(c, mem, to, to - at);
    KidsAre(c, size);
    TablesAre(c, size, at);
    DeclaredStringsIn(c.m);
    assert c.m.sequenceables[i] in c.m.sequenceables;
    var b := FoundRecord(c, size, at, mem, to, |c.m.namespaces| + i);
    SequenceableRead(mem, c, to - at, b, c.m.sequenceables[i]);
    NameRead(c.m, mem, SequenceableNo(mem, to, i), c.m.sequenceables[i]);
  }

  lemma NameRead(m: Module, mem: Memory, ms: int, x: SequenceableDecl)
    requires SequenceableReads(m, mem, ms, x)
    ensures x.name != "" ==> TextAt(mem, Read(mem, ms), x.name)
  {
    hide TextAt, Read;
  }

  lemma InterfaceNameAt(mem: Memory, c: Context, shift: int, b: nat, x: InterfaceDecl)
    requires Rec(mem, b, InterfaceBlock(c, x), shift) && StringsRead(mem, c, shift) && x in c.m.interfaces
    ensures x.name != "" ==> TextAt(mem, Read(mem, Align8(b) + 8), x.name)
  {
    hide Align8, Wrap, Rec, StringsRead, Read, Context.Str, ModuleStrings, InterfaceStrings, MethodBlock, TextAt;
    DeclaredStringsIn(c.m);
    InterfaceStringsAre(x);
    RecField(mem, b, InterfaceBlock(c, x), shift, 8);
    StringCell(mem, c, shift, Align8(b) + 8, x.name);
  }

  lemma GraphReadsIs(mem: Memory, mc: int, c: Context)
    ensures GraphReads(mem, mc, c) <==>
              && (forall i :: 0 <= i < |c.m.types| ==>
                    TypeRecordHolds(mem, TypeNo(mem, mc, i), c, c.m.types[i].node)
                    && Read(mem, TypeNo(mem, mc, i) + 8) == |Nested(c.m.types[i].node)|)
              && (forall i :: 0 <= i < |c.m.sequenceables| && c.m.sequenceables[i].name != "" ==>
                    TextAt(mem, Read(mem, SequenceableNo(mem, mc, i)), c.m.sequenceables[i].name))
              && (forall i :: 0 <= i < |c.m.interfaces| && c.m.interfaces[i].name != "" ==>
                    TextAt(mem, Read(mem, InterfaceNo(mem, mc, i) + 8), c.m.interfaces[i].name))
  {
    hide TypeRecordHolds, TypeNo, SequenceableNo, InterfaceNo, TextAt, Read, Nested;
  }

  lemma ClosedMentions(m: Module, x: InterfaceDecl)
    requires Closed(m) && x in m.interfaces
    ensures Mentions(m, x)
  {
    hide Listed, Declared, Distinct;
  }

  // ----- the whole module -----

  // The block, built or moved, is the module it was built from, and the dumper
  // finds its type graph there.
  lemma PlacedReads(m: Module, at: nat, mem: Memory, to: nat)
    requires Placed(m, at, mem, to) && Closed(m)
    ensures ModuleReads(m, mem, to, Wrap(to - at))
    ensures Graph(mem, to, ContextOf(m, AddAll([], ModuleStrings(m)), at))
  {
    hide *;
    var order := AddAll([], ModuleStrings(m));
    var c, size, shift := ContextOf(m, order, at), MetadataSize(m), to - at;
    PlacedIsFound(m, at, mem, to);
    FoundStrings(m, c, size, at, mem, to);
    FoundGraph(c, size, at, mem, to);
    AllTypesRead(mem, to, c);
    FoundHead(c, size, at, mem, to);
    HeadSays(m, c, mem, to, shift);
    GraphFrom(mem, to, c);
    ClosedListsOnce(m);
    forall i | 0 <= i < |m.namespaces|
      ensures NamespaceReads(m, mem, Read(mem, Read(mem, to + 32) + 8 * i), m.namespaces[i])
    {
      FoundNamespace(c, size, at, mem, to, i);
    }
    forall i | 0 <= i < |m.sequenceables| ensures SequenceableReads(m, mem, SequenceableNo(mem, to, i), m.sequenceables[i]) {
      FoundSequenceable(c, size, at, mem, to, i);
    }
    forall i | 0 <= i < |m.interfaces|
      ensures InterfaceReads(m, mem, to, Wrap(shift), InterfaceNo(mem, to, i), m.interfaces[i])
    {
      FoundInterface(c, size, at, mem, to, i);
    }
    TypesReadIs(mem, to, c);
    ModuleReadsIs(m, mem, to, Wrap(shift));
  }

  lemma HeadSays(m: Module, c: Context, mem: Memory, to: nat, shift: int)
    requires HeadReads(c, mem, to, shift) && StringsRead(mem, c, shift) && c.m == m
    requires TextAt(mem, Wrap(c.poolBase + shift), m.name)
    ensures && Read(mem, to) == 0x1DF02ED1 && Says(m, mem, to + 8, m.name) && TextAt(mem, Read(mem, to + 72), m.name)
            && Read(mem, to + 16) == |m.namespaces| && Read(mem, to + 20) == |m.sequenceables|
            && Read(mem, to + 24) == |m.interfaces| && Read(mem, to + 28) == |m.types|
            && PoolSize(mem, to) == |PoolText(c.order)|
  {
    hide Read, Wrap, TextAt, Says, StringsRead, PoolText, Context.Str;
    DeclaredStringsIn(m);
    StringCell(mem, c, shift, to + 8, m.name);
  }

  lemma TypesReadIs(mem: Memory, mc: int, c: Context)
    requires TypesRead(mem, mc, c)
    ensures forall i :: 0 <= i < |c.m.types| ==> TypeReads(mem, mc, TypeNo(mem, mc, i), c.m.types[i].node)
  {
    hide TypeReads, TypeNo;
  }

  lemma FoundNamespace(c: Context, size: nat, at: nat, mem: Memory, to: nat, i: nat)
    requires Found(c, size, at, mem, to) && StringsRead(mem, c, to - at) && i < |c.m.namespaces|
    ensures NamespaceReads(c.m, mem, Read(mem, Read(mem, to + 32) + 8 * i), c.m.namespaces[i])
  {
    hide *;
    FoundHead(c, size, at, mem, to);
    HeadReadsIs(c, mem, to, to - at);
    KidsAre(c, size);
    TablesAre(c, size, at);
    NamespaceStringsIn(c.m, i);
    var b := FoundRecord(c, size, at, mem, to, i);
    NamespaceRead(mem, c, to - at, b, c.m.namespaces[i]);
  }

  lemma FoundInterface(c: Context, size: nat, at: nat, mem: Memory, to: nat, i: nat)
    requires Found(c, size, at, mem, to) && StringsRead(mem, c, to - at) && i < |c.m.interfaces|
    requires TypesRead(mem, to, c) && Closed(c.m)
    ensures InterfaceReads(c.m, mem, to, Wrap(to - at), InterfaceNo(mem, to, i), c.m.interfaces[i])
  {
    hide *;
    FoundHead(c, size, at, mem, to);
    HeadReadsIs(c, mem, to, to - at);
    KidsAre(c, size);
    TablesAre(c, size, at);
    DeclaredStringsIn(c.m);
    ClosedListsOnce(c.m);
    assert c.m.interfaces[i] in c.m.interfaces;
    ClosedMentions(c.m, c.m.interfaces[i]);
    var b := FoundRecord(c, size, at, mem, to, |c.m.namespaces| + |c.m.sequenceables| + i);
    InterfaceRead(mem, to, c, to - at, b, c.m.interfaces[i]);
  }

  lemma ModuleReadsIs(m: Module, mem: Memory, mc: int, null_: int)
    ensures ModuleReads(m, mem, mc, null_) <==>
              && Read(mem, mc) == 0x1DF02ED1 && Says(m, mem, mc + 8, m.name)
              && Read(mem, mc + 16) == |m.namespaces| && Read(mem, mc + 20) == |m.sequenceables|
              && Read(mem, mc + 24) == |m.interfaces| && Read(mem, mc + 28) == |m.types|
              && TextAt(mem, Read(mem, mc + 72), m.name)
              && (forall i :: 0 <= i < |m.namespaces| ==>
                    NamespaceReads(m, mem, Read(mem, Read(mem, mc + 32) + 8 * i), m.namespaces[i]))
              && (forall i :: 0 <= i < |m.sequenceables| ==>
                    SequenceableReads(m, mem, SequenceableNo(mem, mc, i), m.sequenceables[i]))
              && (forall i :: 0 <= i < |m.interfaces| ==>
                    InterfaceReads(m, mem, mc, null_, InterfaceNo(mem, mc, i), m.interfaces[i]))
              && (forall i :: 0 <= i < |m.types| ==> TypeReads(mem, mc, TypeNo(mem, mc, i), m.types[i].node))
  {
    hide Read, Says, TextAt, NamespaceReads, SequenceableReads, InterfaceReads, TypeReads, SequenceableNo, InterfaceNo, TypeNo;
  }

  // ----- built, and moved -----

  lemma {:induction false} NotMoved(blk: Block)
    ensures MoveBlock(blk, 0) == blk
    decreases blk
  {
    assert MoveFields(blk.fields, HeaderSlots(blk.kind), 0) == blk.fields;
    NoneMoved(blk.kids);
  }

  lemma {:induction false} NoneMoved(kids: seq<Block>)
    ensures MoveBlocks(kids, 0) == kids
    decreases kids
  {
    if kids != [] {
      NoneMoved(kids[..|kids| - 1]);
      NotMoved(kids[|kids| - 1]);
    }
  }

  lemma ComponentNotMoved(c: Component)
    ensures MoveComponent(c, 0) == c
  {
    assert MoveFields(c.fields, {8, 72}, 0) == c.fields;
    NoneMoved(c.namespaces);
    NoneMoved(c.sequenceables);
    NoneMoved(c.interfaces);
    NoneMoved(c.types);
  }

  lemma BuiltIsPlaced(m: Module, at: nat, mem: Memory)
    requires Built(m, at, mem) && m.name != ""
    ensures Placed(m, at, mem, at)
  {
    hide *;
    LayoutIs(m, at);
    ComponentNotMoved(Layout(m, at));
    BuiltParts(m, at, mem);
    WorkingMeans(Layout(m, at), at, mem, 0);
    NoShift();
    PlacedFrom(m, at, mem, at);
  }

  lemma NoShift()
    ensures Aligns(0)
  {
  }

  lemma BuiltParts(m: Module, at: nat, mem: Memory)
    requires Built(m, at, mem)
    ensures NulFree(ModuleStrings(m)) && Layout(m, at).ComponentHolds(mem, at, 0) && Layout(m, at).ComponentEnd(at) < WORD
    ensures PoolHolds(mem, Layout(m, at).PoolBase(at), PoolText(AddAll([], ModuleStrings(m))))
  {
    hide NulFree, ModuleStrings, Layout, PoolHolds, PoolText;
  }

  lemma PlacedFrom(m: Module, at: nat, mem: Memory, to: nat)
    requires NulFree(ModuleStrings(m)) && m.name != "" && Aligns(to - at)
    requires Working(MoveComponent(Layout(m, at), to - at), to, mem, 0)
    requires PoolHolds(mem, Layout(m, at).PoolBase(at) + (to - at), PoolText(AddAll([], ModuleStrings(m))))
    ensures Placed(m, at, mem, to)
  {
    hide NulFree, ModuleStrings, Aligns, Working, PoolHolds, PoolText, Layout;
  }

  // Moving is carrying over, with each pointer taken up by the distance.
  lemma RelocatedIsCarried(c: Component, m: Memory, at: nat, m': Memory, to: nat)
    requires Relocated(c, m, at, m', to)
    ensures Carried(m, m', c.ComponentSlots(at), at, c.ComponentEnd(at), 0 - (to - at), to - at)
  {
    hide Component.ComponentSlots, Component.ComponentEnd, Wrap, Read;
    forall a | at <= a < c.ComponentEnd(at)
      ensures Read(m', a + (to - at)) == if a in c.ComponentSlots(at) then Wrap(Read(m, a) - (0 - (to - at))) else Read(m, a)
    {
      assert a - at + to == a + (to - at) && Read(m, a) + to - at == Read(m, a) - (0 - (to - at));
    }
  }

  lemma PoolMoved(m: Module, at: nat, mem: Memory, mem': Memory, to: nat)
    requires Built(m, at, mem) && Relocated(Layout(m, at), mem, at, mem', to)
    ensures PoolHolds(mem', Layout(m, at).PoolBase(at) + (to - at), PoolText(AddAll([], ModuleStrings(m))))
  {
    hide *;
    var r, text := Layout(m, at), PoolText(AddAll([], ModuleStrings(m)));
    LayoutIs(m, at);
    BuiltParts(m, at, mem);
    PoolSizeOf(m, at);
    TableIsAt(r, at);
    RelocatedIsCarried(r, mem, at, mem', to);
    RecordSlotsAre(r, at);
    PoolIsPlain(r, at);
    PoolCells(mem, mem', r.ComponentSlots(at), at, r.ComponentEnd(at), 0 - (to - at), to - at, r.PoolBase(at), text);
  }

  // No pointer lies in the pool.
  lemma PoolIsPlain(c: Component, at: nat)
    requires c.Sized()
    ensures forall a :: c.PoolBase(at) <= a < c.PoolBase(at) + c.poolSize ==> a !in c.ComponentSlots(at)
    ensures c.KidsStart(at) == c.PoolBase(at) + c.poolSize <= c.ComponentEnd(at)
  {
    hide KidsSlots, KidsEnd, WellSized, Component.Kids, Component.Sized, Entries;
    SizedKids(c);
    KidsSlotsWithin(c.KidsStart(at), c.Kids());
    KidsEndGrows(c.KidsStart(at), c.Kids());
  }

  lemma PoolCells(mem: Memory, mem': Memory, slots: set<int>, lo: nat, hi: nat, off: int, shift: int, start: nat, text: string)
    requires Carried(mem, mem', slots, lo, hi, off, shift) && PoolHolds(mem, start, text)
    requires lo <= start && start + |text| <= hi && forall a :: start <= a < start + |text| ==> a !in slots
    ensures PoolHolds(mem', start + shift, text)
  {
    hide Wrap, Read;
    forall i | 0 <= i < |text| ensures Read(mem', start + shift + i) == text[i] as int {
      assert Read(mem', start + i + shift) == Read(mem, start + i);
      assert start + i + shift == start + shift + i;
    }
  }

  lemma MovedIsPlaced(m: Module, at: nat, mem: Memory, mem': Memory, to: nat)
    requires Built(m, at, mem) && m.name != "" && Aligned(at) && Aligned(to)
    requires Relocated(Layout(m, at), mem, at, mem', to) && to + Layout(m, at).ComponentEnd(at) < WORD + at
    ensures Placed(m, at, mem', to)
  {
    hide *;
    var r, shift := Layout(m, at), to - at;
    Distance(at, to);
    LayoutIs(m, at);
    BuiltParts(m, at, mem);
    WorkingMeans(r, at, mem, 0);
    RelocatedIsCarried(r, mem, at, mem', to);
    ReadyToDeserialize(r, mem, mem', at, 0 - shift, shift, to);
    PoolMoved(m, at, mem, mem', to);
    PlacedFrom(m, at, mem', to);
  }

  // Where it was built, the block is the module, with null where the source
  // writes none.
  lemma BuiltReads(m: Module, at: nat, mem: Memory)
    requires Built(m, at, mem) && m.name != "" && Closed(m)
    ensures ModuleReads(m, mem, at, 0)
  {
    hide *;
    BuiltIsPlaced(m, at, mem);
    PlacedReads(m, at, mem, at);
    NullStays();
  }

  lemma NullStays()
    ensures Wrap(0) == 0
  {
  }

  // Serialized, copied and deserialized elsewhere, it still is, and every type
  // prints there as it did; a null pointer becomes the distance.
  lemma MovedReads(m: Module, at: nat, mem: Memory, mem': Memory, to: nat)
    requires Built(m, at, mem) && m.name != "" && Closed(m) && Aligned(at) && Aligned(to)
    requires Relocated(Layout(m, at), mem, at, mem', to) && to + Layout(m, at).ComponentEnd(at) < WORD + at
    ensures ModuleReads(m, mem', to, Wrap(to - at))
    ensures Graph(mem', to, ContextOf(m, AddAll([], ModuleStrings(m)), at))
  {
    hide *;
    MovedIsPlaced(m, at, mem, mem', to);
    PlacedReads(m, at, mem', to);
  }

  // Every listed type is printed from the moved block as its text.
  lemma MovedDumps(m: Module, at: nat, mem: Memory, mem': Memory, to: nat, n: Node)
    requires Built(m, at, mem) && m.name != "" && Closed(m) && Aligned(at) && Aligned(to) && Listed(m.types, n)
    requires Relocated(Layout(m, at), mem, at, mem', to) && to + Layout(m, at).ComponentEnd(at) < WORD + at
    ensures var c := ContextOf(m, AddAll([], ModuleStrings(m)), at);
            && Graph(mem', to, c) && 0 <= c.IndexOfType(n) < |m.types|
            && DumpMetaType(mem', to, TypeRecord(mem', to, c.IndexOfType(n)), c, n) == NodeText(n)
  {
    hide *;
    MovedReads(m, at, mem, mem', to);
    ContextIs(m);
    ClosedListsOnce(m);
    IndexLeadsBack(ContextOf(m, AddAll([], ModuleStrings(m)), at), n);
  }

  // Build, serialize, copy and deserialize: the module is there before and after.
  method BuildMoveAndRead(b: Builder, base: nat, to: nat) returns (moved: Memory)
    requires b.pool.Valid() && b.pool.order == [] && b.pool.stringOffsets == map[] && b.mem == map[]
    requires NulFree(ModuleStrings(b.m)) && b.m.IsValid() && Closed(b.m) && Aligned(base) && Aligned(to)
    requires Layout(b.m, base).ComponentEnd(base) < WORD && to + Layout(b.m, base).ComponentEnd(base) < WORD + base
    modifies b, b.pool, b.pool.data
    ensures ModuleReads(b.m, b.mem, base, 0)
    ensures ModuleReads(b.m, moved, to, Wrap(to - base))
  {
    hide *;
    NamedIfValid(b.m);
    moved := BuildAndMove(b, base, to);
    BuiltFrom(b.m, base, b.mem);
    BuiltReads(b.m, base, b.mem);
    MovedReads(b.m, base, b.mem, moved, to);
  }

  lemma NamedIfValid(m: Module)
    requires m.IsValid()
    ensures m.name != ""
  {
  }

  lemma BuiltFrom(m: Module, at: nat, mem: Memory)
    requires NulFree(ModuleStrings(m)) && Layout(m, at).ComponentHolds(mem, at, 0) && Layout(m, at).ComponentEnd(at) < WORD
    requires PoolHolds(mem, Layout(m, at).PoolBase(at), PoolText(AddAll([], ModuleStrings(m))))
    ensures Built(m, at, mem)
  {
    hide NulFree, ModuleStrings, Layout, PoolHolds, PoolText;
  }
}
