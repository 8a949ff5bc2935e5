/** A block is allocated, saved and loaded with the size the first pass measured.
    The second pass may lay out up to 7 bytes more: when that many bytes hold
    the whole component, and what arrives when they do. */
module MetadataShipping {
  import opened IdlAst
  import opened IdlTypes
  import opened StringPools
  import opened MetadataBlocks
  import opened MetadataSerializer
  import opened MetadataBuilder
  import opened MetadataLayout
  import opened Relocation
  import D = MetadataDumper
  import R = MetadataReading

  // ----- what is used of the regions -----

  // The bytes the builder and the serializer read or write: all of a record
  // header and of a table, and 4 bytes for each index of an index array,
  // however many are reserved for it.
  function Used(b: nat, blk: Block): seq<Region>
    decreases blk
  {
    [Region(Align8(b), HeaderSize(blk.kind))]
    + seq(|blk.ints|, i requires 0 <= i < |blk.ints| => Region(IntArrayStart(b, blk, i), 4 * |blk.ints[i].cells|))
    + (if HasKids(blk.kind) then [Region(TableStart(b, blk), 8 * |blk.kids|)] else [])
    + KidsUsed(KidsBase(b, blk), blk.kids)
  }

  function KidsUsed(kb: nat, kids: seq<Block>): seq<Region>
    decreases kids
  {
    if kids == [] then []
    else KidsUsed(kb, kids[..|kids| - 1]) + Used(KidsEnd(kb, kids[..|kids| - 1]), kids[|kids| - 1])
  }

  function ComponentUsed(r: Component, at: nat): seq<Region> {
    [Region(at, 80), Region(r.Table(at), 8 * |r.Kids()|), Region(r.PoolBase(at), r.poolSize)]
    + KidsUsed(r.KidsStart(at), r.Kids())
  }

  predicate EndBy(rs: seq<Region>, hi: nat) {
    forall i :: 0 <= i < |rs| ==> rs[i].start + rs[i].bytes <= hi
  }

  predicate Inside(us: seq<Region>, rs: seq<Region>) {
    |us| == |rs| && forall i :: 0 <= i < |us| ==> us[i].start == rs[i].start && us[i].bytes <= rs[i].bytes
  }

  lemma InsideJoins(us: seq<Region>, rs: seq<Region>, us': seq<Region>, rs': seq<Region>)
    requires Inside(us, rs) && Inside(us', rs')
    ensures Inside(us + us', rs + rs')
  {
  }

  lemma {:induction false} UsedInside(b: nat, blk: Block)
    requires WellSized(blk)
    ensures Inside(Used(b, blk), Regions(b, blk))
    decreases blk
  {
    assert OwnSized(blk);
    hide Align8, IntArrayStart, KidsBase, TableStart, WellSized, HeaderSize, CountOffset, TableOffset, IntArrayOffset;
    var table := if HasKids(blk.kind) then [Region(TableStart(b, blk), 8 * |blk.kids|)] else [];
    var head := [Region(Align8(b), HeaderSize(blk.kind))];
    var us := head + seq(|blk.ints|, i requires 0 <= i < |blk.ints| => Region(IntArrayStart(b, blk, i), 4 * |blk.ints[i].cells|));
    var rs := head + seq(|blk.ints|, i requires 0 <= i < |blk.ints| => Region(IntArrayStart(b, blk, i), blk.ints[i].bytes));
    assert Inside(us, rs);
    assert WellSized(blk) ==> forall k :: k in blk.kids ==> WellSized(k) by {
      KidsSized(blk);
    }
    KidsUsedInside(KidsBase(b, blk), blk.kids);
    InsideJoins(us, rs, table, table);
    InsideJoins(us + table, rs + table, KidsUsed(KidsBase(b, blk), blk.kids), KidsRegions(KidsBase(b, blk), blk.kids));
  }

  lemma KidsSized(blk: Block)
    requires WellSized(blk)
    ensures forall k :: k in blk.kids ==> WellSized(k)
  {
  }

  lemma {:induction false} KidsUsedInside(kb: nat, kids: seq<Block>)
    requires forall k :: k in kids ==> WellSized(k)
    ensures Inside(KidsUsed(kb, kids), KidsRegions(kb, kids))
    decreases kids
  {
    if kids != [] {
      var init, last := kids[..|kids| - 1], kids[|kids| - 1];
      KidsUsedInside(kb, init);
      UsedInside(KidsEnd(kb, init), last);
      InsideJoins(KidsUsed(kb, init), KidsRegions(kb, init), Used(KidsEnd(kb, init), last), Regions(KidsEnd(kb, init), last));
    }
  }

  lemma InsideEnds(us: seq<Region>, rs: seq<Region>, lo: nat, hi: nat)
    requires Inside(us, rs) && Chained(rs, lo, hi)
    ensures EndBy(us, hi)
  {
  }

  // ----- the last record -----

  // What is reserved for the indexes of a type and not used.
  function Slack(n: Node): nat {
    4 * |Nested(n)|
  }

  lemma LastType(c: Context, n: Node, b: nat)
    ensures var blk := TypeBlock(c, n); var s := Align8(b);
            && End(b, blk) == s + 24 + 2 * Slack(n) && Slack(n) <= 8
            && Used(b, blk) == [Region(s, 24)] + (if Slack(n) == 0 then [] else [Region(s + 24, Slack(n))])
  {
    hide NestedIndexes, KindNumber, TypeIndex;
    var blk := TypeBlock(c, n);
    assert blk.kids == [] && KidsEnd(KidsBase(b, blk), []) == KidsBase(b, blk) && KidsUsed(KidsBase(b, blk), []) == [];
    AlignFacts(b);
    AlignFacts(Align8(b) + 24);
    if Nested(n) == [] {
      assert Used(b, blk) == [Region(Align8(b), 24)];
    } else {
      assert IntArrayStart(b, blk, 0) == Align8(b) + 24;
      assert |NestedIndexes(c, n)| == |Nested(n)| by {
        NestedCount(c, n);
      }
      assert Used(b, blk) == [Region(Align8(b), 24)] + [Region(Align8(b) + 24, Slack(n))];
    }
  }

  lemma NestedCount(c: Context, n: Node)
    ensures |NestedIndexes(c, n)| == |Nested(n)|
  {
  }

  // The last record of a component is that of the type listed last.
  lemma LastKid(m: Module, at: nat)
    requires m.types != []
    ensures var kids := Layout(m, at).Kids();
            && kids != []
            && kids[|kids| - 1] == TypeBlock(ContextOf(m, AddAll([], ModuleStrings(m)), at), m.types[|m.types| - 1].node)
  {
    hide NamespaceBlocks, SequenceableBlocks, InterfaceBlocks, TypeBlock, AddAll, ModuleStrings, ContextOf, MetadataSize;
    LayoutIs(m, at);
  }

  lemma UsedOfLast(kb: nat, kids: seq<Block>)
    requires kids != []
    ensures KidsUsed(kb, kids) == KidsUsed(kb, kids[..|kids| - 1]) + Used(KidsEnd(kb, kids[..|kids| - 1]), kids[|kids| - 1])
    ensures KidsEnd(kb, kids) == End(KidsEnd(kb, kids[..|kids| - 1]), kids[|kids| - 1])
  {
    hide Used, End;
  }

  lemma ComponentUsedIs(r: Component, at: nat)
    ensures ComponentUsed(r, at)
            == [Region(at, 80), Region(at + 80, 8 * |r.Kids()|), Region(at + 80 + 8 * |r.Kids()|, r.poolSize)]
               + KidsUsed(r.KidsStart(at), r.Kids())
  {
  }

  // Everything that is used ends by `hi` exactly when the last record's part does.
  lemma {:induction false} UsedEnds(kb: nat, kids: seq<Block>, head: seq<Region>, c: Context, n: Node, hi: nat)
    requires kids != [] && (forall k :: k in kids ==> WellSized(k)) && kids[|kids| - 1] == TypeBlock(c, n)
    requires EndBy(head, kb) && KidsEnd(kb, kids) <= hi + 7
    ensures EndBy(head + KidsUsed(kb, kids), hi) <==> KidsEnd(kb, kids) <= hi + Slack(n)
  {
    hide *;
    var init, last := kids[..|kids| - 1], kids[|kids| - 1];
    var b := KidsEnd(kb, init);
    UsedOfLast(kb, kids);
    LastType(c, n, b);
    AlignUp(b);
    KidsUsedInside(kb, init);
    KidsRegionsChained(kb, init);
    InsideEnds(KidsUsed(kb, init), KidsRegions(kb, init), kb, b);
    KidsEndGrows(kb, init);
    EndsJoin(head, KidsUsed(kb, init), Used(b, last), kb, b, hi);
    LastEnds(Used(b, last), Align8(b), Slack(n), hi);
  }

  lemma AlignUp(b: nat)
    ensures b <= Align8(b)
  {
  }

  lemma EndsJoin(head: seq<Region>, us: seq<Region>, last: seq<Region>, kb: nat, b: nat, hi: nat)
    requires EndBy(head, kb) && EndBy(us, b) && kb <= b <= hi
    ensures EndBy(head + (us + last), hi) <==> EndBy(last, hi)
  {
    var all := head + (us + last);
    if EndBy(all, hi) {
      assert forall i :: 0 <= i < |last| ==> last[i] == all[|head| + |us| + i];
    }
  }

  lemma LastEnds(last: seq<Region>, s: nat, slack: nat, hi: nat)
    requires last == [Region(s, 24)] + (if slack == 0 then [] else [Region(s + 24, slack)]) && s + 24 + 2 * slack <= hi + 7
    ensures EndBy(last, hi) <==> s + 24 + slack <= hi
  {
    if slack != 0 {
      assert last[1] == Region(s + 24, slack);
    }
    assert last[0] == Region(s, 24);
  }

  // All that the builder and the serializer touch lies in the allocated bytes
  // exactly when the padding of the pool is no longer than what the last record
  // reserves and does not use: never for a last type that is no container,
  // unless the pool's size is a multiple of 8, and always for a map.
  lemma BlockFits(m: Module, at: nat)
    requires m.types != [] && Aligned(at)
    ensures var r := Layout(m, at);
            EndBy(ComponentUsed(r, at), at + MetadataSize(m))
            <==> Align8(r.poolSize) - r.poolSize <= Slack(m.types[|m.types| - 1].node)
  {
    hide *;
    var r := Layout(m, at);
    TwoPasses(m, at);
    LayoutIs(m, at);
    SizedIs(r);
    LastKid(m, at);
    EndIs(r, at);
    ComponentUsedIs(r, at);
    var head := [Region(at, 80), Region(at + 80, 8 * |r.Kids()|), Region(at + 80 + 8 * |r.Kids()|, r.poolSize)];
    HeadEnds(at, |r.Kids()|, r.poolSize);
    UsedEnds(r.KidsStart(at), r.Kids(), head, ContextOf(m, AddAll([], ModuleStrings(m)), at), m.types[|m.types| - 1].node,
             at + MetadataSize(m));
  }

  lemma HeadEnds(at: nat, n: nat, pool: nat)
    ensures EndBy([Region(at, 80), Region(at + 80, 8 * n), Region(at + 80 + 8 * n, pool)], at + 80 + 8 * n + pool)
  {
  }

  predicate PaddingFits(m: Module, at: nat) {
    var r := Layout(m, at);
    m.types != [] && Align8(r.poolSize) - r.poolSize <= Slack(m.types[|m.types| - 1].node)
  }

  // ----- a module that does not fit -----

  // What `interface a.I { void f(); }` declares, with the type table listed in
  // one of its possible orders.
  function SmallModule(): Module {
    Module("I", [Namespace("a", [], [10], [])], [],
           [InterfaceDecl(10, Null, "a.", "I", false, false, [Method("f", false, PrimitiveNode(9, Void), [])])],
           [TypeEntry("I", InterfaceNode(10, "a.", "I")), TypeEntry("boolean", PrimitiveNode(0, Boolean)),
            TypeEntry("byte", PrimitiveNode(1, Byte)), TypeEntry("short", PrimitiveNode(2, Short)),
            TypeEntry("int", PrimitiveNode(3, Integer)), TypeEntry("long", PrimitiveNode(4, Long)),
            TypeEntry("float", PrimitiveNode(5, Float)), TypeEntry("double", PrimitiveNode(6, Double)),
            TypeEntry("char", PrimitiveNode(7, Char)), TypeEntry("String", PrimitiveNode(8, String)),
            TypeEntry("void", PrimitiveNode(9, Void))])
  }

  // Its pool has 13 bytes, and its block reaches 3 bytes past what was allocated.
  lemma SmallModuleOverruns(at: nat)
    requires Aligned(at)
    ensures var m := SmallModule(); var r := Layout(m, at);
            && m.IsValid() && NulFree(ModuleStrings(m)) && D.Closed(m) && r.poolSize == 13
            && !EndBy(ComponentUsed(r, at), at + MetadataSize(m)) && r.ComponentEnd(at) == at + MetadataSize(m) + 3
  {
    hide *;
    var m := SmallModule();
    SmallStrings();
    SmallPool();
    SmallClosed();
    PoolSizeOf(m, at);
    SmallLast();
    SixteenIsNext();
    BlockFits(m, at);
    TwoPasses(m, at);
  }

  lemma SixteenIsNext()
    ensures Align8(13) == 16
  {
  }

  lemma SmallLast()
    ensures var m := SmallModule();
            m.types != [] && Slack(m.types[|m.types| - 1].node) == 0 && m.IsValid()
  {
  }

  lemma FlatOne(part: seq<string>)
    ensures Flat([part]) == part && Flat([]) == []
  {
    assert [part][..0] == [] && [] + part == part;
  }

  lemma SmallStrings()
    ensures ModuleStrings(SmallModule()) == ["I", "a", "", "I", "a.", "f", "(V)"]
    ensures NulFree(ModuleStrings(SmallModule()))
  {
    var m := SmallModule();
    var x := m.interfaces[0].methods[0];
    FlatOne(["a"]);
    var a := Namespace("a", [], [10], []);
    assert NamespaceStrings(a) == ["a"] by {
      assert NamespaceParts(a.inner) == [];
    }
    assert NamespaceParts([a]) == [["a"]];
    assert m.namespaces == [a];
    assert MethodStrings(x) == ["f", "(V)"] by {
      assert ParamParts([]) == [] && MethodText(x) == "(V)";
    }
    FlatOne(MethodStrings(x));
    assert MethodParts(m.interfaces[0].methods) == [MethodStrings(x)];
    FlatOne(InterfaceStrings(m.interfaces[0]));
    assert InterfaceParts(m.interfaces) == [InterfaceStrings(m.interfaces[0])];
    assert SequenceableParts(m.sequenceables) == [];
  }

  lemma PoolStep(ss: seq<string>, s: string, order: seq<string>)
    ensures AddAll([], ss + [s]) == AddOne(AddAll([], ss), s)
    ensures |PoolText(order + [s])| == |PoolText(order)| + |s| + 1
  {
    hide AddOne;
    assert (ss + [s])[..|ss|] == ss && (order + [s])[..|order|] == order;
  }

  // "I" twice and "" once add nothing: I, a, a., f and (V) are left.
  lemma SmallPool()
    ensures |PoolText(AddAll([], ["I", "a", "", "I", "a.", "f", "(V)"]))| == 13
  {
    hide AddAll, PoolText;
    NothingPooled();
    PoolStep([], "I", []);
    assert [] + ["I"] == ["I"];
    PoolStep(["I"], "a", ["I"]);
    PoolStep(["I"] + ["a"], "", []);
    PoolStep(["I"] + ["a"] + [""], "I", []);
    PoolStep(["I"] + ["a"] + [""] + ["I"], "a.", ["I"] + ["a"]);
    PoolStep(["I"] + ["a"] + [""] + ["I"] + ["a."], "f", ["I"] + ["a"] + ["a."]);
    PoolStep(["I"] + ["a"] + [""] + ["I"] + ["a."] + ["f"], "(V)", ["I"] + ["a"] + ["a."] + ["f"]);
    assert ["I"] + ["a"] + [""] + ["I"] + ["a."] + ["f"] + ["(V)"] == ["I", "a", "", "I", "a.", "f", "(V)"];
  }

  lemma NothingPooled()
    ensures AddAll([], []) == [] && PoolText([]) == ""
  {
  }

  lemma SmallIds()
    ensures var m := SmallModule();
            && D.Distinct(TypeIds(m.types)) && D.Distinct(SequenceableIds(m.sequenceables))
            && D.Distinct(InterfaceIds(m.interfaces))
  {
  }

  lemma SmallDeclared()
    ensures var m := SmallModule();
            forall i :: 0 <= i < |m.types| ==> D.Declared(m, m.types[i].node) && Nested(m.types[i].node) == []
  {
    var m := SmallModule();
    assert m.interfaces[0].name == "I";
  }

  lemma SmallMethods()
    ensures var m := SmallModule();
            && (forall d, x :: d in m.interfaces && x in d.methods ==> D.Listed(m.types, x.ret))
            && (forall d, x, p :: d in m.interfaces && x in d.methods && p in x.params ==> D.Listed(m.types, p.typ))
  {
    var m := SmallModule();
    assert m.types[10].node == PrimitiveNode(9, Void);
    assert forall d, x :: d in m.interfaces && x in d.methods ==> x.ret == PrimitiveNode(9, Void) && x.params == [];
  }

  lemma SmallClosed()
    ensures D.Closed(SmallModule())
  {
    hide D.Distinct, D.Declared, D.Listed, SmallModule, Nested;
    SmallIds();
    SmallDeclared();
    SmallMethods();
  }

  // ----- what arrives -----

  // The memory without what lies from `lo` on and before `hi`.
  function Cut(m: Memory, lo: nat, hi: nat): Memory {
    map a | a in m && !(lo <= a < hi) :: m[a]
  }

  lemma CutIs(m: Memory, lo: nat, hi: nat)
    ensures forall a :: Read(Cut(m, lo, hi), a) == if lo <= a < hi then 0 else Read(m, a)
  {
  }

  // The record of a type is held, and its pointer found, in front of the slack.
  lemma LastTypeFrame(m: Memory, m': Memory, c: Context, n: Node, b: nat)
    requires SameCells(m, m', Align8(b), Align8(b) + 24 + Slack(n)) && Holds(m, b, TypeBlock(c, n), 0)
    ensures Holds(m', b, TypeBlock(c, n), 0)
    ensures forall a :: a in Slots(b, TypeBlock(c, n)) ==> a < Align8(b) + 24 + Slack(n)
  {
    hide NestedIndexes, KindNumber, TypeIndex, Wrap, Read;
    var blk := TypeBlock(c, n);
    NestedCount(c, n);
    AlignFacts(b);
    AlignFacts(Align8(b) + 24);
    assert blk.kids == [] && KidsSlots(KidsBase(b, blk), []) == {};
    if blk.ints != [] {
      assert IntArrayStart(b, blk, 0) == Align8(b) + 24;
    }
  }

  lemma KidsSplit(m: Memory, kb: nat, kids: seq<Block>)
    requires kids != []
    ensures var init, last := kids[..|kids| - 1], kids[|kids| - 1];
            && (KidsHold(m, kb, kids, 0) <==> KidsHold(m, kb, init, 0) && Holds(m, KidsEnd(kb, init), last, 0))
            && KidsSlots(kb, kids) == KidsSlots(kb, init) + Slots(KidsEnd(kb, init), last)
  {
    hide Holds, Slots, KidsEnd;
  }

  lemma KidsHeldBefore(m: Memory, m': Memory, kb: nat, kids: seq<Block>, c: Context, n: Node)
    requires kids != [] && (forall k :: k in kids ==> WellSized(k)) && kids[|kids| - 1] == TypeBlock(c, n)
    requires KidsHold(m, kb, kids, 0) && SameCells(m, m', kb, KidsEnd(kb, kids) - Slack(n))
    ensures KidsHold(m', kb, kids, 0) && forall a :: a in KidsSlots(kb, kids) ==> a < KidsEnd(kb, kids) - Slack(n)
  {
    hide *;
    var init, last := kids[..|kids| - 1], kids[|kids| - 1];
    var b := KidsEnd(kb, init);
    UsedOfLast(kb, kids);
    LastType(c, n, b);
    AlignUp(b);
    KidsEndGrows(kb, init);
    KidsSplit(m, kb, kids);
    KidsSplit(m', kb, kids);
    FewerCells(m, m', kb, KidsEnd(kb, kids) - Slack(n), kb, b);
    FewerCells(m, m', kb, KidsEnd(kb, kids) - Slack(n), Align8(b), Align8(b) + 24 + Slack(n));
    KidsHoldFrame(m, m', kb, init, 0);
    LastTypeFrame(m, m', c, n, b);
    KidsSlotsWithin(kb, init);
  }

  lemma FewerCells(m: Memory, m': Memory, lo: int, hi: int, lo': int, hi': int)
    requires SameCells(m, m', lo, hi) && lo <= lo' && hi' <= hi
    ensures SameCells(m, m', lo', hi')
  {
  }

  lemma HeadFrame(r: Component, m: Memory, m': Memory, at: nat)
    requires r.Sized() && r.HeadHolds(m, at, 0) && SameCells(m, m', at, at + 80)
    ensures r.HeadHolds(m', at, 0)
  {
    hide WellSized, Component.Kids, Component.Table, Component.FirstOf, Wrap, Read;
  }

  lemma HoldsIs(r: Component, m: Memory, at: nat)
    ensures r.ComponentHolds(m, at, 0) <==>
              r.HeadHolds(m, at, 0) && TableHolds(m, at + 80, r.KidsStart(at), r.Kids(), 0) && KidsHold(m, r.KidsStart(at), r.Kids(), 0)
  {
    hide Component.HeadHolds, TableHolds, KidsHold, Component.Kids, Component.KidsStart;
  }

  lemma SlotsAre(r: Component, at: nat)
    ensures forall a :: a in r.ComponentSlots(at) ==> a in KidsSlots(r.KidsStart(at), r.Kids()) || a < at + 80 + 8 * |r.Kids()|
  {
    hide KidsSlots, Entries, Component.Kids, Component.KidsStart;
  }

  // Whatever lies in the slack at the end, a component is held, and its
  // pointers lie in front of it.
  lemma HeldBeforeSlack(m: Module, at: nat, mem: Memory, cut: Memory)
    requires m.types != [] && Layout(m, at).ComponentHolds(mem, at, 0)
    requires SameCells(mem, cut, at, Layout(m, at).ComponentEnd(at) - Slack(m.types[|m.types| - 1].node))
    ensures var r := Layout(m, at); var hi := r.ComponentEnd(at) - Slack(m.types[|m.types| - 1].node);
            r.ComponentHolds(cut, at, 0) && forall a :: a in r.ComponentSlots(at) ==> a < hi
  {
    hide *;
    var r, n := Layout(m, at), m.types[|m.types| - 1].node;
    var c, hi := ContextOf(m, AddAll([], ModuleStrings(m)), at), r.ComponentEnd(at) - Slack(n);
    LayoutIs(m, at);
    SizedIs(r);
    LastKid(m, at);
    EndIs(r, at);
    HoldsIs(r, mem, at);
    HoldsIs(r, cut, at);
    SlotsAre(r, at);
    LastStart(r.KidsStart(at), r.Kids(), c, n);
    FewerCells(mem, cut, at, hi, at, at + 80);
    FewerCells(mem, cut, at, hi, at + 80, at + 80 + 8 * |r.Kids()|);
    FewerCells(mem, cut, at, hi, r.KidsStart(at), hi);
    HeadFrame(r, mem, cut, at);
    TableFrame(mem, cut, at + 80, r.KidsStart(at), r.Kids(), 0);
    KidsHeldBefore(mem, cut, r.KidsStart(at), r.Kids(), c, n);
  }

  lemma LastStart(kb: nat, kids: seq<Block>, c: Context, n: Node)
    requires kids != [] && (forall k :: k in kids ==> WellSized(k)) && kids[|kids| - 1] == TypeBlock(c, n)
    ensures kb <= KidsEnd(kb, kids) - Slack(n)
  {
    hide *;
    UsedOfLast(kb, kids);
    LastType(c, n, KidsEnd(kb, kids[..|kids| - 1]));
    AlignUp(KidsEnd(kb, kids[..|kids| - 1]));
    KidsEndGrows(kb, kids[..|kids| - 1]);
  }

  // The bytes that were saved, moved like Serialize and Deserialize move them.
  ghost predicate Arrived(r: Component, m: Memory, at: nat, size: nat, m': Memory, to: nat) {
    forall a :: at <= a < at + size ==>
      Read(m', a - at + to) == if a in r.ComponentSlots(at) then Wrap(Read(m, a) + to - at) else Read(m, a)
  }

  // Copying stops at the measured size, and what is missing is not used.
  lemma CutCarries(m0: Memory, m1: Memory, slots: set<int>, at: nat, n: nat, end: nat, to: nat)
    requires Shifted(m0, m1, slots, 0 - at) && at + n <= end && forall a :: a in slots ==> a < at + n
    ensures Carried(Cut(m0, at + n, end), Copied(m1, at, n, to), slots, at, end, at, to - at)
  {
    var cut, m2 := Cut(m0, at + n, end), Copied(m1, at, n, to);
    hide Copied, Wrap, Cut;
    CutIs(m0, at + n, end);
    forall a | at <= a < end
      ensures Read(m2, a + (to - at)) == if a in slots then Wrap(Read(cut, a) - at) else Read(cut, a)
    {
      if a < at + n {
        CopiedCell(m1, at, n, to, a - at);
      } else {
        NotCopied(m1, at, n, to, a - at);
      }
    }
  }

  lemma {:induction false} NotCopied(m: Memory, at: nat, n: nat, to: nat, k: nat)
    requires n <= k
    ensures Read(Copied(m, at, n, to), to + k) == 0
  {
    if n > 0 {
      NotCopied(m, at, n - 1, to, k);
    }
  }

  // Serialize a component of the module at `at` and copy `size` bytes of it.
  method Save(mem: Memory, at: nat, to: nat, size: nat, ghost m: Module) returns (block: Memory)
    requires PaddingFits(m, at) && size == MetadataSize(m) && Aligned(at) && Working(Layout(m, at), at, mem, 0)
    ensures var r := Layout(m, at);
            && Working(r, at, Cut(mem, at + size, r.ComponentEnd(at)), 0) && at + size <= r.ComponentEnd(at)
            && Carried(Cut(mem, at + size, r.ComponentEnd(at)), block, r.ComponentSlots(at), at, r.ComponentEnd(at), at, to - at)
  {
    hide *;
    ghost var r := Layout(m, at);
    ghost var end := r.ComponentEnd(at);
    PaddingFitsIs(m, at);
    TwoPasses(m, at);
    WorkingMeans(r, at, mem, 0);
    WorkingMeans(r, at, Cut(mem, at + size, end), 0);
    CutIs(mem, at + size, end);
    CutSame(mem, at, at + size, end);
    FewerCells(mem, Cut(mem, at + size, end), at, at + size, at, end - Slack(m.types[|m.types| - 1].node));
    HeldBeforeSlack(m, at, mem, Cut(mem, at + size, end));
    var sender := new Serializer(mem, at);
    sender.Serialize(r);
    block := Copied(sender.mem, at, size, to);
    CutCarries(mem, sender.mem, r.ComponentSlots(at), at, size, end, to);
  }

  lemma CutSame(m: Memory, at: nat, lo: nat, hi: nat)
    ensures SameCells(m, Cut(m, lo, hi), at, lo)
  {
    CutIs(m, lo, hi);
  }

  lemma PaddingFitsIs(m: Module, at: nat)
    ensures PaddingFits(m, at) <==>
              && m.types != []
              && Align8(Layout(m, at).poolSize) - Layout(m, at).poolSize <= Slack(m.types[|m.types| - 1].node)
  {
    hide Layout, Align8, Slack;
  }

  // A block that fits is saved with its measured size and loaded at any other
  // 8-aligned address: each pointer arrives moved by the distance, everything
  // else as it was, and the module can be read there.
  method BuildAndShip(b: Builder, base: nat, to: nat) returns (loaded: Memory)
    requires b.pool.Valid() && b.pool.order == [] && b.pool.stringOffsets == map[] && b.mem == map[]
    requires NulFree(ModuleStrings(b.m)) && b.m.IsValid() && Aligned(base) && Aligned(to) && PaddingFits(b.m, base)
    requires Layout(b.m, base).ComponentEnd(base) < WORD && to + Layout(b.m, base).ComponentEnd(base) < WORD + base
    modifies b, b.pool, b.pool.data
    ensures b.size == MetadataSize(b.m) && Layout(b.m, base).ComponentHolds(b.mem, base, 0)
    ensures Arrived(Layout(b.m, base), b.mem, base, b.size, loaded, to)
    ensures D.Closed(b.m) ==> R.ModuleReads(b.m, loaded, to, Wrap(to - base))
  {
    hide *;
    ghost var r := Layout(b.m, base);
    EndBehind(b.m, base);
    var _ := b.Build(base);
    WorkingMeans(r, base, b.mem, 0);
    var block := Save(b.mem, base, to, b.size, b.m);
    ghost var cut := Cut(b.mem, base + b.size, r.ComponentEnd(base));
    Distance(base, to);
    ReadyToDeserialize(r, cut, block, base, base, to - base, to);
    loaded := Receive(block, to, MoveComponent(r, to - base));
    SlotsMeet(r, cut, block, loaded, base, to - base, to);
    CutArrives(r, b.mem, base, b.size, loaded, to);
    if D.Closed(b.m) {
      PoolSurvives(b.m, base, b.mem);
      WorkingMeans(r, base, cut, 0);
      R.BuiltFrom(b.m, base, cut);
      R.NamedIfValid(b.m);
      R.MovedReads(b.m, base, cut, loaded, to);
    }
  }

  // The pool lies in front of what is cut off.
  lemma PoolSurvives(m: Module, at: nat, mem: Memory)
    requires PoolHolds(mem, Layout(m, at).PoolBase(at), PoolText(AddAll([], ModuleStrings(m))))
    ensures PoolHolds(Cut(mem, at + MetadataSize(m), Layout(m, at).ComponentEnd(at)), Layout(m, at).PoolBase(at),
                      PoolText(AddAll([], ModuleStrings(m))))
  {
    hide *;
    var r, text := Layout(m, at), PoolText(AddAll([], ModuleStrings(m)));
    LayoutIs(m, at);
    SizedIs(r);
    PoolSizeOf(m, at);
    TableIsAt(r, at);
    FirstPass(m, at);
    KidsEndGrows(80 + 8 * |r.Kids()|, r.Kids());
    EndIs(r, at);
    CutSame(mem, r.PoolBase(at), at + MetadataSize(m), r.ComponentEnd(at));
    PoolKept(mem, Cut(mem, at + MetadataSize(m), r.ComponentEnd(at)), r.PoolBase(at), at + MetadataSize(m), text);
  }

  lemma PoolKept(m: Memory, m': Memory, start: nat, hi: nat, text: string)
    requires PoolHolds(m, start, text) && SameCells(m, m', start, hi) && start + |text| <= hi
    ensures PoolHolds(m', start, text)
  {
    hide Read;
  }

  lemma CutArrives(r: Component, m: Memory, at: nat, size: nat, m': Memory, to: nat)
    requires at + size <= r.ComponentEnd(at) && Relocated(r, Cut(m, at + size, r.ComponentEnd(at)), at, m', to)
    ensures Arrived(r, m, at, size, m', to)
  {
    hide Component.ComponentEnd, Component.ComponentSlots, Wrap, Cut;
    CutIs(m, at + size, r.ComponentEnd(at));
  }
}
