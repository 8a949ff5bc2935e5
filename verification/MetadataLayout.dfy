/** How the two passes of the metadata builder relate: what they reserve, what
    they fill, and the strings they share. */
module MetadataLayout {
  import opened IdlAst
  import opened IdlTypes
  import opened StringPools
  import opened MetadataBlocks
  import opened MetadataSerializer
  import opened MetadataBuilder
  import opened Relocation

  // ----- the size of a record does not depend on the addresses in it -----

  predicate SameShape(x: Block, y: Block)
    decreases x
  {
    && x.kind == y.kind && |x.ints| == |y.ints| && |x.kids| == |y.kids|
    && (forall i :: 0 <= i < |x.ints| ==> x.ints[i].bytes == y.ints[i].bytes)
    && (forall i :: 0 <= i < |x.kids| ==> SameShape(x.kids[i], y.kids[i]))
  }

  lemma {:induction false} SameArrayStart(b: nat, x: Block, y: Block, i: nat)
    requires SameShape(x, y) && i <= |x.ints|
    ensures IntArrayStart(b, x, i) == IntArrayStart(b, y, i)
    decreases i
  {
    if i > 0 {
      SameArrayStart(b, x, y, i - 1);
    }
  }

  lemma {:induction false} SameEnd(b: nat, x: Block, y: Block)
    requires SameShape(x, y)
    ensures End(b, x) == End(b, y)
    decreases x
  {
    SameArrayStart(b, x, y, |x.ints|);
    if x.ints != [] {
      SameArrayStart(b, x, y, |x.ints| - 1);
    }
    hide IntArrayStart, Align8;
    SameKidsEnd(KidsBase(b, x), x.kids, y.kids);
  }

  lemma {:induction false} SameKidsEnd(kb: nat, xs: seq<Block>, ys: seq<Block>)
    requires |xs| == |ys| && forall i :: 0 <= i < |xs| ==> SameShape(xs[i], ys[i])
    ensures KidsEnd(kb, xs) == KidsEnd(kb, ys)
    decreases xs
  {
    if xs != [] {
      SameKidsEnd(kb, xs[..|xs| - 1], ys[..|ys| - 1]);
      SameEnd(KidsEnd(kb, xs[..|xs| - 1]), xs[|xs| - 1], ys[|ys| - 1]);
    }
  }

  lemma MethodShape(c: Context, d: Context, x: Method)
    ensures SameShape(MethodBlock(c, x), MethodBlock(d, x))
  {
    hide Context.Str, Context.IndexOfType, MethodText;
  }

  lemma InterfaceShape(c: Context, d: Context, x: InterfaceDecl)
    ensures SameShape(InterfaceBlock(c, x), InterfaceBlock(d, x))
  {
    hide Context.Str, MethodBlock;
    forall i | 0 <= i < |x.methods| ensures SameShape(MethodBlocks(c, x.methods)[i], MethodBlocks(d, x.methods)[i]) {
      MethodShape(c, d, x.methods[i]);
    }
  }

  lemma {:induction false} NamespaceShape(c: Context, d: Context, x: Namespace)
    ensures SameShape(NamespaceBlock(c, x), NamespaceBlock(d, x))
    decreases x
  {
    hide Context.Str, SequenceableIndexes, InterfaceIndexes;
    forall i | 0 <= i < |x.inner| ensures SameShape(NamespaceBlocks(c, x.inner)[i], NamespaceBlocks(d, x.inner)[i]) {
      NamespaceShape(c, d, x.inner[i]);
    }
  }

  lemma TypeShape(c: Context, d: Context, n: Node)
    ensures SameShape(TypeBlock(c, n), TypeBlock(d, n))
  {
    hide TypeIndex, KindNumber, NestedIndexes;
  }

  lemma ShapesAgree(c: Context, d: Context, size: nat)
    requires c.m == d.m
    ensures var xs, ys := ComponentOf(c, size).Kids(), ComponentOf(d, size).Kids();
            |xs| == |ys| && forall i :: 0 <= i < |xs| ==> SameShape(xs[i], ys[i])
  {
    hide SameShape, Context.Str, NamespaceBlock, SequenceableBlock, InterfaceBlock, TypeBlock;
    var xs, ys := ComponentOf(c, size).Kids(), ComponentOf(d, size).Kids();
    forall i | 0 <= i < |xs| ensures SameShape(xs[i], ys[i]) {
      var n, s, t := |c.m.namespaces|, |c.m.sequenceables|, |c.m.interfaces|;
      if i < n {
        NamespaceShape(c, d, c.m.namespaces[i]);
      } else if i < n + s {
        SequenceableShape(c, d, c.m.sequenceables[i - n]);
      } else if i < n + s + t {
        InterfaceShape(c, d, c.m.interfaces[i - n - s]);
      } else {
        TypeShape(c, d, c.m.types[i - n - s - t].node);
      }
    }
  }

  lemma SequenceableShape(c: Context, d: Context, x: SequenceableDecl)
    ensures SameShape(SequenceableBlock(c, x), SequenceableBlock(d, x))
  {
  }

  // ----- the two passes -----

  lemma PoolSizeOf(m: Module, at: nat)
    ensures Layout(m, at).poolSize == |PoolText(AddAll([], ModuleStrings(m)))|
    ensures |Layout(m, at).Kids()| == |m.namespaces| + |m.sequenceables| + |m.interfaces| + |m.types|
    ensures Layout(m, at).KidsStart(at) == at + 80 + 8 * |Layout(m, at).Kids()| + Layout(m, at).poolSize
  {
    hide AddAll, ModuleStrings, PoolText, MetadataSize, NamespaceBlocks, InterfaceBlock, TypeBlock, SequenceableBlock;
  }

  // The first pass, as a measure of the records the second pass writes.
  lemma FirstPass(m: Module, at: nat)
    ensures var r := Layout(m, at); MetadataSize(m) == Align8(KidsEnd(80 + 8 * |r.Kids()|, r.Kids())) + r.poolSize
  {
    hide *;
    var order := AddAll([], ModuleStrings(m));
    var c, d, size := ContextOf(m, order, at), ContextOf(m, order, 0), MetadataSize(m);
    LayoutIs(m, at);
    LayoutIs(m, 0);
    ContextIs(m);
    PoolSizeOf(m, at);
    MeasuredIs(d, size);
    ShapesAgree(c, d, size);
    SameKidsEnd(80 + 8 * |ComponentOf(c, size).Kids()|, ComponentOf(c, size).Kids(), ComponentOf(d, size).Kids());
  }

  // The pool in front of the records is padded, behind them it is not.
  lemma RecordsBehindPool(at: nat, head: nat, pool: nat, kids: seq<Block>)
    requires Aligned(at) && Aligned(head) && kids != [] && forall k :: k in kids ==> WellSized(k)
    ensures KidsEnd(at + head + pool, kids) == at + Align8(pool) + KidsEnd(head, kids)
    ensures Align8(KidsEnd(head, kids)) == KidsEnd(head, kids)
  {
    hide KidsEnd, WellSized;
    AlignFacts(pool);
    SumAligned(at, Align8(pool));
    SumAligned(at, head);
    AlignShift(pool, at + head);
    StartAligned(at + head + pool, kids);
    KidsEndShift(head, at + Align8(pool), kids);
    KidsEndAligned(head, kids);
    AlignFacts(KidsEnd(head, kids));
  }

  lemma SumAligned(v: nat, w: nat)
    requires Aligned(v) && Aligned(w)
    ensures Aligned(v + w)
  {
  }

  lemma HeadAligned(n: nat)
    ensures Aligned(80 + 8 * n)
  {
  }

  // The second pass runs past what the first one measured by the padding of the
  // string pool: never, exactly when the pool's size is a multiple of 8.
  lemma TwoPasses(m: Module, at: nat)
    requires m.types != [] && Aligned(at)
    ensures var r := Layout(m, at);
            && r.ComponentEnd(at) - at == MetadataSize(m) + (Align8(r.poolSize) - r.poolSize)
            && 0 <= r.ComponentEnd(at) - at - MetadataSize(m) <= 7
            && (r.ComponentEnd(at) - at == MetadataSize(m) <==> Aligned(r.poolSize))
  {
    hide *;
    var r := Layout(m, at);
    PoolSizeOf(m, at);
    LayoutIs(m, at);
    SizedIs(r);
    FirstPass(m, at);
    HeadAligned(|r.Kids()|);
    RecordsBehindPool(at, 80 + 8 * |r.Kids()|, r.poolSize, r.Kids());
    EndIs(r, at);
    AlignFacts(r.poolSize);
  }

  lemma EndIs(r: Component, at: nat)
    ensures r.ComponentEnd(at) == KidsEnd(r.KidsStart(at), r.Kids())
    ensures r.PoolBase(at) == at + 80 + 8 * |r.Kids()| && r.KidsStart(at) == r.PoolBase(at) + r.poolSize
  {
  }

  // The header, the tables, the pool, and every record header, index array and
  // pointer table of the records.
  function ComponentRegions(r: Component, at: nat): seq<Region> {
    [Region(at, 80), Region(r.Table(at), 8 * |r.Kids()|), Region(r.PoolBase(at), r.poolSize)]
    + KidsRegions(r.KidsStart(at), r.Kids())
  }

  // Everything the second pass places starts at a multiple of 8 and ends before
  // the next thing starts.
  lemma PlacedApart(m: Module, at: nat)
    requires Aligned(at)
    ensures Chained(ComponentRegions(Layout(m, at), at), at, Layout(m, at).ComponentEnd(at))
  {
    hide *;
    var r := Layout(m, at);
    LayoutIs(m, at);
    SizedIs(r);
    EndIs(r, at);
    RegionsAre(r, at);
    var head := [Region(at, 80), Region(at + 80, 8 * |r.Kids()|), Region(at + 80 + 8 * |r.Kids()|, r.poolSize)];
    HeadChained(at, |r.Kids()|, r.poolSize);
    KidsRegionsChained(r.KidsStart(at), r.Kids());
    ChainJoins(head, KidsRegions(r.KidsStart(at), r.Kids()), at, r.KidsStart(at), r.ComponentEnd(at));
  }

  lemma RegionsAre(r: Component, at: nat)
    ensures ComponentRegions(r, at)
            == [Region(at, 80), Region(at + 80, 8 * |r.Kids()|), Region(at + 80 + 8 * |r.Kids()|, r.poolSize)]
               + KidsRegions(r.KidsStart(at), r.Kids())
  {
  }

  lemma HeadChained(at: nat, n: nat, pool: nat)
    requires Aligned(at)
    ensures Chained([Region(at, 80), Region(at + 80, 8 * n), Region(at + 80 + 8 * n, pool)], at, at + 80 + 8 * n + pool)
  {
  }

  // ----- strings -----

  // Every non-empty string the second pass looks up was pooled by the first and
  // reads back intact from the address it is given.
  lemma StringsReadBack(m: Module, at: nat, mem: Memory, s: string)
    requires NulFree(ModuleStrings(m)) && s in ModuleStrings(m) && s != ""
    requires PoolHolds(mem, Layout(m, at).PoolBase(at), PoolText(AddAll([], ModuleStrings(m))))
    ensures var order := AddAll([], ModuleStrings(m)); var a := ContextOf(m, order, at).Str(Text(s));
            && s in order && a == Layout(m, at).PoolBase(at) + OffsetOf(order, s)
            && (forall i :: 0 <= i < |s| ==> Read(mem, a + i) == s[i] as int)
            && Read(mem, a + |s|) == 0
  {
    hide *;
    var order := AddAll([], ModuleStrings(m));
    AddAllHasAll([], ModuleStrings(m));
    LayoutIs(m, at);
    StrIs(ContextOf(m, order, at), s);
    TextReadsBack(order, s, mem, Layout(m, at).PoolBase(at));
  }

  lemma StrIs(c: Context, s: string)
    requires s in c.order
    ensures c.Str(Text(s)) == c.poolBase + OffsetOf(c.order, s)
  {
    hide OffsetOf;
  }

  lemma TextReadsBack(order: seq<string>, s: string, mem: Memory, start: nat)
    requires s in order && PoolHolds(mem, start, PoolText(order))
    ensures forall i :: 0 <= i < |s| ==> Read(mem, start + OffsetOf(order, s) + i) == s[i] as int
    ensures Read(mem, start + OffsetOf(order, s) + |s|) == 0
  {
    hide PoolText, Read;
    var p := Position(order, s);
    var off := OffsetAt(order, p);
    RangeOf(order, p);
    var text := PoolText(order);
    var here := text[off..off + |s| + 1];
    assert here == s + ['\0'];
    forall i | 0 <= i < |s| ensures Read(mem, start + off + i) == s[i] as int {
      assert text[off + i] == here[i] == s[i];
      assert Read(mem, start + (off + i)) == text[off + i] as int;
    }
    assert text[off + |s|] == here[|s|] == '\0';
    assert Read(mem, start + (off + |s|)) == text[off + |s|] as int;
  }

  // A block that was built at `base`, serialized there, copied over all that the
  // second pass laid out, and deserialized at any other 8-aligned address.
  method BuildAndMove(b: Builder, base: nat, to: nat) returns (moved: Memory)
    requires b.pool.Valid() && b.pool.order == [] && b.pool.stringOffsets == map[] && b.mem == map[]
    requires NulFree(ModuleStrings(b.m)) && b.m.IsValid() && Aligned(base) && Aligned(to)
    requires Layout(b.m, base).ComponentEnd(base) < WORD && to + Layout(b.m, base).ComponentEnd(base) < WORD + base
    modifies b, b.pool, b.pool.data
    ensures Layout(b.m, base).ComponentHolds(b.mem, base, 0)
    ensures PoolHolds(b.mem, Layout(b.m, base).PoolBase(base), PoolText(AddAll([], ModuleStrings(b.m))))
    ensures Relocated(Layout(b.m, base), b.mem, base, moved, to)
  {
    hide *;
    EndBehind(b.m, base);
    var built := b.Build(base);
    moved := Relocate(b.mem, base, to, b.baseAddr - base, Layout(b.m, base));
  }

  lemma EndBehind(m: Module, at: nat)
    ensures at <= Layout(m, at).ComponentEnd(at)
  {
    hide *;
    LayoutIs(m, at);
    SizedIs(Layout(m, at));
    EndIs(Layout(m, at), at);
    KidsEndGrows(Layout(m, at).KidsStart(at), Layout(m, at).Kids());
  }
}
