/** The metadata builder: one pass over the syntax tree adds up the size of the
    block and fills the string pool, a second pass lays the records out. */
module MetadataBuilder {
  import opened IdlAst
  import opened IdlTypes
  import opened Signatures
  import opened StringPools
  import opened MetadataBlocks
  import opened MetadataSerializer

  // ----- the strings of a syntax tree, in the order the first pass meets them -----

  function Flat(parts: seq<seq<string>>): seq<string> {
    if parts == [] then [] else Flat(parts[..|parts| - 1]) + parts[|parts| - 1]
  }

  function MethodText(x: Method): string {
    MethodSignature(TypeOf(x.ret), seq(|x.params|, i requires 0 <= i < |x.params| => TypeOf(x.params[i].typ)))
  }

  function ParamParts(ps: seq<Param>): seq<seq<string>> {
    seq(|ps|, i requires 0 <= i < |ps| => [ps[i].name])
  }

  function MethodStrings(x: Method): seq<string> {
    [x.name, MethodText(x)] + Flat(ParamParts(x.params))
  }

  function MethodParts(xs: seq<Method>): seq<seq<string>> {
    seq(|xs|, i requires 0 <= i < |xs| => MethodStrings(xs[i]))
  }

  function Chars(t: Text): string {
    if t.Null? then "" else t.chars
  }

  function InterfaceStrings(x: InterfaceDecl): seq<string> {
    [Chars(x.license), x.name, x.nspace] + Flat(MethodParts(x.methods))
  }

  function InterfaceParts(xs: seq<InterfaceDecl>): seq<seq<string>> {
    seq(|xs|, i requires 0 <= i < |xs| => InterfaceStrings(xs[i]))
  }

  function SequenceableStrings(x: SequenceableDecl): seq<string> {
    [x.name, x.nspace]
  }

  function SequenceableParts(xs: seq<SequenceableDecl>): seq<seq<string>> {
    seq(|xs|, i requires 0 <= i < |xs| => SequenceableStrings(xs[i]))
  }

  function NamespaceStrings(x: Namespace): seq<string>
    decreases x
  {
    [x.name] + Flat(NamespaceParts(x.inner))
  }

  function NamespaceParts(xs: seq<Namespace>): (r: seq<seq<string>>)
    ensures |r| == |xs|
    ensures forall i :: 0 <= i < |xs| ==> r[i] == NamespaceStrings(xs[i])
    decreases xs
  {
    seq(|xs|, i requires 0 <= i < |xs| => NamespaceStrings(xs[i]))
  }

  function ModuleStrings(m: Module): seq<string> {
    [m.name] + Flat(NamespaceParts(m.namespaces)) + Flat(SequenceableParts(m.sequenceables))
    + Flat(InterfaceParts(m.interfaces))
  }

  // The pool's strings after one more Add, and after a list of them.
  function AddOne(order: seq<string>, s: string): seq<string> {
    if s == "" || s in order then order else order + [s]
  }

  function AddAll(order: seq<string>, ss: seq<string>): seq<string> {
    if ss == [] then order else AddOne(AddAll(order, ss[..|ss| - 1]), ss[|ss| - 1])
  }

  lemma {:induction false} AddAllJoins(order: seq<string>, a: seq<string>, b: seq<string>)
    ensures AddAll(order, a + b) == AddAll(AddAll(order, a), b)
    decreases |b|
  {
    if b == [] {
      assert a + b == a;
    } else {
      AddAllJoins(order, a, b[..|b| - 1]);
      assert (a + b)[..|a + b| - 1] == a + b[..|b| - 1];
    }
  }

  lemma {:induction false} AddAllHasAll(order: seq<string>, ss: seq<string>)
    ensures forall s :: s in ss && s != "" ==> s in AddAll(order, ss)
    ensures order <= AddAll(order, ss)
    decreases |ss|
  {
    if ss != [] {
      AddAllHasAll(order, ss[..|ss| - 1]);
      assert ss == ss[..|ss| - 1] + [ss[|ss| - 1]];
    }
  }

  predicate NulFree(ss: seq<string>) {
    forall s :: s in ss ==> '\0' !in s
  }

  // ----- the blocks the second pass lays out -----

  // What records depend on besides the tree: the pool's strings and address.
  datatype Context = Context(m: Module, order: seq<string>, poolBase: nat)
  {
    function Str(t: Text): nat {
      match t
      case Null => 0
      case Text(s) => poolBase + (if s in order then OffsetOf(order, s) else 0)
    }

    function IndexOfType(n: Node): int {
      IndexIn(TypeIds(m.types), n.id)
    }

    function IndexOfSequenceable(id: nat): int {
      IndexIn(SequenceableIds(m.sequenceables), id)
    }

    function IndexOfInterface(id: nat): int {
      IndexIn(InterfaceIds(m.interfaces), id)
    }
  }

  function Attributes(p: Param): nat {
    (if p.isIn then 1 else 0) + (if p.isOut then 2 else 0)
  }

  function ParamBlock(c: Context, p: Param): Block {
    Block(MetaParameter, map[0 := c.Str(Text(p.name)), 8 := Attributes(p), 12 := c.IndexOfType(p.typ)], [], [])
  }

  function ParamBlocks(c: Context, ps: seq<Param>): seq<Block> {
    seq(|ps|, i requires 0 <= i < |ps| => ParamBlock(c, ps[i]))
  }

  function MethodBlock(c: Context, x: Method): Block {
    Block(MetaMethod,
          map[0 := c.Str(Text(x.name)), 8 := c.Str(Text(MethodText(x))), 16 := if x.oneway then 1 else 0,
              20 := c.IndexOfType(x.ret), 24 := |x.params|],
          [], ParamBlocks(c, x.params))
  }

  function MethodBlocks(c: Context, xs: seq<Method>): seq<Block> {
    seq(|xs|, i requires 0 <= i < |xs| => MethodBlock(c, xs[i]))
  }

  function InterfaceBlock(c: Context, x: InterfaceDecl): Block {
    Block(MetaInterface,
          map[0 := c.Str(x.license), 8 := c.Str(Text(x.name)), 16 := c.Str(Text(x.nspace)),
              24 := if x.oneway then 1 else 0, 28 := |x.methods|, 40 := if x.external then 1 else 0],
          [], MethodBlocks(c, x.methods))
  }

  function InterfaceBlocks(c: Context, xs: seq<InterfaceDecl>): seq<Block> {
    seq(|xs|, i requires 0 <= i < |xs| => InterfaceBlock(c, xs[i]))
  }

  function SequenceableBlock(c: Context, x: SequenceableDecl): Block {
    Block(MetaSequenceable, map[0 := c.Str(Text(x.name)), 8 := c.Str(Text(x.nspace))], [], [])
  }

  function SequenceableBlocks(c: Context, xs: seq<SequenceableDecl>): seq<Block> {
    seq(|xs|, i requires 0 <= i < |xs| => SequenceableBlock(c, xs[i]))
  }

  function SequenceableIndexes(c: Context, ids: seq<nat>): seq<int> {
    seq(|ids|, i requires 0 <= i < |ids| => c.IndexOfSequenceable(ids[i]))
  }

  function InterfaceIndexes(c: Context, ids: seq<nat>): seq<int> {
    seq(|ids|, i requires 0 <= i < |ids| => c.IndexOfInterface(ids[i]))
  }

  function NamespaceBlock(c: Context, x: Namespace): (r: Block)
    ensures r.kind.MetaNamespace?
    decreases x
  {
    Block(MetaNamespace,
          map[0 := c.Str(Text(x.name)), 8 := |x.sequenceables|, 12 := |x.interfaces|, 16 := |x.inner|],
          [IntArray(SequenceableIndexes(c, x.sequenceables), 4 * |x.sequenceables|),
           IntArray(InterfaceIndexes(c, x.interfaces), 4 * |x.interfaces|)],
          NamespaceBlocks(c, x.inner))
  }

  function NamespaceBlocks(c: Context, xs: seq<Namespace>): (r: seq<Block>)
    ensures |r| == |xs|
    ensures forall i :: 0 <= i < |xs| ==> r[i] == NamespaceBlock(c, xs[i])
    decreases xs
  {
    seq(|xs|, i requires 0 <= i < |xs| => NamespaceBlock(c, xs[i]))
  }

  function KindNumber(n: Node): nat {
    match n
    case PrimitiveNode(_, p) => (
      match p
      case Char => 1
      case Boolean => 2
      case Byte => 3
      case Short => 4
      case Integer => 5
      case Long => 6
      case Float => 7
      case Double => 8
      case String => 9
      case Void => 10)
    case SequenceableNode(_, _, _) => 11
    case InterfaceNode(_, _, _) => 12
    case ListNode(_, _) => 13
    case MapNode(_, _, _) => 14
    case ArrayNode(_, _) => 15
  }

  // A declared type points into its own table, any other type at itself.
  function TypeIndex(c: Context, n: Node): int {
    match n
    case SequenceableNode(id, _, _) => c.IndexOfSequenceable(id)
    case InterfaceNode(id, _, _) => c.IndexOfInterface(id)
    case _ => c.IndexOfType(n)
  }

  function NestedIndexes(c: Context, n: Node): seq<int> {
    seq(|Nested(n)|, i requires 0 <= i < |Nested(n)| => c.IndexOfType(Nested(n)[i]))
  }

  // One pointer-sized word is reserved per nested index, though an index takes 4 bytes.
  function TypeBlock(c: Context, n: Node): Block {
    var head := map[0 := KindNumber(n), 4 := TypeIndex(c, n), 8 := |Nested(n)|];
    if Nested(n) == [] then Block(MetaType, head[16 := 0], [], [])
    else Block(MetaType, head, [IntArray(NestedIndexes(c, n), 8 * |Nested(n)|)], [])
  }

  function TypeBlocks(c: Context, ts: seq<TypeEntry>): seq<Block> {
    seq(|ts|, i requires 0 <= i < |ts| => TypeBlock(c, ts[i].node))
  }

  const METADATA_MAGIC_NUMBER := 0x1DF02ED1

  function ComponentOf(c: Context, size: nat): Component {
    Component(
      map[0 := METADATA_MAGIC_NUMBER, 4 := size, 8 := c.Str(Text(c.m.name)), 16 := |c.m.namespaces|,
          20 := |c.m.sequenceables|, 24 := |c.m.interfaces|, 28 := |c.m.types|, 64 := |PoolText(c.order)|,
          72 := c.poolBase],
      NamespaceBlocks(c, c.m.namespaces), SequenceableBlocks(c, c.m.sequenceables),
      InterfaceBlocks(c, c.m.interfaces), TypeBlocks(c, c.m.types), |PoolText(c.order)|)
  }

  // ----- the blocks are well sized -----

  lemma ParamSized(c: Context, p: Param)
    ensures WellSized(ParamBlock(c, p))
  {
    hide Context.Str, Context.IndexOfType;
  }

  lemma MethodSized(c: Context, x: Method)
    ensures WellSized(MethodBlock(c, x))
  {
    hide Context.Str, Context.IndexOfType, MethodText;
    forall i | 0 <= i < |x.params| ensures WellSized(ParamBlocks(c, x.params)[i]) {
      ParamSized(c, x.params[i]);
    }
  }

  lemma InterfaceSized(c: Context, x: InterfaceDecl)
    ensures WellSized(InterfaceBlock(c, x))
  {
    hide Context.Str, Context.IndexOfType, MethodText;
    forall i | 0 <= i < |x.methods| ensures WellSized(MethodBlocks(c, x.methods)[i]) {
      MethodSized(c, x.methods[i]);
    }
  }

  lemma SequenceableSized(c: Context, x: SequenceableDecl)
    ensures WellSized(SequenceableBlock(c, x))
  {
    hide Context.Str;
  }

  lemma {:induction false} NamespaceSized(c: Context, x: Namespace)
    ensures WellSized(NamespaceBlock(c, x))
    decreases x
  {
    hide Context.Str, Context.IndexOfSequenceable, Context.IndexOfInterface;
    forall i | 0 <= i < |x.inner| ensures WellSized(NamespaceBlocks(c, x.inner)[i]) {
      NamespaceSized(c, x.inner[i]);
    }
  }

  lemma TypeSized(c: Context, n: Node)
    ensures WellSized(TypeBlock(c, n))
  {
    hide Context.Str, Context.IndexOfType, TypeIndex, KindNumber;
    assert (8 * |Nested(n)|) % 8 == 0;
  }

  lemma NamespacesSized(c: Context, xs: seq<Namespace>)
    ensures forall k :: k in NamespaceBlocks(c, xs) ==> WellSized(k) && k.kind.MetaNamespace?
  {
    hide WellSized, NamespaceBlock;
    forall i | 0 <= i < |xs| ensures WellSized(NamespaceBlocks(c, xs)[i]) {
      NamespaceSized(c, xs[i]);
    }
  }

  lemma SequenceablesSized(c: Context, xs: seq<SequenceableDecl>)
    ensures forall k :: k in SequenceableBlocks(c, xs) ==> WellSized(k) && k.kind.MetaSequenceable?
  {
    hide WellSized, Context.Str;
    forall i | 0 <= i < |xs| ensures WellSized(SequenceableBlocks(c, xs)[i]) {
      SequenceableSized(c, xs[i]);
    }
  }

  lemma InterfacesSized(c: Context, xs: seq<InterfaceDecl>)
    ensures forall k :: k in InterfaceBlocks(c, xs) ==> WellSized(k) && k.kind.MetaInterface?
  {
    hide WellSized, Context.Str, MethodBlocks;
    forall i | 0 <= i < |xs| ensures WellSized(InterfaceBlocks(c, xs)[i]) {
      InterfaceSized(c, xs[i]);
    }
  }

  lemma TypesSized(c: Context, ts: seq<TypeEntry>)
    ensures forall k :: k in TypeBlocks(c, ts) ==> WellSized(k) && k.kind.MetaType?
  {
    hide WellSized, TypeIndex, KindNumber, NestedIndexes;
    forall i | 0 <= i < |ts| ensures WellSized(TypeBlocks(c, ts)[i]) {
      TypeSized(c, ts[i].node);
    }
  }

  lemma AllSized(c: Context, size: nat)
    ensures ComponentOf(c, size).Sized()
  {
    hide WellSized, Context.Str, NamespaceBlocks, SequenceableBlocks, InterfaceBlocks, TypeBlocks, PoolText;
    NamespacesSized(c, c.m.namespaces);
    SequenceablesSized(c, c.m.sequenceables);
    InterfacesSized(c, c.m.interfaces);
    TypesSized(c, c.m.types);
    CountsAre(c);
  }

  lemma CountsAre(c: Context)
    ensures |NamespaceBlocks(c, c.m.namespaces)| == |c.m.namespaces|
    ensures |SequenceableBlocks(c, c.m.sequenceables)| == |c.m.sequenceables|
    ensures |InterfaceBlocks(c, c.m.interfaces)| == |c.m.interfaces|
    ensures |TypeBlocks(c, c.m.types)| == |c.m.types|
  {
  }

  // ----- the first pass -----

  lemma FlatNext(parts: seq<seq<string>>, i: nat)
    requires i < |parts|
    ensures Flat(parts[..i + 1]) == Flat(parts[..i]) + parts[i]
  {
    var upto := parts[..i + 1];
    assert upto[..|upto| - 1] == parts[..i];
  }

  lemma {:induction false} FlatHas(parts: seq<seq<string>>, i: nat)
    requires i < |parts|
    ensures forall s :: s in parts[i] ==> s in Flat(parts)
    decreases |parts|
  {
    if i < |parts| - 1 {
      FlatHas(parts[..|parts| - 1], i);
    }
  }

  // One more part of a list of strings is added to the pool.
  lemma Collected(order: seq<string>, own: seq<string>, parts: seq<seq<string>>, i: nat)
    requires i < |parts|
    ensures AddAll(order, own + Flat(parts[..i + 1])) == AddAll(AddAll(order, own + Flat(parts[..i])), parts[i])
    ensures NulFree(own + Flat(parts)) ==> NulFree(parts[i])
    ensures parts[..|parts|] == parts
  {
    FlatNext(parts, i);
    FlatHas(parts, i);
    AddAllJoins(order, own + Flat(parts[..i]), parts[i]);
    assert own + Flat(parts[..i + 1]) == own + Flat(parts[..i]) + parts[i];
  }

  lemma CollectNone(order: seq<string>, own: seq<string>, parts: seq<seq<string>>)
    ensures own + Flat(parts[..0]) == own && parts[..|parts|] == parts
    ensures NulFree(own + Flat(parts)) ==> NulFree(own)
  {
    NulFreeOf(own, Flat(parts));
  }

  lemma NulFreeOf(a: seq<string>, b: seq<string>)
    ensures NulFree(a + b) <==> NulFree(a) && NulFree(b)
  {
    assert forall s :: s in a || s in b <==> s in a + b;
  }

  lemma AddAllOne(order: seq<string>, s: string)
    ensures AddAll(order, [s]) == AddOne(order, s)
    ensures NulFree([s]) <==> '\0' !in s
  {
    assert [s][..0] == [];
    assert s in [s];
  }

  lemma ParamEnd(b: nat, c: Context, p: Param)
    ensures End(b, ParamBlock(c, p)) == Align8(b) + 16
  {
    hide Align8, Context.Str, Context.IndexOfType;
  }

  lemma KidBaseZero(kb: nat, kids: seq<Block>)
    ensures KidBase(kb, kids, 0) == kb && KidBase(kb, kids, |kids|) == KidsEnd(kb, kids)
  {
    assert kids[..0] == [] && kids[..|kids|] == kids;
  }

  lemma MethodLayout(b: nat, c: Context, x: Method)
    ensures var blk := MethodBlock(c, x); var kb := KidsBase(b, blk);
            && kb == Align8(Align8(b) + 40) + 8 * |x.params| && KidBase(kb, ParamBlocks(c, x.params), 0) == kb
            && KidBase(kb, ParamBlocks(c, x.params), |x.params|) == End(b, blk)
    ensures |ParamBlocks(c, x.params)| == |x.params|
    ensures forall i :: 0 <= i < |x.params| ==> ParamBlocks(c, x.params)[i] == ParamBlock(c, x.params[i])
  {
    hide Align8, Context.Str, Context.IndexOfType, ParamBlock, KidBase;
    KidBaseZero(KidsBase(b, MethodBlock(c, x)), ParamBlocks(c, x.params));
  }

  lemma MethodCollects(order: seq<string>, x: Method)
    requires NulFree(MethodStrings(x))
    ensures var own, parts := [x.name, MethodText(x)], ParamParts(x.params);
            && |parts| == |x.params| && (forall i :: 0 <= i < |parts| ==> parts[i] == [x.params[i].name])
            && parts[..|parts|] == parts
            && NulFree(own + Flat(parts)) && MethodStrings(x) == own + Flat(parts)
            && AddAll(order, own + Flat(parts[..0])) == AddOne(AddOne(order, x.name), MethodText(x))
    ensures '\0' !in x.name && '\0' !in MethodText(x)
  {
    hide MethodText, AddOne;
    var own, parts := [x.name, MethodText(x)], ParamParts(x.params);
    CollectNone(order, own, parts);
    AddAllOne(order, x.name);
    assert own[..1] == [x.name] && own[1] == MethodText(x);
    assert x.name in own && MethodText(x) in own;
  }

  lemma InterfaceLayout(b: nat, c: Context, x: InterfaceDecl)
    ensures var blk := InterfaceBlock(c, x); var kb := KidsBase(b, blk);
            && kb == Align8(Align8(b) + 48) + 8 * |x.methods| && KidBase(kb, MethodBlocks(c, x.methods), 0) == kb
            && KidBase(kb, MethodBlocks(c, x.methods), |x.methods|) == End(b, blk)
    ensures |MethodBlocks(c, x.methods)| == |x.methods|
    ensures forall i :: 0 <= i < |x.methods| ==> MethodBlocks(c, x.methods)[i] == MethodBlock(c, x.methods[i])
  {
    hide Align8, Context.Str, Context.IndexOfType, MethodBlock, KidBase;
    KidBaseZero(KidsBase(b, InterfaceBlock(c, x)), MethodBlocks(c, x.methods));
  }

  lemma InterfaceCollects(order: seq<string>, x: InterfaceDecl)
    requires NulFree(InterfaceStrings(x))
    ensures var own, parts := [Chars(x.license), x.name, x.nspace], MethodParts(x.methods);
            && |parts| == |x.methods| && (forall i :: 0 <= i < |parts| ==> parts[i] == MethodStrings(x.methods[i]))
            && parts[..|parts|] == parts
            && NulFree(own + Flat(parts)) && InterfaceStrings(x) == own + Flat(parts)
            && AddAll(order, own + Flat(parts[..0])) == AddOne(AddOne(AddOne(order, Chars(x.license)), x.name), x.nspace)
    ensures '\0' !in Chars(x.license) && '\0' !in x.name && '\0' !in x.nspace
  {
    hide AddOne, MethodStrings;
    var own, parts := [Chars(x.license), x.name, x.nspace], MethodParts(x.methods);
    CollectNone(order, own, parts);
    AddAllThree(order, Chars(x.license), x.name, x.nspace);
    assert own[0] in own && own[1] in own && own[2] in own;
  }

  lemma AddAllThree(order: seq<string>, s: string, t: string, u: string)
    ensures AddAll(order, [s, t, u]) == AddOne(AddOne(AddOne(order, s), t), u)
  {
    hide AddOne;
    AddAllOne(order, s);
    assert [s, t, u][..2] == [s, t] && [s, t][..1] == [s];
  }

  lemma SequenceableEnd(b: nat, c: Context, x: SequenceableDecl)
    ensures End(b, SequenceableBlock(c, x)) == Align8(b) + 16
  {
    hide Align8, Context.Str;
  }

  lemma SequenceableCollects(order: seq<string>, x: SequenceableDecl)
    ensures AddAll(order, SequenceableStrings(x)) == AddOne(AddOne(order, x.name), x.nspace)
    ensures NulFree(SequenceableStrings(x)) ==> '\0' !in x.name && '\0' !in x.nspace
  {
    hide AddOne;
    AddAllOne(order, x.name);
    var own := [x.name, x.nspace];
    assert own[..1] == [x.name];
    assert own[0] in own && own[1] in own;
  }

  lemma NamespaceLayout(b: nat, c: Context, x: Namespace)
    ensures var blk := NamespaceBlock(c, x); var kb := KidsBase(b, blk);
            && kb == Align8(Align8(Align8(Align8(b) + 48) + 4 * |x.sequenceables|) + 4 * |x.interfaces|) + 8 * |x.inner|
            && KidBase(kb, NamespaceBlocks(c, x.inner), 0) == kb
            && KidBase(kb, NamespaceBlocks(c, x.inner), |x.inner|) == End(b, blk)
  {
    hide Align8, Context.Str, SequenceableIndexes, InterfaceIndexes, KidBase;
    var blk := NamespaceBlock(c, x);
    assert IntArrayStart(b, blk, 1) == Align8(Align8(Align8(b) + 48) + 4 * |x.sequenceables|);
    KidBaseZero(KidsBase(b, NamespaceBlock(c, x)), NamespaceBlocks(c, x.inner));
  }

  lemma NamespaceCollects(order: seq<string>, x: Namespace)
    requires NulFree(NamespaceStrings(x))
    ensures var own, parts := [x.name], NamespaceParts(x.inner);
            && parts[..|parts|] == parts
            && NulFree(own + Flat(parts)) && NamespaceStrings(x) == own + Flat(parts)
            && AddAll(order, own + Flat(parts[..0])) == AddOne(order, x.name)
    ensures '\0' !in x.name
  {
    hide AddOne;
    CollectNone(order, [x.name], NamespaceParts(x.inner));
    AddAllOne(order, x.name);
  }

  // A type record and its nested indexes need no padding between them.
  lemma TypeEnd(b: nat, c: Context, n: Node)
    ensures Align8(Align8(b) + 24) == Align8(b) + 24
    ensures End(b, TypeBlock(c, n)) == Align8(b) + 24 + 8 * |Nested(n)|
    ensures n.ListNode? || n.ArrayNode? ==> |Nested(n)| == 1
    ensures n.MapNode? ==> |Nested(n)| == 2
    ensures !n.ListNode? && !n.ArrayNode? && !n.MapNode? ==> |Nested(n)| == 0
  {
    AlignFacts(b);
    hide Context.IndexOfType, KindNumber, TypeIndex;
  }

  lemma {:induction false} KidsEndJoins(kb: nat, a: seq<Block>, b: seq<Block>)
    ensures KidsEnd(kb, a + b) == KidsEnd(KidsEnd(kb, a), b)
    decreases |b|
  {
    if b == [] {
      assert a + b == a;
    } else {
      KidsEndJoins(kb, a, b[..|b| - 1]);
      assert (a + b)[..|a + b| - 1] == a + b[..|b| - 1];
    }
  }

  // What the first pass has measured, and which strings it has met, when it
  // comes to the k-th kind of record: the header and the four tables come first.
  function MeasuredBefore(c: Context, k: nat): nat {
    if k == 0 then 80 + 8 * |c.m.namespaces| + 8 * |c.m.sequenceables| + 8 * |c.m.interfaces| + 8 * |c.m.types|
    else if k == 1 then KidsEnd(MeasuredBefore(c, 0), NamespaceBlocks(c, c.m.namespaces))
    else if k == 2 then KidsEnd(MeasuredBefore(c, 1), SequenceableBlocks(c, c.m.sequenceables))
    else if k == 3 then KidsEnd(MeasuredBefore(c, 2), InterfaceBlocks(c, c.m.interfaces))
    else KidsEnd(MeasuredBefore(c, 3), TypeBlocks(c, c.m.types))
  }

  function StringsBefore(m: Module, k: nat): seq<string> {
    if k == 0 then [m.name]
    else if k == 1 then StringsBefore(m, 0) + Flat(NamespaceParts(m.namespaces))
    else if k == 2 then StringsBefore(m, 1) + Flat(SequenceableParts(m.sequenceables))
    else StringsBefore(m, 2) + Flat(InterfaceParts(m.interfaces))
  }

  lemma MeasuredStep(c: Context)
    ensures MeasuredBefore(c, 1) == KidsEnd(MeasuredBefore(c, 0), NamespaceBlocks(c, c.m.namespaces))
    ensures MeasuredBefore(c, 2) == KidsEnd(MeasuredBefore(c, 1), SequenceableBlocks(c, c.m.sequenceables))
    ensures MeasuredBefore(c, 3) == KidsEnd(MeasuredBefore(c, 2), InterfaceBlocks(c, c.m.interfaces))
    ensures MeasuredBefore(c, 4) == KidsEnd(MeasuredBefore(c, 3), TypeBlocks(c, c.m.types))
    ensures MeasuredBefore(c, 0)
            == 80 + 8 * |c.m.namespaces| + 8 * |c.m.sequenceables| + 8 * |c.m.interfaces| + 8 * |c.m.types|
  {
    hide KidsEnd, NamespaceBlocks, SequenceableBlocks, InterfaceBlocks, TypeBlocks;
  }

  // The first pass measures the records one after another behind the tables.
  lemma MeasuredIs(c: Context, size: nat)
    ensures var kids := ComponentOf(c, size).Kids();
            MeasuredBefore(c, 4) == KidsEnd(80 + 8 * |kids|, kids)
  {
    hide KidsEnd, NamespaceBlocks, SequenceableBlock, InterfaceBlock, TypeBlock, MeasuredBefore;
    MeasuredStep(c);
    KidsJoin(ComponentOf(c, size), MeasuredBefore(c, 0));
  }

  lemma KidsJoin(r: Component, first: nat)
    ensures KidsEnd(first, r.Kids()) == KidsEnd(KidsEnd(KidsEnd(KidsEnd(first, r.namespaces), r.sequenceables), r.interfaces), r.types)
  {
    KidsEndJoins(first, r.namespaces, r.sequenceables);
    KidsEndJoins(first, r.namespaces + r.sequenceables, r.interfaces);
    KidsEndJoins(first, r.namespaces + r.sequenceables + r.interfaces, r.types);
  }

  // The tables follow the header without padding.
  lemma TablesPacked(at: nat, n: nat, s: nat, i: nat)
    requires Aligned(at)
    ensures Align8(at) == at && Align8(at + 80) == at + 80
    ensures Align8(at + 80 + 8 * n) == at + 80 + 8 * n
    ensures Align8(at + 80 + 8 * n + 8 * s) == at + 80 + 8 * n + 8 * s
    ensures Align8(at + 80 + 8 * n + 8 * s + 8 * i) == at + 80 + 8 * n + 8 * s + 8 * i
  {
  }

  lemma ModuleCollects(order: seq<string>, m: Module)
    requires NulFree(ModuleStrings(m))
    ensures StringsBefore(m, 1) == StringsBefore(m, 0) + Flat(NamespaceParts(m.namespaces))
    ensures StringsBefore(m, 2) == StringsBefore(m, 1) + Flat(SequenceableParts(m.sequenceables))
    ensures StringsBefore(m, 3) == StringsBefore(m, 2) + Flat(InterfaceParts(m.interfaces)) == ModuleStrings(m)
    ensures NulFree(StringsBefore(m, 1)) && NulFree(StringsBefore(m, 2)) && NulFree(StringsBefore(m, 3))
    ensures '\0' !in m.name && AddAll(order, StringsBefore(m, 0)) == AddOne(order, m.name)
  {
    hide AddOne, Flat, NamespaceParts, InterfaceParts, SequenceableParts;
    NulFreeOf(StringsBefore(m, 0), Flat(NamespaceParts(m.namespaces)));
    NulFreeOf(StringsBefore(m, 1), Flat(SequenceableParts(m.sequenceables)));
    NulFreeOf(StringsBefore(m, 2), Flat(InterfaceParts(m.interfaces)));
    AddAllOne(order, m.name);
  }

  lemma ZeroAligned()
    ensures Aligned(0)
  {
  }

  lemma SequenceableBlocksAre(c: Context, xs: seq<SequenceableDecl>)
    ensures |SequenceableBlocks(c, xs)| == |xs| == |SequenceableParts(xs)|
    ensures forall i :: 0 <= i < |xs| ==>
              SequenceableBlocks(c, xs)[i] == SequenceableBlock(c, xs[i]) && SequenceableParts(xs)[i] == SequenceableStrings(xs[i])
  {
    hide SequenceableBlock;
  }

  lemma InterfaceBlocksAre(c: Context, xs: seq<InterfaceDecl>)
    ensures |InterfaceBlocks(c, xs)| == |xs| == |InterfaceParts(xs)|
    ensures forall i :: 0 <= i < |xs| ==>
              InterfaceBlocks(c, xs)[i] == InterfaceBlock(c, xs[i]) && InterfaceParts(xs)[i] == InterfaceStrings(xs[i])
  {
    hide InterfaceBlock;
  }

  lemma TypeBlocksAre(c: Context, ts: seq<TypeEntry>)
    ensures |TypeBlocks(c, ts)| == |ts|
    ensures forall i :: 0 <= i < |ts| ==> TypeBlocks(c, ts)[i] == TypeBlock(c, ts[i].node)
  {
    hide TypeBlock;
  }

  // ----- the second pass -----

  ghost predicate Below(m: Memory, m': Memory, b: int) {
    forall a :: a < b ==> Read(m', a) == Read(m, a)
  }

  ghost predicate Clear(m: Memory, lo: int) {
    forall a :: a >= lo ==> Read(m, a) == 0
  }

  // The record was written at b: it is there, nothing below it changed, and the
  // memory behind it is still clear.
  ghost predicate Written(m: Memory, m': Memory, b: nat, blk: Block) {
    Holds(m', b, blk, 0) && Below(m, m', b) && Clear(m', End(b, blk))
  }

  // The header and the index arrays of the record are written, its table is not.
  ghost predicate HeaderWritten(m: Memory, m': Memory, b: nat, blk: Block) {
    HeaderHolds(m', b, blk, 0) && Below(m, m', b) && Clear(m', KidsBase(b, blk))
  }

  // The first i inner records are written, with their table entries.
  ghost predicate Filling(m0: Memory, m: Memory, table: nat, kb: nat, kids: seq<Block>, i: nat) {
    && i <= |kids| && table + 8 * |kids| <= kb
    && (forall j :: 0 <= j < i ==> Read(m, table + 8 * j) == Align8(KidBase(kb, kids, j)))
    && KidsHold(m, kb, kids[..i], 0)
    && (forall a :: a < kb && !(table <= a < table + 8 * |kids|) ==> Read(m, a) == Read(m0, a))
    && Clear(m, KidBase(kb, kids, i))
  }

  lemma FillStart(m: Memory, table: nat, kb: nat, kids: seq<Block>)
    requires table + 8 * |kids| <= kb && Clear(m, kb)
    ensures Filling(m, m, table, kb, kids, 0)
  {
    hide Align8;
    KidBaseZero(kb, kids);
    assert kids[..0] == [];
  }

  lemma KidsHoldNext(m: Memory, kb: nat, kids: seq<Block>, i: nat, d: int)
    requires i < |kids| && KidsHold(m, kb, kids[..i], d) && Holds(m, KidBase(kb, kids, i), kids[i], d)
    ensures KidsHold(m, kb, kids[..i + 1], d)
  {
    hide Holds, KidsEnd;
    var upto := kids[..i + 1];
    assert upto[..|upto| - 1] == kids[..i] && upto[i] == kids[i];
  }

  // Writing a table entry touches neither the records before nor the new one.
  lemma EntryApart(m: Memory, m1: Memory, m2: Memory, entry: int, v: int, kb: nat, at: nat, end: nat)
    requires entry < kb <= at <= end && Below(m, m1, at) && Clear(m1, end) && m2 == m1[entry := v]
    ensures SameCells(m, m2, kb, at) && SameCells(m1, m2, at, end) && Clear(m2, end)
  {
    assert forall a :: a != entry ==> Read(m2, a) == Read(m1, a);
  }

  lemma WrittenIs(m: Memory, m': Memory, b: nat, blk: Block)
    ensures Written(m, m', b, blk) <==> Holds(m', b, blk, 0) && Below(m, m', b) && Clear(m', End(b, blk))
  {
    hide Holds, Below, Clear, End;
  }

  lemma KidRange(kb: nat, kids: seq<Block>, i: nat)
    requires i < |kids| && forall k :: k in kids ==> WellSized(k)
    ensures kb <= KidBase(kb, kids, i) <= KidBase(kb, kids, i + 1) <= KidsEnd(kb, kids)
    ensures KidBase(kb, kids, i + 1) == End(KidBase(kb, kids, i), kids[i])
    ensures KidBase(kb, kids, i) == KidsEnd(kb, kids[..i])
    ensures WellSized(kids[i]) && forall k :: k in kids[..i] ==> WellSized(k)
  {
    hide KidsEnd, WellSized, End;
    KidBasesAscend(kb, kids, i, i + 1);
    NextKid(kb, kids, i);
    assert kids[i] in kids;
  }

  lemma FillHolds(m: Memory, m1: Memory, m2: Memory, table: nat, kb: nat, kids: seq<Block>, i: nat)
    requires i < |kids| && (forall k :: k in kids ==> WellSized(k)) && table + 8 * |kids| <= kb
    requires KidsHold(m, kb, kids[..i], 0) && Written(m, m1, KidBase(kb, kids, i), kids[i])
    requires m2 == m1[table + 8 * i := Align8(KidBase(kb, kids, i))]
    ensures KidsHold(m2, kb, kids[..i + 1], 0)
    ensures Clear(m2, KidBase(kb, kids, i + 1)) && kb <= KidBase(kb, kids, i)
  {
    hide *;
    var at := KidBase(kb, kids, i);
    KidRange(kb, kids, i);
    WrittenIs(m, m1, at, kids[i]);
    EntryApart(m, m1, m2, table + 8 * i, Align8(at), kb, at, End(at, kids[i]));
    KidsHoldFrame(m, m2, kb, kids[..i], 0);
    HoldsFrame(m1, m2, at, kids[i], 0);
    KidsHoldNext(m2, kb, kids, i, 0);
  }

  lemma FillStep(m0: Memory, m: Memory, m1: Memory, m2: Memory, table: nat, kb: nat, kids: seq<Block>, i: nat)
    requires Filling(m0, m, table, kb, kids, i) && i < |kids| && forall k :: k in kids ==> WellSized(k)
    requires Written(m, m1, KidBase(kb, kids, i), kids[i])
    requires m2 == m1[table + 8 * i := Align8(KidBase(kb, kids, i))]
    ensures Filling(m0, m2, table, kb, kids, i + 1)
  {
    hide Align8, End, WellSized, Holds, KidBase, Clear, KidsHold;
    FillHolds(m, m1, m2, table, kb, kids, i);
  }

  lemma HeaderKept(m: Memory, m': Memory, b: nat, blk: Block)
    requires WellSized(blk) && HasKids(blk.kind) && HeaderHolds(m, b, blk, 0)
    requires forall a :: b <= a < TableStart(b, blk) ==> Read(m', a) == Read(m, a)
    ensures HeaderHolds(m', b, blk, 0)
  {
    assert OwnSized(blk);
    ArraysAscend(b, blk);
    hide Align8, IntArrayStart, WellSized, KidsBase, TableStart;
    forall i | 0 <= i < |blk.ints| ensures IntsHold(m', IntArrayStart(b, blk, i), blk.ints[i].cells) {
      IntsFrame(m, m', b, TableStart(b, blk), IntArrayStart(b, blk, i), blk.ints[i].cells);
    }
  }

  lemma TableKept(m: Memory, table: nat, kb: nat, kids: seq<Block>)
    requires forall j :: 0 <= j < |kids| ==> Read(m, table + 8 * j) == Align8(KidBase(kb, kids, j))
    requires (forall k :: k in kids ==> WellSized(k)) && KidsEnd(kb, kids) < WORD
    ensures TableHolds(m, table, kb, kids, 0)
  {
    hide Align8, WellSized, KidsEnd, Wrap, KidBase;
    forall j | 0 <= j < |kids| ensures Read(m, table + 8 * j) == Wrap(Align8(KidBase(kb, kids, j)) + 0) {
      assert kids[j] in kids;
      ArraysAscend(KidBase(kb, kids, j), kids[j]);
      EndGrows(KidBase(kb, kids, j), kids[j]);
      NextKid(kb, kids, j);
      KidBasesAscend(kb, kids, j + 1, |kids|);
      WrapWrap(Align8(KidBase(kb, kids, j)), 0);
    }
  }

  // All inner records are written: so is the record.
  lemma FillDone(m0: Memory, m1: Memory, m: Memory, b: nat, blk: Block)
    requires WellSized(blk) && HasKids(blk.kind) && End(b, blk) < WORD
    requires HeaderWritten(m0, m1, b, blk)
    requires Filling(m1, m, TableStart(b, blk), KidsBase(b, blk), blk.kids, |blk.kids|)
    ensures Written(m0, m, b, blk)
  {
    hide Align8, IntArrayStart, WellSized, KidsBase, TableStart, KidsHold, HeaderHolds, TableHolds, KidBase;
    var kids, kb := blk.kids, KidsBase(b, blk);
    assert kids[..|kids|] == kids;
    KidBaseZero(kb, kids);
    ArraysAscend(b, blk);
    WellSizedKids(blk);
    TableKept(m, TableStart(b, blk), kb, kids);
    HeaderKept(m1, m, b, blk);
  }

  lemma WellSizedKids(blk: Block)
    requires WellSized(blk)
    ensures forall k :: k in blk.kids ==> WellSized(k)
  {
  }

  lemma NoKids(m0: Memory, m: Memory, b: nat, blk: Block)
    requires HeaderWritten(m0, m, b, blk) && !HasKids(blk.kind) && blk.kids == []
    ensures Written(m0, m, b, blk) && End(b, blk) == KidsBase(b, blk)
  {
    hide HeaderHolds, KidsBase, Read;
    assert KidsHold(m, KidsBase(b, blk), blk.kids, 0);
    assert Holds(m, b, blk, 0);
    assert KidsEnd(KidsBase(b, blk), blk.kids) == KidsBase(b, blk);
    assert End(b, blk) == KidsBase(b, blk);
  }

  // Every string address is a machine word.
  ghost predicate Fits(c: Context) {
    c.poolBase + |PoolText(c.order)| < WORD
  }

  lemma StrFits(c: Context, t: Text)
    requires Fits(c)
    ensures Wrap(c.Str(t) + 0) == c.Str(t)
  {
    hide Wrap;
    if t.Text? && t.chars in c.order {
      RangeOf(c.order, Position(c.order, t.chars));
    }
    WrapWrap(c.Str(t), 0);
  }

  function SetBit(flags: int, bit: int): int
    requires bit > 0
  {
    if (flags / bit) % 2 == 1 then flags else flags + bit
  }

  ghost predicate OnlyIn(m: Memory, m': Memory, lo: int, hi: int) {
    forall a :: !(lo <= a < hi) ==> Read(m', a) == Read(m, a)
  }

  lemma Untouched(m0: Memory, m: Memory, b: nat, lo: int, hi: int, end: nat)
    requires OnlyIn(m0, m, lo, hi) && Clear(m0, b) && b <= lo && hi <= end && b <= end
    ensures Below(m0, m, b) && Clear(m, end)
  {
    hide Read;
  }

  // The two flags of a parameter, set one after the other on a clear cell.
  lemma ParamFlags(m0: Memory, name: int, mp: nat, p: Param, m: Memory)
    requires Clear(m0, mp)
    requires var m1 := m0[mp := name];
             var m2 := if p.isIn then m1[mp + 8 := SetBit(Read(m1, mp + 8), 1)] else m1;
             m == if p.isOut then m2[mp + 8 := SetBit(Read(m2, mp + 8), 2)] else m2
    ensures Read(m, mp + 8) == Attributes(p) && Read(m, mp) == name && OnlyIn(m0, m, mp, mp + 16)
  {
    assert Read(m0, mp + 8) == 0;
  }

  lemma ParamHeader(m0: Memory, m: Memory, b: nat, c: Context, p: Param)
    requires Fits(c) && Clear(m0, b) && OnlyIn(m0, m, Align8(b), Align8(b) + 16)
    requires Read(m, Align8(b)) == c.Str(Text(p.name)) && Read(m, Align8(b) + 8) == Attributes(p)
    requires Read(m, Align8(b) + 12) == c.IndexOfType(p.typ)
    ensures Written(m0, m, b, ParamBlock(c, p)) && End(b, ParamBlock(c, p)) == Align8(b) + 16
  {
    StrFits(c, Text(p.name));
    hide Align8, Wrap, Context.Str, Context.IndexOfType, Attributes, Read, OnlyIn, Below, Clear;
    var blk := ParamBlock(c, p);
    ParamEnd(b, c, p);
    Untouched(m0, m, b, Align8(b), Align8(b) + 16, Align8(b) + 16);
    assert KidsBase(b, blk) == Align8(b) + 16;
    assert HeaderHolds(m, b, blk, 0);
    NoKids(m0, m, b, blk);
  }

  predicate MethodAt(m: Memory, at: nat, c: Context, x: Method) {
    && Read(m, at) == c.Str(Text(x.name)) && Read(m, at + 8) == c.Str(Text(MethodText(x)))
    && Read(m, at + 16) == (if x.oneway then 1 else 0) && Read(m, at + 20) == c.IndexOfType(x.ret)
    && Read(m, at + 24) == |x.params|
  }

  lemma MethodField(m: Memory, at: nat, c: Context, x: Method, o: nat)
    requires Fits(c) && MethodAt(m, at, c, x) && o in MethodBlock(c, x).fields
    ensures var f := MethodBlock(c, x).fields[o];
            Read(m, at + o) == if o in HeaderSlots(MetaMethod) then Wrap(f + 0) else f
  {
    StrFits(c, Text(x.name));
    StrFits(c, Text(MethodText(x)));
    hide Wrap, Context.Str, Context.IndexOfType, Read, ParamBlocks, Fits, MethodText;
    assert o in {0, 8, 16, 20, 24};
  }

  lemma TableAlone(m: Memory, b: nat, blk: Block)
    requires blk.ints == [] && HasKids(blk.kind)
    requires Read(m, Align8(b) + TableOffset(blk.kind)) == TableStart(b, blk) < WORD
    requires forall o :: o in blk.fields ==>
               Read(m, Align8(b) + o) == if o in HeaderSlots(blk.kind) then Wrap(blk.fields[o] + 0) else blk.fields[o]
    ensures HeaderHolds(m, b, blk, 0)
  {
    WrapWrap(TableStart(b, blk), 0);
    hide Align8, Wrap, Read, TableStart, HeaderSlots;
  }

  lemma MethodFields(m: Memory, b: nat, c: Context, x: Method)
    requires Fits(c) && MethodAt(m, Align8(b), c, x)
    requires Read(m, Align8(b) + 32) == Align8(Align8(b) + 40) < WORD
    ensures HeaderHolds(m, b, MethodBlock(c, x), 0)
  {
    hide *;
    var blk, at := MethodBlock(c, x), Align8(b);
    MethodIs(c, x);
    TableAt8(b, blk);
    forall o | o in blk.fields
      ensures Read(m, at + o) == if o in HeaderSlots(blk.kind) then Wrap(blk.fields[o] + 0) else blk.fields[o]
    {
      MethodField(m, at, c, x, o);
    }
    TableAlone(m, b, blk);
  }

  lemma TableAt8(b: nat, blk: Block)
    requires blk.ints == []
    ensures TableStart(b, blk) == Align8(Align8(b) + HeaderSize(blk.kind))
  {
    hide Align8, HeaderSize;
  }

  // The cells of a method header, written one after another.
  lemma MethodCells(m0: Memory, at: nat, c: Context, x: Method, name: int, signature: int, ret: int, table: int)
    requires name == c.Str(Text(x.name)) && signature == c.Str(Text(MethodText(x))) && ret == c.IndexOfType(x.ret)
    ensures var m := m0[at := name][at + 8 := signature][at + 16 := if x.oneway then 1 else 0][at + 20 := ret]
                       [at + 24 := |x.params|][at + 32 := table];
            MethodAt(m, at, c, x) && Read(m, at + 32) == table && OnlyIn(m0, m, at, at + 40)
  {
    hide Context.Str, Context.IndexOfType, MethodText;
  }

  predicate InterfaceAt(m: Memory, at: nat, c: Context, x: InterfaceDecl) {
    && Read(m, at) == c.Str(x.license) && Read(m, at + 8) == c.Str(Text(x.name))
    && Read(m, at + 16) == c.Str(Text(x.nspace)) && Read(m, at + 24) == (if x.oneway then 1 else 0)
    && Read(m, at + 28) == |x.methods| && Read(m, at + 40) == if x.external then 1 else 0
  }

  lemma InterfacePointers(m: Memory, at: nat, c: Context, x: InterfaceDecl)
    requires Fits(c) && InterfaceAt(m, at, c, x)
    ensures Read(m, at) == Wrap(c.Str(x.license) + 0) && Read(m, at + 8) == Wrap(c.Str(Text(x.name)) + 0)
    ensures Read(m, at + 16) == Wrap(c.Str(Text(x.nspace)) + 0)
  {
    StrFits(c, x.license);
    StrFits(c, Text(x.name));
    StrFits(c, Text(x.nspace));
  }

  lemma InterfaceField(m: Memory, at: nat, c: Context, x: InterfaceDecl, o: nat)
    requires Fits(c) && InterfaceAt(m, at, c, x) && o in InterfaceBlock(c, x).fields
    ensures var f := InterfaceBlock(c, x).fields[o];
            Read(m, at + o) == if o in HeaderSlots(MetaInterface) then Wrap(f + 0) else f
  {
    InterfacePointers(m, at, c, x);
    hide Wrap, Context.Str, Read, MethodBlocks, Fits;
    assert o in {0, 8, 16, 24, 28, 40};
  }

  lemma InterfaceFields(m: Memory, b: nat, c: Context, x: InterfaceDecl)
    requires Fits(c) && InterfaceAt(m, Align8(b), c, x)
    requires Read(m, Align8(b) + 32) == Align8(Align8(b) + 48) < WORD
    ensures HeaderHolds(m, b, InterfaceBlock(c, x), 0)
  {
    hide *;
    var blk, at := InterfaceBlock(c, x), Align8(b);
    InterfaceIs(c, x);
    TableAt8(b, blk);
    forall o | o in blk.fields
      ensures Read(m, at + o) == if o in HeaderSlots(blk.kind) then Wrap(blk.fields[o] + 0) else blk.fields[o]
    {
      InterfaceField(m, at, c, x, o);
    }
    TableAlone(m, b, blk);
  }

  lemma InterfaceCells(m0: Memory, at: nat, c: Context, x: InterfaceDecl, license: int, name: int, nspace: int, table: int)
    requires license == c.Str(x.license) && name == c.Str(Text(x.name)) && nspace == c.Str(Text(x.nspace))
    ensures var m := m0[at := license][at + 8 := name][at + 16 := nspace][at + 24 := if x.oneway then 1 else 0]
                       [at + 28 := |x.methods|][at + 40 := if x.external then 1 else 0][at + 32 := table];
            InterfaceAt(m, at, c, x) && Read(m, at + 32) == table && OnlyIn(m0, m, at, at + 48)
  {
    hide Context.Str;
  }

  lemma HeaderDone(m0: Memory, m: Memory, b: nat, blk: Block)
    requires HeaderHolds(m, b, blk, 0) && WellSized(blk) && Clear(m0, b)
    requires OnlyIn(m0, m, Align8(b), Align8(b) + HeaderSize(blk.kind))
    ensures HeaderWritten(m0, m, b, blk)
  {
    hide Align8, WellSized, HeaderSize, OnlyIn, Clear, Below, KidsBase, HeaderHolds;
    ArraysAscend(b, blk);
    Untouched(m0, m, b, Align8(b), Align8(b) + HeaderSize(blk.kind), KidsBase(b, blk));
  }

  lemma SequenceableHeader(m0: Memory, m: Memory, b: nat, c: Context, x: SequenceableDecl)
    requires Fits(c) && Clear(m0, b) && OnlyIn(m0, m, Align8(b), Align8(b) + 16)
    requires Read(m, Align8(b)) == c.Str(Text(x.name)) && Read(m, Align8(b) + 8) == c.Str(Text(x.nspace))
    ensures Written(m0, m, b, SequenceableBlock(c, x)) && End(b, SequenceableBlock(c, x)) == Align8(b) + 16
  {
    StrFits(c, Text(x.name));
    StrFits(c, Text(x.nspace));
    hide Align8, Wrap, Context.Str, Read, OnlyIn, Below, Clear;
    SequenceableEnd(b, c, x);
    Untouched(m0, m, b, Align8(b), Align8(b) + 16, Align8(b) + 16);
    assert KidsBase(b, SequenceableBlock(c, x)) == Align8(b) + 16;
    assert HeaderHolds(m, b, SequenceableBlock(c, x), 0);
    NoKids(m0, m, b, SequenceableBlock(c, x));
  }

  lemma TablePointer(m: Memory, b: nat, blk: Block)
    requires HeaderHolds(m, b, blk, 0) && WellSized(blk) && HasKids(blk.kind) && End(b, blk) < WORD
    ensures Read(m, Align8(b) + TableOffset(blk.kind)) == TableStart(b, blk)
    ensures TableStart(b, blk) + 8 * |blk.kids| == KidsBase(b, blk)
  {
    hide Align8, WellSized, IntArrayStart, Wrap;
    ArraysAscend(b, blk);
    EndGrows(b, blk);
    WrapWrap(TableStart(b, blk), 0);
  }

  // What the loop over the inner records starts from.
  lemma TableReady(m0: Memory, m: Memory, b: nat, blk: Block)
    requires HeaderWritten(m0, m, b, blk) && WellSized(blk) && HasKids(blk.kind) && End(b, blk) < WORD
    ensures Read(m, Align8(b) + TableOffset(blk.kind)) == TableStart(b, blk)
    ensures Filling(m, m, TableStart(b, blk), KidsBase(b, blk), blk.kids, 0)
    ensures KidsEnd(KidsBase(b, blk), blk.kids) == End(b, blk)
    ensures KidBase(KidsBase(b, blk), blk.kids, 0) == KidsBase(b, blk)
    ensures KidBase(KidsBase(b, blk), blk.kids, |blk.kids|) == End(b, blk)
    ensures forall k :: k in blk.kids ==> WellSized(k)
  {
    hide Align8, WellSized, TableStart, KidsBase, HeaderHolds, Filling, KidsEnd, KidBase;
    TablePointer(m, b, blk);
    WellSizedKids(blk);
    KidBaseZero(KidsBase(b, blk), blk.kids);
    FillStart(m, TableStart(b, blk), KidsBase(b, blk), blk.kids);
  }

  lemma FillingClear(m0: Memory, m: Memory, table: nat, kb: nat, kids: seq<Block>, i: nat)
    requires Filling(m0, m, table, kb, kids, i)
    ensures i <= |kids| && Clear(m, KidBase(kb, kids, i))
  {
  }

  lemma MethodIs(c: Context, x: Method)
    ensures var blk := MethodBlock(c, x);
            && WellSized(blk) && HasKids(blk.kind) && TableOffset(blk.kind) == 32 && blk.kids == ParamBlocks(c, x.params)
            && HeaderSize(blk.kind) == 40 && blk.ints == [] && blk.kind == MetaMethod
  {
    MethodSized(c, x);
    hide WellSized, ParamBlocks;
  }

  lemma InterfaceIs(c: Context, x: InterfaceDecl)
    ensures var blk := InterfaceBlock(c, x);
            && WellSized(blk) && HasKids(blk.kind) && TableOffset(blk.kind) == 32 && blk.kids == MethodBlocks(c, x.methods)
            && HeaderSize(blk.kind) == 48 && blk.ints == [] && blk.kind == MetaInterface
  {
    InterfaceSized(c, x);
    hide WellSized, MethodBlocks;
  }

  lemma TableFits(b: nat, blk: Block)
    requires WellSized(blk) && HasKids(blk.kind) && blk.ints == [] && End(b, blk) < WORD
    ensures Align8(Align8(b) + HeaderSize(blk.kind)) == TableStart(b, blk) < WORD
  {
    hide Align8, WellSized, HeaderSize;
    EndGrows(b, blk);
  }

  lemma IndexIs(c: Context, n: Node)
    ensures c.IndexOfType(n) == IndexIn(TypeIds(c.m.types), n.id)
  {
  }

  // ----- namespaces -----

  lemma NamespaceArrays(b: nat, c: Context, x: Namespace)
    ensures var blk := NamespaceBlock(c, x);
            && WellSized(blk) && HasKids(blk.kind) && TableOffset(blk.kind) == 40 && HeaderSize(blk.kind) == 48
            && blk.kids == NamespaceBlocks(c, x.inner) && |blk.ints| == 2
            && blk.ints[0] == IntArray(SequenceableIndexes(c, x.sequenceables), 4 * |x.sequenceables|)
            && blk.ints[1] == IntArray(InterfaceIndexes(c, x.interfaces), 4 * |x.interfaces|)
            && |blk.ints[0].cells| == |x.sequenceables| && |blk.ints[1].cells| == |x.interfaces|
            && IntArrayStart(b, blk, 0) == Align8(Align8(b) + 48)
            && IntArrayStart(b, blk, 1) == Align8(IntArrayStart(b, blk, 0) + 4 * |x.sequenceables|)
            && TableStart(b, blk) == Align8(IntArrayStart(b, blk, 1) + 4 * |x.interfaces|)
            && KidsBase(b, blk) == TableStart(b, blk) + 8 * |x.inner|
  {
    NamespaceSized(c, x);
    hide Align8, WellSized, NamespaceBlocks;
  }

  predicate NamespaceAt(m: Memory, at: nat, c: Context, x: Namespace, s0: int, s1: int, table: int) {
    && Read(m, at) == c.Str(Text(x.name)) && Read(m, at + 8) == |x.sequenceables|
    && Read(m, at + 12) == |x.interfaces| && Read(m, at + 16) == |x.inner|
    && Read(m, at + 24) == s0 && Read(m, at + 32) == s1 && Read(m, at + 40) == table
  }

  lemma NamespaceCells(m0: Memory, at: nat, c: Context, x: Namespace, name: int, s0: int, s1: int, table: int)
    requires name == c.Str(Text(x.name))
    ensures var m := m0[at := name][at + 8 := |x.sequenceables|][at + 12 := |x.interfaces|][at + 16 := |x.inner|]
                       [at + 24 := s0][at + 32 := s1][at + 40 := table];
            NamespaceAt(m, at, c, x, s0, s1, table) && OnlyIn(m0, m, at, at + 48)
  {
    hide Context.Str;
  }

  lemma NamespaceField(m: Memory, at: nat, c: Context, x: Namespace, o: nat, s0: int, s1: int, table: int)
    requires Fits(c) && NamespaceAt(m, at, c, x, s0, s1, table) && o in NamespaceBlock(c, x).fields
    ensures var f := NamespaceBlock(c, x).fields[o];
            Read(m, at + o) == if o in HeaderSlots(MetaNamespace) then Wrap(f + 0) else f
  {
    StrFits(c, Text(x.name));
    hide Wrap, Context.Str, Read, NamespaceBlocks, Fits, SequenceableIndexes, InterfaceIndexes;
    assert o in {0, 8, 12, 16};
  }

  lemma NamespacePointers(m: Memory, at: nat, c: Context, x: Namespace, s0: int, s1: int, table: int)
    requires NamespaceAt(m, at, c, x, s0, s1, table) && 0 <= s0 <= s1 <= table < WORD
    ensures Read(m, at + 24) == Wrap(s0 + 0) && Read(m, at + 32) == Wrap(s1 + 0) && Read(m, at + 40) == Wrap(table + 0)
    ensures IntArrayOffset(MetaNamespace, 0) == 24 && IntArrayOffset(MetaNamespace, 1) == 32
  {
    WrapWrap(s0, 0);
    WrapWrap(s1, 0);
    WrapWrap(table, 0);
  }

  lemma NamespaceFields(m: Memory, b: nat, c: Context, x: Namespace)
    requires Fits(c)
    requires var blk := NamespaceBlock(c, x);
             && NamespaceAt(m, Align8(b), c, x, IntArrayStart(b, blk, 0), IntArrayStart(b, blk, 1), TableStart(b, blk))
             && TableStart(b, blk) < WORD
             && IntsHold(m, IntArrayStart(b, blk, 0), SequenceableIndexes(c, x.sequenceables))
             && IntsHold(m, IntArrayStart(b, blk, 1), InterfaceIndexes(c, x.interfaces))
    ensures HeaderHolds(m, b, NamespaceBlock(c, x), 0)
  {
    var blk, at := NamespaceBlock(c, x), Align8(b);
    hide Align8, Wrap, NamespaceAt, NamespaceBlock, Read, Fits, TableStart, HeaderSlots, IntArrayStart, IntsHold,
         SequenceableIndexes, InterfaceIndexes, IntArrayOffset, WellSized;
    NamespaceArrays(b, c, x);
    NamespacePointers(m, at, c, x, IntArrayStart(b, blk, 0), IntArrayStart(b, blk, 1), TableStart(b, blk));
    forall o | o in blk.fields
      ensures Read(m, at + o) == if o in HeaderSlots(blk.kind) then Wrap(blk.fields[o] + 0) else blk.fields[o]
    {
      NamespaceField(m, at, c, x, o, IntArrayStart(b, blk, 0), IntArrayStart(b, blk, 1), TableStart(b, blk));
    }
  }

  lemma IntsApart(m: Memory, m': Memory, lo: int, hi: int, start: int, cells: seq<int>)
    requires OnlyIn(m, m', lo, hi) && (start + 4 * |cells| <= lo || hi <= start) && IntsHold(m, start, cells)
    ensures IntsHold(m', start, cells)
  {
  }

  lemma NamespaceApart(m: Memory, m': Memory, lo: int, hi: int, at: nat, c: Context, x: Namespace, s0: int, s1: int, table: int)
    requires OnlyIn(m, m', lo, hi) && at + 48 <= lo && NamespaceAt(m, at, c, x, s0, s1, table)
    ensures NamespaceAt(m', at, c, x, s0, s1, table)
  {
    hide Context.Str, Read;
  }

  // The header cells, then the two index arrays.
  lemma NamespaceHeader(m0: Memory, m1: Memory, m2: Memory, m3: Memory, b: nat, c: Context, x: Namespace)
    requires Fits(c) && Clear(m0, b) && TableStart(b, NamespaceBlock(c, x)) < WORD
    requires var blk := NamespaceBlock(c, x); var s0, s1 := IntArrayStart(b, blk, 0), IntArrayStart(b, blk, 1);
             && NamespaceAt(m1, Align8(b), c, x, s0, s1, TableStart(b, blk)) && OnlyIn(m0, m1, Align8(b), Align8(b) + 48)
             && IntsHold(m2, s0, SequenceableIndexes(c, x.sequenceables)) && OnlyIn(m1, m2, s0, s0 + 4 * |x.sequenceables|)
             && IntsHold(m3, s1, InterfaceIndexes(c, x.interfaces)) && OnlyIn(m2, m3, s1, s1 + 4 * |x.interfaces|)
    ensures HeaderWritten(m0, m3, b, NamespaceBlock(c, x))
  {
    hide *;
    var blk := NamespaceBlock(c, x);
    NamespaceArrays(b, c, x);
    var at, s0, s1, table := Align8(b), IntArrayStart(b, blk, 0), IntArrayStart(b, blk, 1), TableStart(b, blk);
    NamespaceApart(m1, m2, s0, s0 + 4 * |x.sequenceables|, at, c, x, s0, s1, table);
    NamespaceApart(m2, m3, s1, s1 + 4 * |x.interfaces|, at, c, x, s0, s1, table);
    IntsApart(m2, m3, s1, s1 + 4 * |x.interfaces|, s0, SequenceableIndexes(c, x.sequenceables));
    NamespaceFields(m3, b, c, x);
    OnlyInJoins(m0, m1, m2, m3, b, at, at + 48, s0, s0 + 4 * |x.sequenceables|, s1, s1 + 4 * |x.interfaces|);
    HeaderDoneAt(m0, m3, b, blk, s1 + 4 * |x.interfaces|);
  }

  lemma OnlyInJoins(m0: Memory, m1: Memory, m2: Memory, m3: Memory, lo: int, a: int, b: int, c: int, d: int, e: int, f: int)
    requires OnlyIn(m0, m1, a, b) && OnlyIn(m1, m2, c, d) && OnlyIn(m2, m3, e, f)
    requires lo <= a && lo <= c && lo <= e && b <= f && d <= f
    ensures OnlyIn(m0, m3, lo, f)
  {
    hide Read;
  }

  lemma HeaderDoneAt(m0: Memory, m: Memory, b: nat, blk: Block, hi: nat)
    requires HeaderHolds(m, b, blk, 0) && Clear(m0, b) && OnlyIn(m0, m, b, hi) && b <= hi <= KidsBase(b, blk)
    ensures HeaderWritten(m0, m, b, blk)
  {
    hide OnlyIn, Clear, Below, KidsBase, HeaderHolds;
    Untouched(m0, m, b, b, hi, KidsBase(b, blk));
  }

  // ----- types -----

  lemma TypeIs(b: nat, c: Context, n: Node)
    ensures var blk := TypeBlock(c, n);
            && WellSized(blk) && blk.kind == MetaType && blk.kids == []
            && End(b, blk) == KidsBase(b, blk) == Align8(b) + 24 + 8 * |Nested(n)|
            && (Nested(n) == [] ==> blk.ints == [])
            && (Nested(n) != [] ==> blk.ints == [IntArray(NestedIndexes(c, n), 8 * |Nested(n)|)]
                                    && IntArrayStart(b, blk, 0) == Align8(b) + 24)
  {
    TypeSized(c, n);
    TypeEnd(b, c, n);
    hide Align8, WellSized, Context.IndexOfType, KindNumber, TypeIndex, NestedIndexes;
  }

  predicate TypeAt(m: Memory, at: nat, c: Context, n: Node) {
    && Read(m, at) == KindNumber(n) && Read(m, at + 4) == TypeIndex(c, n) && Read(m, at + 8) == |Nested(n)|
    && Read(m, at + 16) == if Nested(n) == [] then 0 else at + 24
  }

  lemma TypeHeader(m0: Memory, m: Memory, b: nat, c: Context, n: Node)
    requires Clear(m0, b) && Align8(b) + 24 < WORD && TypeAt(m, Align8(b), c, n)
    requires OnlyIn(m0, m, Align8(b), Align8(b) + 24 + 8 * |Nested(n)|)
    requires IntsHold(m, Align8(b) + 24, NestedIndexes(c, n))
    ensures Written(m0, m, b, TypeBlock(c, n))
  {
    var blk := TypeBlock(c, n);
    TypeIs(b, c, n);
    WrapWrap(0, 0);
    WrapWrap(Align8(b) + 24, 0);
    hide Align8, Wrap, Read, KindNumber, TypeIndex, NestedIndexes, OnlyIn, Clear, Below, WellSized, IntArrayStart, KidsBase,
         IntsHold, End;
    assert HeaderHolds(m, b, blk, 0);
    Untouched(m0, m, b, Align8(b), Align8(b) + 24 + 8 * |Nested(n)|, KidsBase(b, blk));
    NoKids(m0, m, b, blk);
  }

  // The tests Type2Kind makes, in its order.
  function Type2Kind(n: Node): int {
    if n == PrimitiveNode(n.id, Char) then 1
    else if n == PrimitiveNode(n.id, Boolean) then 2
    else if n == PrimitiveNode(n.id, Byte) then 3
    else if n == PrimitiveNode(n.id, Short) then 4
    else if n == PrimitiveNode(n.id, Integer) then 5
    else if n == PrimitiveNode(n.id, Long) then 6
    else if n == PrimitiveNode(n.id, Float) then 7
    else if n == PrimitiveNode(n.id, Double) then 8
    else if n == PrimitiveNode(n.id, String) then 9
    else if n == PrimitiveNode(n.id, Void) then 10
    else if n.SequenceableNode? then 11
    else if n.InterfaceNode? then 12
    else if n.ListNode? then 13
    else if n.MapNode? then 14
    else if n.ArrayNode? then 15
    else 0
  }

  lemma Type2KindIs(n: Node)
    ensures Type2Kind(n) == KindNumber(n)
  {
  }

  predicate SameKind(a: Node, b: Node) {
    match a
    case PrimitiveNode(_, p) => b.PrimitiveNode? && b.prim == p
    case SequenceableNode(_, _, _) => b.SequenceableNode?
    case InterfaceNode(_, _, _) => b.InterfaceNode?
    case ListNode(_, _) => b.ListNode?
    case MapNode(_, _, _) => b.MapNode?
    case ArrayNode(_, _) => b.ArrayNode?
  }

  // The number in a record tells which of the kinds the type is, and for a
  // primitive which primitive; no type is of an unknown kind.
  lemma KindTells(a: Node, b: Node)
    ensures (Type2Kind(a) == Type2Kind(b) <==> SameKind(a, b)) && Type2Kind(a) != 0
  {
    Type2KindIs(a);
    Type2KindIs(b);
  }

  lemma TypeIndexIs(c: Context, n: Node)
    ensures TypeIndex(c, n) == if n.SequenceableNode? then IndexIn(SequenceableIds(c.m.sequenceables), n.id)
                               else if n.InterfaceNode? then IndexIn(InterfaceIds(c.m.interfaces), n.id)
                               else IndexIn(TypeIds(c.m.types), n.id)
  {
    hide IndexIn;
  }

  lemma NestedAre(c: Context, n: Node)
    ensures n.ListNode? || n.ArrayNode? ==> c.IndexOfType(n.element) == IndexIn(TypeIds(c.m.types), n.element.id)
    ensures n.MapNode? ==> c.IndexOfType(n.key) == IndexIn(TypeIds(c.m.types), n.key.id)
    ensures n.MapNode? ==> c.IndexOfType(n.value) == IndexIn(TypeIds(c.m.types), n.value.id)
    ensures !n.ListNode? && !n.ArrayNode? && !n.MapNode? ==> Nested(n) == []
  {
    hide IndexIn;
  }

  lemma NoneNested(m0: Memory, at: nat, b: nat, c: Context, n: Node, index: int)
    requires at == Align8(b) && Clear(m0, b) && Nested(n) == [] && index == TypeIndex(c, n)
    ensures var m := m0[at := KindNumber(n)][at + 4 := index];
            TypeAt(m, at, c, n) && OnlyIn(m0, m, at, at + 24 + 8 * |Nested(n)|)
            && IntsHold(m, at + 24, NestedIndexes(c, n))
  {
    assert Read(m0, at + 8) == 0 && Read(m0, at + 16) == 0;
    hide Align8, TypeIndex, KindNumber, Nested;
  }

  lemma OneNested(m0: Memory, at: nat, b: nat, c: Context, n: Node, index: int, element: int)
    requires at == Align8(b) && Clear(m0, b) && (n.ListNode? || n.ArrayNode?) && index == TypeIndex(c, n)
    requires element == c.IndexOfType(n.element)
    ensures var m := m0[at := KindNumber(n)][at + 4 := index][at + 8 := 1][at + 16 := at + 24][at + 24 := element];
            TypeAt(m, at, c, n) && OnlyIn(m0, m, at, at + 24 + 8 * |Nested(n)|)
            && IntsHold(m, at + 24, NestedIndexes(c, n))
  {
    hide Align8, TypeIndex, KindNumber, Context.IndexOfType;
  }

  lemma TwoNested(m0: Memory, at: nat, b: nat, c: Context, n: Node, index: int, key: int, value: int)
    requires at == Align8(b) && Clear(m0, b) && n.MapNode? && index == TypeIndex(c, n)
    requires key == c.IndexOfType(n.key) && value == c.IndexOfType(n.value)
    ensures var m := m0[at := KindNumber(n)][at + 4 := index][at + 8 := 2][at + 16 := at + 24][at + 24 := key]
                       [at + 24 + 4 := value];
            TypeAt(m, at, c, n) && OnlyIn(m0, m, at, at + 24 + 8 * |Nested(n)|)
            && IntsHold(m, at + 24, NestedIndexes(c, n))
  {
    hide Align8, TypeIndex, KindNumber, Context.IndexOfType;
  }

  lemma ReadsArrays(m: Memory, at: nat, c: Context, x: Namespace, b: nat)
    requires var blk := NamespaceBlock(c, x);
             |blk.ints| == 2 && NamespaceAt(m, at, c, x, IntArrayStart(b, blk, 0), IntArrayStart(b, blk, 1), TableStart(b, blk))
    ensures Read(m, at + 24) == IntArrayStart(b, NamespaceBlock(c, x), 0)
  {
    hide Read, IntArrayStart, TableStart, NamespaceBlock, Context.Str;
  }

  // The first index array leaves the pointer to the second alone.
  lemma ReadsArray(m: Memory, m': Memory, at: nat, c: Context, x: Namespace, b: nat)
    requires var blk := NamespaceBlock(c, x);
             && |blk.ints| == 2 && at == Align8(b)
             && NamespaceAt(m, at, c, x, IntArrayStart(b, blk, 0), IntArrayStart(b, blk, 1), TableStart(b, blk))
             && OnlyIn(m, m', IntArrayStart(b, blk, 0), IntArrayStart(b, blk, 0) + 4 * |x.sequenceables|)
    ensures Read(m', at + 32) == IntArrayStart(b, NamespaceBlock(c, x), 1)
  {
    NamespaceArrays(b, c, x);
    hide Read, IntArrayStart, TableStart, NamespaceBlock, Context.Str, Align8;
  }

  // ----- the component -----

  ghost predicate PoolHolds(m: Memory, start: int, text: string) {
    forall i :: 0 <= i < |text| ==> Read(m, start + i) == text[i] as int
  }

  // The header but for the name.
  predicate HeadAt(m: Memory, at: nat, c: Context, size: int, t0: int, t1: int, t2: int, t3: int) {
    && Read(m, at) == METADATA_MAGIC_NUMBER && Read(m, at + 4) == size
    && Read(m, at + 16) == |c.m.namespaces| && Read(m, at + 20) == |c.m.sequenceables|
    && Read(m, at + 24) == |c.m.interfaces| && Read(m, at + 28) == |c.m.types|
    && Read(m, at + 32) == t0 && Read(m, at + 40) == t1 && Read(m, at + 48) == t2 && Read(m, at + 56) == t3
    && Read(m, at + 64) == |PoolText(c.order)| && Read(m, at + 72) == c.poolBase
  }

  // The four tables lie end to end between the header and the pool.
  lemma TablesAre(c: Context, size: nat, at: nat)
    ensures var r := ComponentOf(c, size);
            && |r.Kids()| == |c.m.namespaces| + |c.m.sequenceables| + |c.m.interfaces| + |c.m.types|
            && r.Table(at) == at + 80 && r.PoolBase(at) == at + 80 + 8 * |r.Kids()|
            && r.KidsStart(at) == r.PoolBase(at) + |PoolText(c.order)|
            && r.FirstOf(0) == 0 && r.FirstOf(1) == |c.m.namespaces|
            && r.FirstOf(2) == |c.m.namespaces| + |c.m.sequenceables|
            && r.FirstOf(3) == |c.m.namespaces| + |c.m.sequenceables| + |c.m.interfaces|
            && r.FirstOf(3) + |c.m.types| == |r.Kids()|
            && r.ComponentEnd(at) == KidsEnd(r.KidsStart(at), r.Kids())
  {
    hide NamespaceBlocks, SequenceableBlock, InterfaceBlock, TypeBlock, KidsEnd, PoolText;
  }

  lemma KidsAre(c: Context, size: nat)
    ensures var r := ComponentOf(c, size);
            && |r.Kids()| == |c.m.namespaces| + |c.m.sequenceables| + |c.m.interfaces| + |c.m.types|
            && (forall i :: 0 <= i < |c.m.namespaces| ==> r.Kids()[i] == NamespaceBlock(c, c.m.namespaces[i]))
            && (forall i :: 0 <= i < |c.m.sequenceables| ==>
                  r.Kids()[r.FirstOf(1) + i] == SequenceableBlock(c, c.m.sequenceables[i]))
            && (forall i :: 0 <= i < |c.m.interfaces| ==> r.Kids()[r.FirstOf(2) + i] == InterfaceBlock(c, c.m.interfaces[i]))
            && (forall i :: 0 <= i < |c.m.types| ==> r.Kids()[r.FirstOf(3) + i] == TypeBlock(c, c.m.types[i].node))
  {
    hide NamespaceBlock, SequenceableBlock, InterfaceBlock, TypeBlock, PoolText;
  }

  lemma FieldsOf(c: Context, size: nat)
    ensures var f := ComponentOf(c, size).fields;
            && f.Keys == {0, 4, 8, 16, 20, 24, 28, 64, 72}
            && f[0] == METADATA_MAGIC_NUMBER && f[4] == size && f[8] == c.Str(Text(c.m.name))
            && f[16] == |c.m.namespaces| && f[20] == |c.m.sequenceables| && f[24] == |c.m.interfaces|
            && f[28] == |c.m.types| && f[64] == |PoolText(c.order)| && f[72] == c.poolBase
  {
    hide Context.Str, PoolText;
  }

  lemma HeadFields(c: Context, size: nat, at: nat, m: Memory, t0: int, t1: int, t2: int, t3: int, o: nat)
    requires Fits(c) && HeadAt(m, at, c, size, t0, t1, t2, t3) && Read(m, at + 8) == c.Str(Text(c.m.name))
    requires o in ComponentOf(c, size).fields
    ensures var f := ComponentOf(c, size).fields[o];
            Read(m, at + o) == if o == 8 || o == 72 then Wrap(f + 0) else f
  {
    FieldsOf(c, size);
    StrFits(c, Text(c.m.name));
    WrapWrap(c.poolBase, 0);
    hide Wrap, Context.Str, Read, ComponentOf, Fits;
    assert o in ComponentOf(c, size).fields.Keys;
  }

  lemma HeadTables(c: Context, size: nat, at: nat, m: Memory, t0: int, t1: int, t2: int, t3: int)
    requires HeadAt(m, at, c, size, t0, t1, t2, t3) && 0 <= t0 <= t1 <= t2 <= t3 < WORD
    requires var r := ComponentOf(c, size);
             && t0 == r.Table(at) && t1 == r.Table(at) + 8 * r.FirstOf(1) && t2 == r.Table(at) + 8 * r.FirstOf(2)
             && t3 == r.Table(at) + 8 * r.FirstOf(3)
    ensures var r := ComponentOf(c, size);
            forall t :: 0 <= t < 4 ==> Read(m, at + 32 + 8 * t) == Wrap(r.Table(at) + 8 * r.FirstOf(t) + 0)
  {
    TablesAre(c, size, at);
    WrapWrap(t0, 0);
    WrapWrap(t1, 0);
    WrapWrap(t2, 0);
    WrapWrap(t3, 0);
    hide Wrap, Read, ComponentOf, Component.FirstOf;
    var r := ComponentOf(c, size);
    forall t | 0 <= t < 4 ensures Read(m, at + 32 + 8 * t) == Wrap(r.Table(at) + 8 * r.FirstOf(t) + 0) {
      if t == 0 {
      } else if t == 1 {
      } else if t == 2 {
      } else {
        assert t == 3;
      }
    }
  }

  // The header, the tables' cells and the pool, before any record is written.
  ghost predicate HeadWritten(m0: Memory, m: Memory, at: nat, c: Context, size: nat) {
    var r := ComponentOf(c, size);
    && r.HeadHolds(m, at, 0) && PoolHolds(m, c.poolBase, PoolText(c.order))
    && OnlyIn(m0, m, at, r.KidsStart(at))
  }

  lemma HeadCells(m0: Memory, at: nat, c: Context, size: int, t0: int, t1: int, t2: int, t3: int)
    ensures var m := m0[at := METADATA_MAGIC_NUMBER][at + 4 := size][at + 16 := |c.m.namespaces|]
                       [at + 20 := |c.m.sequenceables|][at + 24 := |c.m.interfaces|][at + 28 := |c.m.types|]
                       [at + 64 := |PoolText(c.order)|][at + 32 := t0][at + 40 := t1][at + 48 := t2][at + 56 := t3]
                       [at + 72 := c.poolBase];
            HeadAt(m, at, c, size, t0, t1, t2, t3) && OnlyIn(m0, m, at, at + 80)
  {
    hide PoolText;
  }

  // The pool is copied, then the name is written.
  lemma HeadDone(m0: Memory, m1: Memory, m2: Memory, m3: Memory, at: nat, c: Context, size: nat, t0: int, t1: int, t2: int,
                 t3: int)
    requires Fits(c) && HeadAt(m1, at, c, size, t0, t1, t2, t3) && OnlyIn(m0, m1, at, at + 80)
    requires at + 80 <= c.poolBase == ComponentOf(c, size).PoolBase(at)
    requires OnlyIn(m1, m2, c.poolBase, c.poolBase + |PoolText(c.order)|) && PoolHolds(m2, c.poolBase, PoolText(c.order))
    requires m3 == m2[at + 8 := c.Str(Text(c.m.name))]
    requires var r := ComponentOf(c, size);
             && t0 == r.Table(at) && t1 == r.Table(at) + 8 * r.FirstOf(1) && t2 == r.Table(at) + 8 * r.FirstOf(2)
             && t3 == r.Table(at) + 8 * r.FirstOf(3)
    ensures HeadWritten(m0, m3, at, c, size)
  {
    hide *;
    var r := ComponentOf(c, size);
    TablesAre(c, size, at);
    HeadKept(m0, m1, m2, m3, at, c, size, t0, t1, t2, t3);
    FitsWord(c);
    HeadTables(c, size, at, m3, t0, t1, t2, t3);
    forall o | o in r.fields
      ensures Read(m3, at + o) == if o == 8 || o == 72 then Wrap(r.fields[o] + 0) else r.fields[o]
    {
      HeadFields(c, size, at, m3, t0, t1, t2, t3, o);
    }
    HeadIs(r, m3, at);
    HeadWrittenIs(m0, m3, at, c, size);
  }

  lemma FitsWord(c: Context)
    requires Fits(c)
    ensures c.poolBase + |PoolText(c.order)| < WORD
  {
  }

  lemma HeadKept(m0: Memory, m1: Memory, m2: Memory, m3: Memory, at: nat, c: Context, size: int, t0: int, t1: int, t2: int,
                 t3: int)
    requires HeadAt(m1, at, c, size, t0, t1, t2, t3) && OnlyIn(m0, m1, at, at + 80) && at + 80 <= c.poolBase
    requires OnlyIn(m1, m2, c.poolBase, c.poolBase + |PoolText(c.order)|) && PoolHolds(m2, c.poolBase, PoolText(c.order))
    requires m3 == m2[at + 8 := c.Str(Text(c.m.name))]
    ensures HeadAt(m3, at, c, size, t0, t1, t2, t3) && Read(m3, at + 8) == c.Str(Text(c.m.name))
    ensures PoolHolds(m3, c.poolBase, PoolText(c.order)) && OnlyIn(m0, m3, at, c.poolBase + |PoolText(c.order)|)
  {
    hide PoolText, Context.Str;
    assert forall a :: a != at + 8 ==> Read(m3, a) == Read(m2, a);
    assert Read(m3, at + 8) == c.Str(Text(c.m.name));
    hide Read;
  }

  lemma HeadIs(r: Component, m: Memory, at: nat)
    requires forall o :: o in r.fields ==> Read(m, at + o) == if o == 8 || o == 72 then Wrap(r.fields[o] + 0) else r.fields[o]
    requires forall t :: 0 <= t < 4 ==> Read(m, at + 32 + 8 * t) == Wrap(r.Table(at) + 8 * r.FirstOf(t) + 0)
    ensures r.HeadHolds(m, at, 0)
  {
    hide Wrap, Read, Component.Table, Component.FirstOf;
  }

  lemma HeadWrittenIs(m0: Memory, m: Memory, at: nat, c: Context, size: nat)
    ensures HeadWritten(m0, m, at, c, size) <==>
              && ComponentOf(c, size).HeadHolds(m, at, 0) && PoolHolds(m, c.poolBase, PoolText(c.order))
              && OnlyIn(m0, m, at, ComponentOf(c, size).KidsStart(at))
  {
    hide ComponentOf, Component.HeadHolds, PoolHolds, OnlyIn, Component.KidsStart;
  }

  // The first j records of a component are written.
  ghost predicate RecordsWritten(m1: Memory, m: Memory, at: nat, r: Component, j: nat, end: nat) {
    && Filling(m1, m, r.Table(at), r.KidsStart(at), r.Kids(), j)
    && end == KidBase(r.KidsStart(at), r.Kids(), j)
  }

  lemma RecordsStart(m0: Memory, m1: Memory, at: nat, c: Context, size: nat)
    requires HeadWritten(m0, m1, at, c, size) && Clear(m0, at)
    ensures var r := ComponentOf(c, size); RecordsWritten(m1, m1, at, r, 0, r.KidsStart(at))
  {
    hide *;
    var r := ComponentOf(c, size);
    TablesAre(c, size, at);
    HeadWrittenIs(m0, m1, at, c, size);
    Untouched(m0, m1, at, at, r.KidsStart(at), r.KidsStart(at));
    FillStart(m1, r.Table(at), r.KidsStart(at), r.Kids());
    KidBaseZero(r.KidsStart(at), r.Kids());
    RecordsAre(m1, m1, at, r, 0, r.KidsStart(at));
  }

  lemma RecordsAre(m1: Memory, m: Memory, at: nat, r: Component, j: nat, end: nat)
    ensures RecordsWritten(m1, m, at, r, j, end) <==>
              j <= |r.Kids()| && Filling(m1, m, r.Table(at), r.KidsStart(at), r.Kids(), j)
              && end == KidBase(r.KidsStart(at), r.Kids(), j)
    ensures RecordsWritten(m1, m, at, r, j, end) ==> Clear(m, end)
  {
    hide Component.Table, Component.KidsStart, Component.Kids, KidBase, KidsHold, Align8;
  }

  // What a loop over one table may assume at each record, and what it keeps.
  lemma RecordNext(m1: Memory, m: Memory, at: nat, c: Context, size: nat, j: nat, end: nat)
    requires var r := ComponentOf(c, size);
             RecordsWritten(m1, m, at, r, j, end) && j < |r.Kids()| && r.ComponentEnd(at) < WORD
    ensures var r := ComponentOf(c, size);
            && Clear(m, end) && end == KidBase(r.KidsStart(at), r.Kids(), j)
            && End(end, r.Kids()[j]) == KidBase(r.KidsStart(at), r.Kids(), j + 1) < WORD
            && forall k :: k in r.Kids() ==> WellSized(k)
  {
    hide *;
    var r := ComponentOf(c, size);
    AllSized(c, size);
    SizedIs(r);
    TablesAre(c, size, at);
    RecordsAre(m1, m, at, r, j, end);
    KidRange(r.KidsStart(at), r.Kids(), j);
  }

  lemma SizedIs(r: Component)
    requires r.Sized()
    ensures forall k :: k in r.Kids() ==> WellSized(k)
  {
    hide WellSized, Component.Kids;
  }

  lemma RecordStep(m1: Memory, m: Memory, m2: Memory, m3: Memory, at: nat, c: Context, size: nat, j: nat, end: nat)
    requires var r := ComponentOf(c, size);
             RecordsWritten(m1, m, at, r, j, end) && j < |r.Kids()| && r.ComponentEnd(at) < WORD
    requires var r := ComponentOf(c, size);
             Written(m, m2, end, r.Kids()[j]) && m3 == m2[r.Table(at) + 8 * j := Align8(end)]
    ensures RecordsWritten(m1, m3, at, ComponentOf(c, size), j + 1, End(end, ComponentOf(c, size).Kids()[j]))
  {
    hide *;
    var r := ComponentOf(c, size);
    RecordNext(m1, m, at, c, size, j, end);
    RecordsAre(m1, m, at, r, j, end);
    FillStep(m1, m, m2, m3, r.Table(at), r.KidsStart(at), r.Kids(), j);
    RecordsAre(m1, m3, at, r, j + 1, End(end, r.Kids()[j]));
  }

  // The records leave the header and the pool alone.
  lemma HeadStays(m0: Memory, m1: Memory, m: Memory, at: nat, c: Context, size: nat, j: nat, end: nat)
    requires HeadWritten(m0, m1, at, c, size) && c.poolBase == ComponentOf(c, size).PoolBase(at)
    requires RecordsWritten(m1, m, at, ComponentOf(c, size), j, end)
    ensures ComponentOf(c, size).HeadHolds(m, at, 0) && PoolHolds(m, c.poolBase, PoolText(c.order))
  {
    FieldsOf(c, size);
    TablesAre(c, size, at);
    AllSized(c, size);
    hide ComponentOf, PoolText, KidsHold, KidBase, Clear, Component.KidsStart, Component.Kids, Component.FirstOf, Wrap,
         Align8, Component.Sized, Read, Component.PoolBase;
    var r := ComponentOf(c, size);
    assert forall o :: o in r.fields ==> o in r.fields.Keys;
    assert forall a :: at <= a < at + 80 ==> Read(m, a) == Read(m1, a);
    assert forall a :: r.PoolBase(at) <= a < r.KidsStart(at) ==> Read(m, a) == Read(m1, a);
  }

  lemma TableCell(r: Component, m: Memory, at: nat, t: nat)
    requires r.HeadHolds(m, at, 0) && t < 4 && r.Table(at) + 8 * r.FirstOf(t) < WORD
    ensures Read(m, at + 32 + 8 * t) == r.Table(at) + 8 * r.FirstOf(t)
  {
    hide Component.Table, Component.FirstOf, Wrap;
    WrapWrap(r.Table(at) + 8 * r.FirstOf(t), 0);
  }

  lemma TablesInWord(c: Context, size: nat, at: nat)
    requires ComponentOf(c, size).ComponentEnd(at) < WORD
    ensures var r := ComponentOf(c, size);
            && r.PoolBase(at) <= r.ComponentEnd(at)
            && forall t: nat :: t < 4 ==> r.Table(at) + 8 * r.FirstOf(t) < WORD
  {
    hide *;
    var r := ComponentOf(c, size);
    TablesAre(c, size, at);
    AllSized(c, size);
    SizedIs(r);
    KidsEndGrows(r.KidsStart(at), r.Kids());
    forall t: nat | t < 4 ensures r.Table(at) + 8 * r.FirstOf(t) < WORD {
      assert t == 0 || t == 1 || t == 2 || t == 3;
    }
  }

  lemma PointersIs(m: Memory, at: nat, c: Context, size: nat)
    requires ComponentOf(c, size).HeadHolds(m, at, 0) && ComponentOf(c, size).ComponentEnd(at) < WORD
    ensures var r := ComponentOf(c, size);
            && Read(m, at + 32) == r.Table(at) && Read(m, at + 40) == r.Table(at) + 8 * r.FirstOf(1)
            && Read(m, at + 48) == r.Table(at) + 8 * r.FirstOf(2) && Read(m, at + 56) == r.Table(at) + 8 * r.FirstOf(3)
  {
    hide *;
    var r := ComponentOf(c, size);
    TablesAre(c, size, at);
    TablesInWord(c, size, at);
    TableCell(r, m, at, 0);
    TableCell(r, m, at, 1);
    TableCell(r, m, at, 2);
    TableCell(r, m, at, 3);
  }

  lemma ComponentDone(m0: Memory, m1: Memory, m: Memory, at: nat, c: Context, size: nat, end: nat)
    requires HeadWritten(m0, m1, at, c, size) && c.poolBase == ComponentOf(c, size).PoolBase(at)
    requires var r := ComponentOf(c, size); RecordsWritten(m1, m, at, r, |r.Kids()|, end) && r.ComponentEnd(at) < WORD
    ensures var r := ComponentOf(c, size); r.ComponentHolds(m, at, 0) && end == r.ComponentEnd(at)
    ensures PoolHolds(m, c.poolBase, PoolText(c.order))
  {
    hide *;
    var r := ComponentOf(c, size);
    HeadStays(m0, m1, m, at, c, size, |r.Kids()|, end);
    RecordsAre(m1, m, at, r, |r.Kids()|, end);
    TablesAre(c, size, at);
    AllSized(c, size);
    SizedIs(r);
    KidBaseZero(r.KidsStart(at), r.Kids());
    FillingIs(m1, m, r.Table(at), r.KidsStart(at), r.Kids());
    TableKept(m, r.Table(at), r.KidsStart(at), r.Kids());
    HoldsIs(r, m, at);
  }

  lemma FillingIs(m1: Memory, m: Memory, table: nat, kb: nat, kids: seq<Block>)
    requires Filling(m1, m, table, kb, kids, |kids|)
    ensures forall j :: 0 <= j < |kids| ==> Read(m, table + 8 * j) == Align8(KidBase(kb, kids, j))
    ensures KidsHold(m, kb, kids, 0)
  {
    hide Align8, KidBase, KidsHold, Read, Clear;
    assert kids[..|kids|] == kids;
  }

  lemma HoldsIs(r: Component, m: Memory, at: nat)
    requires r.HeadHolds(m, at, 0) && TableHolds(m, r.Table(at), r.KidsStart(at), r.Kids(), 0)
    requires KidsHold(m, r.KidsStart(at), r.Kids(), 0)
    ensures r.ComponentHolds(m, at, 0)
  {
    hide Component.HeadHolds, TableHolds, KidsHold, Component.Kids, Component.KidsStart, Component.Table;
  }

  // Between two tables: the pointers to the tables are where they were.
  lemma PointersStay(m0: Memory, m1: Memory, m: Memory, at: nat, c: Context, size: nat, j: nat, end: nat)
    requires HeadWritten(m0, m1, at, c, size) && c.poolBase == ComponentOf(c, size).PoolBase(at)
    requires RecordsWritten(m1, m, at, ComponentOf(c, size), j, end) && ComponentOf(c, size).ComponentEnd(at) < WORD
    ensures var r := ComponentOf(c, size);
            && Read(m, at + 32) == r.Table(at) + 8 * r.FirstOf(0) && Read(m, at + 40) == r.Table(at) + 8 * r.FirstOf(1)
            && Read(m, at + 48) == r.Table(at) + 8 * r.FirstOf(2) && Read(m, at + 56) == r.Table(at) + 8 * r.FirstOf(3)
  {
    hide *;
    TablesAre(c, size, at);
    HeadStays(m0, m1, m, at, c, size, j, end);
    PointersIs(m, at, c, size);
  }

  // The context of the second pass over a module.
  function ContextOf(m: Module, order: seq<string>, at: nat): Context {
    Context(m, order, at + 80 + 8 * (|m.namespaces| + |m.sequenceables| + |m.interfaces| + |m.types|))
  }

  // What CalculateMetadataSize returns.
  function MetadataSize(m: Module): nat {
    var c := ContextOf(m, AddAll([], ModuleStrings(m)), 0);
    Align8(MeasuredBefore(c, 4)) + |PoolText(c.order)|
  }

  // The component a module is laid out as at `at`.
  function Layout(m: Module, at: nat): Component {
    ComponentOf(ContextOf(m, AddAll([], ModuleStrings(m)), at), MetadataSize(m))
  }

  lemma ContextFits(m: Module, order: seq<string>, at: nat, size: nat)
    requires ComponentOf(ContextOf(m, order, at), size).ComponentEnd(at) < WORD
    ensures var c := ContextOf(m, order, at); c.poolBase == ComponentOf(c, size).PoolBase(at) && Fits(c)
  {
    var c := ContextOf(m, order, at);
    hide ComponentOf, PoolText, Component.ComponentEnd, Component.KidsStart, Component.PoolBase, WellSized, Component.Sized,
         Component.Kids, KidsEnd;
    TablesAre(c, size, at);
    AllSized(c, size);
    SizedIs(ComponentOf(c, size));
    KidsEndGrows(ComponentOf(c, size).KidsStart(at), ComponentOf(c, size).Kids());
  }

  lemma LayoutIs(m: Module, at: nat)
    ensures var order := AddAll([], ModuleStrings(m)); var c := ContextOf(m, order, at);
            && Layout(m, at) == ComponentOf(c, MetadataSize(m)) && Layout(m, at).Sized() && c.m == m && c.order == order
            && c.poolBase == Layout(m, at).PoolBase(at)
    ensures var c := ContextOf(m, AddAll([], ModuleStrings(m)), 0);
            c.m == m && MetadataSize(m) == Align8(MeasuredBefore(c, 4)) + |PoolText(c.order)|
  {
    hide PoolText, MeasuredBefore, Align8, AddAll, ModuleStrings, Component.Sized, ComponentOf, MetadataSize,
         Component.PoolBase;
    assert MetadataSize(m) == Align8(MeasuredBefore(ContextOf(m, AddAll([], ModuleStrings(m)), 0), 4))
                              + |PoolText(AddAll([], ModuleStrings(m)))| by { SizeIs(m); }
    var c := ContextOf(m, AddAll([], ModuleStrings(m)), at);
    AllSized(c, MetadataSize(m));
    TablesAre(c, MetadataSize(m), at);
  }

  lemma SizeIs(m: Module)
    ensures MetadataSize(m) == Align8(MeasuredBefore(ContextOf(m, AddAll([], ModuleStrings(m)), 0), 4))
                               + |PoolText(AddAll([], ModuleStrings(m)))|
  {
    hide PoolText, MeasuredBefore, Align8, AddAll, ModuleStrings;
  }

  lemma ContextIs(m: Module)
    ensures forall order, at :: ContextOf(m, order, at).m == m && ContextOf(m, order, at).order == order
  {
  }

  lemma SizePositive(m: Module)
    ensures MetadataSize(m) > 0
  {
    hide *;
    var c := ContextOf(m, AddAll([], ModuleStrings(m)), 0);
    SizeIs(m);
    MeasuredIs(c, 0);
    AllSized(c, 0);
    SizedIs(ComponentOf(c, 0));
    KidsEndGrows(80 + 8 * |ComponentOf(c, 0).Kids()|, ComponentOf(c, 0).Kids());
  }

  class Builder {
    const m: Module
    const pool: StringPool
    var baseAddr: nat
    var size: nat
    var mem: Memory
    var metaComponent: nat
    var stringPool: nat

    constructor (m: Module)
      ensures this.m == m && baseAddr == 0 && mem == map[]
      ensures fresh(pool) && fresh(pool.data) && pool.Valid() && pool.order == [] && pool.stringOffsets == map[]
    {
      this.m := m;
      pool := new StringPool();
      baseAddr, size, mem, metaComponent, stringPool := 0, 0, map[], 0, 0;
    }

    // In the first pass every key of the pool is a pooled string.
    ghost predicate Collecting()
      reads pool, pool.data
    {
      pool.Valid() && forall s :: s in pool.stringOffsets ==> s in pool.order
    }

    method AddString(s: string)
      requires Collecting() && '\0' !in s
      modifies pool, pool.data
      ensures Collecting() && (pool.data == old(pool.data) || fresh(pool.data))
      ensures pool.order == AddOne(old(pool.order), s)
    {
      pool.Add(s);
    }

    method CalculateMetaParameter(p: Param, ghost c: Context)
      requires Collecting() && NulFree([p.name])
      modifies this`baseAddr, pool, pool.data
      ensures Collecting() && (pool.data == old(pool.data) || fresh(pool.data))
      ensures pool.order == AddAll(old(pool.order), [p.name])
      ensures baseAddr == End(old(baseAddr), ParamBlock(c, p))
    {
      ParamEnd(baseAddr, c, p);
      AddAllOne(pool.order, p.name);
      hide *;
      baseAddr := Align8(baseAddr);
      AddString(p.name);
      baseAddr := baseAddr + 16;
    }

    method CalculateMetaMethod(x: Method, ghost c: Context)
      requires Collecting() && NulFree(MethodStrings(x))
      modifies this`baseAddr, pool, pool.data
      ensures Collecting() && (pool.data == old(pool.data) || fresh(pool.data))
      ensures pool.order == AddAll(old(pool.order), MethodStrings(x))
      ensures baseAddr == End(old(baseAddr), MethodBlock(c, x))
    {
      hide *;
      ghost var order, own, parts := pool.order, [x.name, MethodText(x)], ParamParts(x.params);
      ghost var kb, kids := KidsBase(baseAddr, MethodBlock(c, x)), ParamBlocks(c, x.params);
      MethodLayout(baseAddr, c, x);
      MethodCollects(order, x);
      baseAddr := Align8(baseAddr);
      AddString(x.name);
      AddString(MethodText(x));
      baseAddr := Align8(baseAddr + 40);
      baseAddr := baseAddr + 8 * |x.params|;
      var i := 0;
      while i < |x.params|
        invariant 0 <= i <= |x.params| && baseAddr == KidBase(kb, kids, i)
        invariant Collecting() && (pool.data == old(pool.data) || fresh(pool.data))
        invariant pool.order == AddAll(order, own + Flat(parts[..i]))
      {
        NextKid(kb, kids, i);
        Collected(order, own, parts, i);
        CalculateMetaParameter(x.params[i], c);
        i := i + 1;
      }
    }

    method CalculateMetaInterface(x: InterfaceDecl, ghost c: Context)
      requires Collecting() && NulFree(InterfaceStrings(x))
      modifies this`baseAddr, pool, pool.data
      ensures Collecting() && (pool.data == old(pool.data) || fresh(pool.data))
      ensures pool.order == AddAll(old(pool.order), InterfaceStrings(x))
      ensures baseAddr == End(old(baseAddr), InterfaceBlock(c, x))
    {
      hide *;
      ghost var order, own, parts := pool.order, [Chars(x.license), x.name, x.nspace], MethodParts(x.methods);
      ghost var kb, kids := KidsBase(baseAddr, InterfaceBlock(c, x)), MethodBlocks(c, x.methods);
      InterfaceLayout(baseAddr, c, x);
      InterfaceCollects(order, x);
      baseAddr := Align8(baseAddr);
      AddString(Chars(x.license));
      AddString(x.name);
      AddString(x.nspace);
      baseAddr := Align8(baseAddr + 48);
      baseAddr := baseAddr + 8 * |x.methods|;
      var i := 0;
      while i < |x.methods|
        invariant 0 <= i <= |x.methods| && baseAddr == KidBase(kb, kids, i)
        invariant Collecting() && (pool.data == old(pool.data) || fresh(pool.data))
        invariant pool.order == AddAll(order, own + Flat(parts[..i]))
      {
        NextKid(kb, kids, i);
        Collected(order, own, parts, i);
        CalculateMetaMethod(x.methods[i], c);
        i := i + 1;
      }
    }

    method CalculateMetaSequenceable(x: SequenceableDecl, ghost c: Context)
      requires Collecting() && NulFree(SequenceableStrings(x))
      modifies this`baseAddr, pool, pool.data
      ensures Collecting() && (pool.data == old(pool.data) || fresh(pool.data))
      ensures pool.order == AddAll(old(pool.order), SequenceableStrings(x))
      ensures baseAddr == End(old(baseAddr), SequenceableBlock(c, x))
    {
      hide *;
      SequenceableEnd(baseAddr, c, x);
      SequenceableCollects(pool.order, x);
      baseAddr := Align8(baseAddr);
      AddString(x.name);
      AddString(x.nspace);
      baseAddr := baseAddr + 16;
    }

    method CalculateMetaNamespace(x: Namespace, ghost c: Context)
      requires Collecting() && NulFree(NamespaceStrings(x))
      modifies this`baseAddr, pool, pool.data
      ensures Collecting() && (pool.data == old(pool.data) || fresh(pool.data))
      ensures pool.order == AddAll(old(pool.order), NamespaceStrings(x))
      ensures baseAddr == End(old(baseAddr), NamespaceBlock(c, x))
      decreases x
    {
      hide *;
      ghost var order, own, parts := pool.order, [x.name], NamespaceParts(x.inner);
      ghost var kb, kids := KidsBase(baseAddr, NamespaceBlock(c, x)), NamespaceBlocks(c, x.inner);
      NamespaceLayout(baseAddr, c, x);
      NamespaceCollects(order, x);
      baseAddr := Align8(baseAddr);
      AddString(x.name);
      baseAddr := Align8(baseAddr + 48);
      baseAddr := Align8(baseAddr + 4 * |x.sequenceables|);
      baseAddr := Align8(baseAddr + 4 * |x.interfaces|);
      baseAddr := baseAddr + 8 * |x.inner|;
      var i := 0;
      while i < |x.inner|
        invariant 0 <= i <= |x.inner| && baseAddr == KidBase(kb, kids, i)
        invariant Collecting() && (pool.data == old(pool.data) || fresh(pool.data))
        invariant pool.order == AddAll(order, own + Flat(parts[..i]))
      {
        NextKid(kb, kids, i);
        Collected(order, own, parts, i);
        CalculateMetaNamespace(x.inner[i], c);
        i := i + 1;
      }
    }

    method CalculateMetaType(n: Node, ghost c: Context)
      modifies this`baseAddr
      ensures baseAddr == End(old(baseAddr), TypeBlock(c, n))
    {
      hide *;
      TypeEnd(baseAddr, c, n);
      baseAddr := Align8(baseAddr);
      baseAddr := baseAddr + 24;
      if n.ListNode? {
        baseAddr := Align8(baseAddr);
        baseAddr := baseAddr + 8;
      } else if n.MapNode? {
        var typeNumber := 2;
        baseAddr := baseAddr + 8 * typeNumber;
      } else if n.ArrayNode? {
        baseAddr := baseAddr + 8;
      }
    }

    method CalculateStringPool()
      modifies this`baseAddr
      ensures baseAddr == Align8(old(baseAddr)) + pool.dataOffset
    {
      baseAddr := Align8(baseAddr);
      baseAddr := baseAddr + pool.dataOffset;
    }

    method CalculateNamespaces(ghost c: Context, ghost order: seq<string>, ghost own: seq<string>, ghost kb: nat)
      requires Collecting() && NulFree(own + Flat(NamespaceParts(m.namespaces)))
      requires pool.order == AddAll(order, own) && baseAddr == kb
      modifies this`baseAddr, pool, pool.data
      ensures Collecting() && (pool.data == old(pool.data) || fresh(pool.data))
      ensures pool.order == AddAll(order, own + Flat(NamespaceParts(m.namespaces)))
      ensures baseAddr == KidsEnd(kb, NamespaceBlocks(c, m.namespaces))
    {
      hide *;
      ghost var parts, kids := NamespaceParts(m.namespaces), NamespaceBlocks(c, m.namespaces);
      CollectNone(order, own, parts);
      KidBaseZero(kb, kids);
      var i := 0;
      while i < |m.namespaces|
        invariant 0 <= i <= |m.namespaces| && baseAddr == KidBase(kb, kids, i)
        invariant Collecting() && (pool.data == old(pool.data) || fresh(pool.data))
        invariant pool.order == AddAll(order, own + Flat(parts[..i]))
      {
        NextKid(kb, kids, i);
        Collected(order, own, parts, i);
        CalculateMetaNamespace(m.namespaces[i], c);
        i := i + 1;
      }
    }

    method CalculateSequenceables(ghost c: Context, ghost order: seq<string>, ghost own: seq<string>, ghost kb: nat)
      requires Collecting() && NulFree(own + Flat(SequenceableParts(m.sequenceables)))
      requires pool.order == AddAll(order, own) && baseAddr == kb
      modifies this`baseAddr, pool, pool.data
      ensures Collecting() && (pool.data == old(pool.data) || fresh(pool.data))
      ensures pool.order == AddAll(order, own + Flat(SequenceableParts(m.sequenceables)))
      ensures baseAddr == KidsEnd(kb, SequenceableBlocks(c, m.sequenceables))
    {
      hide *;
      ghost var parts, kids := SequenceableParts(m.sequenceables), SequenceableBlocks(c, m.sequenceables);
      SequenceableBlocksAre(c, m.sequenceables);
      CollectNone(order, own, parts);
      KidBaseZero(kb, kids);
      var i := 0;
      while i < |m.sequenceables|
        invariant 0 <= i <= |m.sequenceables| && baseAddr == KidBase(kb, kids, i)
        invariant Collecting() && (pool.data == old(pool.data) || fresh(pool.data))
        invariant pool.order == AddAll(order, own + Flat(parts[..i]))
      {
        NextKid(kb, kids, i);
        Collected(order, own, parts, i);
        CalculateMetaSequenceable(m.sequenceables[i], c);
        i := i + 1;
      }
    }

    method CalculateInterfaces(ghost c: Context, ghost order: seq<string>, ghost own: seq<string>, ghost kb: nat)
      requires Collecting() && NulFree(own + Flat(InterfaceParts(m.interfaces)))
      requires pool.order == AddAll(order, own) && baseAddr == kb
      modifies this`baseAddr, pool, pool.data
      ensures Collecting() && (pool.data == old(pool.data) || fresh(pool.data))
      ensures pool.order == AddAll(order, own + Flat(InterfaceParts(m.interfaces)))
      ensures baseAddr == KidsEnd(kb, InterfaceBlocks(c, m.interfaces))
    {
      hide *;
      ghost var parts, kids := InterfaceParts(m.interfaces), InterfaceBlocks(c, m.interfaces);
      InterfaceBlocksAre(c, m.interfaces);
      CollectNone(order, own, parts);
      KidBaseZero(kb, kids);
      var i := 0;
      while i < |m.interfaces|
        invariant 0 <= i <= |m.interfaces| && baseAddr == KidBase(kb, kids, i)
        invariant Collecting() && (pool.data == old(pool.data) || fresh(pool.data))
        invariant pool.order == AddAll(order, own + Flat(parts[..i]))
      {
        NextKid(kb, kids, i);
        Collected(order, own, parts, i);
        CalculateMetaInterface(m.interfaces[i], c);
        i := i + 1;
      }
    }

    method CalculateTypes(ghost c: Context, ghost kb: nat)
      requires baseAddr == kb
      modifies this`baseAddr
      ensures baseAddr == KidsEnd(kb, TypeBlocks(c, m.types))
    {
      hide *;
      ghost var kids := TypeBlocks(c, m.types);
      TypeBlocksAre(c, m.types);
      KidBaseZero(kb, kids);
      var i := 0;
      while i < |m.types|
        invariant 0 <= i <= |m.types| && baseAddr == KidBase(kb, kids, i)
      {
        NextKid(kb, kids, i);
        CalculateMetaType(m.types[i].node, c);
        i := i + 1;
      }
    }

    method CalculateTables(ghost c: Context)
      requires Collecting() && '\0' !in m.name && c.m == m && baseAddr == 0
      modifies this`baseAddr, pool, pool.data
      ensures Collecting() && (pool.data == old(pool.data) || fresh(pool.data))
      ensures pool.order == AddOne(old(pool.order), m.name)
      ensures baseAddr == MeasuredBefore(c, 0)
    {
      hide *;
      MeasuredStep(c);
      ZeroAligned();
      TablesPacked(0, |m.namespaces|, |m.sequenceables|, |m.interfaces|);
      baseAddr := Align8(baseAddr);
      AddString(m.name);
      baseAddr := Align8(baseAddr + 80);
      baseAddr := Align8(baseAddr + 8 * |m.namespaces|);
      baseAddr := Align8(baseAddr + 8 * |m.sequenceables|);
      baseAddr := Align8(baseAddr + 8 * |m.interfaces|);
      baseAddr := baseAddr + 8 * |m.types|;
    }

    method CalculateMetaComponent(ghost c: Context)
      requires Collecting() && NulFree(ModuleStrings(m)) && c.m == m && baseAddr == 0
      modifies this`baseAddr, pool, pool.data
      ensures Collecting() && (pool.data == old(pool.data) || fresh(pool.data))
      ensures pool.order == AddAll(old(pool.order), ModuleStrings(m))
      ensures baseAddr == Align8(MeasuredBefore(c, 4)) + pool.dataOffset
    {
      hide *;
      ghost var order := pool.order;
      ModuleCollects(order, m);
      MeasuredStep(c);
      CalculateTables(c);
      CalculateNamespaces(c, order, StringsBefore(m, 0), MeasuredBefore(c, 0));
      CalculateSequenceables(c, order, StringsBefore(m, 1), MeasuredBefore(c, 1));
      CalculateInterfaces(c, order, StringsBefore(m, 2), MeasuredBefore(c, 2));
      CalculateTypes(c, MeasuredBefore(c, 3));
      CalculateStringPool();
    }

    method CalculateMetadataSize(ghost c: Context) returns (n: nat)
      requires Collecting() && NulFree(ModuleStrings(m)) && c.m == m
      modifies this`baseAddr, pool, pool.data
      ensures Collecting() && (pool.data == old(pool.data) || fresh(pool.data))
      ensures pool.order == AddAll(old(pool.order), ModuleStrings(m))
      ensures n == Align8(MeasuredBefore(c, 4)) + |PoolText(pool.order)|
    {
      baseAddr := 0;
      CalculateMetaComponent(c);
      n := baseAddr;
    }

    ghost predicate Writing(c: Context)
      reads this`stringPool, pool, pool.data
      ensures Writing(c) ==> c.m == m && Fits(c)
    {
      pool.Valid() && c.m == m && c.order == pool.order && c.poolBase == stringPool && Fits(c)
    }

    method WriteString(s: Text, ghost c: Context) returns (a: nat)
      requires Writing(c)
      modifies pool`stringOffsets
      ensures Writing(c) && a == c.Str(s)
    {
      if s.Null? {
        a := 0;
      } else {
        var offset := pool.GetOffset(s.chars);
        a := stringPool + offset;
      }
    }

    method IndexOfType(n: Node) returns (r: int)
      ensures r == IndexIn(TypeIds(m.types), n.id)
    {
      var i := 0;
      while i < |m.types|
        invariant 0 <= i <= |m.types|
        invariant n.id !in TypeIds(m.types)[..i]
      {
        if m.types[i].node.id == n.id {
          IndexInIs(TypeIds(m.types), n.id, i);
          return i;
        }
        i := i + 1;
      }
      assert TypeIds(m.types)[..i] == TypeIds(m.types);
      r := -1;
    }

    method IndexOfSequenceable(id: nat) returns (r: int)
      ensures r == IndexIn(SequenceableIds(m.sequenceables), id)
    {
      var i := 0;
      while i < |m.sequenceables|
        invariant 0 <= i <= |m.sequenceables|
        invariant id !in SequenceableIds(m.sequenceables)[..i]
      {
        if m.sequenceables[i].id == id {
          IndexInIs(SequenceableIds(m.sequenceables), id, i);
          return i;
        }
        i := i + 1;
      }
      assert SequenceableIds(m.sequenceables)[..i] == SequenceableIds(m.sequenceables);
      r := -1;
    }

    method IndexOfInterface(id: nat) returns (r: int)
      ensures r == IndexIn(InterfaceIds(m.interfaces), id)
    {
      var i := 0;
      while i < |m.interfaces|
        invariant 0 <= i <= |m.interfaces|
        invariant id !in InterfaceIds(m.interfaces)[..i]
      {
        if m.interfaces[i].id == id {
          IndexInIs(InterfaceIds(m.interfaces), id, i);
          return i;
        }
        i := i + 1;
      }
      assert InterfaceIds(m.interfaces)[..i] == InterfaceIds(m.interfaces);
      r := -1;
    }

    method WriteMetaParameter(p: Param, ghost c: Context) returns (mp: nat)
      requires Writing(c) && Clear(mem, baseAddr)
      modifies this`baseAddr, this`mem, pool`stringOffsets
      ensures Writing(c) && Written(old(mem), mem, old(baseAddr), ParamBlock(c, p))
      ensures mp == Align8(old(baseAddr)) && baseAddr == End(old(baseAddr), ParamBlock(c, p))
    {
      hide StringPool.Valid, Align8, Written, End, Context.Str, Fits, IndexIn, TypeIds;
      ghost var m0, b := mem, baseAddr;
      baseAddr := Align8(baseAddr);
      mp := baseAddr;
      var name := WriteString(Text(p.name), c);
      mem := mem[mp := name];
      if p.isIn {
        mem := mem[mp + 8 := SetBit(Read(mem, mp + 8), 1)];
      }
      if p.isOut {
        mem := mem[mp + 8 := SetBit(Read(mem, mp + 8), 2)];
      }
      ParamFlags(m0, name, mp, p, mem);
      var index := IndexOfType(p.typ);
      mem := mem[mp + 12 := index];
      ParamHeader(m0, mem, b, c, p);
      baseAddr := baseAddr + 16;
    }

    method WriteMethodHeader(x: Method, ghost c: Context) returns (mm: nat)
      requires Writing(c) && Clear(mem, baseAddr) && Align8(Align8(baseAddr) + 40) < WORD
      modifies this`baseAddr, this`mem, pool`stringOffsets
      ensures Writing(c) && HeaderWritten(old(mem), mem, old(baseAddr), MethodBlock(c, x))
      ensures mm == Align8(old(baseAddr)) && baseAddr == KidsBase(old(baseAddr), MethodBlock(c, x))
    {
      hide *;
      ghost var m0, b := mem, baseAddr;
      MethodIs(c, x);
      MethodLayout(b, c, x);
      baseAddr := Align8(baseAddr);
      mm := baseAddr;
      var name := WriteString(Text(x.name), c);
      var signature := WriteString(Text(MethodText(x)), c);
      var index := IndexOfType(x.ret);
      mem := mem[mm := name][mm + 8 := signature][mm + 16 := if x.oneway then 1 else 0][mm + 20 := index]
                [mm + 24 := |x.params|];
      baseAddr := Align8(baseAddr + 40);
      mem := mem[mm + 32 := baseAddr];
      IndexIs(c, x.ret);
      MethodCells(m0, mm, c, x, name, signature, index, baseAddr);
      MethodFields(mem, b, c, x);
      HeaderDone(m0, mem, b, MethodBlock(c, x));
      baseAddr := baseAddr + 8 * |x.params|;
    }

    method WriteMetaMethod(x: Method, ghost c: Context) returns (mm: nat)
      requires Writing(c) && Clear(mem, baseAddr) && End(baseAddr, MethodBlock(c, x)) < WORD
      modifies this`baseAddr, this`mem, pool`stringOffsets
      ensures Writing(c) && Written(old(mem), mem, old(baseAddr), MethodBlock(c, x))
      ensures mm == Align8(old(baseAddr)) && baseAddr == End(old(baseAddr), MethodBlock(c, x))
    {
      hide *;
      ghost var m0, b, blk := mem, baseAddr, MethodBlock(c, x);
      ghost var table, kb, kids := TableStart(b, blk), KidsBase(b, blk), ParamBlocks(c, x.params);
      MethodIs(c, x);
      MethodLayout(b, c, x);
      TableFits(b, blk);
      mm := WriteMethodHeader(x, c);
      ghost var m1 := mem;
      TableReady(m0, m1, b, blk);
      var parameters := Read(mem, mm + 32);
      var i := 0;
      while i < |x.params|
        invariant 0 <= i <= |x.params| && Writing(c)
        invariant Filling(m1, mem, table, kb, kids, i) && baseAddr == KidBase(kb, kids, i)
      {
        ghost var m := mem;
        FillingClear(m1, m, table, kb, kids, i);
        NextKid(kb, kids, i);
        var entry := WriteMetaParameter(x.params[i], c);
        ghost var m2 := mem;
        mem := mem[parameters + 8 * i := entry];
        FillStep(m1, m, m2, mem, table, kb, kids, i);
        i := i + 1;
      }
      FillDone(m0, m1, mem, b, blk);
    }

    method WriteInterfaceHeader(x: InterfaceDecl, ghost c: Context) returns (mi: nat)
      requires Writing(c) && Clear(mem, baseAddr) && Align8(Align8(baseAddr) + 48) < WORD
      modifies this`baseAddr, this`mem, pool`stringOffsets
      ensures Writing(c) && HeaderWritten(old(mem), mem, old(baseAddr), InterfaceBlock(c, x))
      ensures mi == Align8(old(baseAddr)) && baseAddr == KidsBase(old(baseAddr), InterfaceBlock(c, x))
    {
      hide *;
      ghost var m0, b := mem, baseAddr;
      InterfaceIs(c, x);
      InterfaceLayout(b, c, x);
      baseAddr := Align8(baseAddr);
      mi := baseAddr;
      var license := WriteString(x.license, c);
      var name := WriteString(Text(x.name), c);
      var nspace := WriteString(Text(x.nspace), c);
      mem := mem[mi := license][mi + 8 := name][mi + 16 := nspace][mi + 24 := if x.oneway then 1 else 0]
                [mi + 28 := |x.methods|][mi + 40 := if x.external then 1 else 0];
      baseAddr := Align8(baseAddr + 48);
      mem := mem[mi + 32 := baseAddr];
      InterfaceCells(m0, mi, c, x, license, name, nspace, baseAddr);
      InterfaceFields(mem, b, c, x);
      HeaderDone(m0, mem, b, InterfaceBlock(c, x));
      baseAddr := baseAddr + 8 * |x.methods|;
    }

    method WriteMetaInterface(x: InterfaceDecl, ghost c: Context) returns (mi: nat)
      requires Writing(c) && Clear(mem, baseAddr) && End(baseAddr, InterfaceBlock(c, x)) < WORD
      modifies this`baseAddr, this`mem, pool`stringOffsets
      ensures Writing(c) && Written(old(mem), mem, old(baseAddr), InterfaceBlock(c, x))
      ensures mi == Align8(old(baseAddr)) && baseAddr == End(old(baseAddr), InterfaceBlock(c, x))
    {
      hide *;
      ghost var m0, b, blk := mem, baseAddr, InterfaceBlock(c, x);
      ghost var table, kb, kids := TableStart(b, blk), KidsBase(b, blk), MethodBlocks(c, x.methods);
      InterfaceIs(c, x);
      InterfaceLayout(b, c, x);
      TableFits(b, blk);
      mi := WriteInterfaceHeader(x, c);
      ghost var m1 := mem;
      TableReady(m0, m1, b, blk);
      var methods := Read(mem, mi + 32);
      var i := 0;
      while i < |x.methods|
        invariant 0 <= i <= |x.methods| && Writing(c)
        invariant Filling(m1, mem, table, kb, kids, i) && baseAddr == KidBase(kb, kids, i)
      {
        ghost var m := mem;
        FillingClear(m1, m, table, kb, kids, i);
        KidRange(kb, kids, i);
        var entry := WriteMetaMethod(x.methods[i], c);
        ghost var m2 := mem;
        mem := mem[methods + 8 * i := entry];
        FillStep(m1, m, m2, mem, table, kb, kids, i);
        i := i + 1;
      }
      FillDone(m0, m1, mem, b, blk);
    }

    method WriteMetaSequenceable(x: SequenceableDecl, ghost c: Context) returns (mp: nat)
      requires Writing(c) && Clear(mem, baseAddr)
      modifies this`baseAddr, this`mem, pool`stringOffsets
      ensures Writing(c) && Written(old(mem), mem, old(baseAddr), SequenceableBlock(c, x))
      ensures mp == Align8(old(baseAddr)) && baseAddr == End(old(baseAddr), SequenceableBlock(c, x))
    {
      hide StringPool.Valid, Align8, Written, End, Context.Str, Fits;
      ghost var m0, b := mem, baseAddr;
      baseAddr := Align8(baseAddr);
      mp := baseAddr;
      var name := WriteString(Text(x.name), c);
      mem := mem[mp := name];
      var nspace := WriteString(Text(x.nspace), c);
      mem := mem[mp + 8 := nspace];
      SequenceableHeader(m0, mem, b, c, x);
      baseAddr := baseAddr + 16;
    }

    method WriteSequenceableIndexes(x: Namespace, start: nat, ghost c: Context)
      requires Writing(c)
      modifies this`mem
      ensures IntsHold(mem, start, SequenceableIndexes(c, x.sequenceables))
      ensures OnlyIn(old(mem), mem, start, start + 4 * |x.sequenceables|)
    {
      hide IndexIn, SequenceableIds, StringPool.Valid, Fits;
      var i := 0;
      while i < |x.sequenceables|
        invariant 0 <= i <= |x.sequenceables|
        invariant IntsHold(mem, start, SequenceableIndexes(c, x.sequenceables)[..i])
        invariant OnlyIn(old(mem), mem, start, start + 4 * i)
      {
        var index := IndexOfSequenceable(x.sequenceables[i]);
        mem := mem[start + 4 * i := index];
        i := i + 1;
      }
      assert SequenceableIndexes(c, x.sequenceables)[..i] == SequenceableIndexes(c, x.sequenceables);
    }

    method WriteInterfaceIndexes(x: Namespace, start: nat, ghost c: Context)
      requires Writing(c)
      modifies this`mem
      ensures IntsHold(mem, start, InterfaceIndexes(c, x.interfaces))
      ensures OnlyIn(old(mem), mem, start, start + 4 * |x.interfaces|)
    {
      hide IndexIn, InterfaceIds, StringPool.Valid, Fits;
      var i := 0;
      while i < |x.interfaces|
        invariant 0 <= i <= |x.interfaces|
        invariant IntsHold(mem, start, InterfaceIndexes(c, x.interfaces)[..i])
        invariant OnlyIn(old(mem), mem, start, start + 4 * i)
      {
        var index := IndexOfInterface(x.interfaces[i]);
        mem := mem[start + 4 * i := index];
        i := i + 1;
      }
      assert InterfaceIndexes(c, x.interfaces)[..i] == InterfaceIndexes(c, x.interfaces);
    }

    method WriteNamespaceCells(x: Namespace, ghost c: Context) returns (mn: nat)
      requires Writing(c)
      modifies this`baseAddr, this`mem, pool`stringOffsets
      ensures var b, blk := old(baseAddr), NamespaceBlock(c, x);
              && |blk.ints| == 2 && mn == Align8(b) && baseAddr == KidsBase(b, blk)
              && NamespaceAt(mem, mn, c, x, IntArrayStart(b, blk, 0), IntArrayStart(b, blk, 1), TableStart(b, blk))
              && OnlyIn(old(mem), mem, mn, mn + 48)
      ensures Writing(c)
    {
      hide *;
      ghost var m0, b := mem, baseAddr;
      NamespaceArrays(b, c, x);
      baseAddr := Align8(baseAddr);
      mn := baseAddr;
      var name := WriteString(Text(x.name), c);
      mem := mem[mn := name][mn + 8 := |x.sequenceables|][mn + 12 := |x.interfaces|][mn + 16 := |x.inner|];
      baseAddr := Align8(baseAddr + 48);
      ghost var s0 := baseAddr;
      mem := mem[mn + 24 := baseAddr];
      baseAddr := Align8(baseAddr + 4 * |x.sequenceables|);
      ghost var s1 := baseAddr;
      mem := mem[mn + 32 := baseAddr];
      baseAddr := Align8(baseAddr + 4 * |x.interfaces|);
      mem := mem[mn + 40 := baseAddr];
      NamespaceCells(m0, mn, c, x, name, s0, s1, baseAddr);
      baseAddr := baseAddr + 8 * |x.inner|;
    }

    method WriteNamespaceHeader(x: Namespace, ghost c: Context) returns (mn: nat)
      requires Writing(c) && Clear(mem, baseAddr) && TableStart(baseAddr, NamespaceBlock(c, x)) < WORD
      modifies this`baseAddr, this`mem, pool`stringOffsets
      ensures Writing(c) && HeaderWritten(old(mem), mem, old(baseAddr), NamespaceBlock(c, x))
      ensures mn == Align8(old(baseAddr)) && baseAddr == KidsBase(old(baseAddr), NamespaceBlock(c, x))
    {
      hide *;
      ghost var m0, b := mem, baseAddr;
      NamespaceArrays(b, c, x);
      mn := WriteNamespaceCells(x, c);
      ghost var m1 := mem;
      ReadsArrays(m1, mn, c, x, b);
      WriteSequenceableIndexes(x, Read(mem, mn + 24), c);
      ghost var m2 := mem;
      ReadsArray(m1, m2, mn, c, x, b);
      WriteInterfaceIndexes(x, Read(mem, mn + 32), c);
      NamespaceHeader(m0, m1, m2, mem, b, c, x);
    }

    method WriteMetaNamespace(x: Namespace, ghost c: Context) returns (mn: nat)
      requires Writing(c) && Clear(mem, baseAddr) && End(baseAddr, NamespaceBlock(c, x)) < WORD
      modifies this`baseAddr, this`mem, pool`stringOffsets
      ensures Writing(c) && Written(old(mem), mem, old(baseAddr), NamespaceBlock(c, x))
      ensures mn == Align8(old(baseAddr)) && baseAddr == End(old(baseAddr), NamespaceBlock(c, x))
      decreases x
    {
      hide *;
      ghost var m0, b, blk := mem, baseAddr, NamespaceBlock(c, x);
      ghost var table, kb, kids := TableStart(b, blk), KidsBase(b, blk), NamespaceBlocks(c, x.inner);
      NamespaceArrays(b, c, x);
      EndGrows(b, blk);
      mn := WriteNamespaceHeader(x, c);
      ghost var m1 := mem;
      TableReady(m0, m1, b, blk);
      var namespaces := Read(mem, mn + 40);
      var i := 0;
      while i < |x.inner|
        invariant 0 <= i <= |x.inner| && Writing(c)
        invariant Filling(m1, mem, table, kb, kids, i) && baseAddr == KidBase(kb, kids, i)
      {
        ghost var m := mem;
        FillingClear(m1, m, table, kb, kids, i);
        KidRange(kb, kids, i);
        var entry := WriteMetaNamespace(x.inner[i], c);
        ghost var m2 := mem;
        mem := mem[namespaces + 8 * i := entry];
        FillStep(m1, m, m2, mem, table, kb, kids, i);
        i := i + 1;
      }
      FillDone(m0, m1, mem, b, blk);
    }

    method WriteMetaType(n: Node, ghost c: Context) returns (mt: nat)
      requires Writing(c) && Clear(mem, baseAddr) && End(baseAddr, TypeBlock(c, n)) < WORD
      modifies this`baseAddr, this`mem
      ensures Written(old(mem), mem, old(baseAddr), TypeBlock(c, n))
      ensures mt == Align8(old(baseAddr)) && baseAddr == End(old(baseAddr), TypeBlock(c, n))
    {
      hide *;
      ghost var m0, b := mem, baseAddr;
      TypeEnd(b, c, n);
      TypeIndexIs(c, n);
      Type2KindIs(n);
      NestedAre(c, n);
      baseAddr := Align8(baseAddr);
      mt := baseAddr;
      mem := mem[mt := Type2Kind(n)];
      var index;
      if n.SequenceableNode? {
        index := IndexOfSequenceable(n.id);
      } else if n.InterfaceNode? {
        index := IndexOfInterface(n.id);
      } else {
        index := IndexOfType(n);
      }
      mem := mem[mt + 4 := index];
      baseAddr := baseAddr + 24;
      if n.ListNode? {
        mem := mem[mt + 8 := 1];
        baseAddr := Align8(baseAddr);
        mem := mem[mt + 16 := baseAddr];
        var element := IndexOfType(n.element);
        mem := mem[baseAddr := element];
        OneNested(m0, mt, b, c, n, index, element);
        baseAddr := baseAddr + 8;
      } else if n.MapNode? {
        mem := mem[mt + 8 := 2];
        baseAddr := Align8(baseAddr);
        mem := mem[mt + 16 := baseAddr];
        var key := IndexOfType(n.key);
        mem := mem[baseAddr := key];
        var value := IndexOfType(n.value);
        mem := mem[baseAddr + 4 := value];
        TwoNested(m0, mt, b, c, n, index, key, value);
        baseAddr := baseAddr + 16;
      } else if n.ArrayNode? {
        mem := mem[mt + 8 := 1];
        baseAddr := Align8(baseAddr);
        mem := mem[mt + 16 := baseAddr];
        var element := IndexOfType(n.element);
        mem := mem[baseAddr := element];
        OneNested(m0, mt, b, c, n, index, element);
        baseAddr := baseAddr + 8;
      } else {
        NoneNested(m0, mt, b, c, n, index);
      }
      TypeHeader(m0, mem, b, c, n);
    }

    // memcpy of the pool, character by character.
    method CopyPool(start: nat, ghost c: Context)
      requires Writing(c)
      modifies this`mem
      ensures PoolHolds(mem, start, PoolText(c.order)) && OnlyIn(old(mem), mem, start, start + |PoolText(c.order)|)
    {
      hide PoolText, Fits;
      ghost var text := PoolText(c.order);
      assert pool.data[..pool.dataOffset] == text;
      var i := 0;
      while i < pool.dataOffset
        invariant 0 <= i <= pool.dataOffset
        invariant PoolHolds(mem, start, text[..i]) && OnlyIn(old(mem), mem, start, start + i)
      {
        assert pool.data[i] == text[i];
        mem := mem[start + i := pool.data[i] as int];
        i := i + 1;
      }
      assert text[..i] == text;
    }

    method WriteHeadCells(ghost c: Context)
      requires pool.Valid() && c.m == m && c.order == pool.order && Aligned(baseAddr)
      requires c.poolBase == ComponentOf(c, size).PoolBase(baseAddr)
      modifies this`baseAddr, this`mem, this`stringPool, this`metaComponent
      ensures var r, at := ComponentOf(c, size), old(baseAddr);
              && HeadAt(mem, at, c, size, r.Table(at), r.Table(at) + 8 * r.FirstOf(1), r.Table(at) + 8 * r.FirstOf(2),
                        r.Table(at) + 8 * r.FirstOf(3))
              && OnlyIn(old(mem), mem, at, at + 80)
      ensures metaComponent == old(baseAddr) && baseAddr == stringPool == c.poolBase
    {
      hide *;
      ghost var m0, at := mem, baseAddr;
      TablesPacked(at, |m.namespaces|, |m.sequenceables|, |m.interfaces|);
      TablesAre(c, size, at);
      PoolSizeIs();
      baseAddr := Align8(baseAddr);
      metaComponent := baseAddr;
      var mc := metaComponent;
      mem := mem[mc := METADATA_MAGIC_NUMBER][mc + 4 := size][mc + 16 := |m.namespaces|]
                [mc + 20 := |m.sequenceables|][mc + 24 := |m.interfaces|][mc + 28 := |m.types|]
                [mc + 64 := pool.dataOffset];
      baseAddr := Align8(baseAddr + 80);
      ghost var t0 := baseAddr;
      mem := mem[mc + 32 := baseAddr];
      baseAddr := Align8(baseAddr + 8 * |m.namespaces|);
      ghost var t1 := baseAddr;
      mem := mem[mc + 40 := baseAddr];
      baseAddr := Align8(baseAddr + 8 * |m.sequenceables|);
      ghost var t2 := baseAddr;
      mem := mem[mc + 48 := baseAddr];
      baseAddr := Align8(baseAddr + 8 * |m.interfaces|);
      ghost var t3 := baseAddr;
      mem := mem[mc + 56 := baseAddr];
      baseAddr := baseAddr + 8 * |m.types|;
      mem := mem[mc + 72 := baseAddr];
      stringPool := baseAddr;
      HeadCells(m0, at, c, size, t0, t1, t2, t3);
    }

    method WriteHead(ghost c: Context)
      requires pool.Valid() && c.m == m && c.order == pool.order && Aligned(baseAddr)
      requires c.poolBase == ComponentOf(c, size).PoolBase(baseAddr) && Fits(c)
      modifies this`baseAddr, this`mem, this`stringPool, this`metaComponent, pool`stringOffsets
      ensures Writing(c) && HeadWritten(old(mem), mem, old(baseAddr), c, size)
      ensures metaComponent == old(baseAddr) && baseAddr == ComponentOf(c, size).KidsStart(old(baseAddr))
    {
      hide *;
      ghost var m0, at, r := mem, baseAddr, ComponentOf(c, size);
      TablesAre(c, size, at);
      PoolSizeIs();
      WriteHeadCells(c);
      WritingIs(c);
      baseAddr := baseAddr + pool.dataOffset;
      WritePool(m0, at, r.Table(at), r.Table(at) + 8 * r.FirstOf(1), r.Table(at) + 8 * r.FirstOf(2),
                r.Table(at) + 8 * r.FirstOf(3), c);
    }

    // The pool is copied before the name's address is looked up.
    method WritePool(ghost m0: Memory, ghost at: nat, ghost t0: int, ghost t1: int, ghost t2: int, ghost t3: int,
                     ghost c: Context)
      requires Writing(c) && HeadAt(mem, at, c, size, t0, t1, t2, t3) && OnlyIn(m0, mem, at, at + 80)
      requires at == metaComponent && stringPool == c.poolBase == ComponentOf(c, size).PoolBase(at)
      requires var r := ComponentOf(c, size);
               && t0 == r.Table(at) && t1 == r.Table(at) + 8 * r.FirstOf(1) && t2 == r.Table(at) + 8 * r.FirstOf(2)
               && t3 == r.Table(at) + 8 * r.FirstOf(3)
      modifies this`mem, pool`stringOffsets
      ensures Writing(c) && HeadWritten(m0, mem, at, c, size)
    {
      hide *;
      TablesAre(c, size, at);
      ghost var m1 := mem;
      CopyPool(stringPool, c);
      ghost var m2 := mem;
      var name := WriteString(Text(m.name), c);
      mem := mem[metaComponent + 8 := name];
      HeadDone(m0, m1, m2, mem, at, c, size, t0, t1, t2, t3);
    }

    lemma PoolSizeIs()
      requires pool.Valid()
      ensures pool.dataOffset == |PoolText(pool.order)|
    {
    }

    lemma WritingIs(c: Context)
      ensures Writing(c) <==> pool.Valid() && c.m == m && c.order == pool.order && c.poolBase == stringPool && Fits(c)
    {
      hide StringPool.Valid, Fits;
    }

    method WriteNamespaces(ghost m1: Memory, ghost at: nat, ghost c: Context)
      requires Writing(c) && ComponentOf(c, size).ComponentEnd(at) < WORD
      requires Read(mem, metaComponent + 32) == ComponentOf(c, size).Table(at) + 8 * ComponentOf(c, size).FirstOf(0)
      requires RecordsWritten(m1, mem, at, ComponentOf(c, size), ComponentOf(c, size).FirstOf(0), baseAddr)
      modifies this`baseAddr, this`mem, pool`stringOffsets
      ensures Writing(c)
      ensures RecordsWritten(m1, mem, at, ComponentOf(c, size), ComponentOf(c, size).FirstOf(0) + |m.namespaces|, baseAddr)
    {
      hide *;
      ghost var r := ComponentOf(c, size);
      ghost var f := r.FirstOf(0);
      TablesAre(c, size, at);
      KidsAre(c, size);
      WritingIs(c);
      var namespaces := Read(mem, metaComponent + 32);
      var i := 0;
      while i < |m.namespaces|
        invariant 0 <= i <= |m.namespaces| && Writing(c)
        invariant RecordsWritten(m1, mem, at, r, f + i, baseAddr)
      {
        ghost var m, end := mem, baseAddr;
        RecordNext(m1, m, at, c, size, f + i, end);
        var entry := WriteMetaNamespace(this.m.namespaces[i], c);
        ghost var m2 := mem;
        mem := mem[namespaces + 8 * i := entry];
        RecordStep(m1, m, m2, mem, at, c, size, f + i, end);
        i := i + 1;
      }
    }

    method WriteSequenceables(ghost m1: Memory, ghost at: nat, ghost c: Context)
      requires Writing(c) && ComponentOf(c, size).ComponentEnd(at) < WORD
      requires Read(mem, metaComponent + 40) == ComponentOf(c, size).Table(at) + 8 * ComponentOf(c, size).FirstOf(1)
      requires RecordsWritten(m1, mem, at, ComponentOf(c, size), ComponentOf(c, size).FirstOf(1), baseAddr)
      modifies this`baseAddr, this`mem, pool`stringOffsets
      ensures Writing(c)
      ensures RecordsWritten(m1, mem, at, ComponentOf(c, size), ComponentOf(c, size).FirstOf(1) + |m.sequenceables|, baseAddr)
    {
      hide *;
      ghost var r := ComponentOf(c, size);
      ghost var f := r.FirstOf(1);
      TablesAre(c, size, at);
      KidsAre(c, size);
      WritingIs(c);
      var sequenceables := Read(mem, metaComponent + 40);
      var i := 0;
      while i < |m.sequenceables|
        invariant 0 <= i <= |m.sequenceables| && Writing(c)
        invariant RecordsWritten(m1, mem, at, r, f + i, baseAddr)
      {
        ghost var m, end := mem, baseAddr;
        RecordNext(m1, m, at, c, size, f + i, end);
        var entry := WriteMetaSequenceable(this.m.sequenceables[i], c);
        ghost var m2 := mem;
        mem := mem[sequenceables + 8 * i := entry];
        RecordStep(m1, m, m2, mem, at, c, size, f + i, end);
        i := i + 1;
      }
    }

    method WriteInterfaces(ghost m1: Memory, ghost at: nat, ghost c: Context)
      requires Writing(c) && ComponentOf(c, size).ComponentEnd(at) < WORD
      requires Read(mem, metaComponent + 48) == ComponentOf(c, size).Table(at) + 8 * ComponentOf(c, size).FirstOf(2)
      requires RecordsWritten(m1, mem, at, ComponentOf(c, size), ComponentOf(c, size).FirstOf(2), baseAddr)
      modifies this`baseAddr, this`mem, pool`stringOffsets
      ensures Writing(c)
      ensures RecordsWritten(m1, mem, at, ComponentOf(c, size), ComponentOf(c, size).FirstOf(2) + |m.interfaces|, baseAddr)
    {
      hide *;
      ghost var r := ComponentOf(c, size);
      ghost var f := r.FirstOf(2);
      TablesAre(c, size, at);
      KidsAre(c, size);
      WritingIs(c);
      var interfaces := Read(mem, metaComponent + 48);
      var i := 0;
      while i < |m.interfaces|
        invariant 0 <= i <= |m.interfaces| && Writing(c)
        invariant RecordsWritten(m1, mem, at, r, f + i, baseAddr)
      {
        ghost var m, end := mem, baseAddr;
        RecordNext(m1, m, at, c, size, f + i, end);
        var entry := WriteMetaInterface(this.m.interfaces[i], c);
        ghost var m2 := mem;
        mem := mem[interfaces + 8 * i := entry];
        RecordStep(m1, m, m2, mem, at, c, size, f + i, end);
        i := i + 1;
      }
    }

    method WriteTypes(ghost m1: Memory, ghost at: nat, ghost c: Context)
      requires Writing(c) && ComponentOf(c, size).ComponentEnd(at) < WORD
      requires Read(mem, metaComponent + 56) == ComponentOf(c, size).Table(at) + 8 * ComponentOf(c, size).FirstOf(3)
      requires RecordsWritten(m1, mem, at, ComponentOf(c, size), ComponentOf(c, size).FirstOf(3), baseAddr)
      modifies this`baseAddr, this`mem, pool`stringOffsets
      ensures Writing(c)
      ensures RecordsWritten(m1, mem, at, ComponentOf(c, size), ComponentOf(c, size).FirstOf(3) + |m.types|, baseAddr)
    {
      hide *;
      ghost var r := ComponentOf(c, size);
      ghost var f := r.FirstOf(3);
      TablesAre(c, size, at);
      KidsAre(c, size);
      WritingIs(c);
      var types := Read(mem, metaComponent + 56);
      var i := 0;
      while i < |m.types|
        invariant 0 <= i <= |m.types| && Writing(c)
        invariant RecordsWritten(m1, mem, at, r, f + i, baseAddr)
      {
        ghost var m, end := mem, baseAddr;
        RecordNext(m1, m, at, c, size, f + i, end);
        var entry := WriteMetaType(this.m.types[i].node, c);
        ghost var m2 := mem;
        mem := mem[types + 8 * i := entry];
        RecordStep(m1, m, m2, mem, at, c, size, f + i, end);
        i := i + 1;
      }
    }

    method WriteMetaComponent(ghost c: Context)
      requires pool.Valid() && c.m == m && c.order == pool.order && Aligned(baseAddr) && Clear(mem, baseAddr)
      requires c.poolBase == ComponentOf(c, size).PoolBase(baseAddr) && Fits(c)
      requires ComponentOf(c, size).ComponentEnd(baseAddr) < WORD
      modifies this`baseAddr, this`mem, this`stringPool, this`metaComponent, pool`stringOffsets
      ensures metaComponent == old(baseAddr) && Writing(c)
      ensures ComponentOf(c, size).ComponentHolds(mem, metaComponent, 0)
      ensures baseAddr == ComponentOf(c, size).ComponentEnd(metaComponent)
      ensures PoolHolds(mem, c.poolBase, PoolText(c.order))
    {
      hide *;
      ghost var m0, at, r := mem, baseAddr, ComponentOf(c, size);
      TablesAre(c, size, at);
      WriteHead(c);
      ghost var m1 := mem;
      RecordsStart(m0, m1, at, c, size);
      PointersStay(m0, m1, mem, at, c, size, r.FirstOf(0), baseAddr);
      WriteNamespaces(m1, at, c);
      PointersStay(m0, m1, mem, at, c, size, r.FirstOf(1), baseAddr);
      WriteSequenceables(m1, at, c);
      PointersStay(m0, m1, mem, at, c, size, r.FirstOf(2), baseAddr);
      WriteInterfaces(m1, at, c);
      PointersStay(m0, m1, mem, at, c, size, r.FirstOf(3), baseAddr);
      WriteTypes(m1, at, c);
      ComponentDone(m0, m1, mem, at, c, size, baseAddr);
    }

    method WriteMetadata(base: nat, ghost c: Context)
      requires pool.Valid() && c == ContextOf(m, pool.order, base) && Aligned(base) && Clear(mem, base)
      requires ComponentOf(c, size).ComponentEnd(base) < WORD
      modifies this`baseAddr, this`mem, this`stringPool, this`metaComponent, pool`stringOffsets
      ensures metaComponent == base && ComponentOf(c, size).ComponentHolds(mem, base, 0)
      ensures baseAddr == ComponentOf(c, size).ComponentEnd(base)
      ensures PoolHolds(mem, c.poolBase, PoolText(c.order))
    {
      ContextFits(m, pool.order, base, size);
      assert c.m == m && c.order == pool.order;
      hide *;
      baseAddr := base;
      WriteMetaComponent(c);
    }

    // `base` is where calloc put the zeroed block, nothing else is in memory yet.
    method Build(base: nat) returns (built: bool)
      requires pool.Valid() && pool.order == [] && pool.stringOffsets == map[] && mem == map[]
      requires NulFree(ModuleStrings(m)) && Aligned(base) && Layout(m, base).ComponentEnd(base) < WORD
      modifies this, pool, pool.data
      ensures built <==> m.IsValid()
      ensures built ==> && metaComponent == base && size == MetadataSize(m)
                        && Layout(m, base).Sized() && Layout(m, base).ComponentHolds(mem, base, 0)
                        && baseAddr == Layout(m, base).ComponentEnd(base)
                        && PoolHolds(mem, Layout(m, base).PoolBase(base), PoolText(AddAll([], ModuleStrings(m))))
    {
      hide *;
      if !m.IsValid() {
        return false;
      }
      BeforeBuild(base);
      size := CalculateMetadataSize(ContextOf(m, AddAll([], ModuleStrings(m)), 0));
      if size > 0 {
        WriteMetadata(base, ContextOf(m, pool.order, base));
        built := true;
      } else {
        built := false;
      }
    }

    lemma BeforeBuild(base: nat)
      requires pool.Valid() && pool.order == [] && pool.stringOffsets == map[]
      ensures Collecting() && Clear(map[], base) && MetadataSize(m) > 0
      ensures var order := AddAll([], ModuleStrings(m)); var c := ContextOf(m, order, base);
              && Layout(m, base) == ComponentOf(c, MetadataSize(m)) && Layout(m, base).Sized()
              && c.poolBase == Layout(m, base).PoolBase(base) && c.order == order
      ensures var c := ContextOf(m, AddAll([], ModuleStrings(m)), 0);
              c.m == m && MetadataSize(m) == Align8(MeasuredBefore(c, 4)) + |PoolText(AddAll([], ModuleStrings(m)))|
    {
      assert Clear(map[], base);
      hide *;
      LayoutIs(m, base);
      EmptyPool();
      SizePositive(m);
      SizeIs(m);
      ContextIs(m);
    }

    lemma EmptyPool()
      requires pool.Valid() && pool.order == [] && pool.stringOffsets == map[]
      ensures Collecting()
    {
    }
  }
}
