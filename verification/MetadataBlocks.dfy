/** The metadata block: records laid out one after another by a bump allocator,
    over a byte-addressed memory in which every field is one cell. A record is a
    Block: its header fields, its index arrays, and the records it points to. */
module MetadataBlocks {

  const WORD := 0x1_0000_0000_0000_0000  // addresses are 64-bit

  function Wrap(v: int): nat {
    v % WORD
  }

  function Align8(v: nat): (r: nat)
    ensures v <= r
  {
    (v + 7) / 8 * 8
  }

  predicate Aligned(v: nat) {
    v % 8 == 0
  }

  lemma AlignFacts(v: nat)
    ensures Aligned(Align8(v)) && Align8(v) < v + 8
    ensures Aligned(v) <==> Align8(v) == v
  {
  }

  type Memory = map<int, int>

  // Memory that was never written reads 0, as calloc leaves it.
  function Read(m: Memory, a: int): int {
    if a in m then m[a] else 0
  }

  datatype Kind = MetaNamespace | MetaSequenceable | MetaInterface | MetaMethod | MetaParameter | MetaType

  function HeaderSize(k: Kind): (n: nat)
    ensures Aligned(n) && n > 0
  {
    match k
    case MetaNamespace => 48
    case MetaSequenceable => 16
    case MetaInterface => 48
    case MetaMethod => 40
    case MetaParameter => 16
    case MetaType => 24
  }

  // Where the header keeps the pointer to index array i.
  function IntArrayOffset(k: Kind, i: nat): nat {
    match k
    case MetaNamespace => if i == 0 then 24 else 32
    case MetaType => 16
    case _ => 0
  }

  predicate HasKids(k: Kind) {
    k.MetaNamespace? || k.MetaInterface? || k.MetaMethod?
  }

  // Where the header keeps the number of inner records and the pointer to their table.
  function CountOffset(k: Kind): nat
    requires HasKids(k)
  {
    match k
    case MetaNamespace => 16
    case MetaInterface => 28
    case MetaMethod => 24
  }

  function TableOffset(k: Kind): nat
    requires HasKids(k)
  {
    if k.MetaNamespace? then 40 else 32
  }

  predicate KidKind(k: Kind, inner: Kind) {
    || (k.MetaNamespace? && inner.MetaNamespace?)
    || (k.MetaInterface? && inner.MetaMethod?)
    || (k.MetaMethod? && inner.MetaParameter?)
  }

  // The offsets of all pointers in a header.
  function HeaderSlots(k: Kind): (s: set<nat>)
    ensures forall o :: o in s ==> o + 8 <= HeaderSize(k)
  {
    match k
    case MetaNamespace => {0, 24, 32, 40}
    case MetaSequenceable => {0, 8}
    case MetaInterface => {0, 8, 16, 32}
    case MetaMethod => {0, 8, 32}
    case MetaParameter => {0}
    case MetaType => {16}
  }

  datatype IntArray = IntArray(cells: seq<int>, bytes: nat)

  datatype Block = Block(kind: Kind, fields: map<nat, int>, ints: seq<IntArray>, kids: seq<Block>)

  // ----- layout -----

  function IntArrayStart(b: nat, blk: Block, i: nat): nat
    requires i <= |blk.ints|
  {
    if i == 0 then Align8(Align8(b) + HeaderSize(blk.kind))
    else Align8(IntArrayStart(b, blk, i - 1) + blk.ints[i - 1].bytes)
  }

  // The table of inner records comes after the index arrays.
  function TableStart(b: nat, blk: Block): nat {
    IntArrayStart(b, blk, |blk.ints|)
  }

  function KidsBase(b: nat, blk: Block): nat {
    if HasKids(blk.kind) then TableStart(b, blk) + 8 * |blk.kids|
    else if blk.ints == [] then Align8(b) + HeaderSize(blk.kind)
    else IntArrayStart(b, blk, |blk.ints| - 1) + blk.ints[|blk.ints| - 1].bytes
  }

  function End(b: nat, blk: Block): nat
    decreases blk
  {
    KidsEnd(KidsBase(b, blk), blk.kids)
  }

  function KidsEnd(b: nat, kids: seq<Block>): nat
    decreases kids
  {
    if kids == [] then b else End(KidsEnd(b, kids[..|kids| - 1]), kids[|kids| - 1])
  }

  function KidBase(b: nat, kids: seq<Block>, i: nat): nat
    requires i <= |kids|
  {
    KidsEnd(b, kids[..i])
  }

  // Only namespaces and types have index arrays, and every array that ends a
  // record fills whole words.
  predicate OwnSized(blk: Block) {
    && |blk.ints| == (if blk.kind.MetaNamespace? then 2 else if blk.kind.MetaType? && blk.ints != [] then 1 else 0)
    && (blk.kind.MetaType? && blk.ints != [] ==> blk.ints[0].bytes % 8 == 0)
    && (forall i :: 0 <= i < |blk.ints| ==> 4 * |blk.ints[i].cells| <= blk.ints[i].bytes)
    && (!HasKids(blk.kind) ==> blk.kids == [])
    && (HasKids(blk.kind) ==> CountOffset(blk.kind) in blk.fields && blk.fields[CountOffset(blk.kind)] == |blk.kids|)
    && (forall o :: o in blk.fields ==> o < HeaderSize(blk.kind))
    && (forall i :: 0 <= i < |blk.ints| ==> IntArrayOffset(blk.kind, i) !in blk.fields)
    && (HasKids(blk.kind) ==> TableOffset(blk.kind) !in blk.fields)
  }

  predicate WellSized(blk: Block)
    decreases blk
  {
    OwnSized(blk) && forall i :: 0 <= i < |blk.kids| ==> KidKind(blk.kind, blk.kids[i].kind) && WellSized(blk.kids[i])
  }

  lemma ArraysAscend(b: nat, blk: Block)
    requires WellSized(blk)
    ensures Align8(b) + HeaderSize(blk.kind) <= KidsBase(b, blk)
    ensures forall i :: 0 <= i < |blk.ints| ==>
              Align8(b) + HeaderSize(blk.kind) <= IntArrayStart(b, blk, i)
              && IntArrayStart(b, blk, i) + blk.ints[i].bytes <= KidsBase(b, blk)
    ensures HasKids(blk.kind) ==> Align8(b) + HeaderSize(blk.kind) <= TableStart(b, blk)
    ensures HasKids(blk.kind) ==> forall i :: 0 <= i < |blk.ints| ==>
              IntArrayStart(b, blk, i) + blk.ints[i].bytes <= TableStart(b, blk)
  {
    assert OwnSized(blk);
    hide Align8, Aligned, IntArrayStart, WellSized, HeaderSize, CountOffset, TableOffset, IntArrayOffset;
    ArrayChain(b, blk, |blk.ints|);
  }

  lemma {:induction false} ArrayChain(b: nat, blk: Block, i: nat)
    requires i <= |blk.ints|
    ensures Align8(b) + HeaderSize(blk.kind) <= IntArrayStart(b, blk, i)
    ensures forall j :: 0 <= j < i ==>
              && Align8(b) + HeaderSize(blk.kind) <= IntArrayStart(b, blk, j)
              && IntArrayStart(b, blk, j) + blk.ints[j].bytes <= IntArrayStart(b, blk, i)
    decreases i
  {
    hide HeaderSize, Align8, Aligned;
    if i > 0 {
      ArrayChain(b, blk, i - 1);
    }
  }

  lemma ArraysAligned(b: nat, blk: Block)
    requires WellSized(blk)
    ensures forall i :: 0 <= i <= |blk.ints| ==> Aligned(IntArrayStart(b, blk, i))
    ensures Aligned(KidsBase(b, blk))
  {
    assert OwnSized(blk);
    assert Aligned(8 * |blk.kids|);
    assert blk.kind.MetaType? && blk.ints != [] ==> |blk.ints| == 1 && Aligned(blk.ints[0].bytes);
    hide Aligned, Align8, WellSized, CountOffset, TableOffset, IntArrayOffset;
    forall i | 0 <= i <= |blk.ints| ensures Aligned(IntArrayStart(b, blk, i)) {
      hide OwnSized;
      if i == 0 {
        AlignFacts(Align8(b) + HeaderSize(blk.kind));
      } else {
        AlignFacts(IntArrayStart(b, blk, i - 1) + blk.ints[i - 1].bytes);
      }
    }
    AlignFacts(b);
    var at := if HasKids(blk.kind) || blk.ints == [] then Align8(b) else IntArrayStart(b, blk, |blk.ints| - 1);
    var more := if HasKids(blk.kind) then 8 * |blk.kids| else if blk.ints == [] then HeaderSize(blk.kind) else blk.ints[0].bytes;
    AlignedSum(if HasKids(blk.kind) then TableStart(b, blk) else at, more);
  }

  lemma AlignedSum(v: nat, w: nat)
    requires Aligned(v) && Aligned(w)
    ensures Aligned(v + w)
  {
  }

  lemma {:induction false} EndGrows(b: nat, blk: Block)
    requires WellSized(blk)
    ensures KidsBase(b, blk) <= End(b, blk)
    decreases blk
  {
    KidsEndGrows(KidsBase(b, blk), blk.kids);
  }

  lemma {:induction false} KidsEndGrows(b: nat, kids: seq<Block>)
    requires forall k :: k in kids ==> WellSized(k)
    ensures b <= KidsEnd(b, kids)
    decreases kids
  {
    if kids != [] {
      var init, last := kids[..|kids| - 1], kids[|kids| - 1];
      KidsEndGrows(b, init);
      ArraysAscend(KidsEnd(b, init), last);
      EndGrows(KidsEnd(b, init), last);
    }
  }

  lemma NextKid(b: nat, kids: seq<Block>, i: nat)
    requires i < |kids|
    ensures KidBase(b, kids, i + 1) == End(KidBase(b, kids, i), kids[i])
  {
    var upto := kids[..i + 1];
    assert upto[..|upto| - 1] == kids[..i];
  }

  lemma {:induction false} KidBasesAscend(b: nat, kids: seq<Block>, i: nat, j: nat)
    requires i <= j <= |kids|
    requires forall k :: k in kids ==> WellSized(k)
    ensures b <= KidBase(b, kids, i) <= KidBase(b, kids, j) <= KidsEnd(b, kids)
    decreases |kids| - i
  {
    if i == |kids| {
      assert kids[..i] == kids;
      KidsEndGrows(b, kids);
    } else {
      if i == j {
        KidsEndGrows(b, kids[..i]);
      }
      NextKid(b, kids, i);
      ArraysAscend(KidBase(b, kids, i), kids[i]);
      EndGrows(KidBase(b, kids, i), kids[i]);
      KidBasesAscend(b, kids, i + 1, if i == j then i + 1 else j);
      KidsEndGrows(b, kids[..i]);
    }
  }

  // ----- alignment and translation -----

  lemma {:induction false} EndAligned(b: nat, blk: Block)
    requires WellSized(blk)
    ensures Aligned(End(b, blk))
    decreases blk
  {
    hide Aligned, KidsBase;
    ArraysAligned(b, blk);
    KidsEndAligned(KidsBase(b, blk), blk.kids);
  }

  lemma {:induction false} KidsEndAligned(b: nat, kids: seq<Block>)
    requires forall k :: k in kids ==> WellSized(k)
    ensures Aligned(b) || kids != [] ==> Aligned(KidsEnd(b, kids))
    decreases kids
  {
    hide Aligned;
    if kids != [] {
      EndAligned(KidsEnd(b, kids[..|kids| - 1]), kids[|kids| - 1]);
    }
  }

  lemma AlignShift(v: nat, d: nat)
    requires Aligned(d)
    ensures Align8(v + d) == Align8(v) + d
  {
  }

  lemma {:induction false} IntArrayShift(b: nat, d: nat, blk: Block, i: nat)
    requires Aligned(d) && i <= |blk.ints|
    ensures IntArrayStart(b + d, blk, i) == IntArrayStart(b, blk, i) + d
    decreases i
  {
    hide Align8, Aligned, HeaderSize;
    AlignShift(b, d);
    if i == 0 {
      AlignShift(Align8(b) + HeaderSize(blk.kind), d);
    } else {
      IntArrayShift(b, d, blk, i - 1);
      AlignShift(IntArrayStart(b, blk, i - 1) + blk.ints[i - 1].bytes, d);
    }
  }

  // Moving a record by a multiple of 8 moves everything it contains by as much.
  lemma {:induction false} EndShift(b: nat, d: nat, blk: Block)
    requires Aligned(d)
    ensures KidsBase(b + d, blk) == KidsBase(b, blk) + d
    ensures End(b + d, blk) == End(b, blk) + d
    decreases blk
  {
    hide Align8, Aligned, HeaderSize, IntArrayStart;
    AlignShift(b, d);
    IntArrayShift(b, d, blk, |blk.ints|);
    if blk.ints != [] {
      IntArrayShift(b, d, blk, |blk.ints| - 1);
    }
    KidsEndShift(KidsBase(b, blk), d, blk.kids);
  }

  lemma {:induction false} KidsEndShift(b: nat, d: nat, kids: seq<Block>)
    requires Aligned(d)
    ensures KidsEnd(b + d, kids) == KidsEnd(b, kids) + d
    decreases kids
  {
    if kids != [] {
      KidsEndShift(b, d, kids[..|kids| - 1]);
      EndShift(KidsEnd(b, kids[..|kids| - 1]), d, kids[|kids| - 1]);
    }
  }

  lemma {:induction false} StartAligned(b: nat, kids: seq<Block>)
    requires kids != []
    ensures KidsEnd(Align8(b), kids) == KidsEnd(b, kids)
  {
    if |kids| == 1 {
      assert kids[..0] == [];
      assert Align8(Align8(b)) == Align8(b);
      SameStart(Align8(b), b, kids[0]);
    } else {
      StartAligned(b, kids[..|kids| - 1]);
    }
  }

  lemma {:induction false} SameStart(a: nat, b: nat, blk: Block)
    requires Align8(a) == Align8(b)
    ensures End(a, blk) == End(b, blk)
  {
    SameArrays(a, b, blk, |blk.ints|);
    if blk.ints != [] {
      SameArrays(a, b, blk, |blk.ints| - 1);
    }
  }

  lemma {:induction false} SameArrays(a: nat, b: nat, blk: Block, i: nat)
    requires Align8(a) == Align8(b) && i <= |blk.ints|
    ensures IntArrayStart(a, blk, i) == IntArrayStart(b, blk, i)
    decreases i
  {
    if i > 0 {
      SameArrays(a, b, blk, i - 1);
    }
  }

  // ----- contents -----

  predicate SameCells(m: Memory, m': Memory, lo: int, hi: int) {
    forall a :: lo <= a < hi ==> Read(m', a) == Read(m, a)
  }

  predicate IntsHold(m: Memory, start: int, cells: seq<int>) {
    forall i :: 0 <= i < |cells| ==> Read(m, start + 4 * i) == cells[i]
  }

  // The memory holds the record, each of its pointers off by `d`.
  ghost predicate HeaderHolds(m: Memory, b: nat, blk: Block, d: int) {
    && (forall o :: o in blk.fields ==>
          Read(m, Align8(b) + o) == if o in HeaderSlots(blk.kind) then Wrap(blk.fields[o] + d) else blk.fields[o])
    && (forall i :: 0 <= i < |blk.ints| ==>
          && Read(m, Align8(b) + IntArrayOffset(blk.kind, i)) == Wrap(IntArrayStart(b, blk, i) + d)
          && IntsHold(m, IntArrayStart(b, blk, i), blk.ints[i].cells))
    && (HasKids(blk.kind) ==> Read(m, Align8(b) + TableOffset(blk.kind)) == Wrap(TableStart(b, blk) + d))
  }

  // A table of pointers to consecutive records, the first allocated from `kb`.
  ghost predicate TableHolds(m: Memory, table: nat, kb: nat, kids: seq<Block>, d: int) {
    forall i :: 0 <= i < |kids| ==> Read(m, table + 8 * i) == Wrap(Align8(KidBase(kb, kids, i)) + d)
  }

  ghost predicate Holds(m: Memory, b: nat, blk: Block, d: int)
    decreases blk
  {
    && HeaderHolds(m, b, blk, d)
    && (HasKids(blk.kind) ==> TableHolds(m, TableStart(b, blk), KidsBase(b, blk), blk.kids, d))
    && KidsHold(m, KidsBase(b, blk), blk.kids, d)
  }

  ghost predicate KidsHold(m: Memory, kb: nat, kids: seq<Block>, d: int)
    decreases kids
  {
    kids == [] || (KidsHold(m, kb, kids[..|kids| - 1], d)
                   && Holds(m, KidsEnd(kb, kids[..|kids| - 1]), kids[|kids| - 1], d))
  }

  lemma {:induction false} KidHolds(m: Memory, kb: nat, kids: seq<Block>, d: int, i: nat)
    requires KidsHold(m, kb, kids, d) && i < |kids|
    ensures Holds(m, KidBase(kb, kids, i), kids[i], d)
    decreases |kids|
  {
    var init := kids[..|kids| - 1];
    if i < |init| {
      KidHolds(m, kb, init, d, i);
      assert init[..i] == kids[..i];
    }
  }

  lemma FieldsFrame(m: Memory, m': Memory, b: nat, blk: Block)
    requires WellSized(blk) && SameCells(m, m', b, KidsBase(b, blk))
    ensures forall o :: o in blk.fields ==> Read(m', Align8(b) + o) == Read(m, Align8(b) + o)
    ensures HasKids(blk.kind) ==> Read(m', Align8(b) + TableOffset(blk.kind)) == Read(m, Align8(b) + TableOffset(blk.kind))
  {
    ArraysAscend(b, blk);
    assert OwnSized(blk);
    hide Align8, Aligned, IntArrayStart, KidsBase, TableStart, WellSized, HeaderSlots;
  }

  lemma ArrayFrame(m: Memory, m': Memory, b: nat, blk: Block, i: nat)
    requires WellSized(blk) && SameCells(m, m', b, KidsBase(b, blk)) && i < |blk.ints|
    ensures Read(m', Align8(b) + IntArrayOffset(blk.kind, i)) == Read(m, Align8(b) + IntArrayOffset(blk.kind, i))
    ensures IntsHold(m, IntArrayStart(b, blk, i), blk.ints[i].cells) ==>
              IntsHold(m', IntArrayStart(b, blk, i), blk.ints[i].cells)
  {
    ArraysAscend(b, blk);
    assert OwnSized(blk);
    IntsFrame(m, m', b, KidsBase(b, blk), IntArrayStart(b, blk, i), blk.ints[i].cells);
    assert IntArrayOffset(blk.kind, i) < HeaderSize(blk.kind);
    hide Align8, Aligned, IntArrayStart, KidsBase, TableStart, WellSized, OwnSized, IntsHold, IntArrayOffset;
  }

  lemma IntsFrame(m: Memory, m': Memory, lo: nat, hi: nat, start: nat, cells: seq<int>)
    requires SameCells(m, m', lo, hi) && lo <= start && start + 4 * |cells| <= hi
    ensures IntsHold(m, start, cells) ==> IntsHold(m', start, cells)
  {
  }

  lemma TableFrame(m: Memory, m': Memory, table: nat, kb: nat, kids: seq<Block>, d: int)
    requires SameCells(m, m', table, table + 8 * |kids|) && TableHolds(m, table, kb, kids, d)
    ensures TableHolds(m', table, kb, kids, d)
  {
  }

  lemma HeaderFrame(m: Memory, m': Memory, b: nat, blk: Block, d: int)
    requires WellSized(blk) && SameCells(m, m', b, KidsBase(b, blk)) && HeaderHolds(m, b, blk, d)
    ensures HeaderHolds(m', b, blk, d)
  {
    FieldsFrame(m, m', b, blk);
    forall i | 0 <= i < |blk.ints|
      ensures Read(m', Align8(b) + IntArrayOffset(blk.kind, i)) == Wrap(IntArrayStart(b, blk, i) + d)
      ensures IntsHold(m', IntArrayStart(b, blk, i), blk.ints[i].cells)
    {
      ArrayFrame(m, m', b, blk, i);
    }
  }

  // Whether a record is held depends only on the cells it occupies.
  lemma {:induction false} HoldsFrame(m: Memory, m': Memory, b: nat, blk: Block, d: int)
    requires WellSized(blk) && Holds(m, b, blk, d)
    requires SameCells(m, m', b, End(b, blk))
    ensures Holds(m', b, blk, d)
    decreases blk
  {
    ArraysAscend(b, blk);
    EndGrows(b, blk);
    HeaderFrame(m, m', b, blk, d);
    if HasKids(blk.kind) {
      TableFrame(m, m', TableStart(b, blk), KidsBase(b, blk), blk.kids, d);
    }
    KidsHoldFrame(m, m', KidsBase(b, blk), blk.kids, d);
  }

  lemma {:induction false} KidsHoldFrame(m: Memory, m': Memory, kb: nat, kids: seq<Block>, d: int)
    requires (forall k :: k in kids ==> WellSized(k)) && KidsHold(m, kb, kids, d)
    requires SameCells(m, m', kb, KidsEnd(kb, kids))
    ensures KidsHold(m', kb, kids, d)
    decreases kids
  {
    if kids != [] {
      var init, last := kids[..|kids| - 1], kids[|kids| - 1];
      KidsEndGrows(kb, init);
      ArraysAscend(KidsEnd(kb, init), last);
      EndGrows(KidsEnd(kb, init), last);
      KidsHoldFrame(m, m', kb, init, d);
      HoldsFrame(m, m', KidsEnd(kb, init), last, d);
    }
  }

  // ----- regions: every record header, index array and pointer table -----

  datatype Region = Region(start: nat, bytes: nat)

  // Regions in ascending order, 8-aligned, none reaching into the next.
  ghost predicate Chained(rs: seq<Region>, lo: nat, hi: nat) {
    && lo <= hi
    && (forall i :: 0 <= i < |rs| ==> Aligned(rs[i].start) && lo <= rs[i].start && rs[i].start + rs[i].bytes <= hi)
    && (forall i, j :: 0 <= i < j < |rs| ==> rs[i].start + rs[i].bytes <= rs[j].start)
  }

  function Regions(b: nat, blk: Block): seq<Region>
    decreases blk
  {
    [Region(Align8(b), HeaderSize(blk.kind))]
    + seq(|blk.ints|, i requires 0 <= i < |blk.ints| => Region(IntArrayStart(b, blk, i), blk.ints[i].bytes))
    + (if HasKids(blk.kind) then [Region(TableStart(b, blk), 8 * |blk.kids|)] else [])
    + KidsRegions(KidsBase(b, blk), blk.kids)
  }

  function KidsRegions(kb: nat, kids: seq<Block>): seq<Region>
    decreases kids
  {
    if kids == [] then []
    else KidsRegions(kb, kids[..|kids| - 1]) + Regions(KidsEnd(kb, kids[..|kids| - 1]), kids[|kids| - 1])
  }

  lemma ChainJoins(rs: seq<Region>, ss: seq<Region>, lo: nat, mid: nat, hi: nat)
    requires Chained(rs, lo, mid) && Chained(ss, mid, hi)
    ensures Chained(rs + ss, lo, hi)
  {
  }

  lemma {:induction false} RegionsChained(b: nat, blk: Block)
    requires WellSized(blk)
    ensures Chained(Regions(b, blk), b, End(b, blk))
    decreases blk
  {
    ArraysAscend(b, blk);
    ArraysAligned(b, blk);
    AlignFacts(b);
    assert OwnSized(blk);
    hide Align8, Aligned, IntArrayStart, KidsBase, TableStart, WellSized, HeaderSize, CountOffset, TableOffset, IntArrayOffset;
    var own := [Region(Align8(b), HeaderSize(blk.kind))]
      + seq(|blk.ints|, i requires 0 <= i < |blk.ints| => Region(IntArrayStart(b, blk, i), blk.ints[i].bytes))
      + (if HasKids(blk.kind) then [Region(TableStart(b, blk), 8 * |blk.kids|)] else []);
    assert |blk.ints| <= 2;
    assert Chained(own, b, KidsBase(b, blk));
    KidsRegionsChained(KidsBase(b, blk), blk.kids);
    ChainJoins(own, KidsRegions(KidsBase(b, blk), blk.kids), b, KidsBase(b, blk), End(b, blk));
  }

  lemma {:induction false} KidsRegionsChained(kb: nat, kids: seq<Block>)
    requires forall k :: k in kids ==> WellSized(k)
    ensures Chained(KidsRegions(kb, kids), kb, KidsEnd(kb, kids))
    decreases kids
  {
    if kids != [] {
      var init, last := kids[..|kids| - 1], kids[|kids| - 1];
      KidsRegionsChained(kb, init);
      RegionsChained(KidsEnd(kb, init), last);
      ChainJoins(KidsRegions(kb, init), Regions(KidsEnd(kb, init), last), kb, KidsEnd(kb, init), KidsEnd(kb, kids));
    }
  }
}
