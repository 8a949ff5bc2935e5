/** Relocation: the serializer turns every pointer of a metadata block into its
    distance from the block's base, in place, and the deserializer turns the
    distances back into pointers at the block's new base. */
module MetadataSerializer {
  import opened MetadataBlocks

  // The cells of `slots` moved by `d`, all others unchanged.
  ghost predicate Shifted(m: Memory, m': Memory, slots: set<int>, d: int) {
    forall a :: Read(m', a) == if a in slots then Wrap(Read(m, a) + d) else Read(m, a)
  }

  // ----- the pointer slots of a record and of everything below it -----

  ghost function Entries(table: int, n: nat): (s: set<int>)
    ensures forall a :: a in s ==> table <= a < table + 8 * n
  {
    if n == 0 then {} else Entries(table, n - 1) + {table + 8 * (n - 1)}
  }

  lemma EntryIn(table: int, n: nat, j: nat)
    ensures table + 8 * j in Entries(table, n) <==> j < n
  {
  }

  ghost function At(b: nat, offsets: set<nat>): set<int> {
    set o | o in offsets :: Align8(b) + o
  }

  ghost function Slots(b: nat, blk: Block): set<int>
    decreases blk
  {
    At(b, HeaderSlots(blk.kind))
    + (if HasKids(blk.kind) then Entries(TableStart(b, blk), |blk.kids|) else {})
    + KidsSlots(KidsBase(b, blk), blk.kids)
  }

  ghost function KidsSlots(kb: nat, kids: seq<Block>): set<int>
    decreases kids
  {
    if kids == [] then {}
    else KidsSlots(kb, kids[..|kids| - 1]) + Slots(KidsEnd(kb, kids[..|kids| - 1]), kids[|kids| - 1])
  }

  lemma {:induction false} SlotsWithin(b: nat, blk: Block)
    requires WellSized(blk)
    ensures forall a :: a in Slots(b, blk) ==> Align8(b) <= a < End(b, blk)
    decreases blk
  {
    ArraysAscend(b, blk);
    EndGrows(b, blk);
    KidsSlotsWithin(KidsBase(b, blk), blk.kids);
  }

  lemma {:induction false} KidsSlotsWithin(kb: nat, kids: seq<Block>)
    requires forall k :: k in kids ==> WellSized(k)
    ensures forall a :: a in KidsSlots(kb, kids) ==> kb <= a < KidsEnd(kb, kids)
    decreases kids
  {
    if kids != [] {
      var init, last := kids[..|kids| - 1], kids[|kids| - 1];
      KidsEndGrows(kb, init);
      ArraysAscend(KidsEnd(kb, init), last);
      EndGrows(KidsEnd(kb, init), last);
      KidsSlotsWithin(kb, init);
      SlotsWithin(KidsEnd(kb, init), last);
    }
  }

  lemma ShiftJoins(m: Memory, m1: Memory, m2: Memory, s1: set<int>, s2: set<int>, d: int)
    requires Shifted(m, m1, s1, d) && Shifted(m1, m2, s2, d) && s1 !! s2
    ensures Shifted(m, m2, s1 + s2, d)
  {
  }

  lemma WrapWrap(v: int, d: int)
    ensures Wrap(Wrap(v) + d) == Wrap(v + d)
    ensures 0 <= v < WORD ==> Wrap(v) == v
  {
  }

  lemma NoSlots(m: Memory, d: int)
    ensures Shifted(m, m, {}, d)
  {
  }

  lemma NextSlot(m0: Memory, m: Memory, m': Memory, slots: set<int>, a: int, slots': set<int>, d: int)
    requires Shifted(m0, m, slots, d) && a !in slots && slots' == slots + {a}
    requires m' == m[a := Wrap(Read(m, a) + d)]
    ensures Shifted(m0, m', slots', d)
  {
  }

  // ----- progress through a table of records -----

  // The slots adjusted so far: `own` below the table, `e` table entries, the
  // first `i` records.
  ghost function Done(own: set<int>, table: nat, e: nat, kb: nat, kids: seq<Block>, i: nat): set<int>
    requires i <= |kids|
  {
    own + Entries(table, e) + KidsSlots(kb, kids[..i])
  }

  ghost predicate TableAt(own: set<int>, table: nat, kb: nat, kids: seq<Block>) {
    && (forall a :: a in own ==> a < table)
    && table + 8 * |kids| <= kb
    && KidsEnd(kb, kids) < WORD
    && forall k :: k in kids ==> WellSized(k)
  }

  lemma DoneBelow(own: set<int>, table: nat, e: nat, kb: nat, kids: seq<Block>, i: nat)
    requires TableAt(own, table, kb, kids) && i <= |kids| && e <= |kids|
    ensures forall a :: a in Done(own, table, e, kb, kids, i) ==> a < KidBase(kb, kids, i)
    ensures e < |kids| ==> table + 8 * e !in Done(own, table, e, kb, kids, i)
    ensures kb <= KidBase(kb, kids, i) <= KidsEnd(kb, kids)
  {
    KidsSlotsWithin(kb, kids[..i]);
    KidBasesAscend(kb, kids, i, |kids|);
  }

  // Record i has not been reached: its table entry and its cells are as they were.
  lemma NotReached(m0: Memory, m: Memory, own: set<int>, table: nat, e: nat, kb: nat, kids: seq<Block>, i: nat,
                   d: int, delta: int)
    requires TableAt(own, table, kb, kids) && i < |kids| && i <= e <= i + 1
    requires TableHolds(m0, table, kb, kids, d) && KidsHold(m0, kb, kids, d)
    requires Shifted(m0, m, Done(own, table, e, kb, kids, i), delta)
    ensures e == i ==> Read(m, table + 8 * i) == Read(m0, table + 8 * i)
    ensures Read(m0, table + 8 * i) == Wrap(Align8(KidBase(kb, kids, i)) + d)
    ensures Holds(m, KidBase(kb, kids, i), kids[i], d)
    ensures WellSized(kids[i]) && End(KidBase(kb, kids, i), kids[i]) < WORD
    ensures Align8(KidBase(kb, kids, i)) < WORD
  {
    var kid := KidBase(kb, kids, i);
    DoneBelow(own, table, e, kb, kids, i);
    KidHolds(m0, kb, kids, d, i);
    assert kids[i] in kids;
    HoldsFrame(m0, m, kid, kids[i], d);
    NextKid(kb, kids, i);
    KidBasesAscend(kb, kids, i + 1, |kids|);
    ArraysAscend(kid, kids[i]);
    EndGrows(kid, kids[i]);
  }

  // Adjusting entry i, before or after its record, completes step i.
  lemma EntryDone(m0: Memory, m: Memory, m': Memory, own: set<int>, table: nat, kb: nat, kids: seq<Block>, i: nat,
                  j: nat, delta: int)
    requires TableAt(own, table, kb, kids) && i < |kids| && i <= j <= i + 1
    requires Shifted(m0, m, Done(own, table, i, kb, kids, j), delta)
    requires m' == m[table + 8 * i := Wrap(Read(m0, table + 8 * i) + delta)]
    ensures Shifted(m0, m', Done(own, table, i + 1, kb, kids, j), delta)
  {
    var was, now := Done(own, table, i, kb, kids, j), Done(own, table, i + 1, kb, kids, j);
    DoneBelow(own, table, i, kb, kids, j);
    assert now == was + {table + 8 * i};
  }

  lemma RecordDone(m0: Memory, m: Memory, m': Memory, own: set<int>, table: nat, e: nat, kb: nat, kids: seq<Block>,
                   i: nat, delta: int)
    requires TableAt(own, table, kb, kids) && i < |kids| && e <= |kids|
    requires Shifted(m0, m, Done(own, table, e, kb, kids, i), delta)
    requires Shifted(m, m', Slots(KidBase(kb, kids, i), kids[i]), delta)
    ensures Shifted(m0, m', Done(own, table, e, kb, kids, i + 1), delta)
  {
    assert kids[i] in kids;
    DoneBelow(own, table, e, kb, kids, i);
    SlotsWithin(KidBase(kb, kids, i), kids[i]);
    var was, more := Done(own, table, e, kb, kids, i), Slots(KidBase(kb, kids, i), kids[i]);
    forall a | a in was ensures a !in more {
    }
    var upto := kids[..i + 1];
    assert upto[..|upto| - 1] == kids[..i];
    ShiftJoins(m0, m, m', was, more, delta);
    assert Done(own, table, e, kb, kids, i + 1) == was + more;
  }

  // Cells below the table that are not among the adjusted header pointers keep their value.
  lemma CellsBelow(m0: Memory, m: Memory, own: set<int>, table: nat, e: nat, kb: nat, kids: seq<Block>, i: nat,
                   delta: int)
    requires TableAt(own, table, kb, kids) && i <= |kids| && e <= |kids|
    requires Shifted(m0, m, Done(own, table, e, kb, kids, i), delta)
    ensures forall a :: a < table && a !in own ==> Read(m, a) == Read(m0, a)
    ensures forall a :: a < table && a in own ==> Read(m, a) == Wrap(Read(m0, a) + delta)
  {
    KidsSlotsWithin(kb, kids[..i]);
  }

  lemma RecordFollowed(m0: Memory, m: Memory, m1: Memory, own: set<int>, table: nat, kb: nat, kids: seq<Block>, i: nat,
                       delta: int)
    requires TableAt(own, table, kb, kids) && i < |kids|
    requires Shifted(m0, m, Done(own, table, i, kb, kids, i), delta)
    requires Shifted(m, m1, Slots(KidBase(kb, kids, i), kids[i]), delta)
    ensures Shifted(m0, m1, Done(own, table, i, kb, kids, i + 1), delta)
    ensures forall a :: a < table && a !in own ==> Read(m1, a) == Read(m0, a)
  {
    RecordDone(m0, m, m1, own, table, i, kb, kids, i, delta);
    CellsBelow(m0, m1, own, table, i, kb, kids, i + 1, delta);
  }

  // Follow, then rewrite: record i is adjusted first, its table entry after it.
  lemma FollowThenRewrite(m0: Memory, m: Memory, m1: Memory, m2: Memory, own: set<int>, table: nat, kb: nat,
                          kids: seq<Block>, i: nat, delta: int)
    requires TableAt(own, table, kb, kids) && i < |kids|
    requires Shifted(m0, m, Done(own, table, i, kb, kids, i), delta)
    requires Shifted(m, m1, Slots(KidBase(kb, kids, i), kids[i]), delta)
    requires m2 == m1[table + 8 * i := Wrap(Read(m0, table + 8 * i) + delta)]
    ensures Shifted(m0, m2, Done(own, table, i + 1, kb, kids, i + 1), delta)
    ensures forall a :: a < table && a !in own ==> Read(m2, a) == Read(m0, a)
  {
    hide Shifted, Done, Slots, TableAt, Wrap;
    RecordDone(m0, m, m1, own, table, i, kb, kids, i, delta);
    EntryDone(m0, m1, m2, own, table, kb, kids, i, i + 1, delta);
    CellsBelow(m0, m2, own, table, i + 1, kb, kids, i + 1, delta);
  }

  // Rewrite, then follow: the table entry is adjusted first.
  lemma RewriteThenFollow(m0: Memory, m: Memory, m1: Memory, m2: Memory, own: set<int>, table: nat, kb: nat,
                          kids: seq<Block>, i: nat, delta: int)
    requires TableAt(own, table, kb, kids) && i < |kids|
    requires Shifted(m0, m, Done(own, table, i, kb, kids, i), delta)
    requires m1 == m[table + 8 * i := Wrap(Read(m0, table + 8 * i) + delta)]
    requires Shifted(m1, m2, Slots(KidBase(kb, kids, i), kids[i]), delta)
    ensures Shifted(m0, m2, Done(own, table, i + 1, kb, kids, i + 1), delta)
    ensures forall a :: a < table && a !in own ==> Read(m2, a) == Read(m0, a)
    ensures forall a :: a < table && a in own ==> Read(m2, a) == Read(m, a)
  {
    hide Shifted, Done, Slots, TableAt, Wrap;
    CellsBelow(m0, m, own, table, i, kb, kids, i, delta);
    EntryDone(m0, m, m1, own, table, kb, kids, i, i, delta);
    RecordDone(m0, m1, m2, own, table, i + 1, kb, kids, i, delta);
    CellsBelow(m0, m2, own, table, i + 1, kb, kids, i + 1, delta);
  }

  // What Serialize finds at record i: a pointer to it, and the record itself.
  lemma Found(m0: Memory, m: Memory, own: set<int>, table: nat, kb: nat, kids: seq<Block>, i: nat, delta: int)
    requires TableAt(own, table, kb, kids) && i < |kids|
    requires TableHolds(m0, table, kb, kids, 0) && KidsHold(m0, kb, kids, 0)
    requires Shifted(m0, m, Done(own, table, i, kb, kids, i), delta)
    ensures Read(m, table + 8 * i) == Read(m0, table + 8 * i) == Align8(KidBase(kb, kids, i))
    ensures WellSized(kids[i]) && End(KidBase(kb, kids, i), kids[i]) < WORD
    ensures Holds(m, KidBase(kb, kids, i), kids[i], 0)
  {
    hide Shifted, Done, TableAt, Wrap, Holds, KidsHold, TableHolds, WellSized, End;
    NotReached(m0, m, own, table, i, kb, kids, i, 0, delta);
    WrapWrap(Align8(KidBase(kb, kids, i)), 0);
  }

  // What Deserialize finds once it has rewritten entry i.
  lemma FoundRewritten(m0: Memory, m: Memory, m1: Memory, own: set<int>, table: nat, kb: nat, kids: seq<Block>, i: nat,
                       base: int)
    requires TableAt(own, table, kb, kids) && i < |kids|
    requires TableHolds(m0, table, kb, kids, -base) && KidsHold(m0, kb, kids, -base)
    requires Shifted(m0, m, Done(own, table, i, kb, kids, i), base)
    requires m1 == m[table + 8 * i := Wrap(Read(m, table + 8 * i) + base)]
    ensures Read(m, table + 8 * i) == Read(m0, table + 8 * i)
    ensures Read(m1, table + 8 * i) == Align8(KidBase(kb, kids, i))
    ensures WellSized(kids[i]) && End(KidBase(kb, kids, i), kids[i]) < WORD
    ensures Holds(m1, KidBase(kb, kids, i), kids[i], -base)
  {
    hide Shifted, Done, TableAt, Wrap, Holds, KidsHold, TableHolds, WellSized, End, KidBase;
    NotReached(m0, m, own, table, i, kb, kids, i, -base, base);
    EntryDone(m0, m, m1, own, table, kb, kids, i, i, base);
    NotReached(m0, m1, own, table, i + 1, kb, kids, i, -base, base);
    WrapWrap(Align8(KidBase(kb, kids, i)) - base, base);
    WrapWrap(Align8(KidBase(kb, kids, i)), 0);
  }

  // A record with a table: where things are, and what its header says about them.
  lemma TableFacts(m: Memory, b: nat, blk: Block, d: int, own: set<int>)
    requires WellSized(blk) && HasKids(blk.kind) && Holds(m, b, blk, d) && End(b, blk) < WORD
    requires forall a :: a in own ==> a < Align8(b) + HeaderSize(blk.kind)
    ensures TableAt(own, TableStart(b, blk), KidsBase(b, blk), blk.kids)
    ensures Align8(b) + HeaderSize(blk.kind) <= TableStart(b, blk) < WORD
    ensures TableHolds(m, TableStart(b, blk), KidsBase(b, blk), blk.kids, d)
    ensures KidsHold(m, KidsBase(b, blk), blk.kids, d)
    ensures Read(m, Align8(b) + CountOffset(blk.kind)) == |blk.kids|
    ensures Read(m, Align8(b) + TableOffset(blk.kind)) == Wrap(TableStart(b, blk) + d)
    ensures Done(own, TableStart(b, blk), 0, KidsBase(b, blk), blk.kids, 0) == own
    ensures forall i :: 0 <= i < |blk.kids| ==> KidKind(blk.kind, blk.kids[i].kind)
  {
    ArraysAscend(b, blk);
    EndGrows(b, blk);
  }

  lemma PointersOf(b: nat, blk: Block)
    requires HasKids(blk.kind)
    ensures At(b, HeaderSlots(blk.kind)) ==
              match blk.kind
              case MetaNamespace => {Align8(b), Align8(b) + 24, Align8(b) + 32, Align8(b) + 40}
              case MetaInterface => {Align8(b), Align8(b) + 8, Align8(b) + 16, Align8(b) + 32}
              case _ => {Align8(b), Align8(b) + 8, Align8(b) + 32}
    ensures HeaderSize(blk.kind) == if blk.kind.MetaMethod? then 40 else 48
  {
  }

  // A header pointer below the table that is still to be adjusted.
  lemma HeaderSlotDone(m0: Memory, m: Memory, m': Memory, own: set<int>, table: nat, i: nat, kb: nat,
                       kids: seq<Block>, a: int, delta: int)
    requires TableAt(own, table, kb, kids) && i <= |kids| && a < table && a !in own
    requires Shifted(m0, m, Done(own, table, i, kb, kids, i), delta)
    requires m' == m[a := Wrap(Read(m, a) + delta)]
    ensures Shifted(m0, m', Done(own + {a}, table, i, kb, kids, i), delta)
    ensures TableAt(own + {a}, table, kb, kids)
  {
    CellsBelow(m0, m, own, table, i, kb, kids, i, delta);
    assert Done(own + {a}, table, i, kb, kids, i) == Done(own, table, i, kb, kids, i) + {a};
    hide Done, TableAt, Wrap;
  }

  lemma AllDone(m0: Memory, m: Memory, own: set<int>, b: nat, blk: Block, delta: int)
    requires HasKids(blk.kind) && own == At(b, HeaderSlots(blk.kind))
    requires Shifted(m0, m, Done(own, TableStart(b, blk), |blk.kids|, KidsBase(b, blk), blk.kids, |blk.kids|), delta)
    ensures Shifted(m0, m, Slots(b, blk), delta)
  {
    hide Shifted;
    assert blk.kids[..|blk.kids|] == blk.kids;
    assert Slots(b, blk) == Done(own, TableStart(b, blk), |blk.kids|, KidsBase(b, blk), blk.kids, |blk.kids|);
  }

  // ----- the whole component -----

  // A component: its header, its four tables laid end to end, the string pool,
  // then the records in table order.
  datatype Component = Component(
    fields: map<nat, int>,
    namespaces: seq<Block>, sequenceables: seq<Block>, interfaces: seq<Block>, types: seq<Block>,
    poolSize: nat)
  {
    function Kids(): seq<Block> {
      namespaces + sequenceables + interfaces + types
    }

    function Table(at: nat): nat {
      at + 80
    }

    function PoolBase(at: nat): nat {
      at + 80 + 8 * |Kids()|
    }

    function KidsStart(at: nat): nat {
      PoolBase(at) + poolSize
    }

    function ComponentEnd(at: nat): nat {
      KidsEnd(KidsStart(at), Kids())
    }

    // The first table entry of each of the four tables.
    function FirstOf(table: nat): nat {
      if table == 0 then 0
      else if table == 1 then |namespaces|
      else if table == 2 then |namespaces| + |sequenceables|
      else |namespaces| + |sequenceables| + |interfaces|
    }

    function CountOf(table: int): nat {
      if table == 0 then |namespaces|
      else if table == 1 then |sequenceables|
      else if table == 2 then |interfaces|
      else |types|
    }

    function KindOf(table: int): Kind {
      if table == 0 then MetaNamespace
      else if table == 1 then MetaSequenceable
      else if table == 2 then MetaInterface
      else MetaType
    }

    ghost predicate Sized() {
      && (forall k :: k in Kids() ==> WellSized(k))
      && (forall k :: k in namespaces ==> k.kind.MetaNamespace?)
      && (forall k :: k in sequenceables ==> k.kind.MetaSequenceable?)
      && (forall k :: k in interfaces ==> k.kind.MetaInterface?)
      && (forall k :: k in types ==> k.kind.MetaType?)
      && fields.Keys == {0, 4, 8, 16, 20, 24, 28, 64, 72}
      && fields[16] == |namespaces| && fields[20] == |sequenceables|
      && fields[24] == |interfaces| && fields[28] == |types|
    }

    ghost predicate HeadHolds(m: Memory, at: nat, d: int) {
      && (forall o :: o in fields ==> Read(m, at + o) == if o == 8 || o == 72 then Wrap(fields[o] + d) else fields[o])
      && forall t :: 0 <= t < 4 ==> Read(m, at + 32 + 8 * t) == Wrap(Table(at) + 8 * FirstOf(t) + d)
    }

    ghost predicate ComponentHolds(m: Memory, at: nat, d: int) {
      && HeadHolds(m, at, d)
      && TableHolds(m, Table(at), KidsStart(at), Kids(), d)
      && KidsHold(m, KidsStart(at), Kids(), d)
    }

    ghost function ComponentSlots(at: nat): set<int> {
      {at + 8, at + 32, at + 40, at + 48, at + 56, at + 72}
      + Entries(Table(at), |Kids()|) + KidsSlots(KidsStart(at), Kids())
    }
  }

  // The header pointers adjusted before table `t` is: the name, and the tables before it.
  ghost function OwnBefore(at: int, t: nat): (s: set<int>)
    ensures forall a :: a in s ==> a < at + 64
  {
    if t == 0 then {at + 8}
    else if t == 1 then {at + 8, at + 32}
    else if t == 2 then {at + 8, at + 32, at + 40}
    else if t == 3 then {at + 8, at + 32, at + 40, at + 48}
    else {at + 8, at + 32, at + 40, at + 48, at + 56}
  }

  lemma OwnBeforeAre(at: int, t: nat)
    requires t <= 4
    ensures at + 72 !in OwnBefore(at, t) && forall u :: 0 <= u < 4 ==> at + 16 + 4 * u !in OwnBefore(at, t)
    ensures forall u :: 0 <= u < 4 ==> (at + 32 + 8 * u in OwnBefore(at, t) <==> u < t)
    ensures t < 4 ==> OwnBefore(at, t + 1) == OwnBefore(at, t) + {at + 32 + 8 * t}
    ensures OwnBefore(at, 4) + {at + 72} == {at + 8, at + 32, at + 40, at + 48, at + 56, at + 72}
  {
  }

  // The serializer works on a component that `m0` holds and has adjusted the
  // header pointers `own` and the first k records with their table entries.
  ghost predicate Working(c: Component, at: nat, m0: Memory, d: int) {
    && c.Sized() && c.ComponentHolds(m0, at, d) && c.ComponentEnd(at) < WORD
  }

  ghost predicate Progress(c: Component, at: nat, m0: Memory, m: Memory, own: set<int>, k: nat, delta: int) {
    && k <= |c.Kids()|
    && Shifted(m0, m, Done(own, c.Table(at), k, c.KidsStart(at), c.Kids(), k), delta)
  }

  lemma ProgressIs(c: Component, at: nat, m0: Memory, m: Memory, own: set<int>, k: nat, delta: int)
    requires k <= |c.Kids()|
    ensures Progress(c, at, m0, m, own, k, delta) <==> Shifted(m0, m, Done(own, c.Table(at), k, c.KidsStart(at), c.Kids(), k), delta)
  {
    hide Shifted, Done, Component.Kids, Component.Table, Component.KidsStart;
  }

  lemma ComponentTable(c: Component, at: nat, m0: Memory, d: int, own: set<int>)
    requires Working(c, at, m0, d)
    requires forall a :: a in own ==> a < at + 80
    ensures TableAt(own, c.Table(at), c.KidsStart(at), c.Kids())
    ensures TableHolds(m0, c.Table(at), c.KidsStart(at), c.Kids(), d)
    ensures KidsHold(m0, c.KidsStart(at), c.Kids(), d)
  {
  }

  // The count and the pointer of table t, and the records it lists.
  lemma TableOf(c: Component, at: nat, m0: Memory, d: int, t: int)
    requires Working(c, at, m0, d) && 0 <= t < 4
    ensures Read(m0, at + 16 + 4 * t) == c.CountOf(t)
    ensures Read(m0, at + 32 + 8 * t) == Wrap(c.Table(at) + 8 * c.FirstOf(t) + d)
    ensures c.FirstOf(t) + c.CountOf(t) <= |c.Kids()|
    ensures t < 3 ==> c.FirstOf(t + 1) == c.FirstOf(t) + c.CountOf(t)
    ensures 0 <= c.Table(at) + 8 * c.FirstOf(t) < WORD
  {
    KidsEndGrows(c.KidsStart(at), c.Kids());
  }

  lemma TablesAdjoin(c: Component)
    ensures c.FirstOf(0) == 0 && c.FirstOf(3) + c.CountOf(3) == |c.Kids()|
    ensures forall t :: 0 <= t < 3 ==> c.FirstOf(t + 1) == c.FirstOf(t) + c.CountOf(t)
  {
  }

  lemma KidAt(c: Component, at: nat, m0: Memory, d: int, t: int, i: nat)
    requires Working(c, at, m0, d) && 0 <= t < 4 && i < c.CountOf(t)
    ensures c.FirstOf(t) + i < |c.Kids()|
    ensures c.Kids()[c.FirstOf(t) + i].kind == c.KindOf(t) && WellSized(c.Kids()[c.FirstOf(t) + i])
  {
    var k := c.FirstOf(t) + i;
    assert c.Kids()[k] in c.Kids();
    if t == 0 {
      assert c.Kids()[k] == c.namespaces[i];
    } else if t == 1 {
      assert c.Kids()[k] == c.sequenceables[i];
    } else if t == 2 {
      assert c.Kids()[k] == c.interfaces[i];
    } else {
      assert c.Kids()[k] == c.types[i];
    }
  }

  // The header cells while the tables are worked through.
  lemma HeaderCells(c: Component, at: nat, m0: Memory, m: Memory, d: int, t: nat, k: nat, delta: int)
    requires Working(c, at, m0, d) && t <= 4
    requires Progress(c, at, m0, m, OwnBefore(at, t), k, delta)
    ensures forall u :: 0 <= u < 4 ==> Read(m, at + 16 + 4 * u) == Read(m0, at + 16 + 4 * u)
    ensures forall u :: t <= u < 4 ==> Read(m, at + 32 + 8 * u) == Read(m0, at + 32 + 8 * u)
    ensures t > 0 ==> Read(m, at + 32 + 8 * (t - 1)) == Wrap(Read(m0, at + 32 + 8 * (t - 1)) + delta)
    ensures Read(m, at + 72) == Read(m0, at + 72)
  {
    hide Working, Shifted, TableAt, Done, OwnBefore;
    OwnBeforeAre(at, t);
    ComponentTable(c, at, m0, d, OwnBefore(at, t));
    CellsBelow(m0, m, OwnBefore(at, t), c.Table(at), k, c.KidsStart(at), c.Kids(), k, delta);
  }

  // The pointer to table t is adjusted.
  lemma TablePointerDone(c: Component, at: nat, m0: Memory, m: Memory, m': Memory, d: int, t: nat, k: nat, delta: int)
    requires Working(c, at, m0, d) && t < 4
    requires Progress(c, at, m0, m, OwnBefore(at, t), k, delta)
    requires m' == m[at + 32 + 8 * t := Wrap(Read(m, at + 32 + 8 * t) + delta)]
    ensures Progress(c, at, m0, m', OwnBefore(at, t + 1), k, delta)
  {
    hide Working, Shifted, TableAt, Done, OwnBefore;
    OwnBeforeAre(at, t);
    ComponentTable(c, at, m0, d, OwnBefore(at, t));
    HeaderSlotDone(m0, m, m', OwnBefore(at, t), c.Table(at), k, c.KidsStart(at), c.Kids(), at + 32 + 8 * t, delta);
  }

  lemma NameDone(c: Component, at: nat, m0: Memory, m: Memory, d: int, delta: int)
    requires Working(c, at, m0, d)
    requires m == m0[at + 8 := Wrap(Read(m0, at + 8) + delta)]
    ensures Progress(c, at, m0, m, OwnBefore(at, 0), 0, delta)
  {
    assert c.Kids()[..0] == [];
    assert Done(OwnBefore(at, 0), c.Table(at), 0, c.KidsStart(at), c.Kids(), 0) == {at + 8};
  }

  lemma PoolPointerDone(c: Component, at: nat, m0: Memory, m: Memory, m': Memory, d: int, delta: int)
    requires Working(c, at, m0, d)
    requires Progress(c, at, m0, m, OwnBefore(at, 4), |c.Kids()|, delta)
    requires m' == m[at + 72 := Wrap(Read(m, at + 72) + delta)]
    ensures Shifted(m0, m', c.ComponentSlots(at), delta)
  {
    hide Working, Shifted, TableAt, Done, OwnBefore, Wrap, Component.Kids, Component.KidsStart, Component.ComponentSlots;
    OwnBeforeAre(at, 4);
    AllSlots(c, at);
    ComponentTable(c, at, m0, d, OwnBefore(at, 4));
    HeaderSlotDone(m0, m, m', OwnBefore(at, 4), c.Table(at), |c.Kids()|, c.KidsStart(at), c.Kids(), at + 72, delta);
  }

  lemma AllSlots(c: Component, at: nat)
    ensures Done(OwnBefore(at, 4) + {at + 72}, c.Table(at), |c.Kids()|, c.KidsStart(at), c.Kids(), |c.Kids()|)
            == c.ComponentSlots(at)
  {
    var kids := c.Kids();
    assert kids[..|kids|] == kids;
    OwnBeforeAre(at, 4);
  }

  lemma FoundInTable(c: Component, at: nat, m0: Memory, m: Memory, t: int, own: set<int>, i: nat, delta: int)
    requires Working(c, at, m0, 0) && 0 <= t < 4 && i < c.CountOf(t)
    requires forall a :: a in own ==> a < at + 80
    requires Progress(c, at, m0, m, own, c.FirstOf(t) + i, delta)
    ensures c.FirstOf(t) + i < |c.Kids()|
    ensures var k := c.FirstOf(t) + i;
            && Read(m, c.Table(at) + 8 * k) == Read(m0, c.Table(at) + 8 * k) == Align8(KidBase(c.KidsStart(at), c.Kids(), k))
            && WellSized(c.Kids()[k]) && c.Kids()[k].kind == c.KindOf(t)
            && End(KidBase(c.KidsStart(at), c.Kids(), k), c.Kids()[k]) < WORD
            && Holds(m, KidBase(c.KidsStart(at), c.Kids(), k), c.Kids()[k], 0)
  {
    hide Working, Holds, WellSized, Shifted, Done, End, KidBase, Align8, TableAt, Component.Kids, Component.KidsStart;
    KidAt(c, at, m0, 0, t, i);
    TableOf(c, at, m0, 0, t);
    ComponentTable(c, at, m0, 0, own);
    Found(m0, m, own, c.Table(at), c.KidsStart(at), c.Kids(), c.FirstOf(t) + i, delta);
  }

  lemma AdvanceInTable(c: Component, at: nat, m0: Memory, m: Memory, m1: Memory, m2: Memory, t: int, own: set<int>,
                       i: nat, delta: int)
    requires Working(c, at, m0, 0) && 0 <= t < 4 && i < c.CountOf(t) && c.FirstOf(t) + i < |c.Kids()|
    requires forall a :: a in own ==> a < at + 80
    requires Progress(c, at, m0, m, own, c.FirstOf(t) + i, delta)
    requires var k := c.FirstOf(t) + i;
             && Shifted(m, m1, Slots(KidBase(c.KidsStart(at), c.Kids(), k), c.Kids()[k]), delta)
             && m2 == m1[c.Table(at) + 8 * k := Wrap(Read(m0, c.Table(at) + 8 * k) + delta)]
    ensures Progress(c, at, m0, m2, own, c.FirstOf(t) + i + 1, delta)
  {
    hide Working, Shifted, Done, KidBase, Slots, TableAt, Wrap;
    ComponentTable(c, at, m0, 0, own);
    FollowThenRewrite(m0, m, m1, m2, own, c.Table(at), c.KidsStart(at), c.Kids(), c.FirstOf(t) + i, delta);
  }

  lemma RewrittenInTable(c: Component, at: nat, m0: Memory, m: Memory, m1: Memory, t: int, own: set<int>, i: nat,
                         base: int)
    requires Working(c, at, m0, -base) && 0 <= t < 4 && i < c.CountOf(t)
    requires forall a :: a in own ==> a < at + 80
    requires Progress(c, at, m0, m, own, c.FirstOf(t) + i, base)
    requires var e := c.Table(at) + 8 * (c.FirstOf(t) + i); m1 == m[e := Wrap(Read(m, e) + base)]
    ensures c.FirstOf(t) + i < |c.Kids()|
    ensures var k := c.FirstOf(t) + i;
            && Read(m, c.Table(at) + 8 * k) == Read(m0, c.Table(at) + 8 * k)
            && Read(m1, c.Table(at) + 8 * k) == Align8(KidBase(c.KidsStart(at), c.Kids(), k))
            && WellSized(c.Kids()[k]) && c.Kids()[k].kind == c.KindOf(t)
            && End(KidBase(c.KidsStart(at), c.Kids(), k), c.Kids()[k]) < WORD
            && Holds(m1, KidBase(c.KidsStart(at), c.Kids(), k), c.Kids()[k], -base)
  {
    hide Working, Holds, WellSized, Shifted, Done, End, KidBase, Align8, TableAt, Wrap, Component.Kids,
         Component.KidsStart;
    KidAt(c, at, m0, -base, t, i);
    TableOf(c, at, m0, -base, t);
    ComponentTable(c, at, m0, -base, own);
    FoundRewritten(m0, m, m1, own, c.Table(at), c.KidsStart(at), c.Kids(), c.FirstOf(t) + i, base);
  }

  lemma ReachedInTable(c: Component, at: nat, m0: Memory, m: Memory, m1: Memory, m2: Memory, t: int, own: set<int>,
                       i: nat, base: int)
    requires Working(c, at, m0, -base) && 0 <= t < 4 && i < c.CountOf(t) && c.FirstOf(t) + i < |c.Kids()|
    requires forall a :: a in own ==> a < at + 80
    requires Progress(c, at, m0, m, own, c.FirstOf(t) + i, base)
    requires var k := c.FirstOf(t) + i; var e := c.Table(at) + 8 * k;
             && m1 == m[e := Wrap(Read(m, e) + base)] && Read(m, e) == Read(m0, e)
             && Shifted(m1, m2, Slots(KidBase(c.KidsStart(at), c.Kids(), k), c.Kids()[k]), base)
    ensures Progress(c, at, m0, m2, own, c.FirstOf(t) + i + 1, base)
  {
    hide *;
    var k := c.FirstOf(t) + i;
    ProgressIs(c, at, m0, m, own, k, base);
    ProgressIs(c, at, m0, m2, own, k + 1, base);
    ComponentTable(c, at, m0, -base, own);
    RewriteThenFollow(m0, m, m1, m2, own, c.Table(at), c.KidsStart(at), c.Kids(), k, base);
  }

  class Serializer {
    var mem: Memory
    const metaComponent: nat
    const baseAddr: int

    constructor (mem: Memory, at: nat)
      ensures this.mem == mem && metaComponent == at && baseAddr == at
    {
      this.mem, metaComponent, baseAddr := mem, at, at;
    }

    function SerializeAdjust(addr: int): int {
      Wrap(addr - baseAddr)
    }

    function DeserializeAdjust(addr: int): int {
      Wrap(addr + baseAddr)
    }

    method Serialize(ghost c: Component)
      requires c.Sized() && c.ComponentHolds(mem, metaComponent, 0) && c.ComponentEnd(metaComponent) < WORD
      modifies this`mem
      ensures Shifted(old(mem), mem, c.ComponentSlots(metaComponent), -baseAddr)
    {
      SerializeMetaComponent(metaComponent, c);
    }

    method Deserialize(ghost c: Component)
      requires c.Sized() && c.ComponentHolds(mem, metaComponent, -baseAddr) && c.ComponentEnd(metaComponent) < WORD
      modifies this`mem
      ensures Shifted(old(mem), mem, c.ComponentSlots(metaComponent), baseAddr)
    {
      DeserializeMetaComponent(metaComponent, c);
    }

    method SerializeMetaComponent(mc: nat, ghost c: Component)
      requires Working(c, mc, mem, 0)
      modifies this`mem
      ensures Shifted(old(mem), mem, c.ComponentSlots(mc), -baseAddr)
    {
      hide Working, Progress, Wrap, Shifted, Read, OwnBefore, Component.Sized, Component.ComponentHolds,
           Component.ComponentEnd, Component.ComponentSlots, Component.Kids, Component.FirstOf, Component.CountOf;
      ghost var m0 := mem;
      TablesAdjoin(c);
      mem := mem[mc + 8 := SerializeAdjust(Read(mem, mc + 8))];
      NameDone(c, mc, m0, mem, 0, -baseAddr);
      SerializeNamespaces(mc, c, m0);
      ghost var h0 := mem;
      mem := mem[mc + 32 := SerializeAdjust(Read(mem, mc + 32))];
      TablePointerDone(c, mc, m0, h0, mem, 0, 0, c.FirstOf(0) + c.CountOf(0), -baseAddr);
      SerializeSequenceables(mc, c, m0);
      ghost var h1 := mem;
      mem := mem[mc + 40 := SerializeAdjust(Read(mem, mc + 40))];
      TablePointerDone(c, mc, m0, h1, mem, 0, 1, c.FirstOf(1) + c.CountOf(1), -baseAddr);
      SerializeInterfaces(mc, c, m0);
      ghost var h2 := mem;
      mem := mem[mc + 48 := SerializeAdjust(Read(mem, mc + 48))];
      TablePointerDone(c, mc, m0, h2, mem, 0, 2, c.FirstOf(2) + c.CountOf(2), -baseAddr);
      SerializeTypes(mc, c, m0);
      ghost var h3 := mem;
      mem := mem[mc + 56 := SerializeAdjust(Read(mem, mc + 56))];
      TablePointerDone(c, mc, m0, h3, mem, 0, 3, c.FirstOf(3) + c.CountOf(3), -baseAddr);
      ghost var h4 := mem;
      mem := mem[mc + 72 := SerializeAdjust(Read(mem, mc + 72))];
      PoolPointerDone(c, mc, m0, h4, mem, 0, -baseAddr);
    }

    method DeserializeMetaComponent(mc: nat, ghost c: Component)
      requires Working(c, mc, mem, -baseAddr)
      modifies this`mem
      ensures Shifted(old(mem), mem, c.ComponentSlots(mc), baseAddr)
    {
      hide Working, Progress, Wrap, Shifted, Read, OwnBefore, Component.Sized, Component.ComponentHolds,
           Component.ComponentEnd, Component.ComponentSlots, Component.Kids, Component.FirstOf, Component.CountOf;
      ghost var m0 := mem;
      TablesAdjoin(c);
      mem := mem[mc + 8 := DeserializeAdjust(Read(mem, mc + 8))];
      NameDone(c, mc, m0, mem, -baseAddr, baseAddr);
      ghost var h0 := mem;
      mem := mem[mc + 32 := DeserializeAdjust(Read(mem, mc + 32))];
      TablePointerDone(c, mc, m0, h0, mem, -baseAddr, 0, c.FirstOf(0), baseAddr);
      DeserializeNamespaces(mc, c, m0);
      ghost var h1 := mem;
      mem := mem[mc + 40 := DeserializeAdjust(Read(mem, mc + 40))];
      TablePointerDone(c, mc, m0, h1, mem, -baseAddr, 1, c.FirstOf(1), baseAddr);
      DeserializeSequenceables(mc, c, m0);
      ghost var h2 := mem;
      mem := mem[mc + 48 := DeserializeAdjust(Read(mem, mc + 48))];
      TablePointerDone(c, mc, m0, h2, mem, -baseAddr, 2, c.FirstOf(2), baseAddr);
      DeserializeInterfaces(mc, c, m0);
      ghost var h3 := mem;
      mem := mem[mc + 56 := DeserializeAdjust(Read(mem, mc + 56))];
      TablePointerDone(c, mc, m0, h3, mem, -baseAddr, 3, c.FirstOf(3), baseAddr);
      DeserializeTypes(mc, c, m0);
      ghost var h4 := mem;
      mem := mem[mc + 72 := DeserializeAdjust(Read(mem, mc + 72))];
      PoolPointerDone(c, mc, m0, h4, mem, -baseAddr, baseAddr);
    }

    method SerializeNamespaces(mc: nat, ghost c: Component, ghost m0: Memory)
      requires Working(c, mc, m0, 0)
      requires Progress(c, mc, m0, mem, OwnBefore(mc, 0), c.FirstOf(0), -baseAddr)
      modifies this`mem
      ensures Progress(c, mc, m0, mem, OwnBefore(mc, 0), c.FirstOf(0) + c.CountOf(0), -baseAddr)
    {
      hide Working, Progress, Holds, KidsHold, TableHolds, WellSized, TableAt, Done, Slots, End, KidBase, Align8, Wrap,
           Shifted, Read;
      ghost var table, kb, kids, f := c.Table(mc), c.KidsStart(mc), c.Kids(), c.FirstOf(0);
      TableOf(c, mc, m0, 0, 0);
      HeaderCells(c, mc, m0, mem, 0, 0, f, -baseAddr);
      WrapWrap(table + 8 * f, 0);
      var i := 0;
      while i < Read(mem, mc + 16)
        invariant 0 <= i <= c.CountOf(0)
        invariant Progress(c, mc, m0, mem, OwnBefore(mc, 0), f + i, -baseAddr)
        invariant Read(mem, mc + 16) == c.CountOf(0) && Read(mem, mc + 32) == table + 8 * f
        decreases c.CountOf(0) - i
      {
        FoundInTable(c, mc, m0, mem, 0, OwnBefore(mc, 0), i, -baseAddr);
        var entry := Read(mem, mc + 32) + 8 * i;
        var inner := Read(mem, entry);
        ghost var m := mem;
        SerializeMetaNamespace(inner, KidBase(kb, kids, f + i), kids[f + i]);
        ghost var m1 := mem;
        mem := mem[entry := SerializeAdjust(inner)];
        AdvanceInTable(c, mc, m0, m, m1, mem, 0, OwnBefore(mc, 0), i, -baseAddr);
        i := i + 1;
        HeaderCells(c, mc, m0, mem, 0, 0, f + i, -baseAddr);
      }
    }

    method SerializeSequenceables(mc: nat, ghost c: Component, ghost m0: Memory)
      requires Working(c, mc, m0, 0)
      requires Progress(c, mc, m0, mem, OwnBefore(mc, 1), c.FirstOf(1), -baseAddr)
      modifies this`mem
      ensures Progress(c, mc, m0, mem, OwnBefore(mc, 1), c.FirstOf(1) + c.CountOf(1), -baseAddr)
    {
      hide Working, Progress, Holds, KidsHold, TableHolds, WellSized, TableAt, Done, Slots, End, KidBase, Align8, Wrap,
           Shifted, Read;
      ghost var table, kb, kids, f := c.Table(mc), c.KidsStart(mc), c.Kids(), c.FirstOf(1);
      TableOf(c, mc, m0, 0, 1);
      HeaderCells(c, mc, m0, mem, 0, 1, f, -baseAddr);
      WrapWrap(table + 8 * f, 0);
      var i := 0;
      while i < Read(mem, mc + 20)
        invariant 0 <= i <= c.CountOf(1)
        invariant Progress(c, mc, m0, mem, OwnBefore(mc, 1), f + i, -baseAddr)
        invariant Read(mem, mc + 20) == c.CountOf(1) && Read(mem, mc + 40) == table + 8 * f
        decreases c.CountOf(1) - i
      {
        FoundInTable(c, mc, m0, mem, 1, OwnBefore(mc, 1), i, -baseAddr);
        var entry := Read(mem, mc + 40) + 8 * i;
        var inner := Read(mem, entry);
        ghost var m := mem;
        SerializeMetaSequenceable(inner, KidBase(kb, kids, f + i), kids[f + i]);
        ghost var m1 := mem;
        mem := mem[entry := SerializeAdjust(inner)];
        AdvanceInTable(c, mc, m0, m, m1, mem, 1, OwnBefore(mc, 1), i, -baseAddr);
        i := i + 1;
        HeaderCells(c, mc, m0, mem, 0, 1, f + i, -baseAddr);
      }
    }

    method SerializeInterfaces(mc: nat, ghost c: Component, ghost m0: Memory)
      requires Working(c, mc, m0, 0)
      requires Progress(c, mc, m0, mem, OwnBefore(mc, 2), c.FirstOf(2), -baseAddr)
      modifies this`mem
      ensures Progress(c, mc, m0, mem, OwnBefore(mc, 2), c.FirstOf(2) + c.CountOf(2), -baseAddr)
    {
      hide Working, Progress, Holds, KidsHold, TableHolds, WellSized, TableAt, Done, Slots, End, KidBase, Align8, Wrap,
           Shifted, Read;
      ghost var table, kb, kids, f := c.Table(mc), c.KidsStart(mc), c.Kids(), c.FirstOf(2);
      TableOf(c, mc, m0, 0, 2);
      HeaderCells(c, mc, m0, mem, 0, 2, f, -baseAddr);
      WrapWrap(table + 8 * f, 0);
      var i := 0;
      while i < Read(mem, mc + 24)
        invariant 0 <= i <= c.CountOf(2)
        invariant Progress(c, mc, m0, mem, OwnBefore(mc, 2), f + i, -baseAddr)
        invariant Read(mem, mc + 24) == c.CountOf(2) && Read(mem, mc + 48) == table + 8 * f
        decreases c.CountOf(2) - i
      {
        FoundInTable(c, mc, m0, mem, 2, OwnBefore(mc, 2), i, -baseAddr);
        var entry := Read(mem, mc + 48) + 8 * i;
        var inner := Read(mem, entry);
        ghost var m := mem;
        SerializeMetaInterface(inner, KidBase(kb, kids, f + i), kids[f + i]);
        ghost var m1 := mem;
        mem := mem[entry := SerializeAdjust(inner)];
        AdvanceInTable(c, mc, m0, m, m1, mem, 2, OwnBefore(mc, 2), i, -baseAddr);
        i := i + 1;
        HeaderCells(c, mc, m0, mem, 0, 2, f + i, -baseAddr);
      }
    }

    method SerializeTypes(mc: nat, ghost c: Component, ghost m0: Memory)
      requires Working(c, mc, m0, 0)
      requires Progress(c, mc, m0, mem, OwnBefore(mc, 3), c.FirstOf(3), -baseAddr)
      modifies this`mem
      ensures Progress(c, mc, m0, mem, OwnBefore(mc, 3), c.FirstOf(3) + c.CountOf(3), -baseAddr)
    {
      hide Working, Progress, Holds, KidsHold, TableHolds, WellSized, TableAt, Done, Slots, End, KidBase, Align8, Wrap,
           Shifted, Read;
      ghost var table, kb, kids, f := c.Table(mc), c.KidsStart(mc), c.Kids(), c.FirstOf(3);
      TableOf(c, mc, m0, 0, 3);
      HeaderCells(c, mc, m0, mem, 0, 3, f, -baseAddr);
      WrapWrap(table + 8 * f, 0);
      var i := 0;
      while i < Read(mem, mc + 28)
        invariant 0 <= i <= c.CountOf(3)
        invariant Progress(c, mc, m0, mem, OwnBefore(mc, 3), f + i, -baseAddr)
        invariant Read(mem, mc + 28) == c.CountOf(3) && Read(mem, mc + 56) == table + 8 * f
        decreases c.CountOf(3) - i
      {
        FoundInTable(c, mc, m0, mem, 3, OwnBefore(mc, 3), i, -baseAddr);
        var entry := Read(mem, mc + 56) + 8 * i;
        var inner := Read(mem, entry);
        ghost var m := mem;
        SerializeMetaType(inner, KidBase(kb, kids, f + i), kids[f + i]);
        ghost var m1 := mem;
        mem := mem[entry := SerializeAdjust(inner)];
        AdvanceInTable(c, mc, m0, m, m1, mem, 3, OwnBefore(mc, 3), i, -baseAddr);
        i := i + 1;
        HeaderCells(c, mc, m0, mem, 0, 3, f + i, -baseAddr);
      }
    }

    method DeserializeNamespaces(mc: nat, ghost c: Component, ghost m0: Memory)
      requires Working(c, mc, m0, -baseAddr)
      requires Progress(c, mc, m0, mem, OwnBefore(mc, 1), c.FirstOf(0), baseAddr)
      modifies this`mem
      ensures Progress(c, mc, m0, mem, OwnBefore(mc, 1), c.FirstOf(0) + c.CountOf(0), baseAddr)
    {
      hide Working, Progress, Holds, KidsHold, TableHolds, WellSized, TableAt, Done, Slots, End, KidBase, Align8, Wrap,
           Shifted, Read;
      ghost var table, kb, kids, f := c.Table(mc), c.KidsStart(mc), c.Kids(), c.FirstOf(0);
      TableOf(c, mc, m0, -baseAddr, 0);
      HeaderCells(c, mc, m0, mem, -baseAddr, 1, f, baseAddr);
      WrapWrap(table + 8 * f - baseAddr, baseAddr);
      WrapWrap(table + 8 * f, 0);
      var i := 0;
      while i < Read(mem, mc + 16)
        invariant 0 <= i <= c.CountOf(0)
        invariant Progress(c, mc, m0, mem, OwnBefore(mc, 1), f + i, baseAddr)
        invariant Read(mem, mc + 16) == c.CountOf(0) && Read(mem, mc + 32) == table + 8 * f
        decreases c.CountOf(0) - i
      {
        var entry := Read(mem, mc + 32) + 8 * i;
        ghost var m := mem;
        mem := mem[entry := DeserializeAdjust(Read(mem, entry))];
        ghost var m1 := mem;
        RewrittenInTable(c, mc, m0, m, m1, 0, OwnBefore(mc, 1), i, baseAddr);
        DeserializeMetaNamespace(Read(mem, entry), KidBase(kb, kids, f + i), kids[f + i]);
        ReachedInTable(c, mc, m0, m, m1, mem, 0, OwnBefore(mc, 1), i, baseAddr);
        i := i + 1;
        HeaderCells(c, mc, m0, mem, -baseAddr, 1, f + i, baseAddr);
      }
    }

    method DeserializeSequenceables(mc: nat, ghost c: Component, ghost m0: Memory)
      requires Working(c, mc, m0, -baseAddr)
      requires Progress(c, mc, m0, mem, OwnBefore(mc, 2), c.FirstOf(1), baseAddr)
      modifies this`mem
      ensures Progress(c, mc, m0, mem, OwnBefore(mc, 2), c.FirstOf(1) + c.CountOf(1), baseAddr)
    {
      hide Working, Progress, Holds, KidsHold, TableHolds, WellSized, TableAt, Done, Slots, End, KidBase, Align8, Wrap,
           Shifted, Read;
      ghost var table, kb, kids, f := c.Table(mc), c.KidsStart(mc), c.Kids(), c.FirstOf(1);
      TableOf(c, mc, m0, -baseAddr, 1);
      HeaderCells(c, mc, m0, mem, -baseAddr, 2, f, baseAddr);
      WrapWrap(table + 8 * f - baseAddr, baseAddr);
      WrapWrap(table + 8 * f, 0);
      var i := 0;
      while i < Read(mem, mc + 20)
        invariant 0 <= i <= c.CountOf(1)
        invariant Progress(c, mc, m0, mem, OwnBefore(mc, 2), f + i, baseAddr)
        invariant Read(mem, mc + 20) == c.CountOf(1) && Read(mem, mc + 40) == table + 8 * f
        decreases c.CountOf(1) - i
      {
        var entry := Read(mem, mc + 40) + 8 * i;
        ghost var m := mem;
        mem := mem[entry := DeserializeAdjust(Read(mem, entry))];
        ghost var m1 := mem;
        RewrittenInTable(c, mc, m0, m, m1, 1, OwnBefore(mc, 2), i, baseAddr);
        DeserializeMetaSequenceable(Read(mem, entry), KidBase(kb, kids, f + i), kids[f + i]);
        ReachedInTable(c, mc, m0, m, m1, mem, 1, OwnBefore(mc, 2), i, baseAddr);
        i := i + 1;
        HeaderCells(c, mc, m0, mem, -baseAddr, 2, f + i, baseAddr);
      }
    }

    method DeserializeInterfaces(mc: nat, ghost c: Component, ghost m0: Memory)
      requires Working(c, mc, m0, -baseAddr)
      requires Progress(c, mc, m0, mem, OwnBefore(mc, 3), c.FirstOf(2), baseAddr)
      modifies this`mem
      ensures Progress(c, mc, m0, mem, OwnBefore(mc, 3), c.FirstOf(2) + c.CountOf(2), baseAddr)
    {
      hide Working, Progress, Holds, KidsHold, TableHolds, WellSized, TableAt, Done, Slots, End, KidBase, Align8, Wrap,
           Shifted, Read;
      ghost var table, kb, kids, f := c.Table(mc), c.KidsStart(mc), c.Kids(), c.FirstOf(2);
      TableOf(c, mc, m0, -baseAddr, 2);
      HeaderCells(c, mc, m0, mem, -baseAddr, 3, f, baseAddr);
      WrapWrap(table + 8 * f - baseAddr, baseAddr);
      WrapWrap(table + 8 * f, 0);
      var i := 0;
      while i < Read(mem, mc + 24)
        invariant 0 <= i <= c.CountOf(2)
        invariant Progress(c, mc, m0, mem, OwnBefore(mc, 3), f + i, baseAddr)
        invariant Read(mem, mc + 24) == c.CountOf(2) && Read(mem, mc + 48) == table + 8 * f
        decreases c.CountOf(2) - i
      {
        var entry := Read(mem, mc + 48) + 8 * i;
        ghost var m := mem;
        mem := mem[entry := DeserializeAdjust(Read(mem, entry))];
        ghost var m1 := mem;
        RewrittenInTable(c, mc, m0, m, m1, 2, OwnBefore(mc, 3), i, baseAddr);
        DeserializeMetaInterface(Read(mem, entry), KidBase(kb, kids, f + i), kids[f + i]);
        ReachedInTable(c, mc, m0, m, m1, mem, 2, OwnBefore(mc, 3), i, baseAddr);
        i := i + 1;
        HeaderCells(c, mc, m0, mem, -baseAddr, 3, f + i, baseAddr);
      }
    }

    method DeserializeTypes(mc: nat, ghost c: Component, ghost m0: Memory)
      requires Working(c, mc, m0, -baseAddr)
      requires Progress(c, mc, m0, mem, OwnBefore(mc, 4), c.FirstOf(3), baseAddr)
      modifies this`mem
      ensures Progress(c, mc, m0, mem, OwnBefore(mc, 4), c.FirstOf(3) + c.CountOf(3), baseAddr)
    {
      hide Working, Progress, Holds, KidsHold, TableHolds, WellSized, TableAt, Done, Slots, End, KidBase, Align8, Wrap,
           Shifted, Read;
      ghost var table, kb, kids, f := c.Table(mc), c.KidsStart(mc), c.Kids(), c.FirstOf(3);
      TableOf(c, mc, m0, -baseAddr, 3);
      HeaderCells(c, mc, m0, mem, -baseAddr, 4, f, baseAddr);
      WrapWrap(table + 8 * f - baseAddr, baseAddr);
      WrapWrap(table + 8 * f, 0);
      var i := 0;
      while i < Read(mem, mc + 28)
        invariant 0 <= i <= c.CountOf(3)
        invariant Progress(c, mc, m0, mem, OwnBefore(mc, 4), f + i, baseAddr)
        invariant Read(mem, mc + 28) == c.CountOf(3) && Read(mem, mc + 56) == table + 8 * f
        decreases c.CountOf(3) - i
      {
        var entry := Read(mem, mc + 56) + 8 * i;
        ghost var m := mem;
        mem := mem[entry := DeserializeAdjust(Read(mem, entry))];
        ghost var m1 := mem;
        RewrittenInTable(c, mc, m0, m, m1, 3, OwnBefore(mc, 4), i, baseAddr);
        DeserializeMetaType(Read(mem, entry), KidBase(kb, kids, f + i), kids[f + i]);
        ReachedInTable(c, mc, m0, m, m1, mem, 3, OwnBefore(mc, 4), i, baseAddr);
        i := i + 1;
        HeaderCells(c, mc, m0, mem, -baseAddr, 4, f + i, baseAddr);
      }
    }

    method SerializeMetaParameter(mp: nat, ghost b: nat, ghost blk: Block)
      requires mp == Align8(b) && blk.kind.MetaParameter? && WellSized(blk)
      modifies this`mem
      ensures Shifted(old(mem), mem, Slots(b, blk), -baseAddr)
    {
      mem := mem[mp := SerializeAdjust(Read(mem, mp))];
      assert Slots(b, blk) == {mp + 0};
    }

    method DeserializeMetaParameter(mp: nat, ghost b: nat, ghost blk: Block)
      requires mp == Align8(b) && blk.kind.MetaParameter? && WellSized(blk)
      modifies this`mem
      ensures Shifted(old(mem), mem, Slots(b, blk), baseAddr)
    {
      mem := mem[mp := DeserializeAdjust(Read(mem, mp))];
      assert Slots(b, blk) == {mp + 0};
    }

    method SerializeMetaType(mt: nat, ghost b: nat, ghost blk: Block)
      requires mt == Align8(b) && blk.kind.MetaType? && WellSized(blk)
      modifies this`mem
      ensures Shifted(old(mem), mem, Slots(b, blk), -baseAddr)
    {
      mem := mem[mt + 16 := SerializeAdjust(Read(mem, mt + 16))];
      assert Slots(b, blk) == {mt + 16};
    }

    method DeserializeMetaType(mt: nat, ghost b: nat, ghost blk: Block)
      requires mt == Align8(b) && blk.kind.MetaType? && WellSized(blk)
      modifies this`mem
      ensures Shifted(old(mem), mem, Slots(b, blk), baseAddr)
    {
      mem := mem[mt + 16 := DeserializeAdjust(Read(mem, mt + 16))];
      assert Slots(b, blk) == {mt + 16};
    }

    method SerializeMetaSequenceable(mp: nat, ghost b: nat, ghost blk: Block)
      requires mp == Align8(b) && blk.kind.MetaSequenceable? && WellSized(blk)
      modifies this`mem
      ensures Shifted(old(mem), mem, Slots(b, blk), -baseAddr)
    {
      mem := mem[mp := SerializeAdjust(Read(mem, mp))];
      mem := mem[mp + 8 := SerializeAdjust(Read(mem, mp + 8))];
      assert Slots(b, blk) == {mp + 0, mp + 8};
    }

    method DeserializeMetaSequenceable(mp: nat, ghost b: nat, ghost blk: Block)
      requires mp == Align8(b) && blk.kind.MetaSequenceable? && WellSized(blk)
      modifies this`mem
      ensures Shifted(old(mem), mem, Slots(b, blk), baseAddr)
    {
      mem := mem[mp := DeserializeAdjust(Read(mem, mp))];
      mem := mem[mp + 8 := DeserializeAdjust(Read(mem, mp + 8))];
      assert Slots(b, blk) == {mp + 0, mp + 8};
    }

    method SerializeMetaNamespaceHeader(mn: nat)
      modifies this`mem
      ensures Shifted(old(mem), mem, {mn, mn + 24, mn + 32}, -baseAddr)
    {
      hide Wrap, Shifted, Read;
      ghost var m0 := mem;
      NoSlots(m0, -baseAddr);
      ghost var h0 := mem;
      mem := mem[mn := SerializeAdjust(Read(mem, mn))];
      NextSlot(m0, h0, mem, {}, mn, {mn}, -baseAddr);
      ghost var h1 := mem;
      mem := mem[mn + 24 := SerializeAdjust(Read(mem, mn + 24))];
      NextSlot(m0, h1, mem, {mn}, mn + 24, {mn, mn + 24}, -baseAddr);
      ghost var h2 := mem;
      mem := mem[mn + 32 := SerializeAdjust(Read(mem, mn + 32))];
      NextSlot(m0, h2, mem, {mn, mn + 24}, mn + 32, {mn, mn + 24, mn + 32}, -baseAddr);
    }

    // Follows each pointer of the table, then rewrites it; the table's own pointer comes last.
    method SerializeMetaNamespace(mn: nat, ghost b: nat, ghost blk: Block)
      requires mn == Align8(b) && blk.kind.MetaNamespace? && WellSized(blk)
      requires Holds(mem, b, blk, 0) && End(b, blk) < WORD
      modifies this`mem
      ensures Shifted(old(mem), mem, Slots(b, blk), -baseAddr)
      decreases blk
    {
      hide Holds, KidsHold, TableHolds, HeaderHolds, WellSized, TableAt, Done, Slots, KidsSlots, Entries, End, KidsEnd,
           KidBase, KidsBase, TableStart, IntArrayStart, HeaderSize, Align8, Wrap, Shifted, Read;
      ghost var m0, table, kb, kids := mem, TableStart(b, blk), KidsBase(b, blk), blk.kids;
      ghost var own := {mn, mn + 24, mn + 32};
      PointersOf(b, blk);
      TableFacts(m0, b, blk, 0, own);
      WrapWrap(table, 0);
      SerializeMetaNamespaceHeader(mn);
      CellsBelow(m0, mem, own, table, 0, kb, kids, 0, -baseAddr);
      var i := 0;
      while i < Read(mem, mn + 16)
        invariant 0 <= i <= |kids|
        invariant Shifted(m0, mem, Done(own, table, i, kb, kids, i), -baseAddr)
        invariant Read(mem, mn + 16) == |kids| && Read(mem, mn + 40) == table
        decreases |kids| - i
      {
        Found(m0, mem, own, table, kb, kids, i, -baseAddr);
        var inner := Read(mem, Read(mem, mn + 40) + 8 * i);
        ghost var m := mem;
        SerializeMetaNamespace(inner, KidBase(kb, kids, i), kids[i]);
        ghost var m1 := mem;
        RecordFollowed(m0, m, m1, own, table, kb, kids, i, -baseAddr);
        mem := mem[Read(mem, mn + 40) + 8 * i := SerializeAdjust(inner)];
        FollowThenRewrite(m0, m, m1, mem, own, table, kb, kids, i, -baseAddr);
        i := i + 1;
      }
      ghost var m := mem;
      mem := mem[mn + 40 := SerializeAdjust(Read(mem, mn + 40))];
      HeaderSlotDone(m0, m, mem, own, table, i, kb, kids, mn + 40, -baseAddr);
      AllDone(m0, mem, own + {mn + 40}, b, blk, -baseAddr);
    }

    method DeserializeMetaNamespaceHeader(mn: nat)
      modifies this`mem
      ensures Shifted(old(mem), mem, {mn, mn + 24, mn + 32, mn + 40}, baseAddr)
    {
      hide Wrap, Shifted, Read;
      ghost var m0 := mem;
      NoSlots(m0, baseAddr);
      ghost var h0 := mem;
      mem := mem[mn := DeserializeAdjust(Read(mem, mn))];
      NextSlot(m0, h0, mem, {}, mn, {mn}, baseAddr);
      ghost var h1 := mem;
      mem := mem[mn + 24 := DeserializeAdjust(Read(mem, mn + 24))];
      NextSlot(m0, h1, mem, {mn}, mn + 24, {mn, mn + 24}, baseAddr);
      ghost var h2 := mem;
      mem := mem[mn + 32 := DeserializeAdjust(Read(mem, mn + 32))];
      NextSlot(m0, h2, mem, {mn, mn + 24}, mn + 32, {mn, mn + 24, mn + 32}, baseAddr);
      ghost var h3 := mem;
      mem := mem[mn + 40 := DeserializeAdjust(Read(mem, mn + 40))];
      NextSlot(m0, h3, mem, {mn, mn + 24, mn + 32}, mn + 40, {mn, mn + 24, mn + 32, mn + 40}, baseAddr);
    }

    // Rewrites the table's pointer and each pointer in it before following them.
    method DeserializeMetaNamespace(mn: nat, ghost b: nat, ghost blk: Block)
      requires mn == Align8(b) && blk.kind.MetaNamespace? && WellSized(blk)
      requires Holds(mem, b, blk, -baseAddr) && End(b, blk) < WORD
      modifies this`mem
      ensures Shifted(old(mem), mem, Slots(b, blk), baseAddr)
      decreases blk
    {
      hide Holds, KidsHold, TableHolds, HeaderHolds, WellSized, TableAt, Done, Slots, KidsSlots, Entries, End, KidsEnd,
           KidBase, KidsBase, TableStart, IntArrayStart, HeaderSize, Align8, Wrap, Shifted, Read;
      ghost var m0, table, kb, kids := mem, TableStart(b, blk), KidsBase(b, blk), blk.kids;
      ghost var own := {mn, mn + 24, mn + 32, mn + 40};
      PointersOf(b, blk);
      TableFacts(m0, b, blk, -baseAddr, own);
      WrapWrap(table - baseAddr, baseAddr);
      WrapWrap(table, 0);
      DeserializeMetaNamespaceHeader(mn);
      CellsBelow(m0, mem, own, table, 0, kb, kids, 0, baseAddr);
      var i := 0;
      while i < Read(mem, mn + 16)
        invariant 0 <= i <= |kids|
        invariant Shifted(m0, mem, Done(own, table, i, kb, kids, i), baseAddr)
        invariant Read(mem, mn + 16) == |kids| && Read(mem, mn + 40) == table
        decreases |kids| - i
      {
        var entry := Read(mem, mn + 40) + 8 * i;
        ghost var m := mem;
        mem := mem[entry := DeserializeAdjust(Read(mem, entry))];
        ghost var m1 := mem;
        FoundRewritten(m0, m, m1, own, table, kb, kids, i, baseAddr);
        DeserializeMetaNamespace(Read(mem, entry), KidBase(kb, kids, i), kids[i]);
        RewriteThenFollow(m0, m, m1, mem, own, table, kb, kids, i, baseAddr);
        i := i + 1;
      }
      AllDone(m0, mem, own, b, blk, baseAddr);
    }

    method SerializeMetaMethodHeader(mm: nat)
      modifies this`mem
      ensures Shifted(old(mem), mem, {mm, mm + 8}, -baseAddr)
    {
      hide Wrap, Shifted, Read;
      ghost var m0 := mem;
      NoSlots(m0, -baseAddr);
      ghost var h0 := mem;
      mem := mem[mm := SerializeAdjust(Read(mem, mm))];
      NextSlot(m0, h0, mem, {}, mm, {mm}, -baseAddr);
      ghost var h1 := mem;
      mem := mem[mm + 8 := SerializeAdjust(Read(mem, mm + 8))];
      NextSlot(m0, h1, mem, {mm}, mm + 8, {mm, mm + 8}, -baseAddr);
    }

    // Follows each pointer of the table, then rewrites it; the table's own pointer comes last.
    method SerializeMetaMethod(mm: nat, ghost b: nat, ghost blk: Block)
      requires mm == Align8(b) && blk.kind.MetaMethod? && WellSized(blk)
      requires Holds(mem, b, blk, 0) && End(b, blk) < WORD
      modifies this`mem
      ensures Shifted(old(mem), mem, Slots(b, blk), -baseAddr)
      decreases blk
    {
      hide Holds, KidsHold, TableHolds, HeaderHolds, WellSized, TableAt, Done, Slots, KidsSlots, Entries, End, KidsEnd,
           KidBase, KidsBase, TableStart, IntArrayStart, HeaderSize, Align8, Wrap, Shifted, Read;
      ghost var m0, table, kb, kids := mem, TableStart(b, blk), KidsBase(b, blk), blk.kids;
      ghost var own := {mm, mm + 8};
      PointersOf(b, blk);
      TableFacts(m0, b, blk, 0, own);
      WrapWrap(table, 0);
      SerializeMetaMethodHeader(mm);
      CellsBelow(m0, mem, own, table, 0, kb, kids, 0, -baseAddr);
      var i := 0;
      while i < Read(mem, mm + 24)
        invariant 0 <= i <= |kids|
        invariant Shifted(m0, mem, Done(own, table, i, kb, kids, i), -baseAddr)
        invariant Read(mem, mm + 24) == |kids| && Read(mem, mm + 32) == table
        decreases |kids| - i
      {
        Found(m0, mem, own, table, kb, kids, i, -baseAddr);
        var inner := Read(mem, Read(mem, mm + 32) + 8 * i);
        ghost var m := mem;
        SerializeMetaParameter(inner, KidBase(kb, kids, i), kids[i]);
        ghost var m1 := mem;
        RecordFollowed(m0, m, m1, own, table, kb, kids, i, -baseAddr);
        mem := mem[Read(mem, mm + 32) + 8 * i := SerializeAdjust(inner)];
        FollowThenRewrite(m0, m, m1, mem, own, table, kb, kids, i, -baseAddr);
        i := i + 1;
      }
      ghost var m := mem;
      mem := mem[mm + 32 := SerializeAdjust(Read(mem, mm + 32))];
      HeaderSlotDone(m0, m, mem, own, table, i, kb, kids, mm + 32, -baseAddr);
      AllDone(m0, mem, own + {mm + 32}, b, blk, -baseAddr);
    }

    method DeserializeMetaMethodHeader(mm: nat)
      modifies this`mem
      ensures Shifted(old(mem), mem, {mm, mm + 8, mm + 32}, baseAddr)
    {
      hide Wrap, Shifted, Read;
      ghost var m0 := mem;
      NoSlots(m0, baseAddr);
      ghost var h0 := mem;
      mem := mem[mm := DeserializeAdjust(Read(mem, mm))];
      NextSlot(m0, h0, mem, {}, mm, {mm}, baseAddr);
      ghost var h1 := mem;
      mem := mem[mm + 8 := DeserializeAdjust(Read(mem, mm + 8))];
      NextSlot(m0, h1, mem, {mm}, mm + 8, {mm, mm + 8}, baseAddr);
      ghost var h2 := mem;
      mem := mem[mm + 32 := DeserializeAdjust(Read(mem, mm + 32))];
      NextSlot(m0, h2, mem, {mm, mm + 8}, mm + 32, {mm, mm + 8, mm + 32}, baseAddr);
    }

    // Rewrites the table's pointer and each pointer in it before following them.
    method DeserializeMetaMethod(mm: nat, ghost b: nat, ghost blk: Block)
      requires mm == Align8(b) && blk.kind.MetaMethod? && WellSized(blk)
      requires Holds(mem, b, blk, -baseAddr) && End(b, blk) < WORD
      modifies this`mem
      ensures Shifted(old(mem), mem, Slots(b, blk), baseAddr)
      decreases blk
    {
      hide Holds, KidsHold, TableHolds, HeaderHolds, WellSized, TableAt, Done, Slots, KidsSlots, Entries, End, KidsEnd,
           KidBase, KidsBase, TableStart, IntArrayStart, HeaderSize, Align8, Wrap, Shifted, Read;
      ghost var m0, table, kb, kids := mem, TableStart(b, blk), KidsBase(b, blk), blk.kids;
      ghost var own := {mm, mm + 8, mm + 32};
      PointersOf(b, blk);
      TableFacts(m0, b, blk, -baseAddr, own);
      WrapWrap(table - baseAddr, baseAddr);
      WrapWrap(table, 0);
      DeserializeMetaMethodHeader(mm);
      CellsBelow(m0, mem, own, table, 0, kb, kids, 0, baseAddr);
      var i := 0;
      while i < Read(mem, mm + 24)
        invariant 0 <= i <= |kids|
        invariant Shifted(m0, mem, Done(own, table, i, kb, kids, i), baseAddr)
        invariant Read(mem, mm + 24) == |kids| && Read(mem, mm + 32) == table
        decreases |kids| - i
      {
        var entry := Read(mem, mm + 32) + 8 * i;
        ghost var m := mem;
        mem := mem[entry := DeserializeAdjust(Read(mem, entry))];
        ghost var m1 := mem;
        FoundRewritten(m0, m, m1, own, table, kb, kids, i, baseAddr);
        DeserializeMetaParameter(Read(mem, entry), KidBase(kb, kids, i), kids[i]);
        RewriteThenFollow(m0, m, m1, mem, own, table, kb, kids, i, baseAddr);
        i := i + 1;
      }
      AllDone(m0, mem, own, b, blk, baseAddr);
    }

    method SerializeMetaInterfaceHeader(mi: nat)
      modifies this`mem
      ensures Shifted(old(mem), mem, {mi, mi + 8, mi + 16}, -baseAddr)
    {
      hide Wrap, Shifted, Read;
      ghost var m0 := mem;
      NoSlots(m0, -baseAddr);
      ghost var h0 := mem;
      mem := mem[mi := SerializeAdjust(Read(mem, mi))];
      NextSlot(m0, h0, mem, {}, mi, {mi}, -baseAddr);
      ghost var h1 := mem;
      mem := mem[mi + 8 := SerializeAdjust(Read(mem, mi + 8))];
      NextSlot(m0, h1, mem, {mi}, mi + 8, {mi, mi + 8}, -baseAddr);
      ghost var h2 := mem;
      mem := mem[mi + 16 := SerializeAdjust(Read(mem, mi + 16))];
      NextSlot(m0, h2, mem, {mi, mi + 8}, mi + 16, {mi, mi + 8, mi + 16}, -baseAddr);
    }

    // Follows each pointer of the table, then rewrites it; the table's own pointer comes last.
    method SerializeMetaInterface(mi: nat, ghost b: nat, ghost blk: Block)
      requires mi == Align8(b) && blk.kind.MetaInterface? && WellSized(blk)
      requires Holds(mem, b, blk, 0) && End(b, blk) < WORD
      modifies this`mem
      ensures Shifted(old(mem), mem, Slots(b, blk), -baseAddr)
      decreases blk
    {
      hide Holds, KidsHold, TableHolds, HeaderHolds, WellSized, TableAt, Done, Slots, KidsSlots, Entries, End, KidsEnd,
           KidBase, KidsBase, TableStart, IntArrayStart, HeaderSize, Align8, Wrap, Shifted, Read;
      ghost var m0, table, kb, kids := mem, TableStart(b, blk), KidsBase(b, blk), blk.kids;
      ghost var own := {mi, mi + 8, mi + 16};
      PointersOf(b, blk);
      TableFacts(m0, b, blk, 0, own);
      WrapWrap(table, 0);
      SerializeMetaInterfaceHeader(mi);
      CellsBelow(m0, mem, own, table, 0, kb, kids, 0, -baseAddr);
      var i := 0;
      while i < Read(mem, mi + 28)
        invariant 0 <= i <= |kids|
        invariant Shifted(m0, mem, Done(own, table, i, kb, kids, i), -baseAddr)
        invariant Read(mem, mi + 28) == |kids| && Read(mem, mi + 32) == table
        decreases |kids| - i
      {
        Found(m0, mem, own, table, kb, kids, i, -baseAddr);
        var inner := Read(mem, Read(mem, mi + 32) + 8 * i);
        ghost var m := mem;
        SerializeMetaMethod(inner, KidBase(kb, kids, i), kids[i]);
        ghost var m1 := mem;
        RecordFollowed(m0, m, m1, own, table, kb, kids, i, -baseAddr);
        mem := mem[Read(mem, mi + 32) + 8 * i := SerializeAdjust(inner)];
        FollowThenRewrite(m0, m, m1, mem, own, table, kb, kids, i, -baseAddr);
        i := i + 1;
      }
      ghost var m := mem;
      mem := mem[mi + 32 := SerializeAdjust(Read(mem, mi + 32))];
      HeaderSlotDone(m0, m, mem, own, table, i, kb, kids, mi + 32, -baseAddr);
      AllDone(m0, mem, own + {mi + 32}, b, blk, -baseAddr);
    }

    method DeserializeMetaInterfaceHeader(mi: nat)
      modifies this`mem
      ensures Shifted(old(mem), mem, {mi, mi + 8, mi + 16, mi + 32}, baseAddr)
    {
      hide Wrap, Shifted, Read;
      ghost var m0 := mem;
      NoSlots(m0, baseAddr);
      ghost var h0 := mem;
      mem := mem[mi := DeserializeAdjust(Read(mem, mi))];
      NextSlot(m0, h0, mem, {}, mi, {mi}, baseAddr);
      ghost var h1 := mem;
      mem := mem[mi + 8 := DeserializeAdjust(Read(mem, mi + 8))];
      NextSlot(m0, h1, mem, {mi}, mi + 8, {mi, mi + 8}, baseAddr);
      ghost var h2 := mem;
      mem := mem[mi + 16 := DeserializeAdjust(Read(mem, mi + 16))];
      NextSlot(m0, h2, mem, {mi, mi + 8}, mi + 16, {mi, mi + 8, mi + 16}, baseAddr);
      ghost var h3 := mem;
      mem := mem[mi + 32 := DeserializeAdjust(Read(mem, mi + 32))];
      NextSlot(m0, h3, mem, {mi, mi + 8, mi + 16}, mi + 32, {mi, mi + 8, mi + 16, mi + 32}, baseAddr);
    }

    // Rewrites the table's pointer and each pointer in it before following them.
    method DeserializeMetaInterface(mi: nat, ghost b: nat, ghost blk: Block)
      requires mi == Align8(b) && blk.kind.MetaInterface? && WellSized(blk)
      requires Holds(mem, b, blk, -baseAddr) && End(b, blk) < WORD
      modifies this`mem
      ensures Shifted(old(mem), mem, Slots(b, blk), baseAddr)
      decreases blk
    {
      hide Holds, KidsHold, TableHolds, HeaderHolds, WellSized, TableAt, Done, Slots, KidsSlots, Entries, End, KidsEnd,
           KidBase, KidsBase, TableStart, IntArrayStart, HeaderSize, Align8, Wrap, Shifted, Read;
      ghost var m0, table, kb, kids := mem, TableStart(b, blk), KidsBase(b, blk), blk.kids;
      ghost var own := {mi, mi + 8, mi + 16, mi + 32};
      PointersOf(b, blk);
      TableFacts(m0, b, blk, -baseAddr, own);
      WrapWrap(table - baseAddr, baseAddr);
      WrapWrap(table, 0);
      DeserializeMetaInterfaceHeader(mi);
      CellsBelow(m0, mem, own, table, 0, kb, kids, 0, baseAddr);
      var i := 0;
      while i < Read(mem, mi + 28)
        invariant 0 <= i <= |kids|
        invariant Shifted(m0, mem, Done(own, table, i, kb, kids, i), baseAddr)
        invariant Read(mem, mi + 28) == |kids| && Read(mem, mi + 32) == table
        decreases |kids| - i
      {
        var entry := Read(mem, mi + 32) + 8 * i;
        ghost var m := mem;
        mem := mem[entry := DeserializeAdjust(Read(mem, entry))];
        ghost var m1 := mem;
        FoundRewritten(m0, m, m1, own, table, kb, kids, i, baseAddr);
        DeserializeMetaMethod(Read(mem, entry), KidBase(kb, kids, i), kids[i]);
        RewriteThenFollow(m0, m, m1, mem, own, table, kb, kids, i, baseAddr);
        i := i + 1;
      }
      AllDone(m0, mem, own, b, blk, baseAddr);
    }
  }
}
