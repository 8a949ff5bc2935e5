/** What a metadata block becomes when it is serialized at one base address,
    copied, and deserialized at another. */
module Relocation {
  import opened MetadataBlocks
  import opened MetadataSerializer

  // ----- the same record, moved by `shift` -----

  function MoveFields(fields: map<nat, int>, pointers: set<nat>, shift: int): map<nat, int> {
    map o | o in fields :: if o in pointers then fields[o] + shift else fields[o]
  }

  function MoveBlock(blk: Block, shift: int): Block
    decreases blk
  {
    Block(blk.kind, MoveFields(blk.fields, HeaderSlots(blk.kind), shift), blk.ints, MoveBlocks(blk.kids, shift))
  }

  function MoveBlocks(kids: seq<Block>, shift: int): (r: seq<Block>)
    ensures |r| == |kids|
    decreases kids
  {
    if kids == [] then [] else MoveBlocks(kids[..|kids| - 1], shift) + [MoveBlock(kids[|kids| - 1], shift)]
  }

  lemma MovedIs(blk: Block, shift: int)
    ensures var r := MoveBlock(blk, shift);
            && r.kind == blk.kind && r.ints == blk.ints && r.kids == MoveBlocks(blk.kids, shift)
            && r.fields.Keys == blk.fields.Keys
            && forall o :: o in blk.fields ==>
                 r.fields[o] == if o in HeaderSlots(blk.kind) then blk.fields[o] + shift else blk.fields[o]
  {
  }

  lemma {:induction false} MoveBlocksAt(kids: seq<Block>, shift: int, i: nat)
    requires i <= |kids|
    ensures MoveBlocks(kids, shift)[..i] == MoveBlocks(kids[..i], shift)
    ensures i < |kids| ==> MoveBlocks(kids, shift)[i] == MoveBlock(kids[i], shift)
    decreases |kids|
  {
    if i < |kids| {
      var init := kids[..|kids| - 1];
      MoveBlocksAt(init, shift, if i < |init| then i else |init|);
      assert init[..i] == kids[..i];
    } else {
      assert kids[..i] == kids;
    }
  }

  lemma {:induction false} MoveWellSized(blk: Block, shift: int)
    requires WellSized(blk)
    ensures WellSized(MoveBlock(blk, shift))
    decreases blk
  {
    assert forall k: Kind :: HasKids(k) ==> CountOffset(k) !in HeaderSlots(k);
    forall i | 0 <= i < |blk.kids|
      ensures KidKind(blk.kind, MoveBlocks(blk.kids, shift)[i].kind) && WellSized(MoveBlocks(blk.kids, shift)[i])
    {
      MoveBlocksAt(blk.kids, shift, i);
      MoveWellSized(blk.kids[i], shift);
    }
  }

  // ----- layout of the moved record -----

  ghost predicate Aligns(shift: int) {
    if shift < 0 then Aligned(-shift) else Aligned(shift)
  }

  lemma AlignMove(v: nat, shift: int, v': nat)
    requires v' == v + shift && Aligns(shift)
    ensures Align8(v') == Align8(v) + shift
  {
    if shift < 0 {
      AlignShift(v', -shift);
    } else {
      AlignShift(v, shift);
    }
  }

  lemma {:induction false} MoveArrayStart(b: nat, blk: Block, shift: int, b': nat, i: nat)
    requires i <= |blk.ints| && b' == b + shift && Aligns(shift)
    ensures Align8(b') == Align8(b) + shift
    ensures IntArrayStart(b', MoveBlock(blk, shift), i) == IntArrayStart(b, blk, i) + shift
    decreases i
  {
    hide Align8, Aligned, Aligns, HeaderSize, MoveFields, MoveBlocks;
    AlignMove(b, shift, b');
    if i > 0 {
      MoveArrayStart(b, blk, shift, b', i - 1);
      AlignMove(IntArrayStart(b, blk, i - 1) + blk.ints[i - 1].bytes, shift,
                IntArrayStart(b', MoveBlock(blk, shift), i - 1) + blk.ints[i - 1].bytes);
    } else {
      AlignMove(Align8(b) + HeaderSize(blk.kind), shift, Align8(b') + HeaderSize(blk.kind));
    }
  }

  lemma {:induction false} MoveLayout(b: nat, blk: Block, shift: int, b': nat)
    requires b' == b + shift && Aligns(shift)
    ensures Align8(b') == Align8(b) + shift
    ensures TableStart(b', MoveBlock(blk, shift)) == TableStart(b, blk) + shift
    ensures KidsBase(b', MoveBlock(blk, shift)) == KidsBase(b, blk) + shift
    ensures End(b', MoveBlock(blk, shift)) == End(b, blk) + shift
    decreases blk
  {
    hide IntArrayStart, Align8, Aligns, MoveFields, MoveBlocks, HeaderSize;
    MoveArrayStart(b, blk, shift, b', |blk.ints|);
    if blk.ints != [] {
      MoveArrayStart(b, blk, shift, b', |blk.ints| - 1);
    }
    MoveKidsLayout(KidsBase(b, blk), blk.kids, shift, KidsBase(b', MoveBlock(blk, shift)));
  }

  lemma {:induction false} MoveKidsLayout(kb: nat, kids: seq<Block>, shift: int, kb': nat)
    requires kb' == kb + shift && Aligns(shift)
    ensures KidsEnd(kb', MoveBlocks(kids, shift)) == KidsEnd(kb, kids) + shift
    decreases kids
  {
    hide Aligned;
    if kids != [] {
      var init, last := kids[..|kids| - 1], kids[|kids| - 1];
      MoveKidsLayout(kb, init, shift, kb');
      MoveLayout(KidsEnd(kb, init), last, shift, KidsEnd(kb', MoveBlocks(init, shift)));
      assert MoveBlocks(kids, shift)[..|kids| - 1] == MoveBlocks(init, shift);
    }
  }

  // ----- the pointer slots of the moved record -----

  ghost predicate SlotsMoved(s: set<int>, s': set<int>, shift: int) {
    forall a :: a in s' <==> a - shift in s
  }

  lemma {:induction false} MoveSlots(b: nat, blk: Block, shift: int, b': nat)
    requires b' == b + shift && Aligns(shift)
    ensures SlotsMoved(Slots(b, blk), Slots(b', MoveBlock(blk, shift)), shift)
    decreases blk
  {
    MoveLayout(b, blk, shift, b');
    hide Aligns, KidsBase, TableStart, End, Align8;
    MoveAt(b, b', HeaderSlots(blk.kind), shift);
    MoveEntries(TableStart(b, blk), TableStart(b', MoveBlock(blk, shift)), |blk.kids|, shift);
    MoveKidsSlots(KidsBase(b, blk), blk.kids, shift, KidsBase(b', MoveBlock(blk, shift)));
  }

  lemma MoveAt(b: nat, b': nat, offsets: set<nat>, shift: int)
    requires Align8(b') == Align8(b) + shift
    ensures SlotsMoved(At(b, offsets), At(b', offsets), shift)
  {
    hide Align8;
    forall a ensures a in At(b', offsets) <==> a - shift in At(b, offsets) {
      if a in At(b', offsets) {
        var o :| o in offsets && a == Align8(b') + o;
        assert a - shift == Align8(b) + o;
      }
      if a - shift in At(b, offsets) {
        var o :| o in offsets && a - shift == Align8(b) + o;
        assert a == Align8(b') + o;
      }
    }
  }

  lemma {:induction false} MoveEntries(table: int, table': int, n: nat, shift: int)
    requires table' == table + shift
    ensures SlotsMoved(Entries(table, n), Entries(table', n), shift)
  {
    if n > 0 {
      MoveEntries(table, table', n - 1, shift);
    }
  }

  lemma {:induction false} MoveKidsSlots(kb: nat, kids: seq<Block>, shift: int, kb': nat)
    requires kb' == kb + shift && Aligns(shift)
    ensures SlotsMoved(KidsSlots(kb, kids), KidsSlots(kb', MoveBlocks(kids, shift)), shift)
    decreases kids
  {
    if kids != [] {
      var init, last := kids[..|kids| - 1], kids[|kids| - 1];
      MoveKidsLayout(kb, init, shift, kb');
      hide Aligns, End, KidsEnd, Slots;
      MoveKidsSlots(kb, init, shift, kb');
      MoveSlots(KidsEnd(kb, init), last, shift, KidsEnd(kb', MoveBlocks(init, shift)));
      assert MoveBlocks(kids, shift)[..|kids| - 1] == MoveBlocks(init, shift);
    }
  }

  // ----- contents after serializing at `at` and copying by `shift` -----

  // m2 holds, `shift` further on, what m0 holds with the pointer slots moved by -at.
  ghost predicate Carried(m0: Memory, m2: Memory, slots: set<int>, lo: nat, hi: nat, at: int, shift: int) {
    forall a :: lo <= a < hi ==> Read(m2, a + shift) == if a in slots then Wrap(Read(m0, a) - at) else Read(m0, a)
  }

  lemma WrapOf(v: int, at: int, shift: int)
    ensures Wrap(Wrap(v) - at) == Wrap(v + shift - (at + shift))
  {
  }

  lemma CarriedCell(m0: Memory, m2: Memory, slots: set<int>, lo: nat, hi: nat, at: int, shift: int, a: int)
    requires Carried(m0, m2, slots, lo, hi, at, shift) && lo <= a < hi
    ensures Read(m2, a + shift) == if a in slots then Wrap(Read(m0, a) - at) else Read(m0, a)
  {
  }

  // Which cells of a record are pointers: header, index arrays, table, inner records.
  lemma HeaderSlotsAre(b: nat, blk: Block, o: nat)
    requires WellSized(blk) && o < HeaderSize(blk.kind)
    ensures Align8(b) + o in Slots(b, blk) <==> o in HeaderSlots(blk.kind)
  {
    hide KidsBase, TableStart, IntArrayStart, Align8, WellSized, HeaderSlots, HeaderSize;
    ArraysAscend(b, blk);
    WellSizedKids(blk);
    KidsSlotsWithin(KidsBase(b, blk), blk.kids);
    assert Align8(b) + o in At(b, HeaderSlots(blk.kind)) <==> o in HeaderSlots(blk.kind);
  }

  lemma WellSizedKids(blk: Block)
    requires WellSized(blk)
    ensures forall k :: k in blk.kids ==> WellSized(k)
  {
  }

  lemma AtWithin(b: nat, k: Kind)
    ensures forall a :: a in At(b, HeaderSlots(k)) ==> Align8(b) <= a < Align8(b) + HeaderSize(k)
  {
    hide Align8, HeaderSize;
  }

  lemma TableIsLast(b: nat, blk: Block)
    requires HasKids(blk.kind)
    ensures KidsBase(b, blk) == TableStart(b, blk) + 8 * |blk.kids|
  {
  }

  lemma ArraySlotsAre(b: nat, blk: Block, i: nat, a: int)
    requires WellSized(blk) && i < |blk.ints|
    requires IntArrayStart(b, blk, i) <= a < IntArrayStart(b, blk, i) + blk.ints[i].bytes
    ensures a !in Slots(b, blk)
  {
    hide KidsBase, TableStart, IntArrayStart, Align8, WellSized, HeaderSlots, HeaderSize, At, KidsSlots;
    ArraysAscend(b, blk);
    AtWithin(b, blk.kind);
    WellSizedKids(blk);
    KidsSlotsWithin(KidsBase(b, blk), blk.kids);
  }

  lemma TableSlotsAre(b: nat, blk: Block, i: nat)
    requires HasKids(blk.kind) && i < |blk.kids|
    ensures TableStart(b, blk) + 8 * i in Slots(b, blk)
  {
    hide KidsBase, TableStart, At, KidsSlots;
    EntryIn(TableStart(b, blk), |blk.kids|, i);
  }

  lemma KidSlotsAre(b: nat, blk: Block, a: int)
    requires WellSized(blk) && a >= KidsBase(b, blk)
    ensures a in Slots(b, blk) <==> a in KidsSlots(KidsBase(b, blk), blk.kids)
  {
    hide KidsBase, TableStart, IntArrayStart, Align8, WellSized, HeaderSlots, HeaderSize, At, KidsSlots;
    ArraysAscend(b, blk);
    AtWithin(b, blk.kind);
    if HasKids(blk.kind) {
      TableIsLast(b, blk);
    }
  }

  // The slots `s` are, within the record's cells, the record's own.
  ghost predicate SlotsHere(s: set<int>, own: set<int>, lo: int, hi: int) {
    forall a :: lo <= a < hi ==> (a in s <==> a in own)
  }

  lemma PointerOffsets(blk: Block)
    requires WellSized(blk)
    ensures HasKids(blk.kind) ==> TableOffset(blk.kind) in HeaderSlots(blk.kind)
    ensures forall i :: 0 <= i < |blk.ints| ==> IntArrayOffset(blk.kind, i) in HeaderSlots(blk.kind)
    ensures forall i :: 0 <= i < |blk.ints| ==> 4 * |blk.ints[i].cells| <= blk.ints[i].bytes
    ensures forall o :: o in blk.fields ==> o < HeaderSize(blk.kind)
  {
  }

  // The record's cells were carried over, with exactly its own pointers moved.
  ghost predicate RecordCarried(m0: Memory, m2: Memory, s: set<int>, b: nat, blk: Block, at: int, shift: int, b': nat) {
    && WellSized(blk) && b' == b + shift && Aligns(shift)
    && Carried(m0, m2, s, b, KidsBase(b, blk), at, shift)
    && SlotsHere(s, Slots(b, blk), b, KidsBase(b, blk))
  }

  lemma CellCarried(m0: Memory, m2: Memory, s: set<int>, b: nat, blk: Block, at: int, shift: int, b': nat, a: int)
    requires RecordCarried(m0, m2, s, b, blk, at, shift, b') && b <= a < KidsBase(b, blk)
    ensures Read(m2, a + shift) == if a in Slots(b, blk) then Wrap(Read(m0, a) - at) else Read(m0, a)
  {
    hide KidsBase, Slots, Wrap, WellSized;
  }

  // A header pointer whose target is `v`.
  lemma CarriedPointer(m0: Memory, m2: Memory, s: set<int>, b: nat, blk: Block, at: int, shift: int, b': nat,
                       o: nat, v: int)
    requires RecordCarried(m0, m2, s, b, blk, at, shift, b')
    requires o in HeaderSlots(blk.kind) && Read(m0, Align8(b) + o) == Wrap(v + 0)
    ensures Read(m2, Align8(b') + o) == Wrap(v + shift - (at + shift))
  {
    hide KidsBase, Align8, WellSized, HeaderSlots, HeaderSize, Slots, Wrap, Aligns, Carried, SlotsHere;
    AlignMove(b, shift, b');
    ArraysAscend(b, blk);
    HeaderSlotsAre(b, blk, o);
    CellCarried(m0, m2, s, b, blk, at, shift, b', Align8(b) + o);
    WrapOf(v, at, shift);
  }

  // A header field that is not a pointer.
  lemma CarriedValue(m0: Memory, m2: Memory, s: set<int>, b: nat, blk: Block, at: int, shift: int, b': nat, o: nat)
    requires RecordCarried(m0, m2, s, b, blk, at, shift, b')
    requires o !in HeaderSlots(blk.kind) && o < HeaderSize(blk.kind)
    ensures Read(m2, Align8(b') + o) == Read(m0, Align8(b) + o)
  {
    hide KidsBase, Align8, WellSized, HeaderSlots, HeaderSize, Slots, Wrap, Aligns, Carried, SlotsHere;
    AlignMove(b, shift, b');
    ArraysAscend(b, blk);
    HeaderSlotsAre(b, blk, o);
    CellCarried(m0, m2, s, b, blk, at, shift, b', Align8(b) + o);
  }

  lemma CarriedInts(m0: Memory, m2: Memory, s: set<int>, b: nat, blk: Block, at: int, shift: int, b': nat, i: nat)
    requires RecordCarried(m0, m2, s, b, blk, at, shift, b') && i < |blk.ints|
    requires IntsHold(m0, IntArrayStart(b, blk, i), blk.ints[i].cells)
    ensures IntsHold(m2, IntArrayStart(b, blk, i) + shift, blk.ints[i].cells)
  {
    hide KidsBase, IntArrayStart, Align8, WellSized, HeaderSlots, HeaderSize, Slots, Wrap, Aligns, Carried, SlotsHere;
    var start, cells := IntArrayStart(b, blk, i), blk.ints[i].cells;
    PointerOffsets(blk);
    ArraysAscend(b, blk);
    forall k | 0 <= k < |cells| ensures Read(m2, start + shift + 4 * k) == cells[k] {
      ArraySlotsAre(b, blk, i, start + 4 * k);
      CellCarried(m0, m2, s, b, blk, at, shift, b', start + 4 * k);
    }
  }

  lemma CarriedHeader(m0: Memory, m2: Memory, s: set<int>, b: nat, blk: Block, at: int, shift: int, b': nat)
    requires RecordCarried(m0, m2, s, b, blk, at, shift, b') && HeaderHolds(m0, b, blk, 0)
    ensures HeaderHolds(m2, b', MoveBlock(blk, shift), -(at + shift))
  {
    hide KidsBase, TableStart, IntArrayStart, Align8, WellSized, HeaderSlots, HeaderSize, Slots, Wrap, Aligns, Carried,
         SlotsHere, IntsHold, IntArrayOffset, TableOffset, CountOffset, MoveFields, MoveBlock, MoveBlocks;
    var moved := MoveBlock(blk, shift);
    MovedIs(blk, shift);
    PointerOffsets(blk);
    MoveLayout(b, blk, shift, b');
    forall o | o in moved.fields
      ensures Read(m2, Align8(b') + o)
              == if o in HeaderSlots(moved.kind) then Wrap(moved.fields[o] + -(at + shift)) else moved.fields[o]
    {
      if o in HeaderSlots(blk.kind) {
        CarriedPointer(m0, m2, s, b, blk, at, shift, b', o, blk.fields[o]);
      } else {
        CarriedValue(m0, m2, s, b, blk, at, shift, b', o);
      }
    }
    forall i | 0 <= i < |moved.ints|
      ensures Read(m2, Align8(b') + IntArrayOffset(moved.kind, i)) == Wrap(IntArrayStart(b', moved, i) + -(at + shift))
      ensures IntsHold(m2, IntArrayStart(b', moved, i), moved.ints[i].cells)
    {
      MoveArrayStart(b, blk, shift, b', i);
      CarriedPointer(m0, m2, s, b, blk, at, shift, b', IntArrayOffset(blk.kind, i), IntArrayStart(b, blk, i));
      CarriedInts(m0, m2, s, b, blk, at, shift, b', i);
    }
    if HasKids(blk.kind) {
      CarriedPointer(m0, m2, s, b, blk, at, shift, b', TableOffset(blk.kind), TableStart(b, blk));
    }
  }

  lemma CarriedTable(m0: Memory, m2: Memory, s: set<int>, table: nat, kb: nat, kids: seq<Block>, at: int, shift: int,
                     table': nat, kb': nat)
    requires TableHolds(m0, table, kb, kids, 0)
    requires table' == table + shift && kb' == kb + shift && Aligns(shift)
    requires Carried(m0, m2, s, table, table + 8 * |kids|, at, shift)
    requires forall i :: 0 <= i < |kids| ==> table + 8 * i in s
    ensures TableHolds(m2, table', kb', MoveBlocks(kids, shift), -(at + shift))
  {
    hide Align8, Aligns, Wrap, Carried, KidBase, MoveBlocks;
    forall i | 0 <= i < |kids|
      ensures Read(m2, table' + 8 * i) == Wrap(Align8(KidBase(kb', MoveBlocks(kids, shift), i)) + -(at + shift))
    {
      MovedKidBase(kb, kids, shift, kb', i);
      AlignMove(KidBase(kb, kids, i), shift, KidBase(kb', MoveBlocks(kids, shift), i));
      CarriedCell(m0, m2, s, table, table + 8 * |kids|, at, shift, table + 8 * i);
      WrapOf(Align8(KidBase(kb, kids, i)), at, shift);
    }
  }

  lemma MovedKidBase(kb: nat, kids: seq<Block>, shift: int, kb': nat, i: nat)
    requires kb' == kb + shift && Aligns(shift) && i <= |kids|
    ensures KidBase(kb', MoveBlocks(kids, shift), i) == KidBase(kb, kids, i) + shift
  {
    hide Aligns, KidsEnd, MoveBlocks;
    MoveBlocksAt(kids, shift, i);
    MoveKidsLayout(kb, kids[..i], shift, kb');
  }

  lemma CarriedPart(m0: Memory, m2: Memory, s: set<int>, lo: nat, hi: nat, lo': nat, hi': nat, at: int, shift: int)
    requires Carried(m0, m2, s, lo, hi, at, shift) && lo <= lo' && hi' <= hi
    ensures Carried(m0, m2, s, lo', hi', at, shift)
  {
  }

  // A record that was held before is held after, with its pointers as distances.
  lemma {:induction false} CarriedHolds(m0: Memory, m2: Memory, s: set<int>, b: nat, blk: Block, at: int, shift: int, b': nat)
    requires WellSized(blk) && Holds(m0, b, blk, 0)
    requires b' == b + shift && Aligns(shift)
    requires Carried(m0, m2, s, b, End(b, blk), at, shift) && SlotsHere(s, Slots(b, blk), b, End(b, blk))
    ensures Holds(m2, b', MoveBlock(blk, shift), -(at + shift))
    decreases blk, 1
  {
    hide KidsBase, TableStart, WellSized, HeaderHolds, TableHolds, KidsHold, Slots, Aligns, MoveBlock, MoveBlocks, End,
         Carried, SlotsHere, RecordCarried;
    MovedIs(blk, shift);
    CarriedRecord(m0, m2, s, b, blk, at, shift, b');
    CarriedHeader(m0, m2, s, b, blk, at, shift, b');
    if HasKids(blk.kind) {
      CarriedOwnTable(m0, m2, s, b, blk, at, shift, b');
    }
    CarriedBelow(m0, m2, s, b, blk, at, shift, b');
  }

  lemma CarriedRecord(m0: Memory, m2: Memory, s: set<int>, b: nat, blk: Block, at: int, shift: int, b': nat)
    requires WellSized(blk) && b' == b + shift && Aligns(shift)
    requires Carried(m0, m2, s, b, End(b, blk), at, shift) && SlotsHere(s, Slots(b, blk), b, End(b, blk))
    ensures RecordCarried(m0, m2, s, b, blk, at, shift, b')
  {
    hide KidsBase, End, Slots, WellSized, Aligns, Carried;
    EndGrows(b, blk);
    CarriedPart(m0, m2, s, b, End(b, blk), b, KidsBase(b, blk), at, shift);
  }

  lemma RecordIs(m0: Memory, m2: Memory, s: set<int>, b: nat, blk: Block, at: int, shift: int, b': nat)
    requires RecordCarried(m0, m2, s, b, blk, at, shift, b')
    ensures WellSized(blk) && b' == b + shift && Aligns(shift)
    ensures Carried(m0, m2, s, b, KidsBase(b, blk), at, shift)
    ensures SlotsHere(s, Slots(b, blk), b, KidsBase(b, blk))
  {
    hide WellSized, Aligns, Carried, SlotsHere;
  }

  lemma OwnTableSlots(s: set<int>, b: nat, blk: Block)
    requires HasKids(blk.kind) && WellSized(blk) && SlotsHere(s, Slots(b, blk), b, KidsBase(b, blk))
    ensures forall i :: 0 <= i < |blk.kids| ==> TableStart(b, blk) + 8 * i in s
  {
    hide KidsBase, TableStart, Slots, WellSized, HeaderSize;
    ArraysAscend(b, blk);
    TableIsLast(b, blk);
    forall i | 0 <= i < |blk.kids| ensures TableStart(b, blk) + 8 * i in s {
      TableSlotsAre(b, blk, i);
    }
  }

  lemma OwnTableCells(m0: Memory, m2: Memory, s: set<int>, b: nat, blk: Block, at: int, shift: int)
    requires HasKids(blk.kind) && WellSized(blk) && Carried(m0, m2, s, b, KidsBase(b, blk), at, shift)
    ensures Carried(m0, m2, s, TableStart(b, blk), TableStart(b, blk) + 8 * |blk.kids|, at, shift)
  {
    hide KidsBase, TableStart, WellSized, HeaderSize, Carried;
    ArraysAscend(b, blk);
    TableIsLast(b, blk);
    CarriedPart(m0, m2, s, b, KidsBase(b, blk), TableStart(b, blk), KidsBase(b, blk), at, shift);
  }

  lemma CarriedOwnTable(m0: Memory, m2: Memory, s: set<int>, b: nat, blk: Block, at: int, shift: int, b': nat)
    requires HasKids(blk.kind) && RecordCarried(m0, m2, s, b, blk, at, shift, b')
    requires TableHolds(m0, TableStart(b, blk), KidsBase(b, blk), blk.kids, 0)
    ensures var moved := MoveBlock(blk, shift);
            TableHolds(m2, TableStart(b', moved), KidsBase(b', moved), MoveBlocks(blk.kids, shift), -(at + shift))
  {
    hide *;
    RecordIs(m0, m2, s, b, blk, at, shift, b');
    MoveLayout(b, blk, shift, b');
    OwnTableSlots(s, b, blk);
    OwnTableCells(m0, m2, s, b, blk, at, shift);
    CarriedTable(m0, m2, s, TableStart(b, blk), KidsBase(b, blk), blk.kids, at, shift,
                 TableStart(b', MoveBlock(blk, shift)), KidsBase(b', MoveBlock(blk, shift)));
  }

  lemma {:induction false} CarriedBelow(m0: Memory, m2: Memory, s: set<int>, b: nat, blk: Block, at: int, shift: int, b': nat)
    requires WellSized(blk) && Holds(m0, b, blk, 0)
    requires b' == b + shift && Aligns(shift)
    requires Carried(m0, m2, s, b, End(b, blk), at, shift) && SlotsHere(s, Slots(b, blk), b, End(b, blk))
    ensures KidsHold(m2, KidsBase(b', MoveBlock(blk, shift)), MoveBlocks(blk.kids, shift), -(at + shift))
    decreases blk, 0
  {
    hide KidsBase, TableStart, Align8, WellSized, HeaderHolds, HeaderSize, TableHolds, KidsHold, Slots, KidsSlots, Aligns,
         MoveBlock, MoveBlocks, KidsEnd, Carried;
    var kb := KidsBase(b, blk);
    ArraysAscend(b, blk);
    WellSizedKids(blk);
    MoveLayout(b, blk, shift, b');
    forall a | kb <= a < End(b, blk) ensures a in s <==> a in KidsSlots(kb, blk.kids) {
      KidSlotsAre(b, blk, a);
    }
    CarriedPart(m0, m2, s, b, End(b, blk), kb, End(b, blk), at, shift);
    CarriedKids(m0, m2, s, kb, blk.kids, at, shift, KidsBase(b', MoveBlock(blk, shift)));
  }

  lemma {:induction false} CarriedKids(m0: Memory, m2: Memory, s: set<int>, kb: nat, kids: seq<Block>, at: int, shift: int, kb': nat)
    requires (forall k :: k in kids ==> WellSized(k)) && KidsHold(m0, kb, kids, 0)
    requires kb' == kb + shift && Aligns(shift)
    requires Carried(m0, m2, s, kb, KidsEnd(kb, kids), at, shift) && SlotsHere(s, KidsSlots(kb, kids), kb, KidsEnd(kb, kids))
    ensures KidsHold(m2, kb', MoveBlocks(kids, shift), -(at + shift))
    decreases kids, 0
  {
    if kids != [] {
      hide WellSized, Holds, Slots, Align8, KidsBase, Aligns, End, Carried, MoveBlock, HeaderSize;
      var init, last := kids[..|kids| - 1], kids[|kids| - 1];
      var mid := KidsEnd(kb, init);
      assert KidsEnd(kb, kids) == End(mid, last);
      KidsEndGrows(kb, init);
      ArraysAscend(mid, last);
      EndGrows(mid, last);
      KidsSlotsWithin(kb, init);
      SlotsWithin(mid, last);
      MoveKidsLayout(kb, init, shift, kb');
      CarriedPart(m0, m2, s, kb, KidsEnd(kb, kids), kb, mid, at, shift);
      CarriedPart(m0, m2, s, kb, KidsEnd(kb, kids), mid, End(mid, last), at, shift);
      CarriedKids(m0, m2, s, kb, init, at, shift, kb');
      CarriedHolds(m0, m2, s, mid, last, at, shift, KidsEnd(kb', MoveBlocks(init, shift)));
      assert MoveBlocks(kids, shift)[..|kids| - 1] == MoveBlocks(init, shift);
    }
  }

  // ----- the whole component -----

  function MoveComponent(c: Component, shift: int): Component {
    Component(MoveFields(c.fields, {8, 72}, shift), MoveBlocks(c.namespaces, shift), MoveBlocks(c.sequenceables, shift),
              MoveBlocks(c.interfaces, shift), MoveBlocks(c.types, shift), c.poolSize)
  }

  lemma {:induction false} MoveJoined(xs: seq<Block>, ys: seq<Block>, shift: int)
    ensures MoveBlocks(xs + ys, shift) == MoveBlocks(xs, shift) + MoveBlocks(ys, shift)
    decreases |ys|
  {
    if ys == [] {
      assert xs + ys == xs;
    } else {
      MoveJoined(xs, ys[..|ys| - 1], shift);
      assert (xs + ys)[..|xs + ys| - 1] == xs + ys[..|ys| - 1];
    }
  }

  lemma MovedKids(c: Component, shift: int)
    ensures MoveComponent(c, shift).Kids() == MoveBlocks(c.Kids(), shift)
  {
    hide MoveBlocks;
    MoveJoined(c.namespaces, c.sequenceables, shift);
    MoveJoined(c.namespaces + c.sequenceables, c.interfaces, shift);
    MoveJoined(c.namespaces + c.sequenceables + c.interfaces, c.types, shift);
  }

  lemma MovedAll(kids: seq<Block>, shift: int)
    ensures forall i :: 0 <= i < |kids| ==> MoveBlocks(kids, shift)[i] == MoveBlock(kids[i], shift)
  {
    forall i | 0 <= i < |kids| ensures MoveBlocks(kids, shift)[i] == MoveBlock(kids[i], shift) {
      MoveBlocksAt(kids, shift, i);
    }
  }

  lemma MovedKinds(kids: seq<Block>, shift: int, k: Kind)
    requires forall b :: b in kids ==> b.kind == k
    ensures forall b :: b in MoveBlocks(kids, shift) ==> b.kind == k
  {
    MovedAll(kids, shift);
    forall b | b in MoveBlocks(kids, shift) ensures b.kind == k {
      hide MoveBlocks;
      var i :| 0 <= i < |kids| && b == MoveBlocks(kids, shift)[i];
      assert kids[i] in kids;
    }
  }

  lemma MovedWellSized(kids: seq<Block>, shift: int)
    requires forall b :: b in kids ==> WellSized(b)
    ensures forall b :: b in MoveBlocks(kids, shift) ==> WellSized(b)
  {
    hide WellSized, MoveBlock;
    MovedAll(kids, shift);
    forall b | b in MoveBlocks(kids, shift) ensures WellSized(b) {
      hide MoveBlocks;
      var i :| 0 <= i < |kids| && b == MoveBlocks(kids, shift)[i];
      assert kids[i] in kids;
      MoveWellSized(kids[i], shift);
    }
  }

  lemma MovedSized(c: Component, shift: int)
    requires c.Sized()
    ensures MoveComponent(c, shift).Sized()
  {
    hide WellSized, MoveBlocks, Component.Kids;
    MovedKids(c, shift);
    MovedWellSized(c.Kids(), shift);
    MovedKinds(c.namespaces, shift, MetaNamespace);
    MovedKinds(c.sequenceables, shift, MetaSequenceable);
    MovedKinds(c.interfaces, shift, MetaInterface);
    MovedKinds(c.types, shift, MetaType);
  }

  lemma MovedEnd(c: Component, at: nat, shift: int, at': nat)
    requires at' == at + shift && Aligns(shift)
    ensures MoveComponent(c, shift).ComponentEnd(at') == c.ComponentEnd(at) + shift
    ensures MoveComponent(c, shift).KidsStart(at') == c.KidsStart(at) + shift
  {
    hide MoveBlocks, KidsEnd, Aligns;
    MovedKids(c, shift);
    MoveKidsLayout(c.KidsStart(at), c.Kids(), shift, MoveComponent(c, shift).KidsStart(at'));
  }

  lemma MovedComponentSlots(c: Component, at: nat, shift: int, at': nat)
    requires at' == at + shift && Aligns(shift)
    ensures SlotsMoved(c.ComponentSlots(at), MoveComponent(c, shift).ComponentSlots(at'), shift)
  {
    hide MoveBlocks, KidsSlots, Entries, Aligns;
    MovedKids(c, shift);
    MovedEnd(c, at, shift, at');
    MoveEntries(c.Table(at), c.Table(at'), |c.Kids()|, shift);
    MoveKidsSlots(c.KidsStart(at), c.Kids(), shift, MoveComponent(c, shift).KidsStart(at'));
  }

  // Which cells of a component are pointers: header, tables, pool, records.
  lemma HeadSlotsAre(c: Component, at: nat, o: nat)
    requires c.Sized() && o < 80
    ensures at + o in c.ComponentSlots(at) <==> o in {8, 32, 40, 48, 56, 72}
  {
    hide KidsSlots, KidsEnd, WellSized, Component.Kids, Component.Sized;
    SizedKids(c);
    KidsSlotsWithin(c.KidsStart(at), c.Kids());
  }

  lemma SizedKids(c: Component)
    requires c.Sized()
    ensures forall k :: k in c.Kids() ==> WellSized(k)
  {
    hide WellSized, Component.Kids;
  }

  lemma TableEntriesAre(c: Component, at: nat)
    ensures forall i :: 0 <= i < |c.Kids()| ==> c.Table(at) + 8 * i in c.ComponentSlots(at)
  {
    hide KidsSlots, KidsEnd, Component.Kids, Entries;
    forall i | 0 <= i < |c.Kids()| ensures c.Table(at) + 8 * i in Entries(c.Table(at), |c.Kids()|) {
      EntryIn(c.Table(at), |c.Kids()|, i);
    }
  }

  lemma RecordSlotsAre(c: Component, at: nat)
    requires c.Sized()
    ensures SlotsHere(c.ComponentSlots(at), KidsSlots(c.KidsStart(at), c.Kids()), c.KidsStart(at), c.ComponentEnd(at))
    ensures c.PoolBase(at) <= c.KidsStart(at) <= c.ComponentEnd(at)
  {
    hide KidsSlots, KidsEnd, WellSized, Component.Kids, Component.Sized, Entries;
    SizedKids(c);
    KidsSlotsWithin(c.KidsStart(at), c.Kids());
    KidsEndGrows(c.KidsStart(at), c.Kids());
  }

  lemma HeadCell(c: Component, m0: Memory, m2: Memory, at: nat, off: int, shift: int, o: nat, v: int)
    requires c.Sized() && Carried(m0, m2, c.ComponentSlots(at), at, c.ComponentEnd(at), off, shift) && o < 80
    ensures o in {8, 32, 40, 48, 56, 72} && Read(m0, at + o) == Wrap(v + 0) ==>
              Read(m2, at + shift + o) == Wrap(v + shift - (off + shift))
    ensures o !in {8, 32, 40, 48, 56, 72} ==> Read(m2, at + shift + o) == Read(m0, at + o)
  {
    hide Component.ComponentSlots, Component.ComponentEnd, Component.Sized, Component.Kids, Wrap, Carried;
    HeadSlotsAre(c, at, o);
    RecordSlotsAre(c, at);
    CarriedCell(m0, m2, c.ComponentSlots(at), at, c.ComponentEnd(at), off, shift, at + o);
    WrapOf(v, off, shift);
  }

  lemma MovedTables(c: Component, shift: int)
    ensures forall t: nat :: MoveComponent(c, shift).FirstOf(t) == c.FirstOf(t)
    ensures MoveComponent(c, shift).fields.Keys == c.fields.Keys
    ensures forall o :: o in c.fields ==>
              MoveComponent(c, shift).fields[o] == if o == 8 || o == 72 then c.fields[o] + shift else c.fields[o]
  {
    hide MoveBlocks;
  }

  lemma HeadIs(c: Component, m: Memory, at: nat, d: int)
    ensures c.HeadHolds(m, at, d) <==> (forall o :: o in c.fields ==> FieldHolds(c, m, at, d, o))
                                       && (forall t: nat :: t < 4 ==> TablePointerHolds(c, m, at, d, t))
  {
    hide Component.FirstOf, Component.Table, Wrap;
    if c.HeadHolds(m, at, d) {
    } else if forall o :: o in c.fields ==> FieldHolds(c, m, at, d, o) {
      var t :| 0 <= t < 4 && Read(m, at + 32 + 8 * t) != Wrap(c.Table(at) + 8 * c.FirstOf(t) + d);
      assert !TablePointerHolds(c, m, at, d, t);
    }
  }

  ghost predicate FieldHolds(c: Component, m: Memory, at: nat, d: int, o: nat)
    requires o in c.fields
  {
    Read(m, at + o) == if o == 8 || o == 72 then Wrap(c.fields[o] + d) else c.fields[o]
  }

  ghost predicate TablePointerHolds(c: Component, m: Memory, at: nat, d: int, t: nat) {
    Read(m, at + 32 + 8 * t) == Wrap(c.Table(at) + 8 * c.FirstOf(t) + d)
  }

  lemma CarriedField(c: Component, m0: Memory, m2: Memory, at: nat, off: int, shift: int, to: nat, o: nat)
    requires c.Sized() && to == at + shift && o in c.fields && FieldHolds(c, m0, at, 0, o)
    requires Carried(m0, m2, c.ComponentSlots(at), at, c.ComponentEnd(at), off, shift)
    ensures o in MoveComponent(c, shift).fields && FieldHolds(MoveComponent(c, shift), m2, to, -(off + shift), o)
  {
    FieldKeys(c);
    hide MoveComponent, Component.ComponentSlots, Component.ComponentEnd, Component.Sized, Wrap, Carried;
    MovedTables(c, shift);
    HeadCell(c, m0, m2, at, off, shift, o, c.fields[o]);
  }

  lemma FieldKeys(c: Component)
    requires c.Sized()
    ensures forall o :: o in c.fields ==> o < 80 && o !in {32, 40, 48, 56}
  {
    assert forall o :: o in c.fields ==> o in c.fields.Keys;
    hide Component.Kids;
  }

  lemma CarriedTablePointer(c: Component, m0: Memory, m2: Memory, at: nat, off: int, shift: int, to: nat, t: nat)
    requires c.Sized() && to == at + shift && t < 4 && TablePointerHolds(c, m0, at, 0, t)
    requires Carried(m0, m2, c.ComponentSlots(at), at, c.ComponentEnd(at), off, shift)
    ensures TablePointerHolds(MoveComponent(c, shift), m2, to, -(off + shift), t)
  {
    hide MoveComponent, Component.ComponentSlots, Component.ComponentEnd, Component.Sized, Component.FirstOf, Wrap, Carried;
    MovedTables(c, shift);
    HeadCell(c, m0, m2, at, off, shift, 32 + 8 * t, c.Table(at) + 8 * c.FirstOf(t));
  }

  lemma CarriedHead(c: Component, m0: Memory, m2: Memory, at: nat, off: int, shift: int, to: nat)
    requires c.Sized() && c.HeadHolds(m0, at, 0) && to == at + shift
    requires Carried(m0, m2, c.ComponentSlots(at), at, c.ComponentEnd(at), off, shift)
    ensures MoveComponent(c, shift).HeadHolds(m2, to, -(off + shift))
  {
    hide *;
    var moved, d := MoveComponent(c, shift), -(off + shift);
    HeadIs(c, m0, at, 0);
    HeadIs(moved, m2, to, d);
    MovedTables(c, shift);
    forall o | o in moved.fields ensures FieldHolds(moved, m2, to, d, o) {
      assert o in moved.fields.Keys;
      CarriedField(c, m0, m2, at, off, shift, to, o);
    }
    forall t: nat | t < 4 ensures TablePointerHolds(moved, m2, to, d, t) {
      CarriedTablePointer(c, m0, m2, at, off, shift, to, t);
    }
  }

  lemma WorkingIs(c: Component, at: nat, m0: Memory, d: int)
    ensures Working(c, at, m0, d) <==>
              && c.Sized() && c.HeadHolds(m0, at, d) && c.ComponentEnd(at) < WORD
              && TableHolds(m0, c.Table(at), c.KidsStart(at), c.Kids(), d) && KidsHold(m0, c.KidsStart(at), c.Kids(), d)
  {
    hide Component.Sized, Component.HeadHolds, Component.ComponentEnd, Component.Kids, Component.KidsStart, TableHolds,
         KidsHold;
  }

  lemma WorkingMeans(c: Component, at: nat, m0: Memory, d: int)
    ensures Working(c, at, m0, d) <==> c.Sized() && c.ComponentHolds(m0, at, d) && c.ComponentEnd(at) < WORD
  {
    hide Component.Sized, Component.ComponentHolds, Component.ComponentEnd;
  }

  lemma CarriedTables(c: Component, m0: Memory, m2: Memory, at: nat, off: int, shift: int, to: nat)
    requires c.Sized() && to == at + shift && Aligns(shift)
    requires TableHolds(m0, c.Table(at), c.KidsStart(at), c.Kids(), 0)
    requires Carried(m0, m2, c.ComponentSlots(at), at, c.ComponentEnd(at), off, shift)
    ensures TableHolds(m2, to + 80, c.KidsStart(at) + shift, MoveBlocks(c.Kids(), shift), -(off + shift))
  {
    hide *;
    TableCells(c, m0, m2, at, off, shift);
    TableEntriesAre(c, at);
    TableIsAt(c, at);
    CarriedTable(m0, m2, c.ComponentSlots(at), c.Table(at), c.KidsStart(at), c.Kids(), off, shift, to + 80,
                 c.KidsStart(at) + shift);
  }

  lemma TableCells(c: Component, m0: Memory, m2: Memory, at: nat, off: int, shift: int)
    requires c.Sized() && Carried(m0, m2, c.ComponentSlots(at), at, c.ComponentEnd(at), off, shift)
    ensures Carried(m0, m2, c.ComponentSlots(at), c.Table(at), c.Table(at) + 8 * |c.Kids()|, off, shift)
  {
    hide *;
    RecordSlotsAre(c, at);
    TableIsAt(c, at);
    CarriedPart(m0, m2, c.ComponentSlots(at), at, c.ComponentEnd(at), c.Table(at), c.PoolBase(at), off, shift);
  }

  lemma CarriedRecords(c: Component, m0: Memory, m2: Memory, at: nat, off: int, shift: int, to: nat)
    requires c.Sized() && to == at + shift && Aligns(shift)
    requires KidsHold(m0, c.KidsStart(at), c.Kids(), 0)
    requires Carried(m0, m2, c.ComponentSlots(at), at, c.ComponentEnd(at), off, shift)
    ensures KidsHold(m2, c.KidsStart(at) + shift, MoveBlocks(c.Kids(), shift), -(off + shift))
  {
    hide MoveBlocks, KidsHold, KidsEnd, KidsSlots, Component.Kids, Component.ComponentSlots, Component.Sized, Aligns, Carried,
         SlotsHere, WellSized;
    SizedKids(c);
    RecordSlotsAre(c, at);
    CarriedPart(m0, m2, c.ComponentSlots(at), at, c.ComponentEnd(at), c.KidsStart(at), c.ComponentEnd(at), off, shift);
    CarriedKids(m0, m2, c.ComponentSlots(at), c.KidsStart(at), c.Kids(), off, shift, c.KidsStart(at) + shift);
  }

  // A block that was carried over with its pointers taken down by `off` is the
  // moved component with its pointers off by as much: after Serialize and the
  // copy it is what Deserialize works on.
  lemma ReadyToDeserialize(c: Component, m0: Memory, m2: Memory, at: nat, off: int, shift: int, to: nat)
    requires Working(c, at, m0, 0) && to == at + shift && Aligns(shift) && c.ComponentEnd(at) + shift < WORD
    requires Carried(m0, m2, c.ComponentSlots(at), at, c.ComponentEnd(at), off, shift)
    ensures Working(MoveComponent(c, shift), to, m2, -(off + shift))
  {
    hide *;
    var moved := MoveComponent(c, shift);
    TableIsAt(moved, to);
    WorkingIs(c, at, m0, 0);
    WorkingIs(moved, to, m2, -(off + shift));
    MovedSized(c, shift);
    MovedEnd(c, at, shift, to);
    MovedKids(c, shift);
    CarriedHead(c, m0, m2, at, off, shift, to);
    CarriedTables(c, m0, m2, at, off, shift, to);
    CarriedRecords(c, m0, m2, at, off, shift, to);
  }

  lemma TableIsAt(c: Component, at: nat)
    ensures c.Table(at) == at + 80 && c.PoolBase(at) == c.Table(at) + 8 * |c.Kids()| <= c.KidsStart(at)
  {
  }

  // The first n cells of m from `at`, placed at `to`.
  function Copied(m: Memory, at: nat, n: nat, to: nat): Memory {
    if n == 0 then map[] else Copied(m, at, n - 1, to)[to + n - 1 := Read(m, at + n - 1)]
  }

  lemma {:induction false} CopiedCell(m: Memory, at: nat, n: nat, to: nat, k: nat)
    requires k < n
    ensures Read(Copied(m, at, n, to), to + k) == Read(m, at + k)
  {
    if k < n - 1 {
      CopiedCell(m, at, n - 1, to, k);
    }
  }

  lemma CopyCarries(m0: Memory, m1: Memory, slots: set<int>, at: nat, n: nat, to: nat)
    requires Shifted(m0, m1, slots, 0 - at)
    ensures Carried(m0, Copied(m1, at, n, to), slots, at, at + n, at, to - at)
  {
    var m2 := Copied(m1, at, n, to);
    hide Copied, Wrap;
    forall a | at <= a < at + n
      ensures Read(m2, a + (to - at)) == if a in slots then Wrap(Read(m0, a) - at) else Read(m0, a)
    {
      CopiedCell(m1, at, n, to, a - at);
    }
  }

  // Every pointer slot ends up moved by exactly the distance between the bases.
  ghost predicate Relocated(c: Component, m: Memory, at: nat, m': Memory, to: nat) {
    forall a :: at <= a < c.ComponentEnd(at) ==>
      Read(m', a - at + to) == if a in c.ComponentSlots(at) then Wrap(Read(m, a) + to - at) else Read(m, a)
  }

  lemma SlotsMeet(c: Component, m0: Memory, m2: Memory, m3: Memory, at: nat, shift: int, to: nat)
    requires to == at + shift && Aligns(shift)
    requires Carried(m0, m2, c.ComponentSlots(at), at, c.ComponentEnd(at), at, shift)
    requires Shifted(m2, m3, MoveComponent(c, shift).ComponentSlots(to), to)
    ensures Relocated(c, m0, at, m3, to)
  {
    hide Component.ComponentSlots, Component.ComponentEnd, Aligns, MoveComponent, Wrap, Shifted, Carried, SlotsMoved;
    MovedComponentSlots(c, at, shift, to);
    forall a | at <= a < c.ComponentEnd(at)
      ensures Read(m3, a - at + to) == if a in c.ComponentSlots(at) then Wrap(Read(m0, a) + to - at) else Read(m0, a)
    {
      CarriedCell(m0, m2, c.ComponentSlots(at), at, c.ComponentEnd(at), at, shift, a);
      MovedBack(c.ComponentSlots(at), MoveComponent(c, shift).ComponentSlots(to), shift, m2, m3, a, to);
      WrapWrap(Read(m0, a) - at, to);
    }
  }

  lemma MovedBack(s: set<int>, s': set<int>, shift: int, m2: Memory, m3: Memory, a: int, to: int)
    requires SlotsMoved(s, s', shift) && Shifted(m2, m3, s', to)
    ensures Read(m3, a + shift) == if a in s then Wrap(Read(m2, a + shift) + to) else Read(m2, a + shift)
  {
    hide Wrap;
    assert a + shift - shift == a;
  }

  lemma Distance(at: nat, to: nat)
    requires Aligned(at) && Aligned(to)
    ensures Aligns(to - at)
  {
  }

  // Serialize at `at` and copy the block to `to`.
  method Send(m: Memory, at: nat, to: nat, bytes: nat, ghost c: Component) returns (block: Memory)
    requires Working(c, at, m, 0) && at + bytes == c.ComponentEnd(at)
    ensures Carried(m, block, c.ComponentSlots(at), at, c.ComponentEnd(at), at, to - at)
  {
    hide *;
    WorkingMeans(c, at, m, 0);
    var sender := new Serializer(m, at);
    sender.Serialize(c);
    block := Copied(sender.mem, at, bytes, to);
    CopyCarries(m, sender.mem, c.ComponentSlots(at), at, bytes, to);
  }

  // Deserialize the block that arrived at `to`.
  method Receive(block: Memory, to: nat, ghost c: Component) returns (m': Memory)
    requires Working(c, to, block, 0 - to)
    ensures Shifted(block, m', c.ComponentSlots(to), to)
  {
    hide *;
    WorkingMeans(c, to, block, 0 - to);
    var receiver := new Serializer(block, to);
    receiver.Deserialize(c);
    m' := receiver.mem;
  }

  method Relocate(m: Memory, at: nat, to: nat, bytes: nat, ghost c: Component) returns (m': Memory)
    requires c.Sized() && c.ComponentHolds(m, at, 0) && Aligned(at) && Aligned(to)
    requires at + bytes == c.ComponentEnd(at) && at + bytes < WORD && to + bytes < WORD
    ensures Relocated(c, m, at, m', to)
  {
    hide *;
    ghost var shift := to - at;
    Distance(at, to);
    WorkingMeans(c, at, m, 0);
    var block := Send(m, at, to, bytes, c);
    ReadyToDeserialize(c, m, block, at, at, shift, to);
    m' := Receive(block, to, MoveComponent(c, shift));
    SlotsMeet(c, m, block, m', at, shift, to);
  }

  // An in-block pointer keeps its distance from the base.
  lemma InBlockPointer(c: Component, m: Memory, at: nat, m': Memory, to: nat, a: int, off: nat)
    requires Relocated(c, m, at, m', to) && at <= a < c.ComponentEnd(at) && a in c.ComponentSlots(at)
    requires Read(m, a) == at + off && to + off < WORD
    ensures Read(m', a - at + to) == to + off
  {
    hide Component.ComponentSlots, Component.ComponentEnd;
    WrapWrap(to + off, 0);
  }

  // A null pointer is moved like any other, so it stays null only on the spot.
  lemma NullPointer(c: Component, m: Memory, at: nat, m': Memory, to: nat, a: int)
    requires Relocated(c, m, at, m', to) && at <= a < c.ComponentEnd(at) && a in c.ComponentSlots(at)
    requires Read(m, a) == 0 && at < WORD && to < WORD
    ensures Read(m', a - at + to) == 0 <==> at == to
  {
    hide Component.ComponentSlots, Component.ComponentEnd;
    WrapsToZero(to - at);
  }

  lemma WrapsToZero(v: int)
    requires -WORD < v < WORD
    ensures Wrap(v) == 0 <==> v == 0
  {
  }

  // Deserialized where it was serialized, the block is what it was.
  lemma RestoredInPlace(c: Component, m: Memory, at: nat, m': Memory)
    requires Relocated(c, m, at, m', at)
    requires forall a :: a in c.ComponentSlots(at) ==> 0 <= Read(m, a) < WORD
    ensures forall a :: at <= a < c.ComponentEnd(at) ==> Read(m', a) == Read(m, a)
  {
    hide Component.ComponentSlots, Component.ComponentEnd;
    forall a | at <= a < c.ComponentEnd(at) ensures Read(m', a) == Read(m, a) {
      WrapWrap(Read(m, a), 0);
      assert Read(m', a - at + at) == Read(m', a);
    }
  }
}
