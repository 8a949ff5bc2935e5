/** The string pool: a growing character buffer that holds each distinct
    non-empty string once, NUL-terminated, and hands out its offset. */
module StringPools {

  const INITIAL_CAPACITY := 256

  // The buffer contents after the strings of `order` were added one by one.
  function PoolText(order: seq<string>): string {
    if order == [] then ""
    else PoolText(order[..|order| - 1]) + order[|order| - 1] + ['\0']
  }

  function TotalSize(order: seq<string>): nat {
    if order == [] then 0
    else TotalSize(order[..|order| - 1]) + |order[|order| - 1]| + 1
  }

  function OffsetAt(order: seq<string>, i: nat): nat
    requires i <= |order|
  {
    |PoolText(order[..i])|
  }

  function Position(order: seq<string>, s: string): (i: nat)
    requires s in order
    ensures i < |order| && order[i] == s
    ensures forall j :: 0 <= j < i ==> order[j] != s
  {
    if order[0] == s then 0 else 1 + Position(order[1..], s)
  }

  function OffsetOf(order: seq<string>, s: string): nat
    requires s in order
  {
    OffsetAt(order, Position(order, s))
  }

  // A C string: the characters from `at` up to the first NUL.
  function CString(text: string, at: nat): string
    decreases |text| - at
  {
    if at >= |text| || text[at] == '\0' then "" else [text[at]] + CString(text, at + 1)
  }

  ghost predicate Poolable(s: string) {
    s != "" && '\0' !in s
  }

  ghost predicate DistinctTexts(order: seq<string>) {
    && (forall i :: 0 <= i < |order| ==> Poolable(order[i]))
    && (forall i, j :: 0 <= i < j < |order| ==> order[i] != order[j])
  }

  class StringPool {
    var data: array<char>
    var dataOffset: nat
    var stringOffsets: map<string, nat>
    ghost var order: seq<string>  // the pooled strings, oldest first

    // Keys that were looked up before they were added map to offset 0.
    ghost predicate Valid()
      reads this, data
    {
      && DistinctTexts(order)
      && dataOffset == |PoolText(order)| < data.Length
      && data[..dataOffset] == PoolText(order)
      && (forall s :: s in order ==> s in stringOffsets)
      && (forall s :: s in stringOffsets ==>
            stringOffsets[s] == if s in order then OffsetOf(order, s) else 0)
    }

    constructor ()
      ensures Valid() && fresh(data)
      ensures order == [] && stringOffsets == map[]
    {
      data := new char[INITIAL_CAPACITY](_ => '\0');
      dataOffset, stringOffsets, order := 0, map[], [];
    }

    method Grow(expand: nat)
      requires Valid()
      modifies this`data
      ensures Valid()
      ensures dataOffset + expand < data.Length
      ensures data == old(data) || fresh(data)
      ensures data[..dataOffset] == old(data[..dataOffset])
    {
      var newSize := dataOffset + expand;
      if newSize < data.Length {
        return;
      }
      var step := data.Length * 3;
      newSize := if step > newSize then step else step + newSize;
      var newData := new char[newSize](_ => '\0');
      forall i | 0 <= i < dataOffset {
        newData[i] := data[i];
      }
      assert newData[..dataOffset] == data[..dataOffset];
      data := newData;
    }

    method AddInternal(s: string) returns (offset: nat)
      requires Valid() && Poolable(s) && s !in order && s !in stringOffsets
      modifies this, data
      ensures data == old(data) || fresh(data)
      ensures stringOffsets == old(stringOffsets)
      ensures order == old(order) + [s]
      ensures offset == |PoolText(old(order))|
      ensures DistinctTexts(order) && dataOffset == |PoolText(order)| < data.Length
      ensures data[..dataOffset] == PoolText(order)
    {
      Grow(|s| + 1);
      offset := dataOffset;
      forall i | 0 <= i < |s| + 1 {
        data[offset + i] := if i < |s| then s[i] else '\0';
      }
      dataOffset := dataOffset + |s| + 1;
      assert data[..offset] == old(data[..dataOffset]);
      assert data[..dataOffset] == data[..offset] + s + ['\0'];
      order := order + [s];
      assert order[..|order| - 1] == old(order);
    }

    method Add(s: string)
      requires Valid() && '\0' !in s
      modifies this, data
      ensures Valid()
      ensures data == old(data) || fresh(data)
      ensures order == if s == "" || s in old(stringOffsets) then old(order) else old(order) + [s]
      ensures stringOffsets == if s == "" || s in old(stringOffsets) then old(stringOffsets)
                               else old(stringOffsets)[s := |PoolText(old(order))|]
    {
      if s == "" || s in stringOffsets {
        return;
      }
      var offset := AddInternal(s);
      stringOffsets := stringOffsets[s := offset];
      forall t | t in order ensures t in stringOffsets && stringOffsets[t] == OffsetOf(order, t) {
        if t == s {
          assert Position(order, s) == |order| - 1;
          assert order[..|order| - 1] == old(order);
        } else {
          OffsetsNeverChange(old(order), [s], t);
        }
      }
    }

    // Looking up an unknown key enters it with offset 0.
    method GetOffset(s: string) returns (offset: nat)
      requires Valid()
      modifies this`stringOffsets
      ensures Valid()
      ensures offset == if s in order then OffsetOf(order, s) else 0
      ensures stringOffsets.Keys == old(stringOffsets.Keys) + {s}
    {
      if s !in stringOffsets {
        stringOffsets := stringOffsets[s := 0];
      }
      offset := stringOffsets[s];
    }
  }

  lemma {:induction false} PositionStays(order: seq<string>, more: seq<string>, s: string)
    requires s in order
    ensures s in order + more && Position(order + more, s) == Position(order, s)
  {
    if order[0] != s {
      assert (order + more)[1..] == order[1..] + more;
      PositionStays(order[1..], more, s);
    }
  }

  // Strings added later move no string that is already in the pool.
  lemma OffsetsNeverChange(order: seq<string>, more: seq<string>, s: string)
    requires s in order
    ensures s in order + more && OffsetOf(order + more, s) == OffsetOf(order, s)
  {
    PositionStays(order, more, s);
    var i := Position(order, s);
    assert (order + more)[..i] == order[..i];
  }

  lemma {:induction false} SizeIsTotal(order: seq<string>)
    ensures |PoolText(order)| == TotalSize(order)
  {
    if order != [] {
      SizeIsTotal(order[..|order| - 1]);
    }
  }

  lemma {:induction false} TextIsPrefix(order: seq<string>, i: nat)
    requires i <= |order|
    ensures PoolText(order[..i]) <= PoolText(order)
    decreases |order|
  {
    if i < |order| {
      var init := order[..|order| - 1];
      TextIsPrefix(init, i);
      assert init[..i] == order[..i];
    } else {
      assert order[..i] == order;
    }
  }

  // String i occupies [OffsetAt(i), OffsetAt(i + 1)), its own text and a NUL.
  lemma RangeOf(order: seq<string>, i: nat)
    requires i < |order|
    ensures OffsetAt(order, i + 1) == OffsetAt(order, i) + |order[i]| + 1 <= |PoolText(order)|
    ensures PoolText(order)[OffsetAt(order, i)..OffsetAt(order, i + 1)] == order[i] + ['\0']
  {
    TextIsPrefix(order, i + 1);
    var upto := order[..i + 1];
    assert upto[..|upto| - 1] == order[..i];
    var text := PoolText(order);
    assert PoolText(upto) == PoolText(order[..i]) + (order[i] + ['\0']);
    assert text[..|PoolText(upto)|] == PoolText(upto);
    assert text[OffsetAt(order, i)..OffsetAt(order, i + 1)] == text[..|PoolText(upto)|][OffsetAt(order, i)..];
  }

  lemma {:induction false} RangesAscend(order: seq<string>, i: nat, j: nat)
    requires i < j <= |order|
    ensures OffsetAt(order, i) + |order[i]| + 1 <= OffsetAt(order, j)
    decreases j - i
  {
    RangeOf(order, i);
    if i + 1 < j {
      RangesAscend(order, i + 1, j);
    }
  }

  // Two different pooled strings never share a character of the buffer.
  lemma RangesDisjoint(order: seq<string>, s: string, t: string)
    requires s in order && t in order && s != t
    ensures OffsetOf(order, s) + |s| + 1 <= OffsetOf(order, t) || OffsetOf(order, t) + |t| + 1 <= OffsetOf(order, s)
    ensures OffsetOf(order, s) + |s| + 1 <= |PoolText(order)| == TotalSize(order)
  {
    var i, j := Position(order, s), Position(order, t);
    if i < j {
      RangesAscend(order, i, j);
    } else {
      RangesAscend(order, j, i);
    }
    RangeOf(order, i);
    SizeIsTotal(order);
  }

  lemma {:induction false} CStringAt(text: string, at: nat, s: string)
    requires '\0' !in s && at + |s| < |text|
    requires text[at..at + |s| + 1] == s + ['\0']
    ensures CString(text, at) == s
    decreases |s|
  {
    var here := text[at..at + |s| + 1];
    assert text[at] == here[0];
    if s != "" {
      assert here[0] == s[0];
      assert text[at + 1..at + 1 + |s[1..]| + 1] == here[1..] == s[1..] + ['\0'];
      CStringAt(text, at + 1, s[1..]);
    }
  }

  // Every pooled string reads back intact from its offset.
  lemma ReadsBack(order: seq<string>, s: string)
    requires DistinctTexts(order) && s in order
    ensures CString(PoolText(order), OffsetOf(order, s)) == s
  {
    var i := Position(order, s);
    RangeOf(order, i);
    CStringAt(PoolText(order), OffsetAt(order, i), s);
  }

  // The empty string is never pooled: its offset is that of the oldest string.
  lemma EmptyStringReadsOldest(order: seq<string>)
    requires DistinctTexts(order)
    ensures CString(PoolText(order), 0) == if order == [] then "" else order[0]
  {
    if order != [] {
      assert Position(order, order[0]) == 0;
      assert order[..0] == [];
      ReadsBack(order, order[0]);
    }
  }
}
