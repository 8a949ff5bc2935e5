/** Values, parcels and the wire format: what a value of an interface type
    becomes in a parcel, and how it is read back. */
module WireFormat {
  import opened IdlTypes

  // Numbers are typed by the interface type they are used at; floating-point
  // values, parcelables and remote objects are opaque.
  datatype Value =
    | Flag(b: bool)
    | Num(n: int)
    | Floating(bits: int)
    | Str(s: string)
    | Parcelable(id: int)
    | Remote(id: int)
    | NullPtr
    | Unset
    | Items(items: seq<Value>)
    | Entries(entries: seq<Entry>)

  // A map is listed in its iteration order.
  datatype Entry = Entry(key: Value, val: Value)

  datatype Datum = I32(n: int) | I64(n: int) | F32(bits: int) | F64(bits: int) | S16(s: string) | Object(v: Value) | Binder(id: int)

  const TWO_7 := 0x80
  const TWO_15 := 0x8000
  const TWO_31 := 0x8000_0000
  const TWO_32 := 0x1_0000_0000
  const TWO_63 := 0x8000_0000_0000_0000

  // Conversion to a signed integer of 2 * half values.
  function Signed(n: int, half: int): int
    requires half > 0
  {
    (n + half) % (2 * half) - half
  }

  // The casts of ReadInt32 to a narrower or unsigned type.
  function Cast(p: Prim, n: int): int {
    match p
    case Char => n % TWO_32
    case Byte => Signed(n, TWO_7)
    case Short => Signed(n, TWO_15)
    case _ => n
  }

  predicate InRange(n: int, p: Prim) {
    match p
    case Char => 0 <= n < TWO_32
    case Byte => -TWO_7 <= n < TWO_7
    case Short => -TWO_15 <= n < TWO_15
    case Integer => -TWO_31 <= n < TWO_31
    case Long => -TWO_63 <= n < TWO_63
    case _ => false
  }

  predicate DistinctKeys(es: seq<Entry>) {
    forall i, j :: 0 <= i < j < |es| ==> es[i].key != es[j].key
  }

  predicate HasType(v: Value, t: Type)
    decreases v
  {
    match t
    case Primitive(Boolean) => v.Flag?
    case Primitive(Float) => v.Floating?
    case Primitive(Double) => v.Floating?
    case Primitive(String) => v.Str?
    case Primitive(Void) => false
    case Primitive(p) => v.Num? && InRange(v.n, p)
    case Sequenceable(_, _) => v.Parcelable? || v.NullPtr?
    case Interface(_, _) => v.Remote?
    case List(e) => v.Items? && |v.items| < TWO_31 && forall i :: 0 <= i < |v.items| ==> HasType(v.items[i], e)
    case Array(e) => v.Items? && |v.items| < TWO_31 && forall i :: 0 <= i < |v.items| ==> HasType(v.items[i], e)
    case Map(k, x) =>
      v.Entries? && |v.entries| < TWO_31 && DistinctKeys(v.entries)
      && forall i :: 0 <= i < |v.entries| ==> HasType(v.entries[i].key, k) && HasType(v.entries[i].val, x)
  }

  // ----- encoding and decoding by the structure of the type -----

  function EncodeScalar(v: Value, t: Type): Datum
    requires HasType(v, t) && !t.IsContainer()
  {
    match t
    case Primitive(Boolean) => I32(if v.b then 1 else 0)
    case Primitive(Float) => F32(v.bits)
    case Primitive(Double) => F64(v.bits)
    case Primitive(String) => S16(v.s)
    case Primitive(Long) => I64(v.n)
    case Primitive(Void) => I32(0)
    case Primitive(_) => I32(Signed(v.n, TWO_31))
    case Sequenceable(_, _) => Object(v)
    case Interface(_, _) => Binder(v.id)
  }

  function Encode(v: Value, t: Type): seq<Datum>
    requires HasType(v, t)
    decreases v, 1, 0
  {
    match t
    case List(e) => [I32(|v.items|)] + EncodeItems(v.items, e)
    case Array(e) => [I32(|v.items|)] + EncodeItems(v.items, e)
    case Map(k, x) => [I32(|v.entries|)] + EncodeEntries(v, 0, k, x)
    case _ => [EncodeScalar(v, t)]
  }

  function EncodeItems(items: seq<Value>, e: Type): seq<Datum>
    requires forall i :: 0 <= i < |items| ==> HasType(items[i], e)
    decreases items
  {
    if items == [] then [] else Encode(items[0], e) + EncodeItems(items[1..], e)
  }

  predicate EntriesTyped(es: seq<Entry>, k: Type, x: Type) {
    forall i :: 0 <= i < |es| ==> HasType(es[i].key, k) && HasType(es[i].val, x)
  }

  // The entries of a map from the i-th on.
  function EncodeEntries(v: Value, i: nat, k: Type, x: Type): seq<Datum>
    requires v.Entries? && i <= |v.entries| && EntriesTyped(v.entries, k, x)
    decreases v, 0, |v.entries| - i
  {
    if i == |v.entries| then []
    else Encode(v.entries[i].key, k) + Encode(v.entries[i].val, x) + EncodeEntries(v, i + 1, k, x)
  }

  function DecodeScalar(t: Type, d: Datum): Option<Value>
    requires !t.IsContainer() && !t.IsVoid()
  {
    match t
    case Primitive(Boolean) => if d.I32? then Some(Flag(d.n == 1)) else None
    case Primitive(Float) => if d.F32? then Some(Floating(d.bits)) else None
    case Primitive(Double) => if d.F64? then Some(Floating(d.bits)) else None
    case Primitive(String) => if d.S16? then Some(Str(d.s)) else None
    case Primitive(Long) => if d.I64? then Some(Num(d.n)) else None
    case Primitive(p) => if d.I32? then Some(Num(Cast(p, d.n))) else None
    case Sequenceable(_, _) => if d.Object? then Some(d.v) else None
    case Interface(_, _) => if d.Binder? then Some(Remote(d.id)) else None
  }

  function Decode(t: Type, q: seq<Datum>): Option<(Value, seq<Datum>)>
    decreases t, 0
  {
    if t.IsVoid() || q == [] then None
    else
      match t
      case List(e) => if q[0].I32? then DecodeItems(e, q[0].n, q[1..], []) else None
      case Array(e) => if q[0].I32? then DecodeItems(e, q[0].n, q[1..], []) else None
      case Map(k, x) => if q[0].I32? then DecodeEntries(k, x, q[0].n, q[1..], []) else None
      case _ =>
        match DecodeScalar(t, q[0])
        case None => None
        case Some(v) => Some((v, q[1..]))
  }

  // Reads n elements behind those already read.
  function DecodeItems(e: Type, n: int, q: seq<Datum>, seen: seq<Value>): Option<(Value, seq<Datum>)>
    decreases e, if n > 0 then n else 0
  {
    if n <= 0 then Some((Items(seen), q))
    else
      match Decode(e, q)
      case None => None
      case Some(r) => DecodeItems(e, n - 1, r.1, seen + [r.0])
  }

  // m[key] = value
  function Inserted(es: seq<Entry>, key: Value, val: Value): seq<Entry> {
    if es == [] then [Entry(key, val)]
    else if es[0].key == key then [Entry(key, val)] + es[1..]
    else [es[0]] + Inserted(es[1..], key, val)
  }

  function DecodeEntries(k: Type, x: Type, n: int, q: seq<Datum>, seen: seq<Entry>): Option<(Value, seq<Datum>)>
    decreases Map(k, x), 0, if n > 0 then n else 0
  {
    if n <= 0 then Some((Entries(seen), q))
    else
      match Decode(k, q)
      case None => None
      case Some(r) =>
        match Decode(x, r.1)
        case None => None
        case Some(s) => DecodeEntries(k, x, n - 1, s.1, Inserted(seen, r.0, s.0))
  }

  lemma ScalarRoundTrip(v: Value, t: Type)
    requires HasType(v, t) && !t.IsContainer()
    ensures DecodeScalar(t, EncodeScalar(v, t)) == Some(v)
  {
    if v.Num? && t.prim != Long {
      CastBack(v.n, t.prim);
    }
  }

  lemma CastBack(n: int, p: Prim)
    requires InRange(n, p) && p != Long
    ensures Cast(p, Signed(n, TWO_31)) == n
  {
    if p == Char {
      if n >= TWO_31 {
        assert Signed(n, TWO_31) == n - TWO_32;
      }
    }
  }

  lemma {:induction false} NewKey(es: seq<Entry>, key: Value, val: Value)
    requires forall i :: 0 <= i < |es| ==> es[i].key != key
    ensures Inserted(es, key, val) == es + [Entry(key, val)]
  {
    if es != [] {
      NewKey(es[1..], key, val);
    }
  }

  // The wire format is prefix-decodable, at any depth of nesting.
  lemma {:induction false} PrefixDecodable(v: Value, t: Type, rest: seq<Datum>)
    requires HasType(v, t)
    ensures Decode(t, Encode(v, t) + rest) == Some((v, rest))
    decreases v, 1, 0
  {
    var q := Encode(v, t) + rest;
    match t
    case List(e) =>
      assert q[1..] == EncodeItems(v.items, e) + rest && [] + v.items == v.items;
      ItemsDecodable(v.items, e, rest, []);
    case Array(e) =>
      assert q[1..] == EncodeItems(v.items, e) + rest && [] + v.items == v.items;
      ItemsDecodable(v.items, e, rest, []);
    case Map(k, x) =>
      assert q[1..] == EncodeEntries(v, 0, k, x) + rest && v.entries[..0] == [];
      EntriesDecodable(v, 0, k, x, rest);
    case _ =>
      ScalarRoundTrip(v, t);
      assert q[1..] == rest;
  }

  lemma {:induction false} ItemsDecodable(items: seq<Value>, e: Type, rest: seq<Datum>, seen: seq<Value>)
    requires forall i :: 0 <= i < |items| ==> HasType(items[i], e)
    ensures DecodeItems(e, |items|, EncodeItems(items, e) + rest, seen) == Some((Items(seen + items), rest))
    decreases items
  {
    if items == [] {
      assert seen + items == seen && EncodeItems(items, e) + rest == rest;
    } else {
      var more := EncodeItems(items[1..], e) + rest;
      assert EncodeItems(items, e) + rest == Encode(items[0], e) + more;
      PrefixDecodable(items[0], e, more);
      ItemsDecodable(items[1..], e, rest, seen + [items[0]]);
      assert seen + [items[0]] + items[1..] == seen + items;
    }
  }

  lemma {:induction false} EntriesDecodable(v: Value, i: nat, k: Type, x: Type, rest: seq<Datum>)
    requires v.Entries? && i <= |v.entries| && EntriesTyped(v.entries, k, x) && DistinctKeys(v.entries)
    ensures DecodeEntries(k, x, |v.entries| - i, EncodeEntries(v, i, k, x) + rest, v.entries[..i]) == Some((v, rest))
    decreases v, 0, |v.entries| - i
  {
    hide Inserted, Decode, HasType, DecodeEntries;
    var es := v.entries;
    if i == |es| {
      assert es[..i] == es && EncodeEntries(v, i, k, x) + rest == rest;
      NoEntries(k, x, rest, es);
    } else {
      var more := EncodeEntries(v, i + 1, k, x) + rest;
      var value := Encode(es[i].val, x) + more;
      assert EncodeEntries(v, i, k, x) + rest == Encode(es[i].key, k) + value;
      PrefixDecodable(es[i].key, k, value);
      PrefixDecodable(es[i].val, x, more);
      NextEntry(es, i);
      EntryDecoded(k, x, |es| - i, Encode(es[i].key, k) + value, value, more, es[i].key, es[i].val, es[..i]);
      EntriesDecodable(v, i + 1, k, x, rest);
    }
  }

  lemma NoEntries(k: Type, x: Type, q: seq<Datum>, seen: seq<Entry>)
    ensures DecodeEntries(k, x, 0, q, seen) == Some((Entries(seen), q))
  {
  }

  lemma EntryDecoded(k: Type, x: Type, n: nat, q: seq<Datum>, q1: seq<Datum>, q2: seq<Datum>, key: Value, val: Value,
                     seen: seq<Entry>)
    requires n > 0 && Decode(k, q) == Some((key, q1)) && Decode(x, q1) == Some((val, q2))
    ensures DecodeEntries(k, x, n, q, seen) == DecodeEntries(k, x, n - 1, q2, Inserted(seen, key, val))
  {
    hide Decode, Inserted;
  }

  lemma NextEntry(es: seq<Entry>, i: nat)
    requires DistinctKeys(es) && i < |es|
    ensures Inserted(es[..i], es[i].key, es[i].val) == es[..i + 1]
  {
    NewKey(es[..i], es[i].key, es[i].val);
    assert es[..i] + [Entry(es[i].key, es[i].val)] == es[..i + 1];
  }

  // ----- iteration order -----

  // w lists the maps in v in some other order.
  ghost predicate Relisted(v: Value, w: Value)
    decreases v, 1
  {
    match v
    case Items(items) =>
      w.Items? && |w.items| == |items| && forall i :: 0 <= i < |items| ==> Relisted(items[i], w.items[i])
    case Entries(es) =>
      && w.Entries? && |w.entries| == |es| && DistinctKeys(w.entries)
      && forall j :: 0 <= j < |w.entries| ==> HasEntry(v, w.entries[j])
    case _ => w == v
  }

  ghost predicate HasEntry(v: Value, f: Entry)
    requires v.Entries?
    decreases v, 0
  {
    exists i :: 0 <= i < |v.entries| && v.entries[i].key == f.key && Relisted(v.entries[i].val, f.val)
  }

  lemma {:induction false} RelistedTyped(v: Value, w: Value, t: Type)
    requires HasType(v, t) && Relisted(v, w)
    ensures HasType(w, t)
    decreases v
  {
    match t
    case List(e) =>
      forall i | 0 <= i < |w.items| ensures HasType(w.items[i], e) {
        RelistedTyped(v.items[i], w.items[i], e);
      }
    case Array(e) =>
      forall i | 0 <= i < |w.items| ensures HasType(w.items[i], e) {
        RelistedTyped(v.items[i], w.items[i], e);
      }
    case Map(k, x) =>
      forall j | 0 <= j < |w.entries| ensures HasType(w.entries[j].key, k) && HasType(w.entries[j].val, x) {
        assert HasEntry(v, w.entries[j]);
        var i :| 0 <= i < |v.entries| && v.entries[i].key == w.entries[j].key
                 && Relisted(v.entries[i].val, w.entries[j].val);
        RelistedTyped(v.entries[i].val, w.entries[j].val, x);
      }
    case _ =>
  }

  // What a value means: a map has no order.
  datatype Meaning = Plain(value: Value) | Listed(items: seq<Meaning>) | Mapped(entries: map<Value, Meaning>)

  function MeaningOf(v: Value): Meaning
    decreases v, 1, 0
  {
    match v
    case Items(items) => Listed(seq(|items|, i requires 0 <= i < |items| => MeaningOf(items[i])))
    case Entries(es) => Mapped(MappedTo(v, |es|))
    case _ => Plain(v)
  }

  // The first n entries as a map.
  function MappedTo(v: Value, n: nat): map<Value, Meaning>
    requires v.Entries? && n <= |v.entries|
    decreases v, 0, n
  {
    if n == 0 then map[] else MappedTo(v, n - 1)[v.entries[n - 1].key := MeaningOf(v.entries[n - 1].val)]
  }

  function Keys(es: seq<Entry>): set<Value> {
    set i | 0 <= i < |es| :: es[i].key
  }

  lemma {:induction false} MappedHas(v: Value, n: nat)
    requires v.Entries? && n <= |v.entries| && DistinctKeys(v.entries)
    ensures MappedTo(v, n).Keys == Keys(v.entries[..n])
    ensures forall i :: 0 <= i < n ==>
              v.entries[i].key in MappedTo(v, n) && MappedTo(v, n)[v.entries[i].key] == MeaningOf(v.entries[i].val)
    decreases n
  {
    hide MeaningOf;
    if n > 0 {
      MappedHas(v, n - 1);
      KeysGrow(v.entries, n - 1);
    }
  }

  lemma KeysGrow(es: seq<Entry>, n: nat)
    requires n < |es|
    ensures Keys(es[..n + 1]) == Keys(es[..n]) + {es[n].key}
  {
    forall k | k in Keys(es[..n]) + {es[n].key} ensures k in Keys(es[..n + 1]) {
      if k == es[n].key {
        assert es[..n + 1][n] == es[n];
      } else {
        var i :| 0 <= i < n && es[..n][i].key == k;
        assert es[..n + 1][i].key == k;
      }
    }
    forall k | k in Keys(es[..n + 1]) ensures k in Keys(es[..n]) + {es[n].key} {
      var i :| 0 <= i < n + 1 && es[..n + 1][i].key == k;
      if i < n {
        assert es[..n][i].key == k;
      }
    }
  }

  lemma {:induction false} KeysCount(es: seq<Entry>, n: nat)
    requires DistinctKeys(es) && n <= |es|
    ensures |Keys(es[..n])| == n
    decreases n
  {
    if n > 0 {
      KeysCount(es, n - 1);
      KeysGrow(es, n - 1);
    }
  }

  // As many keys, all of them among the others: the same keys.
  lemma SameKeys(a: seq<Entry>, b: seq<Entry>)
    requires DistinctKeys(a) && DistinctKeys(b) && |a| == |b| && Keys(b) <= Keys(a)
    ensures Keys(b) == Keys(a)
  {
    hide Keys;
    KeysCount(a, |a|);
    KeysCount(b, |b|);
    assert a[..|a|] == a && b[..|b|] == b;
    assert Keys(a) == Keys(b) + (Keys(a) - Keys(b));
  }

  // Relisting a value does not change what it means.
  lemma {:induction false} RelistedMeans(v: Value, w: Value, t: Type)
    requires HasType(v, t) && Relisted(v, w)
    ensures MeaningOf(w) == MeaningOf(v)
    decreases v, 2
  {
    match v
    case Items(items) =>
      forall i | 0 <= i < |items| ensures MeaningOf(w.items[i]) == MeaningOf(items[i]) {
        RelistedMeans(items[i], w.items[i], t.element);
      }
    case Entries(es) =>
      EntriesMean(v, w, t);
    case _ =>
  }

  lemma MapParts(v: Value, w: Value, t: Type)
    requires v.Entries? && HasType(v, t) && Relisted(v, w)
    ensures t.Map? && DistinctKeys(v.entries) && forall i :: 0 <= i < |v.entries| ==> HasType(v.entries[i].val, t.value)
    ensures w.Entries? && |w.entries| == |v.entries| && DistinctKeys(w.entries)
    ensures forall j :: 0 <= j < |w.entries| ==> HasEntry(v, w.entries[j])
    ensures MeaningOf(v) == Mapped(MappedTo(v, |v.entries|)) && MeaningOf(w) == Mapped(MappedTo(w, |w.entries|))
  {
    hide MappedTo;
  }

  lemma {:induction false} EntryMeans(v: Value, f: Entry, t: Type)
    requires v.Entries? && (forall i :: 0 <= i < |v.entries| ==> HasType(v.entries[i].val, t))
    requires HasEntry(v, f) && DistinctKeys(v.entries)
    ensures f.key in MappedTo(v, |v.entries|) && MappedTo(v, |v.entries|)[f.key] == MeaningOf(f.val)
    decreases v, 0
  {
    hide HasType, Relisted, MeaningOf, MappedTo;
    var es := v.entries;
    MappedHas(v, |es|);
    var i :| 0 <= i < |es| && es[i].key == f.key && Relisted(es[i].val, f.val);
    RelistedMeans(es[i].val, f.val, t);
  }

  lemma {:induction false} EntriesMean(v: Value, w: Value, t: Type)
    requires v.Entries? && HasType(v, t) && Relisted(v, w)
    ensures MeaningOf(w) == MeaningOf(v)
    decreases v, 1
  {
    hide *;
    MapParts(v, w, t);
    var es, fs := v.entries, w.entries;
    assert es[..|es|] == es && fs[..|fs|] == fs;
    MappedHas(v, |es|);
    MappedHas(w, |fs|);
    forall j | 0 <= j < |fs|
      ensures fs[j].key in MappedTo(v, |es|) && MappedTo(v, |es|)[fs[j].key] == MeaningOf(fs[j].val)
    {
      EntryMeans(v, fs[j], t.value);
    }
    KeysWithin(fs, MappedTo(v, |es|).Keys);
    SameKeys(es, fs);
    SameMap(MappedTo(w, |fs|), MappedTo(v, |es|), fs);
  }

  lemma KeysWithin(es: seq<Entry>, s: set<Value>)
    requires forall j :: 0 <= j < |es| ==> es[j].key in s
    ensures Keys(es) <= s
  {
  }

  lemma SameMap(a: map<Value, Meaning>, b: map<Value, Meaning>, es: seq<Entry>)
    requires a.Keys == b.Keys == Keys(es) && forall j :: 0 <= j < |es| ==> es[j].key in a && es[j].key in b && a[es[j].key] == b[es[j].key]
    ensures a == b
  {
  }

  // Whatever order the writer iterates its maps in, the reader ends up with
  // a value that means the same, and the same rest of the parcel.
  lemma AnyOrderDecodes(v: Value, w: Value, t: Type, rest: seq<Datum>)
    requires HasType(v, t) && Relisted(v, w)
    ensures HasType(w, t)
    ensures var r := Decode(t, Encode(w, t) + rest);
            r.Some? && MeaningOf(r.value.0) == MeaningOf(v) && r.value.1 == rest
  {
    RelistedTyped(v, w, t);
    RelistedMeans(v, w, t);
    PrefixDecodable(w, t, rest);
  }
}
