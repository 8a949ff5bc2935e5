/** What the emitted statements do: block-structured variables and two parcels
    that are written at the back and read at the front. */
module CppSemantics {
  import opened IdlTypes
  import opened CppEmitter
  import opened WireFormat

  type Scope = map<string, Value>

  // The innermost scope is the last one.
  datatype State = State(scopes: seq<Scope>, data: seq<Datum>, reply: seq<Datum>)
  {
    function Contents(p: Parcel): seq<Datum> {
      if p.Data? then data else reply
    }

    function With(p: Parcel, q: seq<Datum>): State {
      if p.Data? then this.(data := q) else this.(reply := q)
    }

    function Append(p: Parcel, q: seq<Datum>): State {
      With(p, Contents(p) + q)
    }
  }

  function Lookup(scopes: seq<Scope>, name: string): Option<Value> {
    if scopes == [] then None
    else if name in scopes[|scopes| - 1] then Some(scopes[|scopes| - 1][name])
    else Lookup(scopes[..|scopes| - 1], name)
  }

  function Assign(scopes: seq<Scope>, name: string, v: Value): Option<seq<Scope>> {
    if scopes == [] then None
    else if name in scopes[|scopes| - 1] then Some(scopes[..|scopes| - 1] + [scopes[|scopes| - 1][name := v]])
    else
      match Assign(scopes[..|scopes| - 1], name, v)
      case None => None
      case Some(outer) => Some(outer + [scopes[|scopes| - 1]])
  }

  // A second declaration of a name in one scope does not compile.
  function DeclareIn(scopes: seq<Scope>, name: string, v: Value): Option<seq<Scope>> {
    if scopes == [] || name in scopes[|scopes| - 1] then None
    else Some(scopes[..|scopes| - 1] + [scopes[|scopes| - 1][name := v]])
  }

  function Put(op: WriteOp, v: Value): Option<Datum> {
    match op
    case WriteFlag => if v.Flag? then Some(I32(if v.b then 1 else 0)) else None
    case WriteInt32 => if v.Num? then Some(I32(Signed(v.n, TWO_31))) else None
    case WriteInt64 => if v.Num? then Some(I64(v.n)) else None
    case WriteFloat => if v.Floating? then Some(F32(v.bits)) else None
    case WriteDouble => if v.Floating? then Some(F64(v.bits)) else None
    case WriteString16 => if v.Str? then Some(S16(v.s)) else None
    case WriteParcelable => if v.Parcelable? || v.NullPtr? then Some(Object(v)) else None
    case WriteRemoteObject => if v.Remote? then Some(Binder(v.id)) else None
  }

  function Take(op: ReadOp, d: Datum): Option<Value> {
    match op
    case ReadFlag => if d.I32? then Some(Flag(d.n == 1)) else None
    case ReadCast(p) => if d.I32? then Some(Num(Cast(p, d.n))) else None
    case ReadInt32 => if d.I32? then Some(Num(d.n)) else None
    case ReadInt64 => if d.I64? then Some(Num(d.n)) else None
    case ReadFloat => if d.F32? then Some(Floating(d.bits)) else None
    case ReadDouble => if d.F64? then Some(Floating(d.bits)) else None
    case ReadString16 => if d.S16? then Some(Str(d.s)) else None
    case ReadParcelable(_) => if d.Object? then Some(d.v) else None
    case ReadRemoteObject(_) => if d.Binder? then Some(Remote(d.id)) else None
  }

  // What a variable holds before it is assigned.
  function Initial(t: Type, isNull: bool): Value {
    if isNull then NullPtr
    else if t.List? || t.Array? then Items([])
    else if t.Map? then Entries([])
    else if t == Primitive(String) then Str("")
    else Unset
  }

  // `for (auto it = (*it).begin(); ...` mentions the `it` it declares.
  predicate MentionsIt(name: string) {
    name == "(*it)" || name == "(it->first)" || name == "(it->second)"
  }

  function Bind(st: State, scopes: Option<seq<Scope>>): Option<State> {
    match scopes
    case None => None
    case Some(s) => Some(st.(scopes := s))
  }

  function Exec(s: Stmt, st: State): Option<State>
    decreases s, 0, 0
  {
    match s
    case Write(p, op, name) => (
      match Lookup(st.scopes, name)
      case None => None
      case Some(v) =>
        match Put(op, v)
        case None => None
        case Some(d) => Some(st.Append(p, [d])))
    case WriteSize(p, name) => (
      match Lookup(st.scopes, name)
      case Some(Items(items)) => Some(st.Append(p, [I32(Signed(|items|, TWO_31))]))
      case Some(Entries(es)) => Some(st.Append(p, [I32(Signed(|es|, TWO_31))]))
      case _ => None)
    case ForEach(name, body) => (
      if MentionsIt(name) then None
      else
        match Lookup(st.scopes, name)
        case Some(Items(items)) => EachItem(body, items, st)
        case Some(Entries(es)) => EachEntry(body, es, st)
        case _ => None)
    case Read(p, op, name, declares) => (
      if st.Contents(p) == [] then None
      else
        match Take(op, st.Contents(p)[0])
        case None => None
        case Some(v) =>
          Bind(st.With(p, st.Contents(p)[1..]),
               if declares then DeclareIn(st.scopes, name, v) else Assign(st.scopes, name, v)))
    case Declare(t, name, isNull) => Bind(st, DeclareIn(st.scopes, name, Initial(t, isNull)))
    case ReadSize(p, name) => (
      if st.Contents(p) != [] && st.Contents(p)[0].I32? then
        Bind(st.With(p, st.Contents(p)[1..]), DeclareIn(st.scopes, name + "Size", Num(st.Contents(p)[0].n)))
      else None)
    case ForCount(name, body) => (
      match Lookup(st.scopes, name + "Size")
      case Some(Num(n)) => Repeat(body, if n > 0 then n else 0, st)
      case _ => None)
    case PushBack(name) => (
      match (Lookup(st.scopes, name), Lookup(st.scopes, "value"))
      case (Some(Items(items)), Some(v)) =>
        // `value.push_back(value)` pushes a collection into itself
        if name == "value" then None else Bind(st, Assign(st.scopes, name, Items(items + [v])))
      case _ => None)
    case Insert(name) => (
      match (Lookup(st.scopes, name), Lookup(st.scopes, "key"), Lookup(st.scopes, "value"))
      case (Some(Entries(es)), Some(k), Some(v)) =>
        if name == "key" || name == "value" then None else Bind(st, Assign(st.scopes, name, Entries(Inserted(es, k, v))))
      case _ => None)
    case _ => None
  }

  function ExecAll(ss: seq<Stmt>, st: State): Option<State>
    decreases ss, 0, 0
  {
    if ss == [] then Some(st)
    else
      match Exec(ss[0], st)
      case None => None
      case Some(next) => ExecAll(ss[1..], next)
  }

  // The body in a scope of its own, which holds the loop's variables.
  function ExecBlock(body: seq<Stmt>, vars: Scope, st: State): Option<State>
    decreases body, 1, 0
  {
    match ExecAll(body, st.(scopes := st.scopes + [vars]))
    case None => None
    case Some(next) => if next.scopes == [] then None else Some(next.(scopes := next.scopes[..|next.scopes| - 1]))
  }

  function EachItem(body: seq<Stmt>, items: seq<Value>, st: State): Option<State>
    decreases body, 2, |items|
  {
    if items == [] then Some(st)
    else
      match ExecBlock(body, map["(*it)" := items[0]], st)
      case None => None
      case Some(next) => EachItem(body, items[1..], next)
  }

  function EachEntry(body: seq<Stmt>, es: seq<Entry>, st: State): Option<State>
    decreases body, 2, |es|
  {
    if es == [] then Some(st)
    else
      match ExecBlock(body, map["(it->first)" := es[0].key, "(it->second)" := es[0].val], st)
      case None => None
      case Some(next) => EachEntry(body, es[1..], next)
  }

  function Repeat(body: seq<Stmt>, n: nat, st: State): Option<State>
    decreases body, 2, n
  {
    if n == 0 then Some(st)
    else
      match ExecBlock(body, map["i" := Num(0)], st)
      case None => None
      case Some(next) => Repeat(body, n - 1, next)
  }

  // ----- statement lists -----

  function Then(r: Option<State>, ss: seq<Stmt>): Option<State> {
    match r
    case None => None
    case Some(st) => ExecAll(ss, st)
  }

  lemma {:induction false} ExecJoin(a: seq<Stmt>, b: seq<Stmt>, st: State)
    ensures ExecAll(a + b, st) == Then(ExecAll(a, st), b)
    decreases |a|
  {
    if a == [] {
      assert a + b == b;
    } else {
      assert (a + b)[0] == a[0] && (a + b)[1..] == a[1..] + b;
      var r := Exec(a[0], st);
      if r.Some? {
        ExecJoin(a[1..], b, r.value);
      }
    }
  }

  lemma ExecOne(s: Stmt, st: State)
    ensures ExecAll([s], st) == Exec(s, st)
  {
    assert [s][1..] == [];
  }

  lemma ExecTwo(s: Stmt, t: Stmt, st: State)
    ensures ExecAll([s, t], st) == match Exec(s, st) case None => None case Some(next) => Exec(t, next)
  {
    hide Exec;
    assert [s, t][1..] == [t];
    var r := Exec(s, st);
    if r.Some? {
      ExecOne(t, r.value);
    }
  }

  // ----- writing a variable -----

  predicate Scalar(t: Type) {
    !t.IsContainer() && !t.IsVoid()
  }

  // The types the emitted code can transfer: collections only of scalars.
  predicate Flat(t: Type) {
    match t
    case List(e) => Scalar(e)
    case Array(e) => Scalar(e)
    case Map(k, v) => Scalar(k) && Scalar(v)
    case _ => Scalar(t)
  }

  lemma PutIs(v: Value, t: Type)
    requires HasType(v, t) && Scalar(t)
    ensures Put(WriteOps(t), v) == Some(EncodeScalar(v, t)) && Encode(v, t) == [EncodeScalar(v, t)]
  {
  }

  lemma TakeIs(v: Value, t: Type)
    requires HasType(v, t) && Scalar(t)
    ensures Take(ReadOps(t), EncodeScalar(v, t)) == Some(v)
  {
    ScalarRoundTrip(v, t);
  }

  lemma WriteScalar(p: Parcel, name: string, t: Type, st: State, v: Value)
    requires Scalar(t) && HasType(v, t) && Lookup(st.scopes, name) == Some(v)
    ensures ExecAll(WriteCode(p, name, t), st) == Some(st.Append(p, Encode(v, t)))
  {
    PutIs(v, t);
    hide Put, Encode, EncodeScalar, Lookup, HasType;
    ExecOne(Write(p, WriteOps(t), name), st);
  }

  lemma InnerVariable(scopes: seq<Scope>, vars: Scope, name: string)
    requires name in vars
    ensures Lookup(scopes + [vars], name) == Some(vars[name])
  {
  }

  lemma AppendTwice(st: State, p: Parcel, a: seq<Datum>, b: seq<Datum>)
    ensures st.Append(p, a).Append(p, b) == st.Append(p, a + b)
    ensures st.Append(p, []) == st
  {
    assert st.Contents(p) + a + b == st.Contents(p) + (a + b);
    assert st.Contents(p) + [] == st.Contents(p);
  }

  lemma LeaveBlock(body: seq<Stmt>, vars: Scope, st: State, p: Parcel, q: seq<Datum>)
    requires ExecAll(body, st.(scopes := st.scopes + [vars])) == Some(st.(scopes := st.scopes + [vars]).Append(p, q))
    ensures ExecBlock(body, vars, st) == Some(st.Append(p, q))
  {
    hide ExecAll;
    assert (st.scopes + [vars])[..|st.scopes|] == st.scopes;
  }

  lemma {:induction false} WriteItems(p: Parcel, e: Type, items: seq<Value>, st: State)
    requires Scalar(e) && forall i :: 0 <= i < |items| ==> HasType(items[i], e)
    ensures EachItem(WriteCode(p, "(*it)", e), items, st) == Some(st.Append(p, EncodeItems(items, e)))
    decreases |items|
  {
    hide ExecAll, ExecBlock, Encode, HasType, WriteCode, Lookup;
    if items == [] {
      AppendTwice(st, p, [], []);
    } else {
      var vars := map["(*it)" := items[0]];
      InnerVariable(st.scopes, vars, "(*it)");
      WriteScalar(p, "(*it)", e, st.(scopes := st.scopes + [vars]), items[0]);
      LeaveBlock(WriteCode(p, "(*it)", e), vars, st, p, Encode(items[0], e));
      WriteItems(p, e, items[1..], st.Append(p, Encode(items[0], e)));
      AppendTwice(st, p, Encode(items[0], e), EncodeItems(items[1..], e));
    }
  }

  lemma WriteBoth(p: Parcel, k: Type, x: Type, key: Value, val: Value, st: State)
    requires Scalar(k) && Scalar(x) && HasType(key, k) && HasType(val, x)
    requires Lookup(st.scopes, "(it->first)") == Some(key) && Lookup(st.scopes, "(it->second)") == Some(val)
    ensures ExecAll(WriteCode(p, "(it->first)", k) + WriteCode(p, "(it->second)", x), st)
            == Some(st.Append(p, Encode(key, k) + Encode(val, x)))
  {
    hide *;
    WriteScalar(p, "(it->first)", k, st, key);
    SameScopes(st, p, Encode(key, k));
    WriteScalar(p, "(it->second)", x, st.Append(p, Encode(key, k)), val);
    ExecJoin(WriteCode(p, "(it->first)", k), WriteCode(p, "(it->second)", x), st);
    ThenIs(st.Append(p, Encode(key, k)), WriteCode(p, "(it->second)", x));
    AppendTwice(st, p, Encode(key, k), Encode(val, x));
  }

  lemma ThenIs(st: State, ss: seq<Stmt>)
    ensures Then(Some(st), ss) == ExecAll(ss, st)
  {
    hide ExecAll;
  }

  lemma SameScopes(st: State, p: Parcel, q: seq<Datum>)
    ensures st.Append(p, q).scopes == st.scopes
  {
  }

  lemma {:induction false} WriteEntries(p: Parcel, k: Type, x: Type, v: Value, i: nat, st: State)
    requires Scalar(k) && Scalar(x) && v.Entries? && i <= |v.entries| && EntriesTyped(v.entries, k, x)
    ensures EachEntry(WriteCode(p, "(it->first)", k) + WriteCode(p, "(it->second)", x), v.entries[i..], st)
            == Some(st.Append(p, EncodeEntries(v, i, k, x)))
    decreases |v.entries| - i
  {
    hide ExecAll, ExecBlock, Encode, HasType, WriteCode, Lookup;
    if i == |v.entries| {
      AppendTwice(st, p, [], []);
    } else {
      var f := v.entries[i];
      var body := WriteCode(p, "(it->first)", k) + WriteCode(p, "(it->second)", x);
      var vars := map["(it->first)" := f.key, "(it->second)" := f.val];
      InnerVariable(st.scopes, vars, "(it->first)");
      InnerVariable(st.scopes, vars, "(it->second)");
      WriteBoth(p, k, x, f.key, f.val, st.(scopes := st.scopes + [vars]));
      LeaveBlock(body, vars, st, p, Encode(f.key, k) + Encode(f.val, x));
      assert v.entries[i..][1..] == v.entries[i + 1..];
      WriteEntries(p, k, x, v, i + 1, st.Append(p, Encode(f.key, k) + Encode(f.val, x)));
      AppendTwice(st, p, Encode(f.key, k) + Encode(f.val, x), EncodeEntries(v, i + 1, k, x));
    }
  }

  // The code emitted to write a variable appends exactly the encoding of its value.
  lemma WritesEncoding(p: Parcel, name: string, t: Type, st: State, v: Value)
    requires Flat(t) && HasType(v, t) && Lookup(st.scopes, name) == Some(v) && !MentionsIt(name)
    ensures ExecAll(WriteCode(p, name, t), st) == Some(st.Append(p, Encode(v, t)))
  {
    hide Lookup, EachItem, EachEntry, ExecAll;
    match t
    case List(e) => WriteListIs(p, name, e, st, v);
    case Array(e) => WriteListIs(p, name, e, st, v);
    case Map(k, x) => WriteMapIs(p, name, k, x, st, v);
    case _ => WriteScalar(p, name, t, st, v);
  }

  lemma SizeFits(n: nat)
    requires n < TWO_31
    ensures Signed(n, TWO_31) == n
  {
  }

  lemma WriteListIs(p: Parcel, name: string, e: Type, st: State, v: Value)
    requires Scalar(e) && HasType(v, List(e)) && Lookup(st.scopes, name) == Some(v) && !MentionsIt(name)
    ensures ExecAll([WriteSize(p, name), ForEach(name, WriteCode(p, "(*it)", e))], st)
            == Some(st.Append(p, [I32(|v.items|)] + EncodeItems(v.items, e)))
  {
    hide Lookup, EachItem, EachEntry, WriteCode, ExecAll, EncodeItems, Signed;
    var size := [I32(|v.items|)];
    SizeFits(|v.items|);
    ExecTwo(WriteSize(p, name), ForEach(name, WriteCode(p, "(*it)", e)), st);
    WriteItems(p, e, v.items, st.Append(p, size));
    AppendTwice(st, p, size, EncodeItems(v.items, e));
  }

  lemma WriteMapIs(p: Parcel, name: string, k: Type, x: Type, st: State, v: Value)
    requires Scalar(k) && Scalar(x) && HasType(v, Map(k, x)) && Lookup(st.scopes, name) == Some(v) && !MentionsIt(name)
    ensures ExecAll([WriteSize(p, name), ForEach(name, WriteCode(p, "(it->first)", k) + WriteCode(p, "(it->second)", x))], st)
            == Some(st.Append(p, [I32(|v.entries|)] + EncodeEntries(v, 0, k, x)))
  {
    hide Lookup, EachItem, EachEntry, WriteCode, ExecAll, EncodeEntries, Signed;
    var size := [I32(|v.entries|)];
    SizeFits(|v.entries|);
    ExecTwo(WriteSize(p, name), ForEach(name, WriteCode(p, "(it->first)", k) + WriteCode(p, "(it->second)", x)), st);
    assert v.entries[0..] == v.entries;
    WriteEntries(p, k, x, v, 0, st.Append(p, size));
    AppendTwice(st, p, size, EncodeEntries(v, 0, k, x));
  }

  // ----- reading a variable -----

  lemma OneScope(env: Scope, name: string, v: Value)
    ensures name in env ==> Assign([env], name, v) == Some([env[name := v]]) && Lookup([env], name) == Some(env[name])
    ensures name !in env ==> DeclareIn([env], name, v) == Some([env[name := v]])
  {
    assert [env][..0] + [env[name := v]] == [env[name := v]];
  }

  lemma TwoScopes(env: Scope, inner: Scope, name: string, v: Value)
    requires name in env && name !in inner
    ensures Assign([env, inner], name, v) == Some([env[name := v], inner])
    ensures Lookup([env, inner], name) == Some(env[name])
  {
    assert [env, inner][..1] == [env] && [env][..0] == [];
    assert [env][..0] + [env[name := v]] == [env[name := v]];
    assert [env[name := v]] + [inner] == [env[name := v], inner];
  }

  lemma LeaveScope(body: seq<Stmt>, vars: Scope, st: State, env: Scope, next: State)
    requires st.scopes == [env]
    requires ExecAll(body, st.(scopes := [env] + [vars])) == Some(next) && |next.scopes| == 2
    ensures ExecBlock(body, vars, st) == Some(next.(scopes := [next.scopes[0]]))
  {
    hide ExecAll;
    assert next.scopes[..1] == [next.scopes[0]];
  }

  // The parcel starts with `q`, and `rest` is what follows.
  predicate Starts(st: State, p: Parcel, q: seq<Datum>, rest: seq<Datum>) {
    st.Contents(p) == q + rest
  }

  lemma ReadFront(p: Parcel, st: State, v: Value, t: Type, rest: seq<Datum>)
    requires Scalar(t) && HasType(v, t) && Starts(st, p, Encode(v, t), rest)
    ensures st.Contents(p) != [] && Take(ReadOps(t), st.Contents(p)[0]) == Some(v) && st.Contents(p)[1..] == rest
  {
    PutIs(v, t);
    TakeIs(v, t);
    hide Take, EncodeScalar, Encode, Put, HasType;
    assert ([EncodeScalar(v, t)] + rest)[1..] == rest;
  }

  // A scalar read into a new variable of the innermost scope.
  lemma ReadScalar(p: Parcel, name: string, t: Type, outer: seq<Scope>, inner: Scope, st: State, v: Value, rest: seq<Datum>)
    requires Scalar(t) && HasType(v, t) && st.scopes == outer + [inner] && name !in inner
    requires Starts(st, p, Encode(v, t), rest)
    ensures ExecAll(ReadCode(p, name, t, true), st) == Some(st.With(p, rest).(scopes := outer + [inner[name := v]]))
  {
    ReadFront(p, st, v, t, rest);
    hide Take, Encode, HasType, Starts, ExecAll;
    assert (outer + [inner])[..|outer|] == outer;
    ExecOne(Read(p, ReadOps(t), name, true), st);
  }

  // A scalar read into a variable that exists.
  lemma ReadScalarInto(p: Parcel, name: string, t: Type, env: Scope, st: State, v: Value, rest: seq<Datum>)
    requires Scalar(t) && HasType(v, t) && st.scopes == [env] && name in env
    requires Starts(st, p, Encode(v, t), rest)
    ensures ExecAll(ReadCode(p, name, t, false), st) == Some(st.With(p, rest).(scopes := [env[name := v]]))
  {
    ReadFront(p, st, v, t, rest);
    hide Take, Encode, HasType, Starts, ExecAll, Assign;
    OneScope(env, name, v);
    ExecOne(Read(p, ReadOps(t), name, false), st);
  }

  predicate PlainName(name: string) {
    name != "i" && name != "key" && name != "value"
  }

  lemma PushOne(name: string, env: Scope, inner: Scope, st: State, seen: seq<Value>)
    requires PlainName(name) && st.scopes == [env, inner] && name !in inner && "value" in inner
    requires name in env && env[name] == Items(seen)
    ensures ExecAll([PushBack(name)], st) == Some(st.(scopes := [env[name := Items(seen + [inner["value"]])], inner]))
  {
    InnerVariable([env], inner, "value");
    assert [env] + [inner] == [env, inner];
    TwoScopes(env, inner, name, Items(seen + [inner["value"]]));
    hide ExecAll, Assign, Lookup;
    ExecOne(PushBack(name), st);
  }

  lemma InsertOne(name: string, env: Scope, inner: Scope, st: State, seen: seq<Entry>)
    requires PlainName(name) && st.scopes == [env, inner] && name !in inner && "value" in inner && "key" in inner
    requires name in env && env[name] == Entries(seen)
    ensures ExecAll([Insert(name)], st)
            == Some(st.(scopes := [env[name := Entries(Inserted(seen, inner["key"], inner["value"]))], inner]))
  {
    InnerVariable([env], inner, "value");
    InnerVariable([env], inner, "key");
    assert [env] + [inner] == [env, inner];
    TwoScopes(env, inner, name, Entries(Inserted(seen, inner["key"], inner["value"])));
    hide ExecAll, Inserted, Assign, Lookup;
    ExecOne(Insert(name), st);
  }

  // One round of the loop that reads a list.
  lemma ReadItem(p: Parcel, name: string, e: Type, env: Scope, st: State, v: Value, rest: seq<Datum>, seen: seq<Value>)
    requires Scalar(e) && HasType(v, e) && PlainName(name) && st.scopes == [env]
    requires name in env && env[name] == Items(seen) && Starts(st, p, Encode(v, e), rest)
    ensures ExecBlock(ReadCode(p, "value", e, true) + [PushBack(name)], map["i" := Num(0)], st)
            == Some(st.With(p, rest).(scopes := [env[name := Items(seen + [v])]]))
  {
    hide ExecAll, HasType, Encode, ReadCode, Starts;
    var loop: Scope := map["i" := Num(0)];
    var st1 := st.(scopes := [env] + [loop]);
    BlockStart(st, p, loop, Encode(v, e), rest);
    ReadScalar(p, "value", e, [env], loop, st1, v, rest);
    var st2 := st1.With(p, rest).(scopes := [env] + [loop["value" := v]]);
    PushOne(name, env, loop["value" := v], st2, seen);
    assert [env] + [loop["value" := v]] == [env, loop["value" := v]];
    ExecJoin(ReadCode(p, "value", e, true), [PushBack(name)], st1);
    LeaveScope(ReadCode(p, "value", e, true) + [PushBack(name)], loop, st, env,
               st2.(scopes := [env[name := Items(seen + [v])], loop["value" := v]]));
  }

  lemma BlockStart(st: State, p: Parcel, vars: Scope, q: seq<Datum>, rest: seq<Datum>)
    requires Starts(st, p, q, rest)
    ensures Starts(st.(scopes := st.scopes + [vars]), p, q, rest)
  {
  }

  // One round of the loop that reads a map.
  lemma ReadEntry(p: Parcel, name: string, k: Type, x: Type, env: Scope, st: State, f: Entry, rest: seq<Datum>,
                  seen: seq<Entry>)
    requires Scalar(k) && Scalar(x) && HasType(f.key, k) && HasType(f.val, x) && PlainName(name) && st.scopes == [env]
    requires name in env && env[name] == Entries(seen) && Starts(st, p, Encode(f.key, k) + Encode(f.val, x), rest)
    ensures ExecBlock(ReadCode(p, "key", k, true) + ReadCode(p, "value", x, true) + [Insert(name)], map["i" := Num(0)], st)
            == Some(st.With(p, rest).(scopes := [env[name := Entries(Inserted(seen, f.key, f.val))]]))
  {
    hide ExecAll, HasType, Encode, ReadCode, Inserted;
    var loop: Scope := map["i" := Num(0)];
    var st1 := st.(scopes := [env] + [loop]);
    assert st1.Contents(p) == Encode(f.key, k) + (Encode(f.val, x) + rest);
    ReadScalar(p, "key", k, [env], loop, st1, f.key, Encode(f.val, x) + rest);
    var st2 := st1.With(p, Encode(f.val, x) + rest).(scopes := [env] + [loop["key" := f.key]]);
    ReadScalar(p, "value", x, [env], loop["key" := f.key], st2, f.val, rest);
    var inner := loop["key" := f.key]["value" := f.val];
    var st3 := st2.With(p, rest).(scopes := [env] + [inner]);
    assert [env] + [inner] == [env, inner];
    InsertOne(name, env, inner, st3, seen);
    ExecJoin(ReadCode(p, "key", k, true), ReadCode(p, "value", x, true), st1);
    ExecJoin(ReadCode(p, "key", k, true) + ReadCode(p, "value", x, true), [Insert(name)], st1);
    LeaveScope(ReadCode(p, "key", k, true) + ReadCode(p, "value", x, true) + [Insert(name)], loop, st, env,
               st3.(scopes := [env[name := Entries(Inserted(seen, f.key, f.val))], inner]));
  }

  // The loop appends to what the collection held before.
  lemma {:induction false} ReadItems(p: Parcel, name: string, e: Type, env: Scope, st: State, items: seq<Value>,
                                     rest: seq<Datum>, seen: seq<Value>)
    requires Scalar(e) && (forall i :: 0 <= i < |items| ==> HasType(items[i], e)) && PlainName(name) && st.scopes == [env]
    requires name in env && env[name] == Items(seen) && Starts(st, p, EncodeItems(items, e), rest)
    ensures Repeat(ReadCode(p, "value", e, true) + [PushBack(name)], |items|, st)
            == Some(st.With(p, rest).(scopes := [env[name := Items(seen + items)]]))
    decreases |items|
  {
    hide ExecBlock, HasType, Encode, ReadCode;
    if items == [] {
      assert seen + items == seen && [] + rest == rest;
      assert env[name := Items(seen)] == env;
    } else {
      var more := EncodeItems(items[1..], e) + rest;
      assert EncodeItems(items, e) + rest == Encode(items[0], e) + more;
      ReadItem(p, name, e, env, st, items[0], more, seen);
      var env1 := env[name := Items(seen + [items[0]])];
      ReadItems(p, name, e, env1, st.With(p, more).(scopes := [env1]), items[1..], rest, seen + [items[0]]);
      assert seen + [items[0]] + items[1..] == seen + items;
      assert env1[name := Items(seen + items)] == env[name := Items(seen + items)];
    }
  }

  // Entries inserted into a map, one after the other.
  function Merged(seen: seq<Entry>, es: seq<Entry>): seq<Entry>
    decreases |es|
  {
    if es == [] then seen else Merged(Inserted(seen, es[0].key, es[0].val), es[1..])
  }

  lemma {:induction false} ReadEntries(p: Parcel, name: string, k: Type, x: Type, env: Scope, st: State, v: Value, i: nat,
                                       rest: seq<Datum>, seen: seq<Entry>)
    requires Scalar(k) && Scalar(x) && v.Entries? && i <= |v.entries| && EntriesTyped(v.entries, k, x)
    requires PlainName(name) && st.scopes == [env]
    requires name in env && env[name] == Entries(seen) && Starts(st, p, EncodeEntries(v, i, k, x), rest)
    ensures Repeat(ReadCode(p, "key", k, true) + ReadCode(p, "value", x, true) + [Insert(name)], |v.entries| - i, st)
            == Some(st.With(p, rest).(scopes := [env[name := Entries(Merged(seen, v.entries[i..]))]]))
    decreases |v.entries| - i
  {
    hide ExecBlock, HasType, Encode, ReadCode, Inserted;
    if i == |v.entries| {
      assert v.entries[i..] == [] && [] + rest == rest;
      assert env[name := Entries(seen)] == env;
    } else {
      var f := v.entries[i];
      var more := EncodeEntries(v, i + 1, k, x) + rest;
      assert EncodeEntries(v, i, k, x) + rest == Encode(f.key, k) + Encode(f.val, x) + more;
      ReadEntry(p, name, k, x, env, st, f, more, seen);
      var now := Inserted(seen, f.key, f.val);
      var env1 := env[name := Entries(now)];
      ReadEntries(p, name, k, x, env1, st.With(p, more).(scopes := [env1]), v, i + 1, rest, now);
      assert v.entries[i..][0] == f && v.entries[i..][1..] == v.entries[i + 1..];
      var end := Entries(Merged(now, v.entries[i + 1..]));
      assert env1[name := end] == env[name := end];
    }
  }

  // Into an empty map the entries go as they are.
  lemma {:induction false} MergedNew(es: seq<Entry>, i: nat)
    requires DistinctKeys(es) && i <= |es|
    ensures Merged(es[..i], es[i..]) == es
    decreases |es| - i
  {
    hide Inserted;
    if i < |es| {
      NextEntry(es, i);
      MergedNew(es, i + 1);
      assert es[i..][0] == es[i] && es[i..][1..] == es[i + 1..];
    } else {
      assert es[..i] == es && es[i..] == [];
    }
  }

  // What a collection becomes when another one is read into it: a list gets
  // longer, a map keeps its other keys.
  function Into(w: Value, v: Value): Value {
    match v
    case Items(items) => if w.Items? then Items(w.items + items) else v
    case Entries(es) => if w.Entries? then Entries(Merged(w.entries, es)) else v
    case _ => v
  }

  lemma IntoEmpty(t: Type, v: Value)
    requires HasType(v, t) && t.IsContainer()
    ensures Into(Initial(t, false), v) == v
  {
    hide Merged;
    match t
    case List(_) => assert [] + v.items == v.items;
    case Array(_) => assert [] + v.items == v.items;
    case Map(_, _) =>
      MergedNew(v.entries, 0);
      assert v.entries[..0] == [] && v.entries[0..] == v.entries;
    case _ =>
  }

  function Count(v: Value): nat {
    match v
    case Items(items) => |items|
    case Entries(es) => |es|
    case _ => 0
  }

  // The scope after `name` was read: a collection leaves its size behind.
  function After(env: Scope, name: string, t: Type, v: Value): Scope {
    if t.IsContainer() then env[name := v][name + "Size" := Num(Count(v))] else env[name := v]
  }

  // A variable is ready to be read into: new, or there and, if it is a collection, empty.
  predicate Readable(env: Scope, name: string, t: Type, declares: bool) {
    && PlainName(name)
    && (t.IsContainer() ==> name + "Size" !in env)
    && (if declares then name !in env else name in env && (t.IsContainer() ==> env[name] == Initial(t, false)))
  }

  lemma SizeRead(p: Parcel, name: string, n: nat, env: Scope, st: State, q: seq<Datum>, rest: seq<Datum>)
    requires st.scopes == [env] && name + "Size" !in env && Starts(st, p, [I32(n)] + q, rest)
    ensures Exec(ReadSize(p, name), st) == Some(st.With(p, q + rest).(scopes := [env[name + "Size" := Num(n)]]))
  {
    assert ([I32(n)] + q + rest)[1..] == q + rest;
    OneScope(env, name + "Size", Num(n));
  }

  lemma CountIs(name: string, body: seq<Stmt>, n: nat, env: Scope, st: State)
    requires st.scopes == [env] && name + "Size" in env && env[name + "Size"] == Num(n)
    ensures Exec(ForCount(name, body), st) == Repeat(body, n, st)
  {
  }

  lemma ReadListIs(p: Parcel, name: string, e: Type, env: Scope, st: State, v: Value, rest: seq<Datum>, seen: seq<Value>)
    requires Scalar(e) && HasType(v, List(e)) && PlainName(name) && st.scopes == [env]
    requires name in env && env[name] == Items(seen) && name + "Size" !in env
    requires Starts(st, p, [I32(|v.items|)] + EncodeItems(v.items, e), rest)
    ensures ExecAll([ReadSize(p, name), ForCount(name, ReadCode(p, "value", e, true) + [PushBack(name)])], st)
            == Some(st.With(p, rest).(scopes := [env[name := Items(seen + v.items)][name + "Size" := Num(|v.items|)]]))
  {
    hide ExecAll, Exec, ReadCode, EncodeItems, Repeat;
    var body := ReadCode(p, "value", e, true) + [PushBack(name)];
    var n := |v.items|;
    var env1 := env[name + "Size" := Num(n)];
    var st1 := st.With(p, EncodeItems(v.items, e) + rest).(scopes := [env1]);
    SizeRead(p, name, n, env, st, EncodeItems(v.items, e), rest);
    CountIs(name, body, n, env1, st1);
    ReadItems(p, name, e, env1, st1, v.items, rest, seen);
    ExecTwo(ReadSize(p, name), ForCount(name, body), st);
    Swapped(env, name, Items(seen + v.items), Num(n));
  }

  lemma Swapped(env: Scope, name: string, v: Value, n: Value)
    ensures env[name + "Size" := n][name := v] == env[name := v][name + "Size" := n]
  {
    assert |name + "Size"| != |name|;
  }

  lemma ReadMapIs(p: Parcel, name: string, k: Type, x: Type, env: Scope, st: State, v: Value, rest: seq<Datum>,
                  seen: seq<Entry>)
    requires Scalar(k) && Scalar(x) && HasType(v, Map(k, x)) && PlainName(name) && st.scopes == [env]
    requires name in env && env[name] == Entries(seen) && name + "Size" !in env
    requires Starts(st, p, [I32(|v.entries|)] + EncodeEntries(v, 0, k, x), rest)
    ensures ExecAll([ReadSize(p, name),
                     ForCount(name, ReadCode(p, "key", k, true) + ReadCode(p, "value", x, true) + [Insert(name)])], st)
            == Some(st.With(p, rest).(scopes := [env[name := Entries(Merged(seen, v.entries))][name + "Size" := Num(|v.entries|)]]))
  {
    hide ExecAll, Exec, ReadCode, EncodeEntries, Repeat, Merged;
    var body := ReadCode(p, "key", k, true) + ReadCode(p, "value", x, true) + [Insert(name)];
    var n := |v.entries|;
    var env1 := env[name + "Size" := Num(n)];
    var st1 := st.With(p, EncodeEntries(v, 0, k, x) + rest).(scopes := [env1]);
    SizeRead(p, name, n, env, st, EncodeEntries(v, 0, k, x), rest);
    CountIs(name, body, n, env1, st1);
    assert v.entries[0..] == v.entries;
    ReadEntries(p, name, k, x, env1, st1, v, 0, rest, seen);
    ExecTwo(ReadSize(p, name), ForCount(name, body), st);
    Swapped(env, name, Entries(Merged(seen, v.entries)), Num(n));
  }

  lemma DeclareFirst(t: Type, name: string, ss: seq<Stmt>, env: Scope, st: State)
    requires st.scopes == [env] && name !in env
    ensures ExecAll([Declare(t, name, false)] + ss, st)
            == ExecAll(ss, st.(scopes := [env[name := Initial(t, false)]]))
  {
    assert ([Declare(t, name, false)] + ss)[1..] == ss;
    OneScope(env, name, Initial(t, false));
  }

  lemma AfterDeclared(env: Scope, name: string, t: Type, v: Value)
    ensures After(env[name := Initial(t, false)], name, t, v) == After(env, name, t, v)
  {
  }

  // The code emitted to read a variable consumes exactly the encoding and
  // leaves the value in the variable.
  lemma ReadsEncoding(p: Parcel, name: string, t: Type, declares: bool, env: Scope, st: State, v: Value, rest: seq<Datum>)
    requires Flat(t) && HasType(v, t) && st.scopes == [env] && Readable(env, name, t, declares)
    requires Starts(st, p, Encode(v, t), rest)
    ensures ExecAll(ReadCode(p, name, t, declares), st) == Some(st.With(p, rest).(scopes := [After(env, name, t, v)]))
  {
    if t.IsContainer() {
      if declares {
        var env1 := env[name := Initial(t, false)];
        var tail := ReadCode(p, name, t, false);
        assert ReadCode(p, name, t, true) == [Declare(t, name, false)] + tail;
        DeclareFirst(t, name, tail, env, st);
        AfterDeclared(env, name, t, v);
        ReadsCollection(p, name, t, env1, st.(scopes := [env1]), v, rest);
      } else {
        ReadsCollection(p, name, t, env, st, v, rest);
      }
    } else if declares {
      assert [] + [env] == [env] && [] + [env[name := v]] == [env[name := v]];
      ReadScalar(p, name, t, [], env, st, v, rest);
    } else {
      ReadScalarInto(p, name, t, env, st, v, rest);
    }
  }

  lemma ReadsCollection(p: Parcel, name: string, t: Type, env: Scope, st: State, v: Value, rest: seq<Datum>)
    requires t.IsContainer() && Flat(t) && HasType(v, t) && st.scopes == [env] && Readable(env, name, t, false)
    requires Starts(st, p, Encode(v, t), rest)
    ensures ExecAll(ReadCode(p, name, t, false), st) == Some(st.With(p, rest).(scopes := [After(env, name, t, v)]))
  {
    hide ExecAll, HasType, Encode, ReadCode, Into, Starts;
    EmptyIsSame(t);
    ReadsInto(p, name, t, env, st, Initial(t, false), v, rest);
    IntoEmpty(t, v);
  }

  lemma EmptyIsSame(t: Type)
    requires t.IsContainer()
    ensures SameShape(t, Initial(t, false))
  {
  }

  predicate SameShape(t: Type, w: Value) {
    match t
    case List(_) => w.Items?
    case Array(_) => w.Items?
    case Map(_, _) => w.Entries?
    case _ => false
  }

  // The code emitted to read a collection adds to whatever the variable holds,
  // as it does for an inout parameter of the caller.
  lemma ReadsInto(p: Parcel, name: string, t: Type, env: Scope, st: State, w: Value, v: Value, rest: seq<Datum>)
    requires t.IsContainer() && Flat(t) && HasType(v, t) && SameShape(t, w) && st.scopes == [env]
    requires PlainName(name) && name + "Size" !in env && name in env && env[name] == w
    requires Starts(st, p, Encode(v, t), rest)
    ensures ExecAll(ReadCode(p, name, t, false), st)
            == Some(st.With(p, rest).(scopes := [env[name := Into(w, v)][name + "Size" := Num(Count(v))]]))
  {
    hide ExecAll, HasType, EncodeItems, EncodeEntries, Merged;
    match t
    case List(e) =>
      TypedParts(v, t);
      assert [] + [ReadSize(p, name), ForCount(name, ReadCode(p, "value", e, true) + [PushBack(name)])]
          == [ReadSize(p, name), ForCount(name, ReadCode(p, "value", e, true) + [PushBack(name)])];
      ReadListIs(p, name, e, env, st, v, rest, w.items);
    case Array(e) =>
      TypedParts(v, t);
      assert [] + [ReadSize(p, name), ForCount(name, ReadCode(p, "value", e, true) + [PushBack(name)])]
          == [ReadSize(p, name), ForCount(name, ReadCode(p, "value", e, true) + [PushBack(name)])];
      ReadListIs(p, name, e, env, st, v, rest, w.items);
    case Map(k, x) =>
      TypedParts(v, t);
      var code := [ReadSize(p, name),
                   ForCount(name, ReadCode(p, "key", k, true) + ReadCode(p, "value", x, true) + [Insert(name)])];
      assert [] + code == code;
      ReadMapIs(p, name, k, x, env, st, v, rest, w.entries);
  }

  lemma {:induction false} InsertedKeys(es: seq<Entry>, key: Value, val: Value)
    ensures Keys(Inserted(es, key, val)) == Keys(es) + {key}
  {
    if es == [] {
      KeysFront([Entry(key, val)]);
      assert Keys([]) == {} && [Entry(key, val)][1..] == [];
    } else {
      KeysFront(es);
      KeysFront(Inserted(es, key, val));
      if es[0].key != key {
        InsertedKeys(es[1..], key, val);
      }
    }
  }

  lemma KeysFront(es: seq<Entry>)
    requires es != []
    ensures Keys(es) == {es[0].key} + Keys(es[1..])
  {
    forall k | k in Keys(es) ensures k == es[0].key || k in Keys(es[1..]) {
      var i :| 0 <= i < |es| && es[i].key == k;
      if i > 0 {
        assert es[1..][i - 1].key == k;
      }
    }
    forall k | k in Keys(es[1..]) ensures k in Keys(es) {
      var i :| 0 <= i < |es[1..]| && es[1..][i].key == k;
      assert es[i + 1].key == k;
    }
  }

  lemma {:induction false} MergedKeys(seen: seq<Entry>, es: seq<Entry>)
    ensures Keys(Merged(seen, es)) == Keys(seen) + Keys(es)
    decreases |es|
  {
    hide Keys, Inserted;
    if es == [] {
      NoKeys();
    } else {
      InsertedKeys(seen, es[0].key, es[0].val);
      MergedKeys(Inserted(seen, es[0].key, es[0].val), es[1..]);
      KeysFront(es);
    }
  }

  lemma NoKeys()
    ensures Keys([]) == {}
  {
  }

  // An inout collection comes back as the implementation left it only if the
  // caller's was empty, or for a map, if it had no other keys.
  lemma InOutsAreAdded(t: Type, w: Value, v: Value)
    requires t.IsContainer() && HasType(v, t) && SameShape(t, w)
    ensures !t.Map? ==> (Into(w, v) == v <==> w.items == [])
    ensures t.Map? ==> Into(w, v).Entries? && (Keys(Into(w, v).entries) == Keys(v.entries) <==> Keys(w.entries) <= Keys(v.entries))
  {
    hide Keys, Merged;
    if t.Map? {
      MergedKeys(w.entries, v.entries);
    } else {
      assert |w.items| == 0 ==> w.items + v.items == v.items;
    }
  }

  lemma TypedParts(v: Value, t: Type)
    requires HasType(v, t)
    ensures t.Array? ==> HasType(v, List(t.element))
    ensures t.List? || t.Array? ==> v.Items? && forall i :: 0 <= i < |v.items| ==> HasType(v.items[i], t.element)
    ensures t.Map? ==> v.Entries? && EntriesTyped(v.entries, t.key, t.value)
  {
  }

  // ----- nested collections -----

  // No loop declares the variable it runs over, and no collection is inserted
  // into itself.
  predicate NamesApart(ss: seq<Stmt>) {
    forall i :: 0 <= i < |ss| ==>
      match ss[i]
      case ForEach(name, body) => !MentionsIt(name) && NamesApart(body)
      case ForCount(name, body) => NamesApart(body)
      case PushBack(name) => name != "value"
      case Insert(name) => name != "key" && name != "value"
      case _ => true
  }

  predicate Unnested(t: Type) {
    match t
    case List(e) => !e.IsContainer()
    case Array(e) => !e.IsContainer()
    case Map(k, v) => !k.IsContainer() && !v.IsContainer()
    case _ => true
  }

  lemma WriteNames(p: Parcel, name: string, t: Type)
    ensures t.IsContainer() ==> (NamesApart(WriteCode(p, name, t)) <==> !MentionsIt(name) && Unnested(t))
    ensures !t.IsContainer() ==> NamesApart(WriteCode(p, name, t))
  {
    match t
    case List(e) => WriteInner(p, "(*it)", e); assert WriteCode(p, name, t)[1] == ForEach(name, WriteCode(p, "(*it)", e));
    case Array(e) => WriteInner(p, "(*it)", e); assert WriteCode(p, name, t)[1] == ForEach(name, WriteCode(p, "(*it)", e));
    case Map(k, v) =>
      WriteInner(p, "(it->first)", k);
      WriteInner(p, "(it->second)", v);
      var a, b := WriteCode(p, "(it->first)", k), WriteCode(p, "(it->second)", v);
      NamesApartBoth(a, b);
      assert WriteCode(p, name, t)[1] == ForEach(name, a + b);
    case _ =>
  }

  lemma NamesApartBoth(a: seq<Stmt>, b: seq<Stmt>)
    ensures NamesApart(a + b) <==> NamesApart(a) && NamesApart(b)
  {
    if NamesApart(a + b) {
      assert forall i :: 0 <= i < |a| ==> a[i] == (a + b)[i];
      assert forall i :: 0 <= i < |b| ==> b[i] == (a + b)[|a| + i];
    }
  }

  lemma WriteInner(p: Parcel, name: string, t: Type)
    requires MentionsIt(name)
    ensures NamesApart(WriteCode(p, name, t)) <==> !t.IsContainer()
  {
    if t.IsContainer() {
      assert WriteCode(p, name, t)[1].ForEach? && WriteCode(p, name, t)[1].name == name;
    }
  }

  lemma ReadNames(p: Parcel, name: string, t: Type, declares: bool)
    requires PlainName(name) && Unnested(t)
    ensures NamesApart(ReadCode(p, name, t, declares))
  {
  }

  // The emitter handles collections of collections only in the text: what it
  // writes for them uses the names `it` and `value` again, and so does not
  // compile. Without nesting the names never clash.
  lemma NestedNamesClash(p: Parcel, q: Parcel, name: string, t: Type, declares: bool)
    requires PlainName(name) && !MentionsIt(name)
    ensures NamesApart(WriteCode(p, name, t)) && NamesApart(ReadCode(q, name, t, declares)) <==> Unnested(t)
  {
    WriteNames(p, name, t);
    if Unnested(t) {
      ReadNames(q, name, t, declares);
    }
  }
}
