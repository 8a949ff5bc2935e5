/** A remote call, end to end: the proxy's body runs at the caller, the stub's
    case runs at the callee, and two parcels travel between them. */
module RemoteCall {
  import opened IdlTypes
  import opened CppEmitter
  import opened WireFormat
  import opened CppSemantics

  const ERR_NONE := 0  // also ERR_OK

  // What an implementation does with the values of its arguments: an error
  // code, what it assigns to its parameters, and its result.
  datatype Outcome = Outcome(ec: int, outs: seq<Value>, result: Value)

  type Impl = seq<Value> -> Outcome

  // The status, the reply, what is left of the request, and the arguments of each
  // call of the implementation.
  datatype Answer = Answer(status: int, reply: seq<Datum>, left: seq<Datum>, calls: seq<seq<Value>>)

  datatype Return = Return(ec: int, st: State, calls: seq<seq<Value>>)

  // ----- running the stub's case -----

  function LookupAll(scopes: seq<Scope>, names: seq<string>): Option<seq<Value>> {
    if names == [] then Some([])
    else
      match LookupAll(scopes, names[..|names| - 1])
      case None => None
      case Some(vs) =>
        match Lookup(scopes, names[|names| - 1])
        case None => None
        case Some(v) => Some(vs + [v])
  }

  // The implementation's assignments to the parameters it takes by reference.
  function AssignParams(ps: seq<Param>, names: seq<string>, vs: seq<Value>, scopes: seq<Scope>): Option<seq<Scope>>
    decreases |ps|
  {
    if ps == [] || |names| < |ps| || |vs| < |ps| then Some(scopes)
    else
      var i := |ps| - 1;
      match AssignParams(ps[..i], names, vs, scopes)
      case None => None
      case Some(s) =>
        if ps[i].isOut && ReachesCaller(EmitType(ps[i].typ, ps[i].isIn, ps[i].isOut, false))
        then Assign(s, names[i], vs[i]) else Some(s)
  }

  function AssignResult(m: Method, names: seq<string>, v: Value, scopes: seq<Scope>): Option<seq<Scope>> {
    if m.ret.IsVoid() || |names| <= |m.params| then Some(scopes)
    else if ReachesCaller(EmitType(m.ret, false, true, false)) then Assign(scopes, names[|m.params|], v)
    else Some(scopes)
  }

  // The state after the call, the error code and the arguments it was called with.
  function RunCall(m: Method, impl: Impl, names: seq<string>, st: State): Option<(State, int, seq<Value>)> {
    match LookupAll(st.scopes, names)
    case None => None
    case Some(all) =>
      if |all| < |m.params| then None
      else
        var args := all[..|m.params|];
        var outcome := impl(args);
        match AssignParams(m.params, names, outcome.outs, st.scopes)
        case None => None
        case Some(s) =>
          match AssignResult(m, names, outcome.result, s)
          case None => None
          case Some(s') => Some((st.(scopes := s'), outcome.ec, args))
  }

  function RunStub(m: Method, impl: Impl, code: seq<Stmt>, st: State, ec: int, calls: seq<seq<Value>>): Option<Answer>
    decreases |code|
  {
    if code == [] then None
    else
      match code[0]
      case Call(callee, names) => (
        if callee != m.name then None
        else
          match RunCall(m, impl, names, st)
          case None => None
          case Some(r) => RunStub(m, impl, code[1..], r.0, r.1, calls + [r.2]))
      case WriteErrorCode => RunStub(m, impl, code[1..], st.Append(Reply, [I32(Signed(ec, TWO_31))]), ec, calls)
      case IfSucceeded(body) => (
        match if ec == ERR_NONE then ExecBlock(body, map[], st) else Some(st)
        case None => None
        case Some(next) => RunStub(m, impl, code[1..], next, ec, calls))
      case ReturnNone => Some(Answer(ERR_NONE, st.reply, st.data, calls))
      case _ =>
        match Exec(code[0], st)
        case None => None
        case Some(next) => RunStub(m, impl, code[1..], next, ec, calls)
  }

  // ----- dispatch -----

  function NumberOf(commands: seq<(string, nat)>, command: string): Option<nat> {
    if commands == [] then None
    else if commands[0].0 == command then Some(commands[0].1)
    else NumberOf(commands[1..], command)
  }

  // The case of the switch that a command's number selects.
  function CaseOf(ms: seq<Method>, commands: seq<(string, nat)>, number: nat, from: nat): Option<nat>
    requires from <= |ms|
    ensures CaseOf(ms, commands, number, from).Some? ==> CaseOf(ms, commands, number, from).value < |ms|
    decreases |ms| - from
  {
    if from == |ms| then None
    else if NumberOf(commands, ConstantName(ms[from].name)) == Some(number) then Some(from)
    else CaseOf(ms, commands, number, from + 1)
  }

  function Serve(ms: seq<Method>, impl: Impl, command: string, data: seq<Datum>): Option<Answer> {
    match NumberOf(Commands(ms), command)
    case None => None
    case Some(number) =>
      match CaseOf(ms, Commands(ms), number, 0)
      case None => None
      case Some(k) => RunStub(ms[k], impl, StubCase(ms[k]), State([map[]], data, []), 0, [])
  }

  predicate DistinctCommands(ms: seq<Method>) {
    forall i, j :: 0 <= i < j < |ms| ==> ConstantName(ms[i].name) != ConstantName(ms[j].name)
  }

  lemma {:induction false} NumberIs(ms: seq<Method>, k: nat, from: nat)
    requires DistinctCommands(ms) && from <= k < |ms|
    ensures NumberOf(Commands(ms)[from..], ConstantName(ms[k].name)) == Some(k)
    decreases k - from
  {
    hide ConstantName;
    var cs := Commands(ms)[from..];
    assert cs[0] == (ConstantName(ms[from].name), from) && cs[1..] == Commands(ms)[from + 1..];
    if from < k {
      NumberIs(ms, k, from + 1);
    }
  }

  lemma {:induction false} CaseIs(ms: seq<Method>, k: nat, from: nat)
    requires DistinctCommands(ms) && from <= k < |ms|
    ensures CaseOf(ms, Commands(ms), k, from) == Some(k)
    decreases k - from
  {
    hide ConstantName, Commands, NumberOf;
    assert Commands(ms)[0..] == Commands(ms);
    NumberIs(ms, from, 0);
    if from < k {
      CaseIs(ms, k, from + 1);
    }
  }

  // A method's command selects that method's case.
  lemma DispatchExact(ms: seq<Method>, k: nat, impl: Impl, data: seq<Datum>)
    requires DistinctCommands(ms) && k < |ms|
    ensures Serve(ms, impl, ConstantName(ms[k].name), data)
            == RunStub(ms[k], impl, StubCase(ms[k]), State([map[]], data, []), 0, [])
  {
    hide ConstantName, Commands, NumberOf, RunStub, StubCase, CaseOf;
    assert Commands(ms)[0..] == Commands(ms);
    NumberIs(ms, k, 0);
    CaseIs(ms, k, 0);
  }

  // The method's command selects the method's case.
  predicate CaseReached(ms: seq<Method>, k: nat)
    requires k < |ms|
  {
    match NumberOf(Commands(ms), ConstantName(ms[k].name))
    case None => false
    case Some(number) => CaseOf(ms, Commands(ms), number, 0) == Some(k)
  }

  // Every method is reached by its own command exactly when no two methods
  // share a command: of two that do, one misses its case. (In C++ the second
  // definition of the constant does not even compile.)
  lemma DispatchIff(ms: seq<Method>)
    ensures (forall k :: 0 <= k < |ms| ==> CaseReached(ms, k)) <==> DistinctCommands(ms)
  {
    hide ConstantName, Commands, NumberOf, CaseOf;
    if DistinctCommands(ms) {
      forall k | 0 <= k < |ms| ensures CaseReached(ms, k) {
        assert Commands(ms)[0..] == Commands(ms);
        NumberIs(ms, k, 0);
        CaseIs(ms, k, 0);
      }
    } else {
      var i, j :| 0 <= i < j < |ms| && ConstantName(ms[i].name) == ConstantName(ms[j].name);
      assert !(CaseReached(ms, i) && CaseReached(ms, j));
    }
  }

  // ----- running the proxy's body -----

  // `transport` is the status of the request itself; when it is not ERR_NONE
  // the request has not reached the stub.
  function RunProxy(ms: seq<Method>, impl: Impl, transport: int, code: seq<Stmt>, st: State, status: int, ec: int,
                    calls: seq<seq<Value>>): Option<Return>
    decreases |code|
  {
    if code == [] then None
    else
      match code[0]
      case Send(command, async) => (
        if transport != ERR_NONE then RunProxy(ms, impl, transport, code[1..], st, transport, ec, calls)
        else
          match Serve(ms, impl, command, st.data)
          case None => None
          case Some(a) =>
            RunProxy(ms, impl, transport, code[1..], st.(reply := if async then [] else a.reply), a.status, ec,
                     calls + a.calls))
      case ReturnIfNotNone =>
        if status != ERR_NONE then Some(Return(status, st, calls))
        else RunProxy(ms, impl, transport, code[1..], st, status, ec, calls)
      case ReadErrorCode => (
        if st.reply != [] && st.reply[0].I32?
        then RunProxy(ms, impl, transport, code[1..], st.(reply := st.reply[1..]), status, st.reply[0].n, calls)
        else None)
      case ReturnIfFailed =>
        if ec != ERR_NONE then Some(Return(ec, st, calls))
        else RunProxy(ms, impl, transport, code[1..], st, status, ec, calls)
      case ReturnOk => Some(Return(ERR_NONE, st, calls))
      case _ =>
        match Exec(code[0], st)
        case None => None
        case Some(next) => RunProxy(ms, impl, transport, code[1..], next, status, ec, calls)
  }

  lemma {:induction false} ProxyPlain(ms: seq<Method>, impl: Impl, transport: int, a: seq<Stmt>, b: seq<Stmt>, st: State,
                                      next: State, status: int, ec: int, calls: seq<seq<Value>>)
    requires ExecAll(a, st) == Some(next)
    ensures RunProxy(ms, impl, transport, a + b, st, status, ec, calls)
            == RunProxy(ms, impl, transport, b, next, status, ec, calls)
    decreases |a|
  {
    hide Serve;
    if a == [] {
      assert a + b == b;
    } else {
      assert (a + b)[0] == a[0] && (a + b)[1..] == a[1..] + b;
      ProxyPlain(ms, impl, transport, a[1..], b, Exec(a[0], st).value, next, status, ec, calls);
    }
  }

  lemma {:induction false} StubPlain(m: Method, impl: Impl, a: seq<Stmt>, b: seq<Stmt>, st: State, next: State, ec: int,
                                     calls: seq<seq<Value>>)
    requires ExecAll(a, st) == Some(next)
    ensures RunStub(m, impl, a + b, st, ec, calls) == RunStub(m, impl, b, next, ec, calls)
    decreases |a|
  {
    hide RunCall;
    if a == [] {
      assert a + b == b;
    } else {
      assert (a + b)[0] == a[0] && (a + b)[1..] == a[1..] + b;
      StubPlain(m, impl, a[1..], b, Exec(a[0], st).value, next, ec, calls);
    }
  }

  // ----- parameters -----

  // Parameter names are distinct and none is another's with "Size" behind it
  // (the emitter declares that variable for a collection).
  predicate NamesApart(ps: seq<Param>) {
    && (forall i, j :: 0 <= i < j < |ps| ==> ps[i].name != ps[j].name)
    && (forall i, j :: 0 <= i < |ps| && 0 <= j < |ps| ==> ps[i].name != ps[j].name + "Size")
  }

  // Each parameter goes one way, and a sequenceable only goes in.
  predicate OneWay(q: Param) {
    && q.isIn != q.isOut && Flat(q.typ) && (q.isOut ==> !q.typ.Sequenceable?)
  }

  predicate Callable(m: Method) {
    && NamesApart(m.params) && (forall i :: 0 <= i < |m.params| ==> OneWay(m.params[i]))
    && (m.ret.IsVoid() || (Flat(m.ret) && !m.ret.Sequenceable?))
  }

  lemma Underlined(name: string)
    ensures !MentionsIt(UnderlineAdded(name)) && PlainName(UnderlineAdded(name))
    ensures UnderlineAdded(name) != "result" && UnderlineAdded(name) != "resultSize"
    ensures UnderlineAdded(name) + "Size" != "result" && UnderlineAdded(name) + "Size" != "resultSize"
  {
    var u := UnderlineAdded(name);
    assert u[0] == '_' && (u + "Size")[0] == '_';
  }

  lemma UnderlinedApart(ps: seq<Param>, i: nat, j: nat)
    requires NamesApart(ps) && i < |ps| && j < |ps|
    ensures i != j ==> UnderlineAdded(ps[i].name) != UnderlineAdded(ps[j].name)
    ensures i != j ==> UnderlineAdded(ps[i].name) + "Size" != UnderlineAdded(ps[j].name) + "Size"
    ensures UnderlineAdded(ps[i].name) != UnderlineAdded(ps[j].name) + "Size"
  {
    var a, b := UnderlineAdded(ps[i].name), UnderlineAdded(ps[j].name);
    assert a[1..] == ps[i].name && b[1..] == ps[j].name;
    assert (b + "Size")[1..] == ps[j].name + "Size";
    assert (a + "Size")[..|a|] == a && (b + "Size")[..|b|] == b;
  }

  predicate Selected(q: Param, outs: bool) {
    if outs then q.isOut else q.isIn
  }

  predicate Typed(ps: seq<Param>, vs: seq<Value>, outs: bool)
    ensures Typed(ps, vs, outs) ==> |vs| == |ps|
  {
    |vs| == |ps| && forall i :: 0 <= i < |ps| && Selected(ps[i], outs) ==> HasType(vs[i], ps[i].typ)
  }

  // The encodings of the selected parameters, one after another.
  function EncodeParams(ps: seq<Param>, vs: seq<Value>, outs: bool): seq<Datum>
    requires Typed(ps, vs, outs)
  {
    if ps == [] then []
    else
      var i := |ps| - 1;
      EncodeParams(ps[..i], vs[..i], outs) + if Selected(ps[i], outs) then Encode(vs[i], ps[i].typ) else []
  }

  ghost predicate Bound(scopes: seq<Scope>, ps: seq<Param>, vs: seq<Value>, outs: bool) {
    |vs| == |ps| && forall i :: 0 <= i < |ps| && Selected(ps[i], outs) ==>
      Lookup(scopes, UnderlineAdded(ps[i].name)) == Some(vs[i])
  }

  // Writing the selected parameters appends their encodings.
  lemma {:induction false} ParamsWritten(p: Parcel, ps: seq<Param>, vs: seq<Value>, outs: bool, st: State)
    requires Typed(ps, vs, outs) && Bound(st.scopes, ps, vs, outs) && forall i :: 0 <= i < |ps| ==> Flat(ps[i].typ)
    ensures ExecAll(WriteParams(p, ps, outs), st) == Some(st.Append(p, EncodeParams(ps, vs, outs)))
    decreases |ps|
  {
    hide ExecAll, Encode, HasType, WriteCode, Flat;
    if ps == [] {
      AppendNothing(st, p);
    } else {
      var i := |ps| - 1;
      var before := EncodeParams(ps[..i], vs[..i], outs);
      ParamsWritten(p, ps[..i], vs[..i], outs, st);
      var name := UnderlineAdded(ps[i].name);
      var code := if Selected(ps[i], outs) then WriteCode(p, name, ps[i].typ) else [];
      ExecJoin(WriteParams(p, ps[..i], outs), code, st);
      if Selected(ps[i], outs) {
        Underlined(ps[i].name);
        SameScopes(st, p, before);
        WritesEncoding(p, name, ps[i].typ, st.Append(p, before), vs[i]);
        AppendTwice(st, p, before, Encode(vs[i], ps[i].typ));
      } else {
        NothingRun(st.Append(p, before));
        assert before + [] == before;
      }
    }
  }

  lemma AppendNothing(st: State, p: Parcel)
    ensures ExecAll([], st) == Some(st.Append(p, []))
  {
    AppendTwice(st, p, [], []);
  }

  lemma NothingRun(st: State)
    ensures ExecAll([], st) == Some(st)
  {
  }

  // ----- the stub's variables -----

  // The scope after the stub has read the in-parameters and declared the others.
  function StubScope(ps: seq<Param>, vs: seq<Value>): Scope
    requires |vs| == |ps|
  {
    if ps == [] then map[]
    else
      var i := |ps| - 1;
      var outer := StubScope(ps[..i], vs[..i]);
      var name := UnderlineAdded(ps[i].name);
      if ps[i].isIn then After(outer, name, ps[i].typ, vs[i])
      else if ps[i].isOut then outer[name := Initial(ps[i].typ, StartsNull(ps[i].typ))]
      else outer
  }

  // What the implementation is called with: in-parameters as sent, the others unset.
  function Received(ps: seq<Param>, vs: seq<Value>): seq<Value>
    requires |vs| == |ps|
  {
    seq(|ps|, i requires 0 <= i < |ps| => if ps[i].isIn then vs[i] else Initial(ps[i].typ, StartsNull(ps[i].typ)))
  }

  lemma {:induction false} StubNames(ps: seq<Param>, vs: seq<Value>, name: string)
    requires |vs| == |ps| && name in StubScope(ps, vs)
    ensures exists i :: 0 <= i < |ps|
              && (name == UnderlineAdded(ps[i].name) || name == UnderlineAdded(ps[i].name) + "Size")
    decreases |ps|
  {
    hide Initial, UnderlineAdded;
    var i := |ps| - 1;
    if name in StubScope(ps[..i], vs[..i]) {
      StubNames(ps[..i], vs[..i], name);
      var j :| 0 <= j < i
        && (name == UnderlineAdded(ps[..i][j].name) || name == UnderlineAdded(ps[..i][j].name) + "Size");
      assert ps[..i][j] == ps[j];
    }
  }

  lemma NewInStub(ps: seq<Param>, vs: seq<Value>, i: nat)
    requires NamesApart(ps) && |vs| == |ps| && i < |ps|
    ensures UnderlineAdded(ps[i].name) !in StubScope(ps[..i], vs[..i])
    ensures UnderlineAdded(ps[i].name) + "Size" !in StubScope(ps[..i], vs[..i])
  {
    hide StubScope, UnderlineAdded, NamesApart;
    var u := UnderlineAdded(ps[i].name);
    if u in StubScope(ps[..i], vs[..i]) {
      StubNames(ps[..i], vs[..i], u);
      var j :| 0 <= j < i && (u == UnderlineAdded(ps[..i][j].name) || u == UnderlineAdded(ps[..i][j].name) + "Size");
      UnderlinedApart(ps, i, j);
      assert false;
    }
    if u + "Size" in StubScope(ps[..i], vs[..i]) {
      StubNames(ps[..i], vs[..i], u + "Size");
      var j :| 0 <= j < i
        && (u + "Size" == UnderlineAdded(ps[..i][j].name) || u + "Size" == UnderlineAdded(ps[..i][j].name) + "Size");
      UnderlinedApart(ps, i, j);
      UnderlinedApart(ps, j, i);
      assert false;
    }
  }

  lemma ResultNew(ps: seq<Param>, vs: seq<Value>)
    requires |vs| == |ps|
    ensures "result" !in StubScope(ps, vs)
  {
    hide StubScope, UnderlineAdded;
    if "result" in StubScope(ps, vs) {
      StubNames(ps, vs, "result");
      var j :| 0 <= j < |ps|
        && ("result" == UnderlineAdded(ps[j].name) || "result" == UnderlineAdded(ps[j].name) + "Size");
      Underlined(ps[j].name);
      assert false;
    }
  }

  lemma {:induction false} StubHolds(ps: seq<Param>, vs: seq<Value>, k: nat)
    requires NamesApart(ps) && |vs| == |ps| && k < |ps| && (ps[k].isIn || ps[k].isOut)
    ensures UnderlineAdded(ps[k].name) in StubScope(ps, vs)
    ensures StubScope(ps, vs)[UnderlineAdded(ps[k].name)] == Received(ps, vs)[k]
    decreases |ps|
  {
    hide UnderlineAdded, Initial;
    var i := |ps| - 1;
    UnderlinedApart(ps, k, i);
    UnderlinedApart(ps, i, k);
    if k < i {
      StubHolds(ps[..i], vs[..i], k);
    }
  }

  // The stub's locals consume exactly the encoded in-parameters.
  lemma {:induction false} StubReads(ps: seq<Param>, vs: seq<Value>, st: State, rest: seq<Datum>)
    requires NamesApart(ps) && Typed(ps, vs, false) && forall i :: 0 <= i < |ps| ==> OneWay(ps[i])
    requires st.scopes == [map[]] && Starts(st, Data, EncodeParams(ps, vs, false), rest)
    ensures ExecAll(StubLocals(ps), st) == Some(st.With(Data, rest).(scopes := [StubScope(ps, vs)]))
    decreases |ps|
  {
    hide ExecAll, Encode, HasType, ReadCode, Flat, After, Initial, UnderlineAdded;
    if ps == [] {
      NothingRun(st);
      assert [] + rest == rest;
    } else {
      var i := |ps| - 1;
      var name, t := UnderlineAdded(ps[i].name), ps[i].typ;
      var own := if ps[i].isIn then Encode(vs[i], t) else [];
      StartsJoin(st, Data, EncodeParams(ps[..i], vs[..i], false), own, rest);
      StubReads(ps[..i], vs[..i], st, own + rest);
      var env := StubScope(ps[..i], vs[..i]);
      var st1 := st.With(Data, own + rest).(scopes := [env]);
      NewInStub(ps, vs, i);
      var code := if ps[i].isIn then ReadCode(Data, name, t, true) else [Declare(t, name, StartsNull(t))];
      ExecJoin(StubLocals(ps[..i]), code, st);
      if ps[i].isIn {
        Underlined(ps[i].name);
        ReadsEncoding(Data, name, t, true, env, st1, vs[i], rest);
      } else {
        assert own + rest == rest;
        DeclareOne(t, name, StartsNull(t), env, st1);
      }
    }
  }

  lemma StartsJoin(st: State, p: Parcel, a: seq<Datum>, b: seq<Datum>, rest: seq<Datum>)
    requires Starts(st, p, a + b, rest)
    ensures Starts(st, p, a, b + rest)
  {
    assert a + b + rest == a + (b + rest);
  }

  lemma DeclareOne(t: Type, name: string, isNull: bool, env: Scope, st: State)
    requires st.scopes == [env] && name !in env
    ensures ExecAll([Declare(t, name, isNull)], st) == Some(st.(scopes := [env[name := Initial(t, isNull)]]))
  {
    OneScope(env, name, Initial(t, isNull));
    hide ExecAll, Initial;
    ExecOne(Declare(t, name, isNull), st);
  }

  // ----- the call -----

  // The values a call sends back: what the implementation assigned.
  predicate Delivers(m: Method, o: Outcome)
    ensures Delivers(m, o) ==> |o.outs| == |m.params|
  {
    && |o.outs| == |m.params| && -TWO_31 <= o.ec < TWO_31
    && (o.ec == ERR_NONE ==> Typed(m.params, o.outs, true) && (m.ret.IsVoid() || HasType(o.result, m.ret)))
  }

  lemma {:induction false} ArgsFound(ps: seq<Param>, vs: seq<Value>, scopes: seq<Scope>, i: nat)
    requires i <= |ps| == |vs|
    requires forall k :: 0 <= k < |ps| ==> Lookup(scopes, UnderlineAdded(ps[k].name)) == Some(vs[k])
    ensures LookupAll(scopes, ArgNames(ps[..i])) == Some(vs[..i])
    decreases i
  {
    hide UnderlineAdded, Lookup;
    if i > 0 {
      ArgsFound(ps, vs, scopes, i - 1);
      OneMore(ps, i - 1);
      var names := ArgNames(ps[..i]);
      assert names[..|names| - 1] == ArgNames(ps[..i - 1]);
      assert vs[..i] == vs[..i - 1] + [vs[i - 1]];
    }
  }

  lemma {:induction false} ArgNameIs(ps: seq<Param>, i: nat)
    requires i < |ps|
    ensures ArgNames(ps)[i] == UnderlineAdded(ps[i].name)
    decreases |ps|
  {
    if i < |ps| - 1 {
      ArgNameIs(ps[..|ps| - 1], i);
    }
  }

  // The scope after the implementation assigned its out-parameters.
  function OutScope(ps: seq<Param>, outs: seq<Value>, env: Scope): Scope
    requires |outs| == |ps|
  {
    if ps == [] then env
    else
      var i := |ps| - 1;
      var before := OutScope(ps[..i], outs[..i], env);
      if ps[i].isOut then before[UnderlineAdded(ps[i].name) := outs[i]] else before
  }

  lemma {:induction false} OutScopeAt(ps: seq<Param>, outs: seq<Value>, env: Scope, name: string)
    requires |outs| == |ps| && NamesApart(ps)
    ensures name in env ==> name in OutScope(ps, outs, env)
    ensures (forall k :: 0 <= k < |ps| ==> name != UnderlineAdded(ps[k].name)) && name in env ==>
              OutScope(ps, outs, env)[name] == env[name]
    ensures forall k :: 0 <= k < |ps| && ps[k].isOut ==>
              UnderlineAdded(ps[k].name) in OutScope(ps, outs, env)
              && OutScope(ps, outs, env)[UnderlineAdded(ps[k].name)] == outs[k]
    decreases |ps|
  {
    hide UnderlineAdded;
    if ps != [] {
      var i := |ps| - 1;
      OutScopeAt(ps[..i], outs[..i], env, name);
      forall k | 0 <= k < |ps| && ps[k].isOut
        ensures UnderlineAdded(ps[k].name) in OutScope(ps, outs, env)
        ensures OutScope(ps, outs, env)[UnderlineAdded(ps[k].name)] == outs[k]
      {
        UnderlinedApart(ps, k, i);
        if k < i {
          assert ps[..i][k] == ps[k] && outs[..i][k] == outs[k];
        }
      }
    }
  }

  lemma {:induction false} ParamsAssigned(ps: seq<Param>, i: nat, names: seq<string>, outs: seq<Value>, env: Scope)
    requires i <= |ps| == |outs| && |names| >= |ps| && NamesApart(ps) && forall k :: 0 <= k < |ps| ==> OneWay(ps[k])
    requires forall k :: 0 <= k < |ps| ==> names[k] == UnderlineAdded(ps[k].name) && names[k] in env
    ensures AssignParams(ps[..i], names, outs, [env]) == Some([OutScope(ps[..i], outs[..i], env)])
    decreases i
  {
    hide UnderlineAdded, EmitType, Assign, Flat;
    if i > 0 {
      ParamsAssigned(ps, i - 1, names, outs, env);
      OneMore(ps, i - 1);
      OneMore(outs, i - 1);
      var q := ps[i - 1];
      if q.isOut {
        NotVoid(q.typ);
        OutsReachCaller(q.typ);
        NamesApartPrefix(ps, i - 1);
        OutScopeAt(ps[..i - 1], outs[..i - 1], env, names[i - 1]);
        OneScope(OutScope(ps[..i - 1], outs[..i - 1], env), names[i - 1], outs[i - 1]);
      }
    }
  }

  lemma NamesApartPrefix(ps: seq<Param>, i: nat)
    requires NamesApart(ps) && i <= |ps|
    ensures NamesApart(ps[..i])
  {
  }

  lemma NotVoid(t: Type)
    requires Flat(t)
    ensures !t.IsVoid()
  {
  }

  // The stub's scope when it calls the implementation, and after.
  function CallScope(m: Method, vs: seq<Value>): Scope
    requires |vs| == |m.params|
  {
    var env := StubScope(m.params, vs);
    if m.ret.IsVoid() then env else env["result" := Initial(m.ret, StartsNull(m.ret))]
  }

  function DoneScope(m: Method, vs: seq<Value>, o: Outcome): Scope
    requires |vs| == |o.outs| == |m.params|
  {
    var env := OutScope(m.params, o.outs, CallScope(m, vs));
    if m.ret.IsVoid() then env else env["result" := o.result]
  }

  lemma CallScopeHolds(m: Method, vs: seq<Value>, k: nat)
    requires Callable(m) && |vs| == |m.params| && k < |m.params|
    ensures UnderlineAdded(m.params[k].name) in CallScope(m, vs)
    ensures CallScope(m, vs)[UnderlineAdded(m.params[k].name)] == Received(m.params, vs)[k]
    ensures !m.ret.IsVoid() ==> "result" in CallScope(m, vs)
  {
    hide StubScope, UnderlineAdded, Flat, Initial;
    assert OneWay(m.params[k]);
    StubHolds(m.params, vs, k);
    Underlined(m.params[k].name);
  }

  lemma ResultInCall(m: Method, vs: seq<Value>)
    requires |vs| == |m.params|
    ensures !m.ret.IsVoid() ==> "result" in CallScope(m, vs)
  {
  }

  // The names in the call are the parameters in order, then the result.
  lemma CallNames(m: Method)
    ensures |CallArgs(m)| == |m.params| + if m.ret.IsVoid() then 0 else 1
    ensures forall k :: 0 <= k < |m.params| ==> CallArgs(m)[k] == UnderlineAdded(m.params[k].name)
    ensures !m.ret.IsVoid() ==> CallArgs(m)[|m.params|] == "result" && CallArgs(m)[..|m.params|] == ArgNames(m.params)
    ensures m.ret.IsVoid() ==> CallArgs(m) == ArgNames(m.params)
  {
    hide UnderlineAdded;
    forall k | 0 <= k < |m.params| ensures CallArgs(m)[k] == UnderlineAdded(m.params[k].name) {
      ArgNameIs(m.params, k);
    }
  }

  lemma CallLooksUp(m: Method, vs: seq<Value>, st: State)
    requires Callable(m) && |vs| == |m.params| && st.scopes == [CallScope(m, vs)]
    ensures var all := LookupAll(st.scopes, CallArgs(m));
            all.Some? && |all.value| >= |m.params| && all.value[..|m.params|] == Received(m.params, vs)
  {
    var got := Received(m.params, vs);
    hide Callable, CallScope, UnderlineAdded, Received, Lookup;
    forall k | 0 <= k < |m.params| ensures Lookup(st.scopes, UnderlineAdded(m.params[k].name)) == Some(got[k]) {
      CallScopeHolds(m, vs, k);
      OneScope(CallScope(m, vs), UnderlineAdded(m.params[k].name), Unset);
    }
    ArgsFound(m.params, got, st.scopes, |m.params|);
    assert m.params[..|m.params|] == m.params && got[..|m.params|] == got;
    CallNames(m);
    if !m.ret.IsVoid() {
      ResultInCall(m, vs);
      OneScope(CallScope(m, vs), "result", Unset);
      LookupOneMore(st.scopes, CallArgs(m), got);
    }
  }

  lemma LookupOneMore(scopes: seq<Scope>, names: seq<string>, vs: seq<Value>)
    requires names != [] && LookupAll(scopes, names[..|names| - 1]) == Some(vs) && Lookup(scopes, names[|names| - 1]).Some?
    ensures LookupAll(scopes, names) == Some(vs + [Lookup(scopes, names[|names| - 1]).value])
  {
  }

  // The call hands over the received values and brings back what was assigned.
  lemma CallIs(m: Method, impl: Impl, vs: seq<Value>, st: State)
    requires Callable(m) && |vs| == |m.params| && st.scopes == [CallScope(m, vs)]
    requires Delivers(m, impl(Received(m.params, vs)))
    ensures var o := impl(Received(m.params, vs));
            RunCall(m, impl, CallArgs(m), st)
            == Some((st.(scopes := [DoneScope(m, vs, o)]), o.ec, Received(m.params, vs)))
  {
    hide *;
    var args := Received(m.params, vs);
    var o := impl(args);
    var out := OutScope(m.params, o.outs, CallScope(m, vs));
    CallLooksUp(m, vs, st);
    CallAssigns(m, vs, o.outs);
    ResultAssigned(m, CallArgs(m), o.result, out);
    DoneScopeIs(m, vs, o);
    RunCallIs(m, impl, CallArgs(m), st, args, [out], [DoneScope(m, vs, o)]);
  }

  lemma DoneScopeIs(m: Method, vs: seq<Value>, o: Outcome)
    requires |vs| == |o.outs| == |m.params|
    ensures var env := OutScope(m.params, o.outs, CallScope(m, vs));
            [DoneScope(m, vs, o)] == [if m.ret.IsVoid() then env else env["result" := o.result]]
  {
    hide OutScope, CallScope;
  }

  lemma RunCallIs(m: Method, impl: Impl, names: seq<string>, st: State, args: seq<Value>, s: seq<Scope>, s': seq<Scope>)
    requires var all := LookupAll(st.scopes, names);
             all.Some? && |all.value| >= |m.params| && all.value[..|m.params|] == args
    requires AssignParams(m.params, names, impl(args).outs, st.scopes) == Some(s)
    requires AssignResult(m, names, impl(args).result, s) == Some(s')
    ensures RunCall(m, impl, names, st) == Some((st.(scopes := s'), impl(args).ec, args))
  {
    hide LookupAll, AssignParams, AssignResult;
  }

  lemma CallAssigns(m: Method, vs: seq<Value>, outs: seq<Value>)
    requires Callable(m) && |vs| == |m.params| == |outs|
    ensures var env := CallScope(m, vs);
            && AssignParams(m.params, CallArgs(m), outs, [env]) == Some([OutScope(m.params, outs, env)])
            && (!m.ret.IsVoid() ==> "result" in OutScope(m.params, outs, env))
  {
    var env := CallScope(m, vs);
    CallNames(m);
    hide CallScope, UnderlineAdded, CallArgs, OneWay, AssignParams, OutScope, NamesApart;
    forall k | 0 <= k < |m.params| ensures CallArgs(m)[k] == UnderlineAdded(m.params[k].name) && CallArgs(m)[k] in env {
      CallScopeHolds(m, vs, k);
    }
    ParamsAssigned(m.params, |m.params|, CallArgs(m), outs, env);
    assert m.params[..|m.params|] == m.params && outs[..|outs|] == outs;
    ResultInCall(m, vs);
    OutScopeAt(m.params, outs, env, "result");
  }

  lemma ResultAssigned(m: Method, names: seq<string>, v: Value, env: Scope)
    requires Callable(m) && names == CallArgs(m) && (!m.ret.IsVoid() ==> "result" in env)
    ensures AssignResult(m, names, v, [env]) == Some([if m.ret.IsVoid() then env else env["result" := v]])
  {
    CallNames(m);
    hide EmitType, Flat, CallArgs;
    if !m.ret.IsVoid() {
      OutsReachCaller(m.ret);
      OneScope(env, "result", v);
    }
  }

  // ----- the stub's reply -----

  function Payload(m: Method, o: Outcome): seq<Datum>
    requires Delivers(m, o) && o.ec == ERR_NONE
  {
    EncodeParams(m.params, o.outs, true) + if m.ret.IsVoid() then [] else Encode(o.result, m.ret)
  }

  function ReplyOf(m: Method, o: Outcome): seq<Datum>
    requires Delivers(m, o)
  {
    [I32(o.ec)] + if o.ec == ERR_NONE then Payload(m, o) else []
  }

  lemma DoneBound(m: Method, vs: seq<Value>, o: Outcome)
    requires Callable(m) && Delivers(m, o) && |vs| == |m.params|
    ensures Bound([DoneScope(m, vs, o), map[]], m.params, o.outs, true)
    ensures !m.ret.IsVoid() ==> Lookup([DoneScope(m, vs, o), map[]], "result") == Some(o.result)
  {
    hide Lookup, CallScope, OutScope, UnderlineAdded, NamesApart, OneWay;
    var env := DoneScope(m, vs, o);
    forall i | 0 <= i < |m.params| && Selected(m.params[i], true)
      ensures Lookup([env, map[]], UnderlineAdded(m.params[i].name)) == Some(o.outs[i])
    {
      OutScopeAt(m.params, o.outs, CallScope(m, vs), "result");
      Underlined(m.params[i].name);
      TwoScopes(env, map[], UnderlineAdded(m.params[i].name), Unset);
    }
    if !m.ret.IsVoid() {
      TwoScopes(env, map[], "result", Unset);
    }
  }

  // Writing the reply appends the payload.
  lemma ReplyWritten(m: Method, vs: seq<Value>, o: Outcome, st: State)
    requires Callable(m) && Delivers(m, o) && o.ec == ERR_NONE && |vs| == |m.params| && st.scopes == [DoneScope(m, vs, o)]
    ensures ExecBlock(ReplyCode(m), map[], st) == Some(st.Append(Reply, Payload(m, o)))
  {
    hide ExecAll, ExecBlock, WriteParams, WriteCode, EncodeParams, Encode, DoneScope, HasType, OneWay, NamesApart, Bound;
    var inner := st.(scopes := st.scopes + [map[]]);
    assert [DoneScope(m, vs, o)] + [map[]] == [DoneScope(m, vs, o), map[]];
    DoneBound(m, vs, o);
    AllFlat(m);
    var outs := EncodeParams(m.params, o.outs, true);
    ParamsWritten(Reply, m.params, o.outs, true, inner);
    SameScopes(inner, Reply, outs);
    var code := if m.ret.IsVoid() then [] else WriteCode(Reply, "result", m.ret);
    ExecJoin(WriteParams(Reply, m.params, true), code, inner);
    if m.ret.IsVoid() {
      NothingRun(inner.Append(Reply, outs));
      assert outs + [] == outs;
    } else {
      WritesEncoding(Reply, "result", m.ret, inner.Append(Reply, outs), o.result);
      AppendTwice(inner, Reply, outs, Encode(o.result, m.ret));
    }
    LeaveBlock(ReplyCode(m), map[], st, Reply, Payload(m, o));
  }

  lemma AllFlat(m: Method)
    requires Callable(m)
    ensures forall i :: 0 <= i < |m.params| ==> Flat(m.params[i].typ)
  {
    forall i | 0 <= i < |m.params| ensures Flat(m.params[i].typ) {
      assert OneWay(m.params[i]);
    }
  }

  lemma {:induction false} NoOuts(ps: seq<Param>, outs: seq<Value>)
    requires Typed(ps, outs, true) && !HasOut(ps)
    ensures EncodeParams(ps, outs, true) == []
    decreases |ps|
  {
    hide Encode, HasType;
    if ps != [] {
      NoOuts(ps[..|ps| - 1], outs[..|ps| - 1]);
    }
  }

  lemma SignedCode(ec: int)
    requires -TWO_31 <= ec < TWO_31
    ensures Signed(ec, TWO_31) == ec
  {
  }

  function LocalsCode(m: Method): seq<Stmt> {
    StubLocals(m.params) + if m.ret.IsVoid() then [] else [Declare(m.ret, "result", StartsNull(m.ret))]
  }

  function ReplyPart(m: Method): seq<Stmt> {
    (if HasOut(m.params) || !m.ret.IsVoid() then [IfSucceeded(ReplyCode(m))] else []) + [ReturnNone]
  }

  lemma StubCaseIs(m: Method)
    ensures StubCase(m) == LocalsCode(m) + ([Call(m.name, CallArgs(m)), WriteErrorCode] + ReplyPart(m))
  {
    hide StubLocals, CallArgs, ReplyCode, HasOut;
  }

  lemma LocalsRun(m: Method, vs: seq<Value>, st: State, rest: seq<Datum>)
    requires Callable(m) && Typed(m.params, vs, false)
    requires st.scopes == [map[]] && Starts(st, Data, EncodeParams(m.params, vs, false), rest)
    ensures ExecAll(LocalsCode(m), st) == Some(st.With(Data, rest).(scopes := [CallScope(m, vs)]))
  {
    hide ExecAll, StubLocals, StubScope, EncodeParams, OneWay, NamesApart, Starts, Initial;
    StubReads(m.params, vs, st, rest);
    var st1 := st.With(Data, rest).(scopes := [StubScope(m.params, vs)]);
    var code := if m.ret.IsVoid() then [] else [Declare(m.ret, "result", StartsNull(m.ret))];
    ExecJoin(StubLocals(m.params), code, st);
    if m.ret.IsVoid() {
      NothingRun(st1);
    } else {
      ResultNew(m.params, vs);
      DeclareOne(m.ret, "result", StartsNull(m.ret), StubScope(m.params, vs), st1);
    }
  }

  lemma CallStep(m: Method, impl: Impl, tail: seq<Stmt>, st: State, st1: State, ec: int, args: seq<Value>)
    requires RunCall(m, impl, CallArgs(m), st) == Some((st1, ec, args)) && -TWO_31 <= ec < TWO_31
    ensures RunStub(m, impl, [Call(m.name, CallArgs(m)), WriteErrorCode] + tail, st, 0, [])
            == RunStub(m, impl, tail, st1.Append(Reply, [I32(ec)]), ec, [args])
  {
    hide RunCall, CallArgs;
    SignedCode(ec);
    var code := [Call(m.name, CallArgs(m)), WriteErrorCode] + tail;
    assert code[1..] == [WriteErrorCode] + tail && code[1..][1..] == tail;
    assert [] + [args] == [args];
  }

  lemma ReplyStep(m: Method, impl: Impl, vs: seq<Value>, o: Outcome, st: State, calls: seq<seq<Value>>)
    requires Callable(m) && Delivers(m, o) && |vs| == |m.params| && st.scopes == [DoneScope(m, vs, o)]
    ensures RunStub(m, impl, ReplyPart(m), st, o.ec, calls)
            == Some(Answer(ERR_NONE, st.reply + (if o.ec == ERR_NONE then Payload(m, o) else []), st.data, calls))
  {
    hide *;
    var payload := if o.ec == ERR_NONE then Payload(m, o) else [];
    if HasOut(m.params) || !m.ret.IsVoid() {
      var next := if o.ec == ERR_NONE then st.Append(Reply, payload) else st;
      if o.ec == ERR_NONE {
        ReplyWritten(m, vs, o, st);
      }
      IfStep(m, impl, st, next, o.ec, calls);
      AppendIs(st, payload);
    } else {
      if o.ec == ERR_NONE {
        NothingToReply(m, o);
      }
      EndStep(m, impl, st, o.ec, calls);
    }
    assert st.reply + [] == st.reply;
  }

  lemma AppendIs(st: State, q: seq<Datum>)
    ensures st.Append(Reply, q).reply == st.reply + q && st.Append(Reply, q).data == st.data
  {
  }

  lemma NothingToReply(m: Method, o: Outcome)
    requires Delivers(m, o) && o.ec == ERR_NONE && !HasOut(m.params) && m.ret.IsVoid()
    ensures Payload(m, o) == []
  {
    NoOuts(m.params, o.outs);
  }

  lemma EndStep(m: Method, impl: Impl, st: State, ec: int, calls: seq<seq<Value>>)
    requires !HasOut(m.params) && m.ret.IsVoid()
    ensures RunStub(m, impl, ReplyPart(m), st, ec, calls) == Some(Answer(ERR_NONE, st.reply, st.data, calls))
  {
    hide HasOut;
    assert ReplyPart(m) == [ReturnNone];
  }

  lemma IfStep(m: Method, impl: Impl, st: State, next: State, ec: int, calls: seq<seq<Value>>)
    requires HasOut(m.params) || !m.ret.IsVoid()
    requires ec == ERR_NONE ==> ExecBlock(ReplyCode(m), map[], st) == Some(next)
    requires ec != ERR_NONE ==> next == st
    ensures RunStub(m, impl, ReplyPart(m), st, ec, calls) == Some(Answer(ERR_NONE, next.reply, next.data, calls))
  {
    hide ExecBlock, ReplyCode, HasOut;
    var code := ReplyPart(m);
    assert code == [IfSucceeded(ReplyCode(m)), ReturnNone];
    assert code[1..] == [ReturnNone];
  }

  // The stub's case: the implementation is called once with the values that were
  // sent, and the reply is its error code and, on success, what it delivered.
  lemma StubRuns(m: Method, impl: Impl, vs: seq<Value>, rest: seq<Datum>)
    requires Callable(m) && Typed(m.params, vs, false) && Delivers(m, impl(Received(m.params, vs)))
    ensures RunStub(m, impl, StubCase(m), State([map[]], EncodeParams(m.params, vs, false) + rest, []), 0, [])
            == Some(Answer(ERR_NONE, ReplyOf(m, impl(Received(m.params, vs))), rest, [Received(m.params, vs)]))
  {
    var o := impl(Received(m.params, vs));
    var st := State([map[]], EncodeParams(m.params, vs, false) + rest, []);
    var tail := [Call(m.name, CallArgs(m)), WriteErrorCode] + ReplyPart(m);
    StubCaseIs(m);
    LocalsRun(m, vs, st, rest);
    var st1 := st.With(Data, rest).(scopes := [CallScope(m, vs)]);
    StubPlain(m, impl, LocalsCode(m), tail, st, st1, 0, []);
    CallIs(m, impl, vs, st1);
    var st2 := st1.(scopes := [DoneScope(m, vs, o)]);
    CallStep(m, impl, ReplyPart(m), st1, st2, o.ec, Received(m.params, vs));
    ReplyStep(m, impl, vs, o, st2.Append(Reply, [I32(o.ec)]), [Received(m.params, vs)]);
    hide RunStub, StubCase, LocalsCode, ReplyPart, CallArgs, EncodeParams, CallScope, DoneScope, Payload, Received, ExecAll,
         Callable, Typed, Delivers;
    assert [] + [I32(o.ec)] == [I32(o.ec)];
  }

  // ----- the proxy reads the reply -----

  function OutsAfter(ps: seq<Param>, outs: seq<Value>, env: Scope): Scope
    requires |outs| == |ps|
  {
    if ps == [] then env
    else
      var i := |ps| - 1;
      var before := OutsAfter(ps[..i], outs[..i], env);
      if ps[i].isOut then After(before, UnderlineAdded(ps[i].name), ps[i].typ, outs[i]) else before
  }

  // Reading the outs touches their variables and the sizes of collections only.
  lemma {:induction false} OutsAfterAt(ps: seq<Param>, outs: seq<Value>, env: Scope, name: string)
    requires |outs| == |ps|
    requires forall k :: 0 <= k < |ps| && ps[k].isOut ==>
               name != UnderlineAdded(ps[k].name) && name != UnderlineAdded(ps[k].name) + "Size"
    ensures name in OutsAfter(ps, outs, env) <==> name in env
    ensures name in env ==> OutsAfter(ps, outs, env)[name] == env[name]
    decreases |ps|
  {
    hide UnderlineAdded;
    if ps != [] {
      var i := |ps| - 1;
      OutsAfterAt(ps[..i], outs[..i], env, name);
    }
  }

  lemma {:induction false} OutsAfterHolds(ps: seq<Param>, outs: seq<Value>, env: Scope, k: nat)
    requires |outs| == |ps| && NamesApart(ps) && k < |ps|
    ensures ps[k].isOut ==> UnderlineAdded(ps[k].name) in OutsAfter(ps, outs, env)
                            && OutsAfter(ps, outs, env)[UnderlineAdded(ps[k].name)] == outs[k]
    decreases |ps|
  {
    hide UnderlineAdded;
    var i := |ps| - 1;
    UnderlinedApart(ps, k, i);
    if k < i && ps[k].isOut {
      OutsAfterHolds(ps[..i], outs[..i], env, k);
    }
  }

  // The variable of parameter i is as it was, before its turn comes.
  lemma OutNotReached(ps: seq<Param>, outs: seq<Value>, env: Scope, i: nat)
    requires |outs| == |ps| && NamesApart(ps) && i < |ps|
    ensures var u, now := UnderlineAdded(ps[i].name), OutsAfter(ps[..i], outs[..i], env);
            && (u in now <==> u in env) && (u in env ==> now[u] == env[u]) && (u + "Size" in now <==> u + "Size" in env)
  {
    hide UnderlineAdded, NamesApart, OutsAfter;
    var u := UnderlineAdded(ps[i].name);
    forall k | 0 <= k < i && ps[..i][k].isOut
      ensures u != UnderlineAdded(ps[..i][k].name) && u != UnderlineAdded(ps[..i][k].name) + "Size"
      ensures u + "Size" != UnderlineAdded(ps[..i][k].name) && u + "Size" != UnderlineAdded(ps[..i][k].name) + "Size"
    {
      UnderlinedApart(ps, i, k);
      UnderlinedApart(ps, k, i);
    }
    OutsAfterAt(ps[..i], outs[..i], env, u);
    OutsAfterAt(ps[..i], outs[..i], env, u + "Size");
  }

  // The caller's variables: all parameters, the collections among the outs empty.
  ghost predicate CallerReady(ps: seq<Param>, env: Scope) {
    forall i :: 0 <= i < |ps| && ps[i].isOut ==>
      && UnderlineAdded(ps[i].name) in env && UnderlineAdded(ps[i].name) + "Size" !in env
      && (ps[i].typ.IsContainer() ==> env[UnderlineAdded(ps[i].name)] == Initial(ps[i].typ, false))
  }

  lemma {:induction false} OutsRead(ps: seq<Param>, outs: seq<Value>, env: Scope, st: State, rest: seq<Datum>)
    requires NamesApart(ps) && Typed(ps, outs, true) && CallerReady(ps, env) && forall i :: 0 <= i < |ps| ==> Flat(ps[i].typ)
    requires st.scopes == [env] && Starts(st, Reply, EncodeParams(ps, outs, true), rest)
    ensures ExecAll(ReadOuts(ps), st) == Some(st.With(Reply, rest).(scopes := [OutsAfter(ps, outs, env)]))
    decreases |ps|
  {
    hide ExecAll, Encode, HasType, ReadCode, Flat, After, Initial, UnderlineAdded, Starts;
    if ps == [] {
      NothingRun(st);
      StartsEmpty(st, Reply, rest);
    } else {
      var i := |ps| - 1;
      var name, t := UnderlineAdded(ps[i].name), ps[i].typ;
      var own := if ps[i].isOut then Encode(outs[i], t) else [];
      StartsJoin(st, Reply, EncodeParams(ps[..i], outs[..i], true), own, rest);
      OutsRead(ps[..i], outs[..i], env, st, own + rest);
      var env1 := OutsAfter(ps[..i], outs[..i], env);
      var st1 := st.With(Reply, own + rest).(scopes := [env1]);
      OutNotReached(ps, outs, env, i);
      var code := if ps[i].isOut then ReadCode(Reply, name, t, false) else [];
      ExecJoin(ReadOuts(ps[..i]), code, st);
      if ps[i].isOut {
        Underlined(ps[i].name);
        StartsWith(st1, Reply, own, rest);
        ReadsEncoding(Reply, name, t, false, env1, st1, outs[i], rest);
      } else {
        assert own + rest == rest;
        NothingRun(st1);
      }
    }
  }

  lemma StartsEmpty(st: State, p: Parcel, rest: seq<Datum>)
    requires Starts(st, p, [], rest)
    ensures st.With(p, rest) == st
  {
    assert [] + rest == rest;
  }

  lemma StartsWith(st: State, p: Parcel, q: seq<Datum>, rest: seq<Datum>)
    requires st.Contents(p) == q + rest
    ensures Starts(st, p, q, rest)
  {
  }

  // ----- the whole call -----

  // The caller's variables: its arguments by parameter name, and the result.
  function CallerScope(ps: seq<Param>, vs: seq<Value>): Scope
    requires |vs| == |ps|
  {
    if ps == [] then map[]
    else CallerScope(ps[..|ps| - 1], vs[..|ps| - 1])[UnderlineAdded(ps[|ps| - 1].name) := vs[|ps| - 1]]
  }

  function ProxyScope(m: Method, vs: seq<Value>, result: Value): Scope
    requires |vs| == |m.params|
  {
    if m.ret.IsVoid() then CallerScope(m.params, vs) else CallerScope(m.params, vs)["result" := result]
  }

  lemma {:induction false} CallerScopeHolds(ps: seq<Param>, vs: seq<Value>, k: nat)
    requires |vs| == |ps| && NamesApart(ps) && k < |ps|
    ensures UnderlineAdded(ps[k].name) in CallerScope(ps, vs) && CallerScope(ps, vs)[UnderlineAdded(ps[k].name)] == vs[k]
    decreases |ps|
  {
    hide UnderlineAdded;
    UnderlinedApart(ps, k, |ps| - 1);
    if k < |ps| - 1 {
      CallerScopeHolds(ps[..|ps| - 1], vs[..|ps| - 1], k);
    }
  }

  lemma {:induction false} CallerNames(ps: seq<Param>, vs: seq<Value>, name: string)
    requires |vs| == |ps| && forall k :: 0 <= k < |ps| ==> name != UnderlineAdded(ps[k].name)
    ensures name !in CallerScope(ps, vs)
    decreases |ps|
  {
    hide UnderlineAdded;
    if ps != [] {
      CallerNames(ps[..|ps| - 1], vs[..|ps| - 1], name);
    }
  }

  // The caller passes values of the right types, and empty collections to be filled.
  predicate Passes(m: Method, vs: seq<Value>, result: Value)
    ensures Passes(m, vs, result) ==> Typed(m.params, vs, false)
  {
    && Typed(m.params, vs, false)
    && (forall i :: 0 <= i < |m.params| && m.params[i].isOut && m.params[i].typ.IsContainer() ==>
          vs[i] == Initial(m.params[i].typ, false))
    && (m.ret.IsContainer() ==> result == Initial(m.ret, false))
  }

  lemma ProxyScopeReady(m: Method, vs: seq<Value>, result: Value)
    requires Callable(m) && Passes(m, vs, result)
    ensures var env := ProxyScope(m, vs, result);
            && CallerReady(m.params, env) && Bound([env], m.params, vs, false)
            && (forall k :: 0 <= k < |m.params| ==>
                  UnderlineAdded(m.params[k].name) in env && env[UnderlineAdded(m.params[k].name)] == vs[k])
            && (!m.ret.IsVoid() ==> "result" in env && env["result"] == result && "resultSize" !in env)
  {
    hide CallerScope, UnderlineAdded, NamesApart, OneWay, Initial, HasType;
    var env := ProxyScope(m, vs, result);
    forall k | 0 <= k < |m.params|
      ensures UnderlineAdded(m.params[k].name) in env && env[UnderlineAdded(m.params[k].name)] == vs[k]
      ensures UnderlineAdded(m.params[k].name) + "Size" !in env
    {
      CallerScopeHolds(m.params, vs, k);
      Underlined(m.params[k].name);
      SizeNotCaller(m.params, vs, k);
    }
    ParamsLookUp(m, vs, env);
    forall k | 0 <= k < |m.params| ensures "resultSize" != UnderlineAdded(m.params[k].name) {
      Underlined(m.params[k].name);
    }
    CallerNames(m.params, vs, "resultSize");
  }

  lemma SizeNotCaller(ps: seq<Param>, vs: seq<Value>, k: nat)
    requires |vs| == |ps| && NamesApart(ps) && k < |ps|
    ensures UnderlineAdded(ps[k].name) + "Size" !in CallerScope(ps, vs)
  {
    hide CallerScope, UnderlineAdded, NamesApart;
    forall j | 0 <= j < |ps| ensures UnderlineAdded(ps[k].name) + "Size" != UnderlineAdded(ps[j].name) {
      UnderlinedApart(ps, j, k);
    }
    CallerNames(ps, vs, UnderlineAdded(ps[k].name) + "Size");
  }

  lemma ParamsLookUp(m: Method, vs: seq<Value>, env: Scope)
    requires |vs| == |m.params|
    requires forall k :: 0 <= k < |m.params| ==>
               UnderlineAdded(m.params[k].name) in env && env[UnderlineAdded(m.params[k].name)] == vs[k]
    ensures Bound([env], m.params, vs, false)
  {
    hide UnderlineAdded, Lookup;
    forall k | 0 <= k < |m.params| ensures Lookup([env], UnderlineAdded(m.params[k].name)) == Some(vs[k]) {
      OneScope(env, UnderlineAdded(m.params[k].name), Unset);
    }
  }

  // What the caller finds in its variables: an out-parameter that is not passed
  // by reference does not come back.
  function CallerSees(m: Method, vs: seq<Value>, env: Scope, k: nat): Value
    requires |vs| == |m.params| && k < |m.params|
  {
    var q, name := m.params[k], UnderlineAdded(m.params[k].name);
    if ReachesCaller(EmitType(q.typ, q.isIn, q.isOut, false)) && name in env then env[name] else vs[k]
  }

  function CallerResult(m: Method, result: Value, env: Scope): Value {
    if ReachesCaller(EmitType(m.ret, false, true, false)) && "result" in env then env["result"] else result
  }

  function ReadPart(m: Method): seq<Stmt> {
    ReadOuts(m.params) + if m.ret.IsVoid() then [] else ReadCode(Reply, "result", m.ret, false)
  }

  // What the proxy does with the answer; a one-way call has none.
  function AnswerPart(m: Method): seq<Stmt> {
    if m.oneway then [ReturnOk] else [ReadErrorCode, ReturnIfFailed] + (ReadPart(m) + [ReturnOk])
  }

  lemma ProxyBodyIs(m: Method)
    ensures ProxyBody(m) == WriteParams(Data, m.params, false)
                            + ([Send(ConstantName(m.name), m.oneway), ReturnIfNotNone] + AnswerPart(m))
  {
    hide WriteParams, ReadOuts, ReadCode, ConstantName;
  }

  // The proxy's scope once it has read the reply of a successful call.
  function FinalScope(m: Method, vs: seq<Value>, result: Value, o: Outcome): Scope
    requires |vs| == |m.params| == |o.outs|
  {
    var env := OutsAfter(m.params, o.outs, ProxyScope(m, vs, result));
    if m.ret.IsVoid() then env else After(env, "result", m.ret, o.result)
  }

  lemma ResultNotTouched(m: Method, vs: seq<Value>, result: Value, o: Outcome, name: string)
    requires |vs| == |m.params| == |o.outs| && (name == "result" || name == "resultSize")
    ensures var env, now := ProxyScope(m, vs, result), OutsAfter(m.params, o.outs, ProxyScope(m, vs, result));
            (name in now <==> name in env) && (name in env ==> now[name] == env[name])
  {
    hide UnderlineAdded, ProxyScope, OutsAfter;
    forall k | 0 <= k < |m.params| && m.params[k].isOut
      ensures name != UnderlineAdded(m.params[k].name) && name != UnderlineAdded(m.params[k].name) + "Size"
    {
      Underlined(m.params[k].name);
    }
    OutsAfterAt(m.params, o.outs, ProxyScope(m, vs, result), name);
  }

  lemma ReplyRead(m: Method, vs: seq<Value>, result: Value, o: Outcome, st: State)
    requires Callable(m) && Passes(m, vs, result) && Delivers(m, o) && o.ec == ERR_NONE
    requires st.scopes == [ProxyScope(m, vs, result)] && st.reply == Payload(m, o)
    ensures ExecAll(ReadPart(m), st) == Some(st.(reply := [], scopes := [FinalScope(m, vs, result, o)]))
  {
    hide ExecAll, ReadOuts, ReadCode, EncodeParams, Encode, ProxyScope, OutsAfter, After, Initial, HasType, NamesApart, OneWay,
         CallerReady, Bound, UnderlineAdded, Starts;
    var env := ProxyScope(m, vs, result);
    var own := if m.ret.IsVoid() then [] else Encode(o.result, m.ret);
    ProxyScopeReady(m, vs, result);
    AllFlat(m);
    StartsWith(st, Reply, EncodeParams(m.params, o.outs, true), own);
    OutsRead(m.params, o.outs, env, st, own);
    var env1 := OutsAfter(m.params, o.outs, env);
    var st1 := st.With(Reply, own).(scopes := [env1]);
    var code := if m.ret.IsVoid() then [] else ReadCode(Reply, "result", m.ret, false);
    ExecJoin(ReadOuts(m.params), code, st);
    if m.ret.IsVoid() {
      NothingRun(st1);
    } else {
      ResultNotTouched(m, vs, result, o, "result");
      ResultNotTouched(m, vs, result, o, "resultSize");
      assert own == own + [] && "result" + "Size" == "resultSize";
      StartsWith(st1, Reply, own, []);
      ReadsEncoding(Reply, "result", m.ret, false, env1, st1, o.result, []);
    }
  }

  // The proxy after its request was answered.
  lemma AnswerRead(ms: seq<Method>, impl: Impl, m: Method, vs: seq<Value>, result: Value, o: Outcome, st: State,
                   calls: seq<seq<Value>>)
    requires !m.oneway && Callable(m) && Passes(m, vs, result) && Delivers(m, o)
    requires st.scopes == [ProxyScope(m, vs, result)] && st.reply == ReplyOf(m, o)
    ensures RunProxy(ms, impl, ERR_NONE, AnswerPart(m), st, 0, 0, calls)
            == Some(Return(o.ec, st.(reply := [], scopes := [if o.ec == ERR_NONE then FinalScope(m, vs, result, o)
                                                             else ProxyScope(m, vs, result)]), calls))
  {
    hide Callable, Passes, Delivers, Payload, ReadPart, ProxyScope, FinalScope, Serve, ExecAll;
    var payload := if o.ec == ERR_NONE then Payload(m, o) else [];
    var st1 := st.(reply := payload);
    assert st.reply[1..] == payload;
    var code := [ReadErrorCode, ReturnIfFailed] + (ReadPart(m) + [ReturnOk]);
    assert code[1..] == [ReturnIfFailed] + (ReadPart(m) + [ReturnOk]) && code[1..][1..] == ReadPart(m) + [ReturnOk];
    if o.ec == ERR_NONE {
      ReplyRead(m, vs, result, o, st1);
      var st2 := st1.(reply := [], scopes := [FinalScope(m, vs, result, o)]);
      ProxyPlain(ms, impl, ERR_NONE, ReadPart(m), [ReturnOk], st1, st2, 0, o.ec, calls);
    }
  }

  // The request: what is written, and what the stub makes of it.
  lemma RequestSent(ms: seq<Method>, k: nat, impl: Impl, vs: seq<Value>, result: Value)
    requires DistinctCommands(ms) && k < |ms| && Callable(ms[k]) && Passes(ms[k], vs, result)
    requires Delivers(ms[k], impl(Received(ms[k].params, vs)))
    ensures var m := ms[k];
            var o := impl(Received(m.params, vs));
            var sent := EncodeParams(m.params, vs, false);
            && Serve(ms, impl, ConstantName(m.name), sent)
               == Some(Answer(ERR_NONE, ReplyOf(m, o), [], [Received(m.params, vs)]))
            && RunProxy(ms, impl, ERR_NONE, ProxyBody(m), State([ProxyScope(m, vs, result)], [], []), 0, 0, [])
               == RunProxy(ms, impl, ERR_NONE, AnswerPart(m),
                           State([ProxyScope(m, vs, result)], sent, if m.oneway then [] else ReplyOf(m, o)), 0, 0,
                           [Received(m.params, vs)])
  {
    hide *;
    var m := ms[k];
    var o := impl(Received(m.params, vs));
    var sent := EncodeParams(m.params, vs, false);
    PassesTyped(m, vs, result);
    DispatchExact(ms, k, impl, sent);
    StubRuns(m, impl, vs, []);
    assert sent + [] == sent;
    var st := State([ProxyScope(m, vs, result)], [], []);
    var st1 := State([ProxyScope(m, vs, result)], sent, []);
    ProxyWrites(m, vs, result);
    ProxyBodyIs(m);
    var answer := Answer(ERR_NONE, ReplyOf(m, o), [], [Received(m.params, vs)]);
    ProxyPlain(ms, impl, ERR_NONE, WriteParams(Data, m.params, false),
               [Send(ConstantName(m.name), m.oneway), ReturnIfNotNone] + AnswerPart(m), st, st1, 0, 0, []);
    SendStep(ms, impl, ConstantName(m.name), m.oneway, AnswerPart(m), st1, answer);
  }

  lemma PassesTyped(m: Method, vs: seq<Value>, result: Value)
    requires Passes(m, vs, result)
    ensures Typed(m.params, vs, false)
  {
    hide Typed;
  }

  lemma ProxyWrites(m: Method, vs: seq<Value>, result: Value)
    requires Callable(m) && Passes(m, vs, result)
    ensures ExecAll(WriteParams(Data, m.params, false), State([ProxyScope(m, vs, result)], [], []))
            == Some(State([ProxyScope(m, vs, result)], EncodeParams(m.params, vs, false), []))
  {
    hide ExecAll, WriteParams, EncodeParams, ProxyScope, OneWay, NamesApart, CallerReady, Bound, Typed;
    var st := State([ProxyScope(m, vs, result)], [], []);
    ProxyScopeReady(m, vs, result);
    AllFlat(m);
    ParamsWritten(Data, m.params, vs, false, st);
    assert [] + EncodeParams(m.params, vs, false) == EncodeParams(m.params, vs, false);
  }

  lemma SendStep(ms: seq<Method>, impl: Impl, command: string, async: bool, tail: seq<Stmt>, st: State, a: Answer)
    requires Serve(ms, impl, command, st.data) == Some(a) && a.status == ERR_NONE
    ensures RunProxy(ms, impl, ERR_NONE, [Send(command, async), ReturnIfNotNone] + tail, st, 0, 0, [])
            == RunProxy(ms, impl, ERR_NONE, tail, st.(reply := if async then [] else a.reply), 0, 0, a.calls)
  {
    hide Serve;
    var code := [Send(command, async), ReturnIfNotNone] + tail;
    assert code[1..] == [ReturnIfNotNone] + tail && code[1..][1..] == tail;
    assert [] + a.calls == a.calls;
  }

  // What the caller sees after a successful call, and after a failed one.
  lemma CallerView(m: Method, vs: seq<Value>, result: Value, o: Outcome, k: nat)
    requires Callable(m) && Passes(m, vs, result) && Delivers(m, o) && k < |m.params|
    ensures CallerSees(m, vs, FinalScope(m, vs, result, o), k) == if m.params[k].isOut then o.outs[k] else vs[k]
    ensures CallerSees(m, vs, ProxyScope(m, vs, result), k) == vs[k]
  {
    hide UnderlineAdded, EmitType, ProxyScope, OutsAfter, NamesApart, Initial, Typed;
    assert OneWay(m.params[k]);
    ProxyScopeReady(m, vs, result);
    Underlined(m.params[k].name);
    if m.params[k].isOut {
      NotVoid(m.params[k].typ);
      OutsReachCaller(m.params[k].typ);
      OutsAfterHolds(m.params, o.outs, ProxyScope(m, vs, result), k);
    } else {
      InNotTouched(m, vs, result, o, k);
    }
  }

  lemma InNotTouched(m: Method, vs: seq<Value>, result: Value, o: Outcome, k: nat)
    requires Callable(m) && Passes(m, vs, result) && |o.outs| == |m.params| && k < |m.params| && !m.params[k].isOut
    ensures var env, u := OutsAfter(m.params, o.outs, ProxyScope(m, vs, result)), UnderlineAdded(m.params[k].name);
            u in env && env[u] == vs[k]
  {
    hide UnderlineAdded, ProxyScope, OutsAfter, NamesApart, OneWay, Typed, CallerReady, Bound, Initial;
    ProxyScopeReady(m, vs, result);
    var u := UnderlineAdded(m.params[k].name);
    forall j | 0 <= j < |m.params| && m.params[j].isOut
      ensures u != UnderlineAdded(m.params[j].name) && u != UnderlineAdded(m.params[j].name) + "Size"
    {
      UnderlinedApart(m.params, k, j);
    }
    OutsAfterAt(m.params, o.outs, ProxyScope(m, vs, result), u);
  }

  lemma ResultView(m: Method, vs: seq<Value>, result: Value, o: Outcome)
    requires Callable(m) && Passes(m, vs, result) && Delivers(m, o) && !m.ret.IsVoid()
    ensures CallerResult(m, result, FinalScope(m, vs, result, o)) == o.result
    ensures CallerResult(m, result, ProxyScope(m, vs, result)) == result
  {
    hide EmitType, ProxyScope, OutsAfter, NamesApart, OneWay, Typed, CallerReady, Bound, Initial;
    ProxyScopeReady(m, vs, result);
    OutsReachCaller(m.ret);
  }

  // A remote call is a local call: the implementation is called once, with
  // exactly the caller's in-arguments, the caller gets exactly the
  // implementation's error code and, on success, its outs and result (else
  // nothing changes), and both parcels are consumed to the end.
  lemma RemoteCallIsLocal(ms: seq<Method>, k: nat, impl: Impl, vs: seq<Value>, result: Value)
    requires DistinctCommands(ms) && k < |ms| && !ms[k].oneway && Callable(ms[k]) && Passes(ms[k], vs, result)
    requires Delivers(ms[k], impl(Received(ms[k].params, vs)))
    ensures var m := ms[k];
            var o := impl(Received(m.params, vs));
            var sent := EncodeParams(m.params, vs, false);
            var r := RunProxy(ms, impl, ERR_NONE, ProxyBody(m), State([ProxyScope(m, vs, result)], [], []), 0, 0, []);
            && Serve(ms, impl, ConstantName(m.name), sent)
               == Some(Answer(ERR_NONE, ReplyOf(m, o), [], [Received(m.params, vs)]))
            && r.Some? && r.value.calls == [Received(m.params, vs)]
            && r.value.ec == o.ec && r.value.st.data == sent && r.value.st.reply == []
            && |r.value.st.scopes| == 1
            && (forall i :: 0 <= i < |m.params| ==>
                  CallerSees(m, vs, r.value.st.scopes[0], i)
                  == if m.params[i].isOut && o.ec == ERR_NONE then o.outs[i] else vs[i])
            && (!m.ret.IsVoid() ==>
                  CallerResult(m, result, r.value.st.scopes[0]) == if o.ec == ERR_NONE then o.result else result)
  {
    hide *;
    var m := ms[k];
    var o := impl(Received(m.params, vs));
    RequestSent(ms, k, impl, vs, result);
    AnswerRead(ms, impl, m, vs, result, o, State([ProxyScope(m, vs, result)], EncodeParams(m.params, vs, false), ReplyOf(m, o)),
               [Received(m.params, vs)]);
    forall i | 0 <= i < |m.params|
      ensures CallerSees(m, vs, FinalScope(m, vs, result, o), i) == if m.params[i].isOut then o.outs[i] else vs[i]
      ensures CallerSees(m, vs, ProxyScope(m, vs, result), i) == vs[i]
    {
      CallerView(m, vs, result, o, i);
    }
    if !m.ret.IsVoid() {
      ResultView(m, vs, result, o);
    }
  }

  // A one-way call hands over the in-arguments like any other: they are all in
  // the request, and the implementation is called once with them. Whatever it
  // answers, the caller gets ERR_OK and finds every variable as it was.
  lemma OneWayCallDelivers(ms: seq<Method>, k: nat, impl: Impl, vs: seq<Value>, result: Value)
    requires DistinctCommands(ms) && k < |ms| && ms[k].oneway && Callable(ms[k]) && Passes(ms[k], vs, result)
    requires Delivers(ms[k], impl(Received(ms[k].params, vs)))
    ensures var m := ms[k];
            var sent := EncodeParams(m.params, vs, false);
            && (exists reply :: Serve(ms, impl, ConstantName(m.name), sent)
                                == Some(Answer(ERR_NONE, reply, [], [Received(m.params, vs)])))
            && RunProxy(ms, impl, ERR_NONE, ProxyBody(m), State([ProxyScope(m, vs, result)], [], []), 0, 0, [])
               == Some(Return(ERR_NONE, State([ProxyScope(m, vs, result)], sent, []), [Received(m.params, vs)]))
  {
    hide Serve, ProxyBody, Callable, Passes, Delivers, Received, EncodeParams, ReplyOf, ProxyScope, ReadPart, ConstantName;
    RequestSent(ms, k, impl, vs, result);
  }

  // The requests in some code, and whether each waits for no answer.
  function Requests(code: seq<Stmt>): seq<bool> {
    if code == [] then []
    else Requests(code[..|code| - 1]) + if code[|code| - 1].Send? then [code[|code| - 1].async] else []
  }

  lemma {:induction false} RequestsJoin(a: seq<Stmt>, b: seq<Stmt>)
    ensures Requests(a + b) == Requests(a) + Requests(b)
    decreases |b|
  {
    if b == [] {
      assert a + b == a;
    } else {
      var ab := a + b;
      assert ab[..|ab| - 1] == a + b[..|b| - 1];
      RequestsJoin(a, b[..|b| - 1]);
    }
  }

  lemma {:induction false} NoRequestIn(ps: seq<Param>)
    ensures Requests(WriteParams(Data, ps, false)) == [] && Requests(ReadOuts(ps)) == []
    decreases |ps|
  {
    hide UnderlineAdded, ReadOps, WriteOps;
    if ps != [] {
      var q := ps[|ps| - 1];
      NoRequestIn(ps[..|ps| - 1]);
      NoRequestInCode(UnderlineAdded(q.name), q.typ);
      RequestsJoin(WriteParams(Data, ps[..|ps| - 1], false),
                   if q.isIn then WriteCode(Data, UnderlineAdded(q.name), q.typ) else []);
      RequestsJoin(ReadOuts(ps[..|ps| - 1]), if q.isOut then ReadCode(Reply, UnderlineAdded(q.name), q.typ, false) else []);
    }
  }

  lemma NoRequestInCode(name: string, t: Type)
    ensures Requests(WriteCode(Data, name, t)) == [] && Requests(ReadCode(Reply, name, t, false)) == []
  {
    hide ReadOps, WriteOps;
    OnePlain(WriteCode(Data, name, t));
    OnePlain(ReadCode(Reply, name, t, false));
  }

  lemma OnePlain(code: seq<Stmt>)
    requires |code| <= 2 && forall i :: 0 <= i < |code| ==> !code[i].Send?
    ensures Requests(code) == []
  {
    if |code| == 2 {
      assert code[..1][..0] == [];
    }
  }

  // A proxy sends one request, and waits for no answer exactly when its method
  // is one-way.
  lemma SendsOnce(m: Method)
    ensures Requests(ProxyBody(m)) == [m.oneway]
  {
    hide *;
    ProxyBodyIs(m);
    NoRequestIn(m.params);
    RequestsJoin(WriteParams(Data, m.params, false), [Send(ConstantName(m.name), m.oneway), ReturnIfNotNone] + AnswerPart(m));
    RequestsJoin([Send(ConstantName(m.name), m.oneway), ReturnIfNotNone], AnswerPart(m));
    OneRequest(ConstantName(m.name), m.oneway);
    AnswerSendsNothing(m);
  }

  lemma OneRequest(command: string, async: bool)
    ensures Requests([Send(command, async), ReturnIfNotNone]) == [async]
  {
    var code := [Send(command, async), ReturnIfNotNone];
    assert code[..1] == [Send(command, async)] && code[..1][..0] == [] && Requests(code[..1]) == [async];
    assert [async] + [] == [async];
  }

  lemma AnswerSendsNothing(m: Method)
    ensures Requests(AnswerPart(m)) == []
  {
    hide ReadOuts, ReadCode, Requests;
    OnePlain([ReturnOk]);
    OnePlain([ReadErrorCode, ReturnIfFailed]);
    NoRequestIn(m.params);
    NoRequestInCode("result", m.ret);
    OnePlain([]);
    RequestsJoin([ReadErrorCode, ReturnIfFailed], ReadPart(m) + [ReturnOk]);
    RequestsJoin(ReadPart(m), [ReturnOk]);
    RequestsJoin(ReadOuts(m.params), if m.ret.IsVoid() then [] else ReadCode(Reply, "result", m.ret, false));
  }

  // A request that never arrives calls nothing, changes nothing and returns the
  // transport's status, one-way or not.
  lemma LostRequest(ms: seq<Method>, m: Method, impl: Impl, transport: int, vs: seq<Value>, result: Value)
    requires transport != ERR_NONE && Callable(m) && Passes(m, vs, result)
    ensures RunProxy(ms, impl, transport, ProxyBody(m), State([ProxyScope(m, vs, result)], [], []), 0, 0, [])
            == Some(Return(transport, State([ProxyScope(m, vs, result)], EncodeParams(m.params, vs, false), []), []))
  {
    hide Serve, ExecAll, Callable, Passes, ProxyScope, WriteParams, EncodeParams, AnswerPart, ConstantName;
    ProxyWrites(m, vs, result);
    ProxyBodyIs(m);
    var st := State([ProxyScope(m, vs, result)], [], []);
    var st1 := State([ProxyScope(m, vs, result)], EncodeParams(m.params, vs, false), []);
    var code := [Send(ConstantName(m.name), m.oneway), ReturnIfNotNone] + AnswerPart(m);
    ProxyPlain(ms, impl, transport, WriteParams(Data, m.params, false), code, st, st1, 0, 0, []);
    assert code[1..][0] == ReturnIfNotNone;
  }
}
