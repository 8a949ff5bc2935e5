/** The C++ emitter: the statements it writes for a proxy method and for the
    stub's case of that method, and the type texts in their signatures. */
module CppEmitter {
  import opened IdlTypes

  datatype Parcel = Data | Reply

  // What a write statement does with its variable, and a read with the parcel.
  datatype WriteOp = WriteFlag | WriteInt32 | WriteInt64 | WriteFloat | WriteDouble | WriteString16
                   | WriteParcelable | WriteRemoteObject

  datatype ReadOp = ReadFlag | ReadCast(to: Prim) | ReadInt32 | ReadInt64 | ReadFloat | ReadDouble | ReadString16
                  | ReadParcelable(name: string) | ReadRemoteObject(name: string)

  datatype Stmt =
    | Write(parcel: Parcel, wop: WriteOp, name: string)
    | WriteSize(parcel: Parcel, name: string)                        // parcel.WriteInt32(name.size())
    | ForEach(name: string, body: seq<Stmt>)                         // for (auto it = name.begin(); ...
    | Read(parcel: Parcel, rop: ReadOp, name: string, declares: bool)
    | Declare(typ: Type, name: string, isNull: bool)                 // T name;  or  T name = nullptr;
    | ReadSize(parcel: Parcel, name: string)                         // int nameSize = parcel.ReadInt32();
    | ForCount(name: string, body: seq<Stmt>)                        // for (int i = 0; i < nameSize; ++i)
    | PushBack(name: string)                                         // name.push_back(value)
    | Insert(name: string)                                           // name[key] = value
    | Send(command: string, async: bool)                             // int32_t st = Remote()->SendRequest(...)
    | ReturnIfNotNone                                                // if (st != ERR_NONE) return st;
    | ReadErrorCode                                                  // ErrCode ec = reply.ReadInt32();
    | ReturnIfFailed                                                 // if (FAILED(ec)) return ec;
    | ReturnOk
    | Call(callee: string, args: seq<string>)                        // ErrCode ec = callee(args);
    | WriteErrorCode                                                 // reply.WriteInt32(ec);
    | IfSucceeded(body: seq<Stmt>)                                   // if (SUCCEEDED(ec)) { ... }
    | ReturnNone

  datatype Param = Param(name: string, isIn: bool, isOut: bool, typ: Type)

  datatype Method = Method(name: string, oneway: bool, ret: Type, params: seq<Param>)

  function UnderlineAdded(name: string): string {
    "_" + name
  }

  // ----- writing and reading one variable -----

  function WriteOps(t: Type): WriteOp
    requires !t.IsContainer() && !t.IsVoid()
  {
    match t
    case Primitive(p) => (
      match p
      case Boolean => WriteFlag
      case Char => WriteInt32
      case Byte => WriteInt32
      case Short => WriteInt32
      case Integer => WriteInt32
      case Long => WriteInt64
      case Float => WriteFloat
      case Double => WriteDouble
      case String => WriteString16)
    case Sequenceable(_, _) => WriteParcelable
    case Interface(_, _) => WriteRemoteObject
  }

  function ReadOps(t: Type): ReadOp
    requires !t.IsContainer() && !t.IsVoid()
  {
    match t
    case Primitive(p) => (
      match p
      case Boolean => ReadFlag
      case Char => ReadCast(Char)
      case Byte => ReadCast(Byte)
      case Short => ReadCast(Short)
      case Integer => ReadInt32
      case Long => ReadInt64
      case Float => ReadFloat
      case Double => ReadDouble
      case String => ReadString16)
    case Sequenceable(_, n) => ReadParcelable(n)
    case Interface(_, n) => ReadRemoteObject(n)
  }

  function WriteCode(p: Parcel, name: string, t: Type): seq<Stmt>
    decreases t
  {
    match t
    case List(e) => [WriteSize(p, name), ForEach(name, WriteCode(p, "(*it)", e))]
    case Array(e) => [WriteSize(p, name), ForEach(name, WriteCode(p, "(*it)", e))]
    case Map(k, v) =>
      [WriteSize(p, name), ForEach(name, WriteCode(p, "(it->first)", k) + WriteCode(p, "(it->second)", v))]
    case _ => if t.IsVoid() then [] else [Write(p, WriteOps(t), name)]
  }

  function ReadCode(p: Parcel, name: string, t: Type, declares: bool): seq<Stmt>
    decreases t
  {
    match t
    case List(e) =>
      (if declares then [Declare(t, name, false)] else [])
      + [ReadSize(p, name), ForCount(name, ReadCode(p, "value", e, true) + [PushBack(name)])]
    case Array(e) =>
      (if declares then [Declare(t, name, false)] else [])
      + [ReadSize(p, name), ForCount(name, ReadCode(p, "value", e, true) + [PushBack(name)])]
    case Map(k, v) =>
      (if declares then [Declare(t, name, false)] else [])
      + [ReadSize(p, name),
         ForCount(name, ReadCode(p, "key", k, true) + ReadCode(p, "value", v, true) + [Insert(name)])]
    case _ => if t.IsVoid() then [] else [Read(p, ReadOps(t), name, declares)]
  }

  // ----- proxy and stub -----

  function WriteParams(p: Parcel, ps: seq<Param>, outs: bool): seq<Stmt> {
    if ps == [] then []
    else
      WriteParams(p, ps[..|ps| - 1], outs)
      + (var q := ps[|ps| - 1];
         if (if outs then q.isOut else q.isIn) then WriteCode(p, UnderlineAdded(q.name), q.typ) else [])
  }

  function ReadOuts(ps: seq<Param>): seq<Stmt> {
    if ps == [] then []
    else
      ReadOuts(ps[..|ps| - 1])
      + (var q := ps[|ps| - 1]; if q.isOut then ReadCode(Reply, UnderlineAdded(q.name), q.typ, false) else [])
  }

  function ProxyBody(m: Method): seq<Stmt> {
    WriteParams(Data, m.params, false)
    + [Send(ConstantName(m.name), m.oneway), ReturnIfNotNone]
    + (if m.oneway then []
       else [ReadErrorCode, ReturnIfFailed] + ReadOuts(m.params)
            + (if m.ret.IsVoid() then [] else ReadCode(Reply, "result", m.ret, false)))
    + [ReturnOk]
  }

  function StartsNull(t: Type): bool {
    t.Sequenceable? || t.Interface?
  }

  function StubLocals(ps: seq<Param>): seq<Stmt> {
    if ps == [] then []
    else
      StubLocals(ps[..|ps| - 1])
      + (var q := ps[|ps| - 1];
         if q.isIn then ReadCode(Data, UnderlineAdded(q.name), q.typ, true)
         else if q.isOut then [Declare(q.typ, UnderlineAdded(q.name), StartsNull(q.typ))]
         else [])
  }

  function ArgNames(ps: seq<Param>): (r: seq<string>)
    ensures |r| == |ps|
  {
    if ps == [] then [] else ArgNames(ps[..|ps| - 1]) + [UnderlineAdded(ps[|ps| - 1].name)]
  }

  predicate HasOut(ps: seq<Param>) {
    ps != [] && (ps[|ps| - 1].isOut || HasOut(ps[..|ps| - 1]))
  }

  function CallArgs(m: Method): seq<string> {
    ArgNames(m.params) + if m.ret.IsVoid() then [] else ["result"]
  }

  // What the stub writes behind the error code of a call that succeeded.
  function ReplyCode(m: Method): seq<Stmt> {
    WriteParams(Reply, m.params, true) + if m.ret.IsVoid() then [] else WriteCode(Reply, "result", m.ret)
  }

  function StubCase(m: Method): seq<Stmt> {
    StubLocals(m.params)
    + (if m.ret.IsVoid() then [] else [Declare(m.ret, "result", StartsNull(m.ret))])
    + [Call(m.name, CallArgs(m)), WriteErrorCode]
    + (if HasOut(m.params) || !m.ret.IsVoid() then [IfSucceeded(ReplyCode(m))] else [])
    + [ReturnNone]
  }

  // ----- command names -----

  predicate IsUpper(c: char) {
    'A' <= c <= 'Z'
  }

  function ToUpper(c: char): char {
    if 'a' <= c <= 'z' then c - 'a' + 'A' else c
  }

  // An upper-case letter gets a '_' in front of it, except in the first two places.
  function ConstantName(name: string): string {
    if name == "" then ""
    else
      var i, c := |name| - 1, name[|name| - 1];
      ConstantName(name[..i]) + if IsUpper(c) then (if i > 1 then ['_', c] else [c]) else [ToUpper(c)]
  }

  // Different method names can share a command: camel case and snake case.
  lemma CommandsCanClash()
    ensures ConstantName("toDo") == ConstantName("to_do") == "TO_DO"
  {
    calc {
      ConstantName("toDo");
      { assert "toDo"[..3] == "toD" && "toD"[..2] == "to" && "to"[..1] == "t" && "t"[..0] == ""; }
      "TO_DO";
    }
    calc {
      ConstantName("to_do");
      { assert "to_do"[..4] == "to_d" && "to_d"[..3] == "to_" && "to_"[..2] == "to" && "to"[..1] == "t"; }
      { assert "t"[..0] == ""; assert ConstantName("to_") == "TO_"; }
      "TO_DO";
    }
  }

  // How many capitals stand at places 2 to n - 1.
  function CapitalsTo(name: string, n: nat): nat
    requires n <= |name|
  {
    if n <= 2 then 0 else CapitalsTo(name, n - 1) + if 'A' <= name[n - 1] <= 'Z' then 1 else 0
  }

  lemma {:induction false} CapitalsOfPrefix(name: string, i: nat, n: nat)
    requires n <= i <= |name|
    ensures CapitalsTo(name[..i], n) == CapitalsTo(name, n)
    decreases n
  {
    if n > 2 {
      CapitalsOfPrefix(name, i, n - 1);
    }
  }

  // Letter by letter: the command spells the name in capitals, and what comes on
  // top is one '_' right in front of each capital from the third place on.
  lemma {:induction false} CommandSpelled(name: string, k: nat)
    requires k < |name|
    ensures var command, at := ConstantName(name), k + CapitalsTo(name, k + 1);
            && |command| == |name| + CapitalsTo(name, |name|)
            && at < |command|
            && command[at] == (if 'a' <= name[k] <= 'z' then name[k] - 32 as char else name[k])
            && (k >= 2 && 'A' <= name[k] <= 'Z' ==> command[at - 1] == '_')
    decreases |name|
  {
    var i := |name| - 1;
    if i > 0 {
      CommandSpelled(name[..i], if k < i then k else 0);
      CapitalsOfPrefix(name, i, i);
      CapitalsOfPrefix(name, i, if k < i then k + 1 else 0);
    }
  }

  // Each command is defined as the base plus the method's index.
  function Commands(ms: seq<Method>): (r: seq<(string, nat)>)
    ensures |r| == |ms|
    ensures forall i :: 0 <= i < |ms| ==> r[i] == (ConstantName(ms[i].name), i)
  {
    if ms == [] then [] else Commands(ms[..|ms| - 1]) + [(ConstantName(ms[|ms| - 1].name), |ms| - 1)]
  }

  // ----- type texts -----

  // The text of a parameter type; `inner` is set for declarations and elements.
  function EmitType(t: Type, isIn: bool, isOut: bool, inner: bool): string {
    match t
    case Primitive(Void) => "void"
    case Primitive(String) => if isIn then (if inner then "std::string" else "const std::string&") else "std::string&"
    case Primitive(p) => CppName(p) + if isIn then "" else "&"
    case Sequenceable(_, n) => n + "*"
    case Interface(_, n) => "sptr<" + n + ">" + if isIn then "" else "&"
    case List(e) => Collection("std::vector<" + EmitType(e, true, false, true) + ">", isOut, inner)
    case Array(e) => Collection("std::vector<" + EmitType(e, true, false, true) + ">", isOut, inner)
    case Map(k, v) =>
      Collection("std::unordered_map<" + EmitType(k, true, false, true) + ", " + EmitType(v, true, false, true) + ">",
                 isOut, inner)
  }

  function Collection(text: string, isOut: bool, inner: bool): string {
    if isOut then text + "&" else if inner then text else "const " + text + "&"
  }

  function CppName(p: Prim): string {
    match p
    case Char => "zchar"
    case Boolean => "bool"
    case Byte => "int8_t"
    case Short => "short"
    case Integer => "int"
    case Long => "long"
    case Float => "float"
    case Double => "double"
    case String => "std::string"
    case Void => "void"
  }

  // Assigning to a parameter reaches the caller when its type text ends in '&'
  // and is not of a constant.
  predicate ByReference(text: string) {
    text != "" && text[|text| - 1] == '&'
  }

  predicate IsConst(text: string) {
    "const " <= text
  }

  predicate ReachesCaller(text: string) {
    ByReference(text) && !IsConst(text)
  }

  lemma LastOf(a: string, b: string)
    requires b != ""
    ensures (a + b)[|a + b| - 1] == b[|b| - 1]
  {
  }

  lemma LettersOf(a: string, b: string, c: string)
    requires |a| >= 2 && a[1] != 'o'
    ensures !IsConst(a + b + c)
  {
    assert "const "[1] == 'o' && (a + b + c)[1] == a[1];
  }

  // Exactly the sequenceables, passed as plain pointers, lose what an
  // out-parameter is assigned.
  lemma OutsReachCaller(t: Type)
    requires !t.IsVoid()
    ensures t.Sequenceable? <==> !ReachesCaller(EmitType(t, false, true, false))
  {
    match t
    case Sequenceable(_, n) => LastOf(n, "*");
    case Interface(_, n) =>
      LastOf("sptr<" + n + ">", "&");
      LettersOf("sptr<", n + ">", "&");
      assert "sptr<" + n + ">" + "&" == "sptr<" + (n + ">") + "&";
    case List(e) => CollectionOut("std::vector<" + EmitType(e, true, false, true) + ">");
    case Array(e) => CollectionOut("std::vector<" + EmitType(e, true, false, true) + ">");
    case Map(k, v) =>
      CollectionOut("std::unordered_map<" + EmitType(k, true, false, true) + ", " + EmitType(v, true, false, true) + ">");
    case Primitive(p) =>
      LastOf(CppName(p), "&");
      NotConst(p);
  }

  lemma CollectionOut(text: string)
    requires |text| >= 2 && text[1] == 't'
    ensures ReachesCaller(text + "&")
  {
    LastOf(text, "&");
    assert "const "[1] == 'o' && (text + "&")[1] == text[1];
  }

  lemma NotConst(p: Prim)
    ensures !IsConst(CppName(p) + "&")
  {
    assert "const "[0] == 'c' && (CppName(p) + "&")[0] == CppName(p)[0] != 'c';
  }

  // Only collections come back from an in-out-parameter: a scalar, an
  // interface or a sequenceable is passed by value, a String by a reference to
  // a constant.
  lemma InOutsReachCaller(t: Type)
    requires !t.IsVoid()
    ensures var text := EmitType(t, true, true, false);
            && (ReachesCaller(text) <==> t.IsContainer())
            && (ByReference(text) && IsConst(text) <==> t == Primitive(String))
  {
    match t
    case Sequenceable(_, n) => LastOf(n, "*");
    case Interface(_, n) => LastOf("sptr<" + n, ">");
    case List(e) => CollectionOut("std::vector<" + EmitType(e, true, false, true) + ">");
    case Array(e) => CollectionOut("std::vector<" + EmitType(e, true, false, true) + ">");
    case Map(k, v) =>
      CollectionOut("std::unordered_map<" + EmitType(k, true, false, true) + ", " + EmitType(v, true, false, true) + ">");
    case Primitive(p) =>
  }

  // ----- the emitter -----

  lemma OneMore<T>(xs: seq<T>, i: nat)
    requires i < |xs|
    ensures xs[..i + 1][..i] == xs[..i] && |xs[..i + 1]| == i + 1 && xs[..i + 1][i] == xs[i] && xs[..|xs|] == xs
  {
  }

  class Emitter {
    var code: seq<Stmt>

    constructor ()
      ensures code == []
    {
      code := [];
    }

    method EmitWriteVariable(p: Parcel, name: string, t: Type)
      modifies this
      ensures code == old(code) + WriteCode(p, name, t)
      decreases t, 0
    {
      match t
      case List(e) => EmitWriteElements(p, name, e);
      case Array(e) => EmitWriteElements(p, name, e);
      case Map(k, v) =>
        code := code + [WriteSize(p, name)];
        var outer := code;
        code := [];
        EmitWriteVariable(p, "(it->first)", k);
        EmitWriteVariable(p, "(it->second)", v);
        assert code == WriteCode(p, "(it->first)", k) + WriteCode(p, "(it->second)", v);
        code := outer + [ForEach(name, code)];
      case _ =>
        if !t.IsVoid() {
          code := code + [Write(p, WriteOps(t), name)];
        }
    }

    method EmitWriteElements(p: Parcel, name: string, e: Type)
      modifies this
      ensures code == old(code) + [WriteSize(p, name), ForEach(name, WriteCode(p, "(*it)", e))]
      decreases e, 1
    {
      code := code + [WriteSize(p, name)];
      var outer := code;
      code := [];
      EmitWriteVariable(p, "(*it)", e);
      assert code == WriteCode(p, "(*it)", e);
      code := outer + [ForEach(name, code)];
    }

    method EmitReadVariable(p: Parcel, name: string, t: Type, declares: bool)
      modifies this
      ensures code == old(code) + ReadCode(p, name, t, declares)
      decreases t, 1
    {
      match t
      case List(e) => EmitReadElements(p, name, t, e, declares);
      case Array(e) => EmitReadElements(p, name, t, e, declares);
      case Map(k, v) => EmitReadEntries(p, name, t, k, v, declares);
      case _ =>
        if !t.IsVoid() {
          code := code + [Read(p, ReadOps(t), name, declares)];
        }
    }

    method EmitReadElements(p: Parcel, name: string, t: Type, e: Type, declares: bool)
      modifies this
      ensures code == old(code) + (if declares then [Declare(t, name, false)] else [])
                      + [ReadSize(p, name), ForCount(name, ReadCode(p, "value", e, true) + [PushBack(name)])]
      decreases e, 2
    {
      if declares {
        code := code + [Declare(t, name, false)];
      }
      code := code + [ReadSize(p, name)];
      var outer := code;
      code := [];
      EmitReadVariable(p, "value", e, true);
      code := code + [PushBack(name)];
      assert code == ReadCode(p, "value", e, true) + [PushBack(name)];
      code := outer + [ForCount(name, code)];
    }

    method EmitReadEntries(p: Parcel, name: string, t: Type, k: Type, v: Type, declares: bool)
      requires t == Map(k, v)
      modifies this
      ensures code == old(code) + (if declares then [Declare(t, name, false)] else [])
                      + [ReadSize(p, name),
                         ForCount(name, ReadCode(p, "key", k, true) + ReadCode(p, "value", v, true) + [Insert(name)])]
      decreases t, 0
    {
      hide *;
      if declares {
        code := code + [Declare(t, name, false)];
      }
      code := code + [ReadSize(p, name)];
      var outer := code;
      code := [];
      EmitReadVariable(p, "key", k, true);
      EmitReadVariable(p, "value", v, true);
      code := code + [Insert(name)];
      assert code == ReadCode(p, "key", k, true) + ReadCode(p, "value", v, true) + [Insert(name)];
      code := outer + [ForCount(name, code)];
    }

    method EmitInParameters(m: Method)
      modifies this
      ensures code == old(code) + WriteParams(Data, m.params, false)
    {
      hide WriteCode;
      ghost var start := code;
      var i := 0;
      while i < |m.params|
        invariant 0 <= i <= |m.params| && code == start + WriteParams(Data, m.params[..i], false)
      {
        OneMore(m.params, i);
        if m.params[i].isIn {
          EmitWriteVariable(Data, UnderlineAdded(m.params[i].name), m.params[i].typ);
        }
        i := i + 1;
      }
      assert m.params[..i] == m.params;
    }

    method EmitOutParameters(m: Method)
      modifies this
      ensures code == old(code) + ReadOuts(m.params)
    {
      hide ReadCode;
      ghost var start := code;
      var i := 0;
      while i < |m.params|
        invariant 0 <= i <= |m.params| && code == start + ReadOuts(m.params[..i])
      {
        OneMore(m.params, i);
        if m.params[i].isOut {
          EmitReadVariable(Reply, UnderlineAdded(m.params[i].name), m.params[i].typ, false);
        }
        i := i + 1;
      }
      assert m.params[..i] == m.params;
    }

    method EmitInterfaceProxyMethodBody(m: Method)
      modifies this
      ensures code == old(code) + ProxyBody(m)
    {
      hide WriteParams, ReadOuts, ReadCode, ConstantName;
      EmitInParameters(m);
      var command := EmitConstantName(m.name);
      code := code + [Send(command, m.oneway), ReturnIfNotNone];
      if !m.oneway {
        code := code + [ReadErrorCode, ReturnIfFailed];
        EmitOutParameters(m);
        if !m.ret.IsVoid() {
          EmitReadVariable(Reply, "result", m.ret, false);
        }
      }
      code := code + [ReturnOk];
    }

    method EmitStubLocals(m: Method)
      modifies this
      ensures code == old(code) + StubLocals(m.params)
                      + (if m.ret.IsVoid() then [] else [Declare(m.ret, "result", StartsNull(m.ret))])
    {
      hide ReadCode;
      ghost var start := code;
      var i := 0;
      while i < |m.params|
        invariant 0 <= i <= |m.params| && code == start + StubLocals(m.params[..i])
      {
        OneMore(m.params, i);
        var q := m.params[i];
        if q.isIn {
          EmitReadVariable(Data, UnderlineAdded(q.name), q.typ, true);
        } else if q.isOut {
          code := code + [Declare(q.typ, UnderlineAdded(q.name), StartsNull(q.typ))];
        }
        i := i + 1;
      }
      assert m.params[..i] == m.params;
      if !m.ret.IsVoid() {
        code := code + [Declare(m.ret, "result", StartsNull(m.ret))];
      }
    }

    method EmitStubCall(m: Method)
      modifies this
      ensures code == old(code) + [Call(m.name, CallArgs(m)), WriteErrorCode]
    {
      var args := [];
      var i := 0;
      while i < |m.params|
        invariant 0 <= i <= |m.params| && args == ArgNames(m.params[..i]) && code == old(code)
      {
        OneMore(m.params, i);
        args := args + [UnderlineAdded(m.params[i].name)];
        i := i + 1;
      }
      assert m.params[..i] == m.params;
      if !m.ret.IsVoid() {
        args := args + ["result"];
      }
      assert args == CallArgs(m);
      code := code + [Call(m.name, args), WriteErrorCode];
    }

    method EmitStubReply(m: Method)
      modifies this
      ensures code == old(code) + if HasOut(m.params) || !m.ret.IsVoid() then [IfSucceeded(ReplyCode(m))] else []
    {
      hide WriteCode;
      var hasOutParameter := false;
      var i := 0;
      while i < |m.params|
        invariant 0 <= i <= |m.params| && hasOutParameter == HasOut(m.params[..i]) && code == old(code)
      {
        OneMore(m.params, i);
        if m.params[i].isOut {
          hasOutParameter := true;
        }
        i := i + 1;
      }
      assert m.params[..i] == m.params;
      if hasOutParameter || !m.ret.IsVoid() {
        var outer := code;
        code := [];
        i := 0;
        while i < |m.params|
          invariant 0 <= i <= |m.params| && code == WriteParams(Reply, m.params[..i], true)
        {
          OneMore(m.params, i);
          if m.params[i].isOut {
            EmitWriteVariable(Reply, UnderlineAdded(m.params[i].name), m.params[i].typ);
          }
          i := i + 1;
        }
        assert m.params[..i] == m.params;
        if !m.ret.IsVoid() {
          EmitWriteVariable(Reply, "result", m.ret);
        }
        assert code == ReplyCode(m);
        code := outer + [IfSucceeded(code)];
      }
    }

    method EmitInterfaceStubMethodImpl(m: Method)
      modifies this
      ensures code == old(code) + StubCase(m)
    {
      hide CallArgs, ReplyCode, StubLocals, HasOut;
      EmitStubLocals(m);
      EmitStubCall(m);
      EmitStubReply(m);
      code := code + [ReturnNone];
    }

    method EmitConstantName(name: string) returns (sb: string)
      ensures sb == ConstantName(name)
    {
      if name == "" {
        return name;
      }
      sb := "";
      var i := 0;
      while i < |name|
        invariant 0 <= i <= |name| && sb == ConstantName(name[..i])
      {
        OneMore(name, i);
        var c := name[i];
        if IsUpper(c) {
          if i > 1 {
            sb := sb + ['_'];
          }
          sb := sb + [c];
        } else {
          sb := sb + [ToUpper(c)];
        }
        i := i + 1;
      }
      assert name[..i] == name;
    }

    method EmitInterfaceMethodCommands(ms: seq<Method>) returns (commands: seq<(string, nat)>)
      ensures commands == Commands(ms)
    {
      commands := [];
      var i := 0;
      while i < |ms|
        invariant 0 <= i <= |ms| && commands == Commands(ms[..i])
      {
        OneMore(ms, i);
        var command := EmitConstantName(ms[i].name);
        commands := commands + [(command, i)];
        i := i + 1;
      }
      assert ms[..i] == ms;
    }
  }
}
