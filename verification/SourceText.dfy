/** What a file of declarations reads as: a reference reader for parameters,
    methods, interfaces and whole files. It reads from a position of the text
    what stands there, and says where that ends. */
module SourceText {
  import opened IdlTypes
  import opened Lexing
  import opened TypeText

  datatype Reading<T> = Got(value: T, end: nat) | Missing

  // What stands in a declaration, types by their meaning.
  datatype ParamForm = ParamForm(name: string, isIn: bool, isOut: bool, typ: Type)

  datatype MethodForm = MethodForm(name: string, oneway: bool, ret: Type, params: seq<ParamForm>)

  datatype InterfaceForm = InterfaceForm(nspace: string, name: string, oneway: bool, external: bool, methods: seq<MethodForm>)

  datatype SequenceableForm = SequenceableForm(nspace: string, name: string)

  datatype Part = InterfacePart(interface_: InterfaceForm) | SequenceablePart(sequenceable: SequenceableForm)

  // What comes before the parameters of a method.
  datatype HeadForm = HeadForm(name: string, oneway: bool, ret: Type)

  // The options a parse depends on.
  datatype Config = Config(moduleName: string, targetIsTs: bool)

  // ----- names -----

  predicate IsValidTypeName(typeName: string)
    requires typeName != ""
  {
    typeName[0] != '.' && typeName[|typeName| - 1] != '.'
  }

  function LastDot(s: string): (i: int)
    ensures -1 <= i < |s| && (i >= 0 ==> s[i] == '.') && forall j :: 0 <= j < |s| && i < j ==> s[j] != '.'
  {
    if s == "" then -1 else if s[|s| - 1] == '.' then |s| - 1 else LastDot(s[..|s| - 1])
  }

  // A full name is a namespace, up to the last dot, and a short name; without
  // a dot the namespace is the nameless one.
  function NamespaceIn(fullName: string): string {
    if LastDot(fullName) == -1 then "." else fullName[..LastDot(fullName) + 1]
  }

  function ShortName(fullName: string): string {
    fullName[LastDot(fullName) + 1..]
  }

  // ----- readers -----

  // Behind these tokens, if they are next.
  function TokensEnd(src: string, p: nat, tokens: seq<Token>): (r: Option<nat>)
    requires p <= |src|
    ensures r.Some? ==> p <= r.value <= |src|
    decreases |tokens|
  {
    if tokens == [] then Some(p)
    else if Next(src, p).token == tokens[0] then TokensEnd(src, Next(src, p).end, tokens[1..])
    else None
  }

  // Attributes up to the closing bracket: between any two a comma, and any
  // commas more.
  function ReadAttributes(src: string, p: nat, isIn: bool, isOut: bool): (r: Reading<(bool, bool)>)
    requires p <= |src|
    ensures r.Got? ==> p < r.end <= |src|
    decreases |src| - p
  {
    var s := Next(src, p);
    if s.token == BracketsRight then Got((isIn, isOut), s.end)
    else if s.token == EndOfFile then Missing
    else
      var i, o := isIn || s.token in {InKey, InoutKey}, isOut || s.token in {OutKey, InoutKey};
      var then_ := Next(src, if s.token in {InKey, OutKey, InoutKey} then s.end else p);
      if then_.token == Comma then ReadAttributes(src, then_.end, i, o)
      else if then_.token == BracketsRight then Got((i, o), then_.end)
      else Missing
  }

  // A parameter: attributes in brackets, a type and a name.
  function ReadParam(src: string, p: nat, names: Names): (r: Reading<ParamForm>)
    requires p <= |src|
    ensures r.Got? ==> p < r.end <= |src|
  {
    if Next(src, p).token != BracketsLeft then Missing
    else
      match ReadAttributes(src, Next(src, p).end, false, false)
      case Missing => Missing
      case Got(io, a) =>
        match ReadType(src, a, names)
        case Failed => Missing
        case Parsed(t, e) =>
          var s := Next(src, e);
          if s.token == Identifier then Got(ParamForm(s.text, io.0, io.1, t), s.end) else Missing
  }

  // Parameters, each with or without a comma behind it, up to the closing
  // parenthesis; `seen` are those in front of p.
  function ReadParams(src: string, p: nat, names: Names, seen: seq<ParamForm>): (r: Reading<seq<ParamForm>>)
    requires p <= |src|
    ensures r.Got? ==> p < r.end <= |src|
    decreases |src| - p
  {
    var s := Next(src, p);
    if s.token == ParenthesesRight then Got(seen, s.end)
    else
      match ReadParam(src, p, names)
      case Missing => Missing
      case Got(x, e) => ReadParams(src, CommaEnd(src, e), names, seen + [x])
  }

  // Behind a comma, if one is next.
  function CommaEnd(src: string, p: nat): (e: nat)
    requires p <= |src|
    ensures p <= e <= |src|
  {
    if Next(src, p).token == Comma then Next(src, p).end else p
  }

  // The mark of a one-way method, if brackets come first.
  function ReadMark(src: string, p: nat): (r: Reading<bool>)
    requires p <= |src|
    ensures r.Got? ==> p <= r.end <= |src|
  {
    if Next(src, p).token != BracketsLeft then Got(false, p)
    else
      match TokensEnd(src, p, [BracketsLeft, OnewayKey, BracketsRight])
      case None => Missing
      case Some(e) => Got(true, e)
  }

  // A mark, the type of the result, a name and the opening parenthesis. What is
  // one way has no result.
  function ReadHead(src: string, p: nat, names: Names, onewayInterface: bool): (r: Reading<HeadForm>)
    requires p <= |src|
    ensures r.Got? ==> p < r.end <= |src|
  {
    match ReadMark(src, p)
    case Missing => Missing
    case Got(oneway, a) => ReadResult(src, a, names, onewayInterface, oneway)
  }

  function ReadResult(src: string, a: nat, names: Names, onewayInterface: bool, oneway: bool): (r: Reading<HeadForm>)
    requires a <= |src|
    ensures r.Got? ==> a < r.end <= |src|
  {
    match ReadType(src, a, names)
    case Failed => Missing
    case Parsed(t, e) =>
      if (onewayInterface || oneway) && !t.IsVoid() then Missing
      else
        match TokensEnd(src, e, [Identifier, ParenthesesLeft])
        case None => Missing
        case Some(b) => Got(HeadForm(Next(src, e).text, oneway, t), b)
  }

  predicate AnyOut(params: seq<ParamForm>) {
    exists i :: 0 <= i < |params| && params[i].isOut
  }

  // A method: its head, its parameters and a semicolon. What is one way gives
  // nothing back.
  function ReadMethod(src: string, p: nat, names: Names, onewayInterface: bool): (r: Reading<MethodForm>)
    requires p <= |src|
    ensures r.Got? ==> p < r.end <= |src|
  {
    match ReadHead(src, p, names, onewayInterface)
    case Missing => Missing
    case Got(h, b) =>
      match ReadParams(src, b, names, [])
      case Missing => Missing
      case Got(params, c) =>
        if (onewayInterface || h.oneway) && AnyOut(params) then Missing
        else if Next(src, c).token == Semicolon
        then Got(MethodForm(h.name, h.oneway, h.ret, params), Next(src, c).end)
        else Missing
  }

  // At least one method, and the closing brace.
  function ReadMethods(src: string, p: nat, names: Names, oneway: bool, seen: seq<MethodForm>): (r: Reading<seq<MethodForm>>)
    requires p <= |src|
    ensures r.Got? ==> p < r.end <= |src|
    decreases |src| - p, 0
  {
    match ReadMethod(src, p, names, oneway)
    case Missing => Missing
    case Got(x, e) => ReadMoreMethods(src, e, names, oneway, seen + [x])
  }

  function ReadMoreMethods(src: string, p: nat, names: Names, oneway: bool, seen: seq<MethodForm>)
    : (r: Reading<seq<MethodForm>>)
    requires p <= |src|
    ensures r.Got? ==> p < r.end <= |src|
    decreases |src| - p, 1
  {
    if Next(src, p).token == BracesRight then Got(seen, Next(src, p).end) else ReadMethods(src, p, names, oneway, seen)
  }

  // A full name and a semicolon.
  function ReadClassName(src: string, p: nat): (r: Reading<string>)
    requires p <= |src|
    ensures r.Got? ==> p < r.end <= |src|
  {
    match TokensEnd(src, p, [Identifier, Semicolon])
    case None => Missing
    case Some(e) =>
      var text := Next(src, p).text;
      if text != "" && IsValidTypeName(text) then TokensAdvance(src, p, Identifier, Semicolon); Got(text, e) else Missing
  }

  lemma TokensAdvance(src: string, p: nat, t: Token, u: Token)
    requires p <= |src| && TokensEnd(src, p, [t, u]).Some? && t != EndOfFile
    ensures p < TokensEnd(src, p, [t, u]).value
  {
    hide Next;
    assert [t, u][1..] == [u];
  }

  function ReadSequenceable(src: string, p: nat): (r: Reading<SequenceableForm>)
    requires p <= |src|
    ensures r.Got? ==> p < r.end <= |src|
  {
    if Next(src, p).token != SequenceableKey then Missing
    else
      match ReadClassName(src, Next(src, p).end)
      case Missing => Missing
      case Got(name, e) => Got(SequenceableForm(NamespaceIn(name), ShortName(name)), e)
  }

  // What comes before the name of an interface; it may be marked one way.
  function ReadStart(src: string, p: nat): (r: Reading<bool>)
    requires p <= |src|
    ensures r.Got? ==> p <= r.end <= |src|
  {
    var oneway := Next(src, p).token == BracketsLeft;
    match TokensEnd(src, p, if oneway then [BracketsLeft, OnewayKey, BracketsRight, InterfaceKey] else [InterfaceKey])
    case None => Missing
    case Some(e) => Got(oneway, e)
  }

  // The full name of an interface, and whether a semicolon follows and not the
  // opening brace.
  function ReadName(src: string, p: nat, targetIsTs: bool): (r: Reading<(string, bool)>)
    requires p <= |src|
    ensures r.Got? ==> p < r.end <= |src| && r.value.0 != ""
  {
    var s := Next(src, p);
    if s.token != Identifier then Missing
    else
      var then_ := Next(src, s.end);
      if then_.token != Semicolon && then_.token != BracesLeft then Missing
      else if s.text == "" || !IsValidTypeName(s.text) || ('.' !in s.text && !targetIsTs) then Missing
      else Got((s.text, then_.token == Semicolon), then_.end)
  }

  // The words within the body of an interface: its own name is one of them,
  // unless it is a keyword.
  function BodyNames(names: Names, nspace: string, name: string): Names {
    if IsName(name) then names[name := Interface(nspace, name)] else names
  }

  // A forward declaration, which has no mark, or an interface of the module's
  // name with its methods.
  function ReadInterface(src: string, p: nat, names: Names, config: Config): (r: Reading<InterfaceForm>)
    requires p <= |src|
    ensures r.Got? ==> p < r.end <= |src|
  {
    match ReadStart(src, p)
    case Missing => Missing
    case Got(oneway, a) =>
      match ReadName(src, a, config.targetIsTs)
      case Missing => Missing
      case Got(full, b) =>
        var nspace, name := NamespaceIn(full.0), ShortName(full.0);
        if full.1 then (if oneway then Missing else Got(InterfaceForm(nspace, name, false, true, []), b))
        else if name != config.moduleName then Missing
        else
          match ReadMethods(src, b, BodyNames(names, nspace, name), oneway, [])
          case Missing => Missing
          case Got(methods, e) => Got(InterfaceForm(nspace, name, oneway, false, methods), e)
  }

  function ReadPart(src: string, p: nat, names: Names, config: Config): (r: Reading<Part>)
    requires p <= |src|
    ensures r.Got? ==> p < r.end <= |src|
  {
    if Next(src, p).token == SequenceableKey then
      match ReadSequenceable(src, p)
      case Missing => Missing
      case Got(x, e) => Got(SequenceablePart(x), e)
    else
      match ReadInterface(src, p, names, config)
      case Missing => Missing
      case Got(x, e) => Got(InterfacePart(x), e)
  }

  // A declared name is a word from then on.
  function NameOf(x: Part): string {
    match x
    case InterfacePart(i) => i.name
    case SequenceablePart(s) => s.name
  }

  function NamesAfter(names: Names, x: Part): Names {
    match x
    case InterfacePart(i) => names[i.name := Interface(i.nspace, i.name)]
    case SequenceablePart(s) => names[s.name := Sequenceable(s.nspace, s.name)]
  }

  // Declarations up to the end of the text.
  function ReadParts(src: string, p: nat, names: Names, config: Config, seen: seq<Part>): (r: Reading<seq<Part>>)
    requires p <= |src|
    ensures r.Got? ==> r.end == |src|
    decreases |src| - p
  {
    if Next(src, p).token == EndOfFile then Got(seen, |src|)
    else
      match ReadPart(src, p, names, config)
      case Missing => Missing
      case Got(x, e) => ReadParts(src, e, NamesAfter(names, x), config, seen + [x])
  }

  // Where the declarations of a file begin: behind a comment that comes first.
  function Beginning(src: string, p: nat): (b: nat)
    requires p <= |src|
    ensures b <= |src|
  {
    var s := ScanToken(src, p, false);
    if s.token in {CommentBlock, CommentLine} then s.end else p
  }

  function ReadFile(src: string, p: nat, names: Names, config: Config): (r: Reading<seq<Part>>)
    requires p <= |src|
    ensures r.Got? ==> r.end == |src|
  {
    ReadParts(src, Beginning(src, p), names, config, [])
  }

  // ----- declared names are new -----

  // No two declarations have the same short name, none is of a primitive type,
  // and none is in use already.
  predicate AllNew(used: set<string>, parts: seq<Part>)
    decreases |parts|
  {
    parts == [] || (AllNew(used, parts[..|parts| - 1]) && IsNew(used + NamesIn(parts[..|parts| - 1]), NameOf(parts[|parts| - 1])))
  }

  predicate IsNew(used: set<string>, name: string) {
    name !in used && forall p: Prim :: name != PrimName(p)
  }

  function NamesIn(parts: seq<Part>): set<string> {
    set x | x in parts :: NameOf(x)
  }

  lemma {:induction false} NewPrefix(used: set<string>, parts: seq<Part>, n: nat)
    requires AllNew(used, parts) && n <= |parts|
    ensures AllNew(used, parts[..n])
    ensures n < |parts| ==> IsNew(used + NamesIn(parts[..n]), NameOf(parts[n]))
    decreases |parts|
  {
    if n < |parts| - 1 {
      NewPrefix(used, parts[..|parts| - 1], n);
      assert parts[..|parts| - 1][..n] == parts[..n];
    } else if n == |parts| {
      assert parts[..n] == parts;
    }
  }

  // What has been read stays read.
  lemma {:induction false} SeenStays(src: string, p: nat, names: Names, config: Config, seen: seq<Part>)
    requires p <= |src| && ReadParts(src, p, names, config, seen).Got?
    ensures seen <= ReadParts(src, p, names, config, seen).value
    decreases |src| - p
  {
    hide Next, ReadPart, NamesAfter;
    if Next(src, p).token != EndOfFile {
      var r := ReadPart(src, p, names, config);
      SeenStays(src, r.end, NamesAfter(names, r.value), config, seen + [r.value]);
    }
  }

  // ----- steps of the readers -----

  lemma TokensIs(src: string, p: nat, t: Token, tokens: seq<Token>)
    requires p <= |src|
    ensures TokensEnd(src, p, [t] + tokens)
            == if Next(src, p).token == t then TokensEnd(src, Next(src, p).end, tokens) else None
  {
    hide Next;
    assert ([t] + tokens)[1..] == tokens;
  }

  lemma OneTokenIs(src: string, p: nat, t: Token)
    requires p <= |src|
    ensures TokensEnd(src, p, [t]) == if Next(src, p).token == t then Some(Next(src, p).end) else None
  {
    hide Next;
  }

  lemma TwoTokensAre(src: string, p: nat, t: Token, u: Token)
    requires p <= |src|
    ensures TokensEnd(src, p, [t, u])
            == if Next(src, p).token == t && Next(src, Next(src, p).end).token == u then Some(Next(src, Next(src, p).end).end)
               else None
  {
    hide Next;
    assert [t, u][1..] == [u];
    OneTokenIs(src, Next(src, p).end, u);
  }

  lemma ThreeTokensAre(src: string, p: nat, t: Token, u: Token, v: Token)
    requires p <= |src|
    ensures TokensEnd(src, p, [t, u, v]) == if Next(src, p).token == t then TokensEnd(src, Next(src, p).end, [u, v]) else None
  {
    hide Next;
    assert [t, u, v][1..] == [u, v];
  }

  lemma FourTokensAre(src: string, p: nat, t: Token, u: Token, v: Token, w: Token)
    requires p <= |src|
    ensures TokensEnd(src, p, [t, u, v, w])
            == if Next(src, p).token == t then TokensEnd(src, Next(src, p).end, [u, v, w]) else None
  {
    hide Next;
    assert [t, u, v, w][1..] == [u, v, w];
  }

  lemma AttributesStep(src: string, p: nat, isIn: bool, isOut: bool)
    requires p <= |src|
    ensures var s, r := Next(src, p), ReadAttributes(src, p, isIn, isOut);
            && (s.token == BracketsRight ==> r == Got((isIn, isOut), s.end))
            && (s.token == EndOfFile ==> r == Missing)
            && (s.token !in {BracketsRight, EndOfFile} ==>
                  var i, o := isIn || s.token in {InKey, InoutKey}, isOut || s.token in {OutKey, InoutKey};
                  var then_ := Next(src, if s.token in {InKey, OutKey, InoutKey} then s.end else p);
                  r == if then_.token == Comma then ReadAttributes(src, then_.end, i, o)
                       else if then_.token == BracketsRight then Got((i, o), then_.end) else Missing)
  {
    hide Next;
  }

  lemma ParamIs(src: string, p: nat, names: Names)
    requires p <= |src|
    ensures ReadParam(src, p, names)
            == if Next(src, p).token != BracketsLeft then Missing
               else if ReadAttributes(src, Next(src, p).end, false, false).Missing? then Missing
               else ReadTyped(src, ReadAttributes(src, Next(src, p).end, false, false).end, names,
                              ReadAttributes(src, Next(src, p).end, false, false).value)
  {
    hide Next, ReadAttributes, ReadType;
  }

  // The type and the name of a parameter.
  function ReadTyped(src: string, a: nat, names: Names, io: (bool, bool)): Reading<ParamForm>
    requires a <= |src|
  {
    match ReadType(src, a, names)
    case Failed => Missing
    case Parsed(t, e) =>
      var s := Next(src, e);
      if s.token == Identifier then Got(ParamForm(s.text, io.0, io.1, t), s.end) else Missing
  }

  lemma TypedIs(src: string, a: nat, names: Names, io: (bool, bool))
    requires a <= |src|
    ensures var r := ReadType(src, a, names);
            ReadTyped(src, a, names, io)
            == if r.Failed? then Missing
               else if Next(src, r.end).token != Identifier then Missing
               else Got(ParamForm(Next(src, r.end).text, io.0, io.1, r.typ), Next(src, r.end).end)
  {
    hide Next, ReadType;
  }

  lemma ParamsStep(src: string, p: nat, names: Names, seen: seq<ParamForm>)
    requires p <= |src|
    ensures ReadParams(src, p, names, seen)
            == if Next(src, p).token == ParenthesesRight then Got(seen, Next(src, p).end)
               else if ReadParam(src, p, names).Missing? then Missing
               else ReadParams(src, CommaEnd(src, ReadParam(src, p, names).end), names, seen + [ReadParam(src, p, names).value])
    ensures Next(src, p).token == EndOfFile ==> ReadParams(src, p, names, seen) == Missing
  {
    hide Next, ReadParam, CommaEnd;
    ParamIs(src, p, names);
  }

  lemma CommaEndIs(src: string, p: nat)
    requires p <= |src|
    ensures CommaEnd(src, p) == if Next(src, p).token == Comma then Next(src, p).end else p
  {
    hide Next;
  }

  lemma MarkIs(src: string, p: nat)
    requires p <= |src|
    ensures var e := TokensEnd(src, p, [BracketsLeft, OnewayKey, BracketsRight]);
            ReadMark(src, p)
            == if Next(src, p).token != BracketsLeft then Got(false, p) else if e.None? then Missing else Got(true, e.value)
  {
    hide Next, TokensEnd;
  }

  lemma HeadIs(src: string, p: nat, names: Names, onewayInterface: bool)
    requires p <= |src|
    ensures var m := ReadMark(src, p);
            ReadHead(src, p, names, onewayInterface)
            == if m.Missing? then Missing else ReadResult(src, m.end, names, onewayInterface, m.value)
  {
    hide Next, ReadMark, ReadResult;
  }

  lemma ResultReadIs(src: string, a: nat, names: Names, onewayInterface: bool, oneway: bool)
    requires a <= |src|
    ensures var r := ReadType(src, a, names);
            && (r.Failed? ==> ReadResult(src, a, names, onewayInterface, oneway) == Missing)
            && (r.Parsed? ==>
                  var e := TokensEnd(src, r.end, [Identifier, ParenthesesLeft]);
                  ReadResult(src, a, names, onewayInterface, oneway)
                  == if ((onewayInterface || oneway) && !r.typ.IsVoid()) || e.None? then Missing
                     else Got(HeadForm(Next(src, r.end).text, oneway, r.typ), e.value))
  {
    hide Next, ReadType, TokensEnd;
  }

  lemma MethodIs(src: string, p: nat, names: Names, onewayInterface: bool)
    requires p <= |src|
    ensures var h := ReadHead(src, p, names, onewayInterface);
            h.Missing? ==> ReadMethod(src, p, names, onewayInterface) == Missing
    ensures var h := ReadHead(src, p, names, onewayInterface);
            h.Got? ==>
              var r := ReadParams(src, h.end, names, []);
              ReadMethod(src, p, names, onewayInterface)
              == if r.Missing? then Missing
                 else if ((onewayInterface || h.value.oneway) && AnyOut(r.value)) || Next(src, r.end).token != Semicolon then Missing
                 else Got(MethodForm(h.value.name, h.value.oneway, h.value.ret, r.value), Next(src, r.end).end)
  {
    hide Next, ReadHead, ReadParams, AnyOut;
  }

  lemma MethodsStep(src: string, p: nat, names: Names, oneway: bool, seen: seq<MethodForm>)
    requires p <= |src|
    ensures var r := ReadMethod(src, p, names, oneway);
            ReadMethods(src, p, names, oneway, seen)
            == if r.Missing? then Missing else ReadMoreMethods(src, r.end, names, oneway, seen + [r.value])
    ensures ReadMoreMethods(src, p, names, oneway, seen)
            == if Next(src, p).token == BracesRight then Got(seen, Next(src, p).end) else ReadMethods(src, p, names, oneway, seen)
    ensures Next(src, p).token == EndOfFile ==> ReadMethod(src, p, names, oneway) == Missing
  {
    hide Next, ReadMethod;
    NoMethodAtEnd(src, p, names, oneway);
  }

  lemma NoMethodAtEnd(src: string, p: nat, names: Names, oneway: bool)
    requires p <= |src|
    ensures Next(src, p).token == EndOfFile ==> ReadMethod(src, p, names, oneway) == Missing
  {
    hide Next, ReadParams, AnyOut, TokensEnd, ReadType;
    if Next(src, p).token == EndOfFile {
      MarkIs(src, p);
      NoTypeAtEnd(src, p, names);
    }
  }

  lemma NoTypeAtEnd(src: string, p: nat, names: Names)
    requires p <= |src|
    ensures Next(src, p).token == EndOfFile ==> ReadType(src, p, names) == Failed
  {
    hide Next;
  }

  lemma ClassNameIs(src: string, p: nat)
    requires p <= |src|
    ensures var e, text := TokensEnd(src, p, [Identifier, Semicolon]), Next(src, p).text;
            ReadClassName(src, p) == if e.Some? && text != "" && IsValidTypeName(text) then Got(text, e.value) else Missing
  {
    hide Next, TokensEnd, IsValidTypeName;
  }

  lemma SequenceableIs(src: string, p: nat)
    requires p <= |src| && Next(src, p).token == SequenceableKey
    ensures var r := ReadClassName(src, Next(src, p).end);
            ReadSequenceable(src, p)
            == if r.Missing? then Missing else Got(SequenceableForm(NamespaceIn(r.value), ShortName(r.value)), r.end)
  {
    hide Next, ReadClassName, NamespaceIn, ShortName;
  }

  lemma StartIs(src: string, p: nat)
    requires p <= |src|
    ensures var oneway := Next(src, p).token == BracketsLeft;
            var e := TokensEnd(src, p, if oneway then [BracketsLeft, OnewayKey, BracketsRight, InterfaceKey] else [InterfaceKey]);
            ReadStart(src, p) == if e.None? then Missing else Got(oneway, e.value)
  {
    hide Next, TokensEnd;
  }

  lemma NameIs(src: string, p: nat, targetIsTs: bool)
    requires p <= |src|
    ensures var s := Next(src, p);
            s.token != Identifier ==> ReadName(src, p, targetIsTs) == Missing
    ensures var s := Next(src, p);
            s.token == Identifier ==>
              var then_ := Next(src, s.end);
              ReadName(src, p, targetIsTs)
              == if then_.token !in {Semicolon, BracesLeft} || s.text == "" || !IsValidTypeName(s.text)
                    || ('.' !in s.text && !targetIsTs) then Missing
                 else Got((s.text, then_.token == Semicolon), then_.end)
  {
    hide Next, IsValidTypeName;
  }

  lemma InterfaceIs(src: string, p: nat, names: Names, config: Config)
    requires p <= |src|
    ensures var s := ReadStart(src, p);
            s.Missing? ==> ReadInterface(src, p, names, config) == Missing
    ensures var s := ReadStart(src, p);
            s.Got? ==> ReadInterface(src, p, names, config) == ReadNamed(src, s.end, names, config, s.value)
  {
    hide ReadStart, ReadName, ReadMethods, NamespaceIn, ShortName, BodyNames;
  }

  // An interface from its name on.
  function ReadNamed(src: string, a: nat, names: Names, config: Config, oneway: bool): Reading<InterfaceForm>
    requires a <= |src|
  {
    match ReadName(src, a, config.targetIsTs)
    case Missing => Missing
    case Got(full, b) => ReadBody(src, b, names, config, oneway, full)
  }

  function ReadBody(src: string, b: nat, names: Names, config: Config, oneway: bool, full: (string, bool)): Reading<InterfaceForm>
    requires b <= |src|
  {
    var nspace, name := NamespaceIn(full.0), ShortName(full.0);
    if full.1 then (if oneway then Missing else Got(InterfaceForm(nspace, name, false, true, []), b))
    else if name != config.moduleName then Missing
    else
      match ReadMethods(src, b, BodyNames(names, nspace, name), oneway, [])
      case Missing => Missing
      case Got(methods, e) => Got(InterfaceForm(nspace, name, oneway, false, methods), e)
  }

  lemma NamedIs(src: string, a: nat, names: Names, config: Config, oneway: bool)
    requires a <= |src|
    ensures var r := ReadName(src, a, config.targetIsTs);
            ReadNamed(src, a, names, config, oneway)
            == if r.Missing? then Missing else ReadBody(src, r.end, names, config, oneway, r.value)
  {
    hide ReadName, ReadBody;
  }

  lemma NamedBodyIs(src: string, b: nat, names: Names, config: Config, oneway: bool, full: (string, bool))
    requires b <= |src|
    ensures var nspace, name := NamespaceIn(full.0), ShortName(full.0);
            var r, m := ReadBody(src, b, names, config, oneway, full), ReadMethods(src, b, BodyNames(names, nspace, name), oneway, []);
            && (full.1 ==> r == if oneway then Missing else Got(InterfaceForm(nspace, name, false, true, []), b))
            && (!full.1 ==>
                  r == if name != config.moduleName || m.Missing? then Missing
                       else Got(InterfaceForm(nspace, name, oneway, false, m.value), m.end))
  {
    hide NamespaceIn, ShortName, ReadMethods, BodyNames;
  }

  lemma PartIs(src: string, p: nat, names: Names, config: Config)
    requires p <= |src|
    ensures Next(src, p).token == SequenceableKey ==>
              var r := ReadSequenceable(src, p);
              ReadPart(src, p, names, config) == if r.Missing? then Missing else Got(SequenceablePart(r.value), r.end)
    ensures Next(src, p).token != SequenceableKey ==>
              var r := ReadInterface(src, p, names, config);
              ReadPart(src, p, names, config) == if r.Missing? then Missing else Got(InterfacePart(r.value), r.end)
  {
    hide Next, ReadSequenceable, ReadInterface;
  }

  // A part starts with one of three tokens.
  lemma NoPart(src: string, p: nat, names: Names, config: Config)
    requires p <= |src| && Next(src, p).token !in {BracketsLeft, InterfaceKey, SequenceableKey}
    ensures ReadPart(src, p, names, config) == Missing
  {
    hide Next, ReadNamed;
    PartIs(src, p, names, config);
    InterfaceIs(src, p, names, config);
    StartIs(src, p);
    OneTokenIs(src, p, InterfaceKey);
  }

  lemma PartsStep(src: string, p: nat, names: Names, config: Config, seen: seq<Part>)
    requires p <= |src|
    ensures Next(src, p).token == EndOfFile ==> ReadParts(src, p, names, config, seen) == Got(seen, |src|)
    ensures Next(src, p).token != EndOfFile ==>
              var r := ReadPart(src, p, names, config);
              ReadParts(src, p, names, config, seen)
              == if r.Missing? then Missing else ReadParts(src, r.end, NamesAfter(names, r.value), config, seen + [r.value])
  {
    hide Next, ReadPart, NamesAfter;
  }

  lemma BeginningIs(src: string, p: nat)
    requires p <= |src|
    ensures Beginning(src, p) == if ScanToken(src, p, false).token in {CommentBlock, CommentLine} then ScanToken(src, p, false).end else p
  {
    hide ScanToken;
  }
}
