/** The recursive descent parser with error recovery: it always comes to an end,
    keeps the type table interned, and reads types back as they were printed. */
module Parsing {
  import opened IdlTypes
  import opened IdlAst
  import opened Lexing
  import opened SourceText
  import opened TypeText
  import opened TypeTable
  import S = Strings

  // The module that is being parsed. Addresses are handed out in order.
  class ASTModule {
    var types: Table
    var sequenceables: seq<SequenceableDecl>
    var interfaces: seq<InterfaceDecl>
    var license: Text
    var nextId: nat

    constructor ()
      ensures D() == Declarations(FirstTypes(), 10, [], []) && license == Null
    {
      types, nextId, sequenceables, interfaces, license := FirstTypes(), 10, [], [], Null;
    }

    ghost function D(): Declarations
      reads this
    {
      Declarations(types, nextId, sequenceables, interfaces)
    }

    function FindType(typeName: string): Option<Node>
      reads this
    {
      if typeName != "" && typeName in types then Some(types[typeName]) else None
    }

    method AddType(n: Node)
      modifies this`types
      ensures types == old(types)[NodeText(n) := n]
    {
      types := types[NodeText(n) := n];
    }

    method NewId() returns (id: nat)
      modifies this`nextId
      ensures id == old(nextId) && nextId == id + 1
    {
      id := nextId;
      nextId := nextId + 1;
    }

    method AddInterface(n: Node, decl: InterfaceDecl)
      modifies this`types, this`interfaces
      ensures D() == WithInterface(old(D()), n, decl)
    {
      interfaces := interfaces + [decl];
      types := types[NodeText(n) := n];
    }

    method AddSequenceable(n: Node, decl: SequenceableDecl)
      modifies this`types, this`sequenceables
      ensures types == old(types)[NodeText(n) := n] && sequenceables == old(sequenceables) + [decl]
    {
      sequenceables := sequenceables + [decl];
      types := types[NodeText(n) := n];
    }
  }

  // The table has grown by interned types and is in as good order as before.
  ghost predicate Extended(a: Declarations, b: Declarations, pending: Option<Node>) {
    && Grown(a.types, b.types) && a.nextId <= b.nextId && b.sequenceables == a.sequenceables && b.interfaces == a.interfaces
    && (TableOk(a, pending) ==> TableOk(b, pending)) && (Good(a, pending) ==> Good(b, pending))
  }

  // The table is keyed by printed names, whatever was declared twice.
  ghost predicate TableOk(d: Declarations, pending: Option<Node>) {
    Keyed(d.types, d.nextId) && PendingOk(pending, d.nextId)
  }

  // What a parse of a type returns: the one object for its name.
  ghost predicate Result(n: Option<Node>, d: Declarations, pending: Option<Node>) {
    n.Some? ==> Interned(d.types, pending, n.value) && Spoken(n.value)
  }

  // The parse did what the text says.
  ghost predicate Agrees(n: Option<Node>, from: int, r: Parsed) {
    match r
    case Parsed(t, e) => n.Some? && TypeOf(n.value) == t && from == e
    case Failed => n.None?
  }

  lemma ExtendedTwice(a: Declarations, b: Declarations, c: Declarations, pending: Option<Node>)
    requires Extended(a, b, pending) && Extended(b, c, pending)
    ensures Extended(a, c, pending)
  {
    hide Good, TableOk;
  }

  lemma ExtendedSelf(d: Declarations, pending: Option<Node>)
    ensures Extended(d, d, pending)
  {
    hide Good;
  }

  lemma ExtendedIs(a: Declarations, b: Declarations, pending: Option<Node>)
    requires Extended(a, b, pending)
    ensures TableOk(a, pending) ==> TableOk(b, pending)
    ensures a.nextId <= b.nextId && b.sequenceables == a.sequenceables && b.interfaces == a.interfaces
    ensures NamesOf(b.types, pending) == NamesOf(a.types, pending) && (Good(a, pending) ==> Good(b, pending))
    ensures Grown(a.types, b.types)
  {
    hide Good, NamesOf;
    GrownNames(a.types, b.types, pending);
  }

  // What a parsed type is good for in a composed one.
  lemma ResultIs(n: Option<Node>, d: Declarations, pending: Option<Node>)
    requires Result(n, d, pending) && n.Some?
    ensures Interned(d.types, pending, n.value) && Known(d.types, pending, n.value)
    ensures Good(d, pending) ==> InGrammar(TypeOf(n.value), NamesOf(d.types, pending))
  {
    hide Good, InGrammar, NamesOf, Spoken, Interned, Known, TypeOf;
    InternedIsKnown(d.types, pending, n.value);
    if Good(d, pending) {
      SpokenInGrammar(d, pending, n.value);
    }
  }

  lemma ResultLater(n: Node, a: Declarations, b: Declarations, pending: Option<Node>)
    requires Extended(a, b, pending) && Result(Some(n), a, pending)
    ensures Result(Some(n), b, pending)
  {
    hide Good, Known, Spoken, Interned;
    GrownInterned(a.types, b.types, pending, n);
  }

  // A composed type was interned.
  lemma InternResult(d: Declarations, pending: Option<Node>, n: Node)
    requires TableOk(d, pending) && IsContainerNode(n) && n.id == d.nextId
    requires forall c :: c in Nested(n) ==> Known(d.types, pending, c)
    requires Good(d, pending) ==> InGrammar(TypeOf(n), NamesOf(d.types, pending))
    ensures var e := WithType(d, n);
            && NodeText(n) in e.types && TableOk(e, pending) && Extended(d, e, pending)
            && (n.ListNode? || n.MapNode? ==> !e.types[NodeText(n)].ArrayNode?)
            && Result(Some(e.types[NodeText(n)]), e, pending)
            && (Good(d, pending) ==> TypeOf(e.types[NodeText(n)]) == TypeOf(n))
  {
    hide *;
    var e := WithType(d, n);
    TableOkIs(d, pending);
    TableOkIs(e, pending);
    WithTypeGrows(d, n);
    WithTypeParts(d, n);
    WithTypeIs(d, n, pending);
    KeyedIs(e.types, e.nextId, NodeText(n));
    NotArrayText(e.types[NodeText(n)], n);
    InternedComposed(e.types, e.nextId, pending, n);
    if Good(d, pending) {
      InternKeeps(d, pending, n);
    }
    MakeExtended(d, e, pending);
    ComposedIsSpoken(e, pending, NodeText(n));
    ContainersAreNoWords(n);
    MakeResult(e.types[NodeText(n)], e, pending);
  }

  lemma ComposedIsSpoken(d: Declarations, pending: Option<Node>, text: string)
    requires TableOk(d, pending)
    ensures text in d.types && !IsIdentText(text) ==> Spoken(d.types[text])
  {
    hide IsIdentText, NodeText;
  }

  lemma TableOkIs(d: Declarations, pending: Option<Node>)
    ensures TableOk(d, pending) <==> Keyed(d.types, d.nextId) && PendingOk(pending, d.nextId)
  {
    hide Keyed, PendingOk;
  }

  lemma WithTypeValue(d: Declarations, n: Node)
    ensures WithType(d, n)
            == Declarations(if NodeText(n) in d.types then d.types else d.types[NodeText(n) := n], d.nextId + 1,
                            d.sequenceables, d.interfaces)
    ensures NodeText(n) in WithType(d, n).types
    ensures WithType(d, n).types[NodeText(n)] == if NodeText(n) in d.types then d.types[NodeText(n)] else n
  {
    hide NodeText;
  }

  lemma WithTypeParts(d: Declarations, n: Node)
    ensures var e := WithType(d, n);
            && e.nextId == d.nextId + 1 && e.sequenceables == d.sequenceables && e.interfaces == d.interfaces
            && NodeText(n) in e.types
            && e.types[NodeText(n)] == if NodeText(n) in d.types then d.types[NodeText(n)] else n
  {
    hide NodeText;
  }

  lemma MakeExtended(a: Declarations, b: Declarations, pending: Option<Node>)
    requires Grown(a.types, b.types) && a.nextId <= b.nextId && b.sequenceables == a.sequenceables && b.interfaces == a.interfaces
    requires (Good(a, pending) ==> Good(b, pending)) && (TableOk(a, pending) ==> TableOk(b, pending))
    ensures Extended(a, b, pending)
  {
    hide Good, TableOk;
  }

  lemma MakeResult(r: Node, d: Declarations, pending: Option<Node>)
    requires Interned(d.types, pending, r) && Spoken(r)
    ensures Result(Some(r), d, pending)
  {
    hide Spoken, Interned;
  }

  lemma InternedComposed(types: Table, nextId: nat, pending: Option<Node>, n: Node)
    requires Keyed(types, nextId) && IsContainerNode(n) && NodeText(n) in types
    ensures Interned(types, pending, types[NodeText(n)])
    ensures IsContainerNode(types[NodeText(n)]) || !IsIdentText(NodeText(n))
  {
    hide NodeText, IsIdentText;
    ContainersAreNoWords(n);
  }

  // ----- what the parser promises about types -----

  // Two parses of equal types return the same object.
  lemma ParsedTwice(a: Declarations, b: Declarations, pending: Option<Node>, x: Node, y: Node)
    requires Result(Some(x), a, pending) && Extended(a, b, pending) && Result(Some(y), b, pending)
    requires NodeText(x) == NodeText(y)
    ensures x == y
  {
    hide Good, TableOk, NodeText, Spoken;
    GrownInterned(a.types, b.types, pending, x);
  }

  // A type of the grammar, printed and read again, is the same type, and
  // exactly its text is read. With the contract of ParseType: the parser
  // returns an object of this type and is behind the text.
  lemma PrintedTypeParses(src: string, p: nat, t: Type, d: Declarations, pending: Option<Node>)
    requires Good(d, pending) && InGrammar(t, NamesOf(d.types, pending)) && StandsAt(src, p, t)
    requires t.Array? || Next(src, EndOf(src, p, t)).token != BracketsLeft
    ensures TypeAt(src, p, d, pending) == Parsed(t, EndOf(src, p, t))
  {
    hide *;
    var e := EndOf(src, p, t);
    ReadsBack(src, p, t, NamesOf(d.types, pending));
    TypeAtIs(src, p, d, pending);
  }

  // Whatever the parser returns can be printed and parsed again.
  lemma ResultParsesAgain(n: Node, d: Declarations, pending: Option<Node>)
    requires Good(d, pending) && Result(Some(n), d, pending)
    ensures TypeAt(NodeText(n), 0, d, pending) == Parsed(TypeOf(n), |NodeText(n)|)
  {
    hide *;
    ResultIs(Some(n), d, pending);
    TextIs(n);
    WholeText(TypeOf(n));
    NotBracket();
    PrintedTypeParses(NodeText(n), 0, TypeOf(n), d, pending);
  }

  lemma TextIs(n: Node)
    ensures NodeText(n) == ToString(TypeOf(n))
  {
  }

  lemma NotBracket()
    ensures EndOfFile != BracketsLeft
  {
  }

  // ----- steps of reading a list or a map -----

  lemma NoType(d: Declarations, pending: Option<Node>, from: int)
    ensures Result(None, d, pending) && Agrees(None, from, Failed)
  {
  }

  lemma AgreesIs(n: Option<Node>, from: int, r: Parsed)
    ensures Agrees(n, from, r) <==>
              if r.Failed? then n.None? else n.Some? && TypeOf(n.value) == r.typ && from == r.end
  {
    hide TypeOf;
  }

  lemma BaseOfToken(src: string, p: nat, names: Names)
    requires p <= |src|
    ensures var s := Next(src, p);
            && (s.token == ListKey ==> ReadBase(src, p, names) == ReadList(src, s.end, names))
            && (s.token == MapKey ==> ReadBase(src, p, names) == ReadMap(src, s.end, names))
            && (IsPrimitiveType(s.token) ==> ReadBase(src, p, names) == Lookup(names, PrimitiveWord(s.token), s.end))
            && (s.token == Identifier ==> ReadBase(src, p, names) == Lookup(names, s.text, s.end))
            && (!IsPrimitiveType(s.token) && s.token !in {ListKey, MapKey, Identifier} ==> ReadBase(src, p, names) == Failed)
    ensures !IsPrimitiveType(ListKey) && !IsPrimitiveType(MapKey) && !IsPrimitiveType(Identifier)
  {
    hide Next, ReadType, Lookup, PrimitiveWord, ReadList, ReadMap, ReadBase;
    BaseIsNext(src, p, names);
  }

  lemma ReadListIs(src: string, p: nat, names: Names)
    requires p <= |src|
    ensures var left := Next(src, p);
            if left.token != AngleLeft then ReadList(src, p, names) == Failed
            else
              var e := ReadType(src, left.end, names);
              ReadList(src, p, names)
              == if e.Failed? then Failed
                 else if Next(src, e.end).token != AngleRight then Failed else Parsed(List(e.typ), Next(src, e.end).end)
  {
    hide Next, ReadType;
  }

  // Behind the key of a map.
  function ReadMapValue(src: string, p: nat, key: Type, names: Names): Parsed
    requires p <= |src|
  {
    var comma := Next(src, p);
    if comma.token != Comma then Failed
    else
      var value := ReadType(src, comma.end, names);
      if value.Failed? then Failed
      else
        var right := Next(src, value.end);
        if right.token != AngleRight then Failed else Parsed(Map(key, value.typ), right.end)
  }

  lemma ReadMapIs(src: string, p: nat, names: Names)
    requires p <= |src|
    ensures var left := Next(src, p);
            if left.token != AngleLeft then ReadMap(src, p, names) == Failed
            else
              var k := ReadType(src, left.end, names);
              ReadMap(src, p, names) == if k.Failed? then Failed else ReadMapValue(src, k.end, k.typ, names)
  {
    hide Next, ReadType;
  }

  lemma ReadMapValueIs(src: string, p: nat, key: Type, names: Names)
    requires p <= |src|
    ensures var comma := Next(src, p);
            if comma.token != Comma then ReadMapValue(src, p, key, names) == Failed
            else
              var v := ReadType(src, comma.end, names);
              ReadMapValue(src, p, key, names)
              == if v.Failed? then Failed
                 else if Next(src, v.end).token != AngleRight then Failed
                 else Parsed(Map(key, v.typ), Next(src, v.end).end)
  {
    hide Next, ReadType;
  }

  lemma ReadTypeIs(src: string, p: nat, names: Names)
    requires p <= |src|
    ensures var b := ReadBase(src, p, names);
            if b.Failed? then ReadType(src, p, names) == Failed
            else if Next(src, b.end).token != BracketsLeft then ReadType(src, p, names) == b
            else
              var right := Next(src, Next(src, b.end).end);
              ReadType(src, p, names) == if right.token != BracketsRight then Failed else Parsed(Array(b.typ), right.end)
  {
    hide Next, ReadBase;
  }

  lemma ListNodeIs(id: nat, e: Node, names: Names)
    ensures var n := ListNode(id, e);
            && IsContainerNode(n) && TypeOf(n) == List(TypeOf(e)) && n.id == id && (forall c :: c in Nested(n) ==> c == e)
            && (InGrammar(TypeOf(e), names) ==> InGrammar(TypeOf(n), names))
  {
  }

  lemma MapNodeIs(id: nat, k: Node, v: Node, names: Names)
    ensures var n := MapNode(id, k, v);
            && IsContainerNode(n) && TypeOf(n) == Map(TypeOf(k), TypeOf(v)) && n.id == id
            && (forall c :: c in Nested(n) ==> c == k || c == v)
            && (InGrammar(TypeOf(k), names) && InGrammar(TypeOf(v), names) ==> InGrammar(TypeOf(n), names))
  {
  }

  lemma ArrayNodeIs(id: nat, e: Node, names: Names)
    ensures var n := ArrayNode(id, e);
            && IsContainerNode(n) && TypeOf(n) == Array(TypeOf(e)) && n.id == id && (forall c :: c in Nested(n) ==> c == e)
            && (InGrammar(TypeOf(e), names) && !e.ArrayNode? ==> InGrammar(TypeOf(n), names))
  {
  }

  class Parser {
    const lexer: Lexer
    const module_: ASTModule
    const moduleName: string
    const targetIsTs: bool
    var parsingInterface: Option<Node>

    constructor (source: string, moduleName: string, targetIsTs: bool)
      ensures lexer.Valid() && TableOk(module_.D(), None) && fresh(lexer) && fresh(module_)
      ensures lexer.source == source && lexer.from == 0 && !lexer.havePeek
      ensures this.moduleName == moduleName && this.targetIsTs == targetIsTs
      ensures parsingInterface == None && InOrder(module_.D(), None)
      ensures module_.D() == Declarations(FirstTypes(), 10, [], [])
    {
      lexer := new Lexer(source);
      module_ := new ASTModule();
      this.moduleName, this.targetIsTs, parsingInterface := moduleName, targetIsTs, None;
      new;
      hide *;
      FirstIsGood();
      InOrderIs(module_.D(), None);
      TableOkIs(module_.D(), None);
      NoPending(10);
    }

    // Looks a composed type up by its printed name; a new one is added.
    method Intern(n: Node) returns (r: Node)
      requires TableOk(module_.D(), parsingInterface) && IsContainerNode(n) && n.id == module_.D().nextId
      requires forall c :: c in Nested(n) ==> Known(module_.D().types, parsingInterface, c)
      requires Good(module_.D(), parsingInterface) ==> InGrammar(TypeOf(n), NamesOf(module_.D().types, parsingInterface))
      modifies module_`types, module_`nextId
      ensures TableOk(module_.D(), parsingInterface) && Extended(old(module_.D()), module_.D(), parsingInterface)
      ensures Result(Some(r), module_.D(), parsingInterface) && (n.ListNode? || n.MapNode? ==> !r.ArrayNode?)
      ensures Good(old(module_.D()), parsingInterface) ==> TypeOf(r) == TypeOf(n)
      ensures r == if NodeText(n) in old(module_.D()).types then old(module_.D()).types[NodeText(n)] else n
    {
      hide *;
      ghost var d := module_.D();
      DIs(module_);
      var _ := module_.NewId();
      SomeText(n);
      var known := module_.FindType(NodeText(n));
      FindTypeIs(module_, NodeText(n));
      if known.None? {
        module_.AddType(n);
        r := n;
      } else {
        r := known.value;
      }
      DIs(module_);
      WithTypeValue(d, n);
      InternResult(d, parsingInterface, n);
    }

    method ParseList() returns (type_: Option<Node>)
      requires lexer.Valid() && TableOk(module_.D(), parsingInterface) && lexer.havePeek && lexer.currentToken == ListKey
      modifies lexer, module_`types, module_`nextId
      ensures lexer.Valid() && TableOk(module_.D(), parsingInterface) && lexer.Left() < old(lexer.Left())
      ensures Extended(old(module_.D()), module_.D(), parsingInterface) && Result(type_, module_.D(), parsingInterface)
      ensures type_.Some? ==> !type_.value.ArrayNode?
      ensures old(lexer.from) >= 0 && Good(old(module_.D()), parsingInterface) ==>
                Agrees(type_, lexer.from, BaseAt(lexer.source, old(lexer.from), old(module_.D()), parsingInterface))
      decreases lexer.Left(), 0
    {
      hide *;
      ghost var d, src, names, f := module_.D(), lexer.source, NamesOf(module_.D().types, parsingInterface), lexer.from;
      ExtendedSelf(d, parsingInterface);
      Within(lexer);
      if f >= 0 {
        BaseOfToken(src, f, names);
        ReadListIs(src, Next(src, f).end, names);
        BaseAtIs(src, f, d, parsingInterface);
      }
      var token := lexer.GetToken();
      token := lexer.PeekToken();
      NoType(d, parsingInterface, lexer.from);
      if token != AngleLeft {
        return None;
      }
      token := lexer.GetToken();
      ghost var f2 := lexer.from;
      var element := ParseType();
      ghost var e := module_.D();
      TypeAtIs(src, f2, d, parsingInterface);
      NoType(e, parsingInterface, lexer.from);
      AgreesIs(element, lexer.from, ReadType(src, f2, names));
      if element.None? {
        var _ := lexer.SkipCurrentLineUntil('>');
        NoType(e, parsingInterface, lexer.from);
        return None;
      }
      ResultIs(element, e, parsingInterface);
      ExtendedIs(d, e, parsingInterface);
      token := lexer.PeekToken();
      if token != AngleRight {
        return None;
      }
      token := lexer.GetToken();
      DIs(module_);
      var n := ListNode(module_.nextId, element.value);
      ListNodeIs(n.id, element.value, names);
      var r := Intern(n);
      type_ := Some(r);
      ExtendedTwice(d, e, module_.D(), parsingInterface);
      AgreesIs(type_, lexer.from, if f >= 0 then ReadBase(src, f, names) else Failed);
    }

    method ParseMap() returns (type_: Option<Node>)
      requires lexer.Valid() && TableOk(module_.D(), parsingInterface) && lexer.havePeek && lexer.currentToken == MapKey
      modifies lexer, module_`types, module_`nextId
      ensures lexer.Valid() && TableOk(module_.D(), parsingInterface) && lexer.Left() < old(lexer.Left())
      ensures Extended(old(module_.D()), module_.D(), parsingInterface) && Result(type_, module_.D(), parsingInterface)
      ensures type_.Some? ==> !type_.value.ArrayNode?
      ensures old(lexer.from) >= 0 && Good(old(module_.D()), parsingInterface) ==>
                Agrees(type_, lexer.from, BaseAt(lexer.source, old(lexer.from), old(module_.D()), parsingInterface))
      decreases lexer.Left(), 0
    {
      hide *;
      ghost var d, src, names, f := module_.D(), lexer.source, NamesOf(module_.D().types, parsingInterface), lexer.from;
      ExtendedSelf(d, parsingInterface);
      Within(lexer);
      if f >= 0 {
        BaseOfToken(src, f, names);
        ReadMapIs(src, Next(src, f).end, names);
        BaseAtIs(src, f, d, parsingInterface);
      }
      var token := lexer.GetToken();
      token := lexer.PeekToken();
      NoType(d, parsingInterface, lexer.from);
      if token != AngleLeft {
        return None;
      }
      token := lexer.GetToken();
      ghost var f2 := lexer.from;
      var key := ParseType();
      ghost var e := module_.D();
      TypeAtIs(src, f2, d, parsingInterface);
      NoType(e, parsingInterface, lexer.from);
      AgreesIs(key, lexer.from, ReadType(src, f2, names));
      if key.None? {
        var _ := lexer.SkipCurrentLineUntil('>');
        NoType(e, parsingInterface, lexer.from);
        return None;
      }
      ExtendedIs(d, e, parsingInterface);
      ghost var f3 := lexer.from;
      Within(lexer);
      MapValueAtIs(src, f3, TypeOf(key.value), e, parsingInterface);
      type_ := ParseMapValue(key.value);
      ExtendedTwice(d, e, module_.D(), parsingInterface);
    }

    // The rest of a map, behind its key.
    method ParseMapValue(key: Node) returns (type_: Option<Node>)
      requires lexer.Valid() && TableOk(module_.D(), parsingInterface) && Result(Some(key), module_.D(), parsingInterface)
      modifies lexer, module_`types, module_`nextId
      ensures lexer.Valid() && TableOk(module_.D(), parsingInterface) && lexer.Left() <= old(lexer.Left())
      ensures Extended(old(module_.D()), module_.D(), parsingInterface) && Result(type_, module_.D(), parsingInterface)
      ensures type_.Some? ==> !type_.value.ArrayNode?
      ensures old(lexer.from) >= 0 && Good(old(module_.D()), parsingInterface) ==>
                Agrees(type_, lexer.from, MapValueAt(lexer.source, old(lexer.from), TypeOf(key), old(module_.D()), parsingInterface))
      decreases lexer.Left(), 3
    {
      hide *;
      ghost var d, src, names, f := module_.D(), lexer.source, NamesOf(module_.D().types, parsingInterface), lexer.from;
      ExtendedSelf(d, parsingInterface);
      Within(lexer);
      if f >= 0 {
        ReadMapValueIs(src, f, TypeOf(key), names);
        MapValueAtIs(src, f, TypeOf(key), d, parsingInterface);
      }
      var token := lexer.PeekToken();
      NoType(d, parsingInterface, lexer.from);
      if token != Comma {
        return None;
      }
      token := lexer.GetToken();
      ghost var f3 := lexer.from;
      var value := ParseType();
      ghost var g := module_.D();
      TypeAtIs(src, f3, d, parsingInterface);
      NoType(g, parsingInterface, lexer.from);
      AgreesIs(value, lexer.from, ReadType(src, f3, names));
      if value.None? {
        var _ := lexer.SkipCurrentLineUntil('>');
        NoType(g, parsingInterface, lexer.from);
        return None;
      }
      ExtendedIs(d, g, parsingInterface);
      ResultLater(key, d, g, parsingInterface);
      type_ := ParseMapEnd(key, value.value);
      ExtendedTwice(d, g, module_.D(), parsingInterface);
    }

    method ParseMapEnd(key: Node, value: Node) returns (type_: Option<Node>)
      requires lexer.Valid() && TableOk(module_.D(), parsingInterface)
      requires Result(Some(key), module_.D(), parsingInterface) && Result(Some(value), module_.D(), parsingInterface)
      modifies lexer, module_`types, module_`nextId
      ensures lexer.Valid() && TableOk(module_.D(), parsingInterface) && lexer.Left() <= old(lexer.Left())
      ensures Extended(old(module_.D()), module_.D(), parsingInterface) && Result(type_, module_.D(), parsingInterface)
      ensures type_.Some? ==> !type_.value.ArrayNode?
      ensures 0 <= old(lexer.from) <= |lexer.source| && Good(old(module_.D()), parsingInterface) ==>
                var right := Next(lexer.source, old(lexer.from));
                Agrees(type_, lexer.from,
                       if right.token == AngleRight then Parsed(Map(TypeOf(key), TypeOf(value)), right.end) else Failed)
    {
      hide *;
      ghost var d, f := module_.D(), lexer.from;
      ExtendedSelf(d, parsingInterface);
      var token := lexer.PeekToken();
      NoType(d, parsingInterface, lexer.from);
      if token != AngleRight {
        return None;
      }
      token := lexer.GetToken();
      DIs(module_);
      ResultIs(Some(key), d, parsingInterface);
      ResultIs(Some(value), d, parsingInterface);
      var n := MapNode(module_.nextId, key, value);
      MapNodeIs(n.id, key, value, NamesOf(d.types, parsingInterface));
      var r := Intern(n);
      type_ := Some(r);
      AgreesIs(type_, lexer.from, Parsed(Map(TypeOf(key), TypeOf(value)), if f >= 0 then Next(lexer.source, f).end else 0));
    }

    // A type without brackets; false if no type name is there at all.
    method ParseBaseType() returns (isType: bool, type_: Option<Node>)
      requires lexer.Valid() && TableOk(module_.D(), parsingInterface)
      modifies lexer, module_`types, module_`nextId
      ensures lexer.Valid() && TableOk(module_.D(), parsingInterface)
      ensures lexer.Left() <= old(lexer.Left()) && (type_.Some? ==> isType) && (isType ==> lexer.Left() < old(lexer.Left()))
      ensures Extended(old(module_.D()), module_.D(), parsingInterface) && Result(type_, module_.D(), parsingInterface)
      ensures type_.Some? ==> !type_.value.ArrayNode?
      ensures !isType ==> lexer.havePeek && lexer.from == old(lexer.from)
      ensures !isType && old(lexer.havePeek) ==> lexer.currentToken == old(lexer.currentToken)
      ensures old(lexer.from) >= 0 && Good(old(module_.D()), parsingInterface) ==>
                Agrees(type_, lexer.from, BaseAt(lexer.source, old(lexer.from), old(module_.D()), parsingInterface))
      decreases lexer.Left(), 1
    {
      hide *;
      ghost var d, src, names, f := module_.D(), lexer.source, NamesOf(module_.D().types, parsingInterface), lexer.from;
      ExtendedSelf(d, parsingInterface);
      Within(lexer);
      var token := lexer.PeekToken();
      if f >= 0 {
        BaseOfToken(src, f, names);
        BaseAtIs(src, f, d, parsingInterface);
      }
      BaseTokens();
      DIs(module_);
      TableOkIs(d, parsingInterface);
      if IsPrimitiveType(token) {
        token := lexer.GetToken();
        type_ := FindPrimitive(token);
        LookupIs(names, PrimitiveWord(token), if f >= 0 then Next(src, f).end else 0);
        isType := true;
      } else if token == ListKey {
        type_ := ParseList();
        isType := true;
      } else if token == MapKey {
        type_ := ParseMap();
        isType := true;
      } else if token == Identifier {
        token := lexer.GetToken();
        type_ := FindName(lexer.identifier);
        LookupIs(names, lexer.identifier, if f >= 0 then Next(src, f).end else 0);
        isType := true;
      } else {
        isType, type_ := false, None;
        NoType(d, parsingInterface, lexer.from);
      }
      AgreesIs(type_, lexer.from, if f >= 0 then ReadBase(src, f, names) else Failed);
    }

    // The entry of a primitive type.
    method FindPrimitive(token: Token) returns (type_: Option<Node>)
      requires IsPrimitiveType(token) && TableOk(module_.D(), parsingInterface)
      ensures Result(type_, module_.D(), parsingInterface) && (type_.Some? ==> !type_.value.ArrayNode?)
      ensures var names := NamesOf(module_.D().types, parsingInterface);
              && (type_.Some? <==> PrimitiveWord(token) in names)
              && (type_.Some? ==> TypeOf(type_.value) == names[PrimitiveWord(token)])
    {
      hide *;
      ghost var d := module_.D();
      type_ := module_.FindType(PrimitiveWord(token));
      FindTypeIs(module_, PrimitiveWord(token));
      DIs(module_);
      TableOkIs(d, parsingInterface);
      KeywordsAreNotEmpty(token);
      LookupPrimitive(d, parsingInterface, token);
      KeyedIs(d.types, d.nextId, PrimitiveWord(token));
      WordFound(d, parsingInterface, type_, PrimitiveWord(token));
    }

    // What a name stands for: the interface being parsed comes first.
    method FindName(name: string) returns (type_: Option<Node>)
      requires IsName(name) && TableOk(module_.D(), parsingInterface)
      ensures Result(type_, module_.D(), parsingInterface) && (type_.Some? ==> !type_.value.ArrayNode?)
      ensures var names := NamesOf(module_.D().types, parsingInterface);
              (type_.Some? <==> name in names) && (type_.Some? ==> TypeOf(type_.value) == names[name])
    {
      hide *;
      ghost var d := module_.D();
      DIs(module_);
      TableOkIs(d, parsingInterface);
      PendingIsInterface(parsingInterface, d.nextId);
      if parsingInterface.Some? && parsingInterface.value.name == name {
        type_ := parsingInterface;
      } else {
        type_ := module_.FindType(name);
        FindTypeIs(module_, name);
      }
      NamesAreWords(name);
      ObjectOfName(d.types, d.nextId, parsingInterface, name);
      NamesHave(d.types, parsingInterface, name);
      if type_.Some? {
        LookupWord(d, parsingInterface, name);
      }
      WordFound(d, parsingInterface, type_, name);
    }

    method ParseType() returns (type_: Option<Node>)
      requires lexer.Valid() && TableOk(module_.D(), parsingInterface)
      modifies lexer, module_`types, module_`nextId
      ensures lexer.Valid() && TableOk(module_.D(), parsingInterface)
      ensures lexer.Left() <= old(lexer.Left()) && (type_.Some? ==> lexer.Left() < old(lexer.Left()))
      ensures old(lexer.havePeek) && lexer.Left() == old(lexer.Left()) ==>
                lexer.havePeek && lexer.currentToken == old(lexer.currentToken)
      ensures Extended(old(module_.D()), module_.D(), parsingInterface) && Result(type_, module_.D(), parsingInterface)
      ensures old(lexer.from) >= 0 && Good(old(module_.D()), parsingInterface) ==>
                Agrees(type_, lexer.from, TypeAt(lexer.source, old(lexer.from), old(module_.D()), parsingInterface))
      decreases lexer.Left(), 2
    {
      hide *;
      ghost var d, src, names, f := module_.D(), lexer.source, NamesOf(module_.D().types, parsingInterface), lexer.from;
      Within(lexer);
      if f >= 0 {
        ReadTypeIs(src, f, names);
        BaseAtIs(src, f, d, parsingInterface);
        TypeAtIs(src, f, d, parsingInterface);
      }
      var isType, base := ParseBaseType();
      ghost var e := module_.D();
      AgreesIs(base, lexer.from, if f >= 0 then ReadBase(src, f, names) else Failed);
      NoType(e, parsingInterface, lexer.from);
      if !isType {
        return None;
      }
      var token := lexer.PeekToken();
      AgreesIs(base, lexer.from, if f >= 0 then ReadType(src, f, names) else Failed);
      if token != BracketsLeft {
        return base;
      }
      token := lexer.GetToken();
      token := lexer.PeekToken();
      NoType(e, parsingInterface, lexer.from);
      if token != BracketsRight {
        return None;
      }
      token := lexer.GetToken();
      NoType(e, parsingInterface, lexer.from);
      if base.None? {
        return None;
      }
      ResultIs(base, e, parsingInterface);
      ExtendedIs(d, e, parsingInterface);
      DIs(module_);
      var n := ArrayNode(module_.nextId, base.value);
      ArrayNodeIs(n.id, base.value, names);
      var r := Intern(n);
      type_ := Some(r);
      ExtendedTwice(d, e, module_.D(), parsingInterface);
      AgreesIs(type_, lexer.from, if f >= 0 then ReadType(src, f, names) else Failed);
    }

    // ----- recovery: skipping tokens -----

    method SkipToCommaOrParenthesis(token_: Token)
      requires lexer.Valid() && lexer.havePeek && token_ == lexer.currentToken
      modifies lexer
      ensures lexer.Valid() && lexer.havePeek && lexer.currentToken in {Comma, ParenthesesRight, EndOfFile}
      ensures lexer.Left() < old(lexer.Left()) || lexer.currentToken == token_
      ensures lexer.Left() <= old(lexer.Left())
    {
      var token := token_;
      while token != Comma && token != ParenthesesRight && token != EndOfFile
        invariant lexer.Valid() && lexer.havePeek && token == lexer.currentToken
        invariant lexer.Left() <= old(lexer.Left()) && (lexer.Left() < old(lexer.Left()) || token == token_)
        decreases lexer.Left()
      {
        hide *;
        var _ := lexer.GetToken();
        token := lexer.PeekToken();
      }
    }

    // Jumps over the next semicolon, but not over a closing brace.
    method SkipToSemicolon(token_: Token)
      requires lexer.Valid() && lexer.havePeek && token_ == lexer.currentToken
      modifies lexer
      ensures lexer.Valid() && lexer.Left() <= old(lexer.Left())
      ensures token_ != BracesRight && token_ != EndOfFile ==> lexer.Left() < old(lexer.Left())
      ensures token_ == BracesRight ==> lexer.havePeek && lexer.currentToken == BracesRight
    {
      hide *;
      if token_ == BracesRight {
        return;
      }
      var token := token_;
      var _ := lexer.GetToken();
      while token != Semicolon && token != EndOfFile
        invariant lexer.Valid() && lexer.Left() <= old(lexer.Left())
        invariant token_ != EndOfFile ==> lexer.Left() < old(lexer.Left())
        decreases lexer.Left(), if token == EndOfFile then 0 else 1
      {
        token := lexer.PeekToken();
        if token == BracesRight {
          break;
        }
        var _ := lexer.GetToken();
      }
    }

    // ----- parameters, methods and declarations -----

    // One attribute, if there is one ahead.
    method ParseAttribute(token: Token, wasIn: bool, wasOut: bool) returns (isIn: bool, isOut: bool)
      requires lexer.Valid() && lexer.havePeek && token == lexer.currentToken
      modifies lexer
      ensures lexer.Valid() && lexer.Left() <= old(lexer.Left())
      ensures isIn == (wasIn || token in {InKey, InoutKey}) && isOut == (wasOut || token in {OutKey, InoutKey})
      ensures if token in {InKey, OutKey, InoutKey} then lexer.Left() < old(lexer.Left())
              else lexer.havePeek && lexer.currentToken == token
      ensures 0 <= old(lexer.from) <= |lexer.source| ==>
                lexer.from == if token in {InKey, OutKey, InoutKey} then Next(lexer.source, old(lexer.from)).end
                              else old(lexer.from)
    {
      hide *;
      isIn, isOut := wasIn, wasOut;
      Within(lexer);
      if token == InKey {
        var _ := lexer.GetToken();
        isIn := true;
      } else if token == OutKey {
        var _ := lexer.GetToken();
        isOut := true;
      } else if token == InoutKey {
        var _ := lexer.GetToken();
        isIn, isOut := true, true;
      }
    }

    // A comma, if there is one ahead.
    method SkipComma() returns (token: Token, comma: bool)
      requires lexer.Valid()
      modifies lexer
      ensures lexer.Valid() && lexer.havePeek && token == lexer.currentToken && lexer.Left() <= old(lexer.Left())
      ensures comma ==> lexer.Left() < old(lexer.Left())
      ensures 0 <= old(lexer.from) <= |lexer.source| ==>
                && lexer.from == CommaEnd(lexer.source, old(lexer.from))
                && (comma <==> Next(lexer.source, old(lexer.from)).token == Comma)
      ensures old(lexer.havePeek) ==> comma == (old(lexer.currentToken) == Comma) && (!comma ==> token == old(lexer.currentToken))
    {
      hide *;
      comma := false;
      ghost var src, f := lexer.source, lexer.from;
      Within(lexer);
      if f >= 0 {
        CommaEndIs(src, f);
      }
      token := lexer.PeekToken();
      if token == Comma {
        var _ := lexer.GetToken();
        comma := true;
        token := lexer.PeekToken();
      }
    }

    // The attributes in the brackets before a parameter's type. The brackets
    // are closed or the file is at its end, unless the attributes are in error.
    method ParseAttributes() returns (ok: bool, isIn: bool, isOut: bool)
      requires lexer.Valid()
      modifies lexer
      ensures lexer.Valid() && lexer.havePeek && lexer.Left() <= old(lexer.Left())
      ensures ok ==> lexer.currentToken in {BracketsRight, EndOfFile}
      ensures 0 <= old(lexer.from) <= |lexer.source| ==>
                var r := ReadAttributes(lexer.source, old(lexer.from), false, false);
                if ok && lexer.currentToken == BracketsRight
                then 0 <= lexer.from <= |lexer.source| && r == Got((isIn, isOut), Next(lexer.source, lexer.from).end)
                else r == Missing
    {
      hide *;
      isIn, isOut := false, false;
      ghost var src, f := lexer.source, lexer.from;
      Within(lexer);
      var token := lexer.PeekToken();
      while token != BracketsRight && token != EndOfFile
        invariant lexer.Valid() && lexer.havePeek && token == lexer.currentToken && lexer.Left() <= old(lexer.Left())
        invariant f >= 0 ==>
                    && 0 <= lexer.from <= |src| && token == Next(src, lexer.from).token
                    && ReadAttributes(src, f, false, false) == ReadAttributes(src, lexer.from, isIn, isOut)
        decreases lexer.Left()
      {
        if f >= 0 {
          AttributesStep(src, lexer.from, isIn, isOut);
        }
        var comma;
        isIn, isOut := ParseAttribute(token, isIn, isOut);
        ghost var n := lexer.from;
        if f >= 0 {
          AttributesStep(src, n, isIn, isOut);
          CommaEndIs(src, n);
        }
        token, comma := SkipComma();
        Within(lexer);
        if !comma && token != BracketsRight {
          SkipToCommaOrParenthesis(token);
          return false, isIn, isOut;
        }
      }
      if f >= 0 {
        AttributesStep(src, lexer.from, isIn, isOut);
      }
      ok := true;
    }

    // The brackets before a parameter, and the token the loop over them saw last.
    method ParseBrackets() returns (ok: bool, isIn: bool, isOut: bool, token: Token)
      requires lexer.Valid() && lexer.havePeek && lexer.currentToken == BracketsLeft
      modifies lexer
      ensures lexer.Valid() && lexer.Left() < old(lexer.Left())
      ensures ok ==> token in {BracketsRight, EndOfFile} && (token == EndOfFile ==> lexer.Left() == 0)
      ensures 0 <= old(lexer.from) <= |lexer.source| ==>
                Matches(if ok && token == BracketsRight then Some((isIn, isOut)) else None, lexer.from,
                        ReadAttributes(lexer.source, Next(lexer.source, old(lexer.from)).end, false, false))
    {
      hide *;
      ghost var src, f := lexer.source, lexer.from;
      Within(lexer);
      token := lexer.GetToken();
      ok, isIn, isOut := ParseAttributes();
      Within(lexer);
      token := lexer.PeekToken();
      if ok {
        var _ := lexer.GetToken();
      }
      if f >= 0 {
        MatchesIs(if ok && token == BracketsRight then Some((isIn, isOut)) else None, lexer.from,
                  ReadAttributes(src, Next(src, f).end, false, false));
      }
    }

    // Consumes a token, or leaves a comma ahead, which the caller consumes.
    method ParseParameter() returns (param: Option<Param>)
      requires lexer.Valid() && TableOk(module_.D(), parsingInterface)
      requires lexer.havePeek && lexer.currentToken !in {ParenthesesRight, EndOfFile}
      modifies lexer, module_`types, module_`nextId
      ensures lexer.Valid() && TableOk(module_.D(), parsingInterface) && lexer.Left() <= old(lexer.Left())
      ensures lexer.Left() < old(lexer.Left()) || (lexer.havePeek && lexer.currentToken == Comma)
      ensures Extended(old(module_.D()), module_.D(), parsingInterface)
      ensures param.Some? ==> Known(module_.D().types, parsingInterface, param.value.typ)
      ensures 0 <= old(lexer.from) <= |lexer.source| && Good(old(module_.D()), parsingInterface) ==>
                Matches(FormOfParam(param), lexer.from,
                        ReadParam(lexer.source, old(lexer.from), NamesOf(old(module_.D()).types, parsingInterface)))
    {
      hide *;
      ghost var d, src, f, names := module_.D(), lexer.source, lexer.from, NamesOf(module_.D().types, parsingInterface);
      ExtendedSelf(d, parsingInterface);
      Within(lexer);
      if f >= 0 {
        ParamIs(src, f, names);
        NoParam(lexer.from, ReadParam(src, f, names));
      }
      var token := lexer.PeekToken();
      if token != BracketsLeft {
        SkipToCommaOrParenthesis(token);
        if f >= 0 {
          NoParam(lexer.from, ReadParam(src, f, names));
        }
        return None;
      }
      var ok, isIn, isOut, last := ParseBrackets();
      ghost var r := if f >= 0 then ReadAttributes(src, Next(src, f).end, false, false) else Missing;
      ghost var a := lexer.from;
      if f >= 0 {
        MatchesIs(if ok && last == BracketsRight then Some((isIn, isOut)) else None, a, r);
        NoParam(a, ReadParam(src, f, names));
      }
      if !ok {
        return None;
      }
      Within(lexer);
      param := ParseTyped(isIn, isOut, last);
      if f >= 0 && r.Missing? {
        NoParam(lexer.from, ReadParam(src, f, names));
      }
    }

    // The type and the name of a parameter; at the end of the file there is none.
    method ParseTyped(isIn: bool, isOut: bool, last: Token) returns (param: Option<Param>)
      requires lexer.Valid() && TableOk(module_.D(), parsingInterface)
      modifies lexer, module_`types, module_`nextId
      ensures lexer.Valid() && TableOk(module_.D(), parsingInterface) && lexer.Left() <= old(lexer.Left())
      ensures Extended(old(module_.D()), module_.D(), parsingInterface)
      ensures param.Some? ==> Known(module_.D().types, parsingInterface, param.value.typ)
      ensures old(lexer.Left()) == 0 ==> param == None
      ensures 0 <= old(lexer.from) <= |lexer.source| && Good(old(module_.D()), parsingInterface) ==>
                Matches(FormOfParam(param), lexer.from,
                        ReadTyped(lexer.source, old(lexer.from), NamesOf(old(module_.D()).types, parsingInterface), (isIn, isOut)))
    {
      hide *;
      ghost var d, src, a, names := module_.D(), lexer.source, lexer.from, NamesOf(module_.D().types, parsingInterface);
      Within(lexer);
      if a >= 0 {
        TypedIs(src, a, names, (isIn, isOut));
        TypeAtIs(src, a, d, parsingInterface);
      }
      var type_ := ParseType();
      Within(lexer);
      if a >= 0 {
        AgreesIs(type_, lexer.from, ReadType(src, a, names));
      }
      if type_.None? {
        SkipStale(last);
        if a >= 0 {
          NoParam(lexer.from, ReadTyped(src, a, names, (isIn, isOut)));
        }
        return None;
      }
      ResultIs(type_, module_.D(), parsingInterface);
      var token := lexer.PeekToken();
      if token != Identifier {
        SkipToCommaOrParenthesis(token);
        if a >= 0 {
          NoParam(lexer.from, ReadTyped(src, a, names, (isIn, isOut)));
        }
        return None;
      }
      var _ := lexer.GetToken();
      param := Some(Param(lexer.identifier, isIn, isOut, type_.value));
      if a >= 0 {
        ThisParam(param.value, lexer.from, ReadTyped(src, a, names, (isIn, isOut)));
      }
    }

    // After a missing type the loop still tests the token before it.
    method SkipStale(token_: Token)
      requires lexer.Valid()
      modifies lexer
      ensures lexer.Valid() && lexer.Left() <= old(lexer.Left())
    {
      hide *;
      var token := token_;
      while token != Comma && token != ParenthesesRight && token != EndOfFile
        invariant lexer.Valid() && lexer.Left() <= old(lexer.Left())
        decreases lexer.Left(), if token == EndOfFile then 0 else 1
      {
        var _ := lexer.GetToken();
        token := lexer.PeekToken();
      }
    }

    // The parameters between the parentheses; the closing one is left ahead.
    method ParseParameters() returns (ok: bool, params: seq<Param>)
      requires lexer.Valid() && TableOk(module_.D(), parsingInterface)
      modifies lexer, module_`types, module_`nextId
      ensures lexer.Valid() && TableOk(module_.D(), parsingInterface) && lexer.Left() <= old(lexer.Left())
      ensures Extended(old(module_.D()), module_.D(), parsingInterface)
      ensures lexer.havePeek && lexer.currentToken in {ParenthesesRight, EndOfFile}
      ensures forall p :: p in params ==> Known(module_.D().types, parsingInterface, p.typ)
      ensures 0 <= old(lexer.from) <= |lexer.source| && Good(old(module_.D()), parsingInterface) ==>
                var r := ReadParams(lexer.source, old(lexer.from), NamesOf(old(module_.D()).types, parsingInterface), []);
                if ok && lexer.currentToken == ParenthesesRight
                then 0 <= lexer.from <= |lexer.source| && r == Got(ParamForms(params), Next(lexer.source, lexer.from).end)
                else r == Missing
    {
      hide *;
      ghost var d, src, f, names := module_.D(), lexer.source, lexer.from, NamesOf(module_.D().types, parsingInterface);
      ghost var exact := f >= 0 && Good(d, parsingInterface);
      ExtendedSelf(d, parsingInterface);
      Within(lexer);
      NoForms();
      ok, params := true, [];
      var token := lexer.PeekToken();
      while token != ParenthesesRight && token != EndOfFile
        invariant lexer.Valid() && TableOk(module_.D(), parsingInterface) && lexer.Left() <= old(lexer.Left())
        invariant Extended(d, module_.D(), parsingInterface)
        invariant lexer.havePeek && token == lexer.currentToken
        invariant forall p :: p in params ==> Known(module_.D().types, parsingInterface, p.typ)
        invariant exact ==>
                    if ok then
                      && 0 <= lexer.from <= |src| && token == Next(src, lexer.from).token
                      && ReadParams(src, f, names, []) == ReadParams(src, lexer.from, names, ParamForms(params))
                    else ReadParams(src, f, names, []) == Missing
        decreases lexer.Left()
      {
        ghost var e, m := module_.D(), lexer.from;
        ExtendedIs(d, e, parsingInterface);
        if exact && ok {
          ParamsStep(src, m, names, ParamForms(params));
        }
        var param := ParseParameter();
        ParamsLater(params, e, module_.D(), parsingInterface);
        ExtendedTwice(d, e, module_.D(), parsingInterface);
        if exact && ok {
          FormMatches(param, lexer.from, ReadParam(src, m, names));
        }
        var comma;
        token, comma := SkipComma();
        Within(lexer);
        if param.Some? {
          OneMoreForm(params, param.value);
          params := params + [param.value];
        } else {
          ok := false;
        }
      }
      if exact && ok {
        ParamsStep(src, lexer.from, names, ParamForms(params));
      }
    }

    // What comes before the parameters, up to the opening parenthesis.
    method ParseMethodHead(onewayInterface: bool) returns (ok: bool, head: Option<MethodHead>)
      requires lexer.Valid() && TableOk(module_.D(), parsingInterface)
      modifies lexer, module_`types, module_`nextId
      ensures lexer.Valid() && TableOk(module_.D(), parsingInterface) && lexer.Left() <= old(lexer.Left())
      ensures lexer.Left() < old(lexer.Left()) || (lexer.Left() == 0 && head.None?)
              || (lexer.havePeek && lexer.currentToken == BracesRight && head.None?)
      ensures Extended(old(module_.D()), module_.D(), parsingInterface)
      ensures head.Some? ==>
                && Known(module_.D().types, parsingInterface, head.value.ret)
                && (onewayInterface || head.value.oneway ==> TypeOf(head.value.ret).IsVoid())
      ensures 0 <= old(lexer.from) <= |lexer.source| && Good(old(module_.D()), parsingInterface) ==>
                Matches(if ok then FormOfHead(head) else None, lexer.from,
                        ReadHead(lexer.source, old(lexer.from), NamesOf(old(module_.D()).types, parsingInterface), onewayInterface))
    {
      hide *;
      ghost var src, f, names := lexer.source, lexer.from, NamesOf(module_.D().types, parsingInterface);
      Within(lexer);
      if f >= 0 {
        HeadIs(src, f, names, onewayInterface);
      }
      var token := lexer.PeekToken();
      var oneway;
      ok, oneway := ParseMethodProperties();
      if f >= 0 {
        MatchesIs(if ok then Some(oneway) else None, lexer.from, ReadMark(src, f));
      }
      head := ParseResult(onewayInterface, oneway);
      if f >= 0 {
        NoHead(lexer.from, ReadHead(src, f, names, onewayInterface));
      }
    }

    // The type of the result, the name and the opening parenthesis.
    method ParseResult(onewayInterface: bool, oneway: bool) returns (head: Option<MethodHead>)
      requires lexer.Valid() && TableOk(module_.D(), parsingInterface)
      modifies lexer, module_`types, module_`nextId
      ensures lexer.Valid() && TableOk(module_.D(), parsingInterface) && lexer.Left() <= old(lexer.Left())
      ensures lexer.Left() < old(lexer.Left()) || (lexer.Left() == 0 && head.None?)
              || (lexer.havePeek && lexer.currentToken == BracesRight && head.None?)
      ensures Extended(old(module_.D()), module_.D(), parsingInterface)
      ensures head.Some? ==>
                && Known(module_.D().types, parsingInterface, head.value.ret)
                && (onewayInterface || oneway ==> TypeOf(head.value.ret).IsVoid()) && head.value.oneway == oneway
      ensures 0 <= old(lexer.from) <= |lexer.source| && Good(old(module_.D()), parsingInterface) ==>
                Matches(FormOfHead(head), lexer.from,
                        ReadResult(lexer.source, old(lexer.from), NamesOf(old(module_.D()).types, parsingInterface),
                                   onewayInterface, oneway))
    {
      hide *;
      ghost var d, src, a, names := module_.D(), lexer.source, lexer.from, NamesOf(module_.D().types, parsingInterface);
      Within(lexer);
      ghost var r := if a >= 0 then ReadResult(src, a, names, onewayInterface, oneway) else Missing;
      if a >= 0 {
        TypeAtIs(src, a, d, parsingInterface);
        ResultReadIs(src, a, names, onewayInterface, oneway);
      }
      var type_ := ParseType();
      ghost var t := lexer.from;
      Within(lexer);
      if a >= 0 {
        AgreesIs(type_, t, ReadType(src, a, names));
      }
      NoHead(t, r);
      if type_.None? {
        var token := lexer.PeekToken();
        SkipToSemicolon(token);
        NoHead(lexer.from, r);
        return None;
      }
      ResultIs(type_, module_.D(), parsingInterface);
      if t >= 0 {
        TwoTokensAre(src, t, Identifier, ParenthesesLeft);
      }
      head := ParseMethodName(onewayInterface, oneway, type_.value);
      NoHead(lexer.from, r);
      if head.Some? {
        ThisHead(head.value, lexer.from, r);
      }
    }

    // The name and the opening parenthesis. What is one way has no result.
    method ParseMethodName(onewayInterface: bool, oneway: bool, ret: Node) returns (head: Option<MethodHead>)
      requires lexer.Valid()
      modifies lexer
      ensures lexer.Valid() && lexer.Left() <= old(lexer.Left())
      ensures head.Some? ==>
                (onewayInterface || oneway ==> TypeOf(ret).IsVoid()) && head.value.oneway == oneway && head.value.ret == ret
      ensures 0 <= old(lexer.from) <= |lexer.source| ==>
                var e := TokensEnd(lexer.source, old(lexer.from), [Identifier, ParenthesesLeft]);
                && (head.Some? <==> e.Some? && (onewayInterface || oneway ==> TypeOf(ret).IsVoid()))
                && (head.Some? ==> lexer.from == e.value && head.value.name == Next(lexer.source, old(lexer.from)).text)
    {
      hide *;
      Within(lexer);
      if lexer.from >= 0 {
        TwoTokensAre(lexer.source, lexer.from, Identifier, ParenthesesLeft);
      }
      if onewayInterface && !TypeOf(ret).IsVoid() {
        return None;
      }
      var token := lexer.PeekToken();
      if token != Identifier {
        SkipToSemicolon(token);
        return None;
      }
      token := lexer.GetToken();
      var name := lexer.identifier;
      if oneway && !TypeOf(ret).IsVoid() {
        return None;
      }
      token := lexer.PeekToken();
      if token != ParenthesesLeft {
        SkipToSemicolon(token);
        return None;
      }
      token := lexer.GetToken();
      head := Some(MethodHead(name, oneway, ret));
    }

    // Consumes a token, or leaves a closing brace ahead or nothing at all,
    // which ends the caller's loop.
    method ParseMethod(onewayInterface: bool) returns (method_: Option<Method>)
      requires lexer.Valid() && TableOk(module_.D(), parsingInterface)
      modifies lexer, module_`types, module_`nextId
      ensures lexer.Valid() && TableOk(module_.D(), parsingInterface) && lexer.Left() <= old(lexer.Left())
      ensures lexer.Left() < old(lexer.Left()) || lexer.Left() == 0 || (lexer.havePeek && lexer.currentToken == BracesRight)
      ensures Extended(old(module_.D()), module_.D(), parsingInterface)
      ensures method_.Some? ==> MethodKnown(module_.D().types, parsingInterface, method_.value)
      ensures method_.Some? && (onewayInterface || method_.value.oneway) ==>
                TypeOf(method_.value.ret).IsVoid() && forall p :: p in method_.value.params ==> !p.isOut
      ensures 0 <= old(lexer.from) <= |lexer.source| && Good(old(module_.D()), parsingInterface) ==>
                Matches(FormOfMethod(method_), lexer.from,
                        ReadMethod(lexer.source, old(lexer.from), NamesOf(old(module_.D()).types, parsingInterface), onewayInterface))
    {
      hide *;
      ghost var d, src, f, names := module_.D(), lexer.source, lexer.from, NamesOf(module_.D().types, parsingInterface);
      ghost var exact := f >= 0 && Good(d, parsingInterface);
      Within(lexer);
      var ok, head := ParseMethodHead(onewayInterface);
      ghost var r := if exact then ReadMethod(src, f, names, onewayInterface) else Missing;
      if exact {
        MethodIs(src, f, names, onewayInterface);
        HeadMatches(ok, head, lexer.from, ReadHead(src, f, names, onewayInterface));
      }
      NoMethod(lexer.from, r);
      if head.None? {
        return None;
      }
      ghost var e, b := module_.D(), lexer.from;
      ExtendedIs(d, e, parsingInterface);
      var paramsOk, params := ParseParameters();
      ghost var c := lexer.from;
      Within(lexer);
      KnownLater(head.value.ret, e, module_.D(), parsingInterface);
      ExtendedTwice(d, e, module_.D(), parsingInterface);
      OutForms(params);
      NoMethod(lexer.from, r);
      if (onewayInterface || head.value.oneway) && HasOut(params) {
        return None;
      }
      NoOut(params);
      if exact && 0 <= c {
        TwoTokensAre(src, c, ParenthesesRight, Semicolon);
      }
      var done := ParseMethodEnd(ok && paramsOk);
      if !done {
        NoMethod(lexer.from, r);
        return None;
      }
      method_ := Some(Method(head.value.name, head.value.oneway, head.value.ret, params));
      MakeMethod(module_.D().types, parsingInterface, method_.value);
      if exact {
        ThisMethod(method_.value, lexer.from, r);
      }
    }

    // The closing parenthesis and the semicolon.
    method ParseMethodEnd(ret: bool) returns (ok: bool)
      requires lexer.Valid() && lexer.havePeek && lexer.currentToken in {ParenthesesRight, EndOfFile}
      modifies lexer
      ensures lexer.Valid() && lexer.Left() <= old(lexer.Left()) && (ok ==> ret)
      ensures old(lexer.currentToken) == EndOfFile ==> !ok
      ensures ret && 0 <= old(lexer.from) <= |lexer.source| ==>
                var e := TokensEnd(lexer.source, old(lexer.from), [ParenthesesRight, Semicolon]);
                (ok <==> e.Some?) && (ok ==> lexer.from == e.value)
    {
      hide *;
      ghost var src, f := lexer.source, lexer.from;
      Within(lexer);
      if f >= 0 {
        TwoTokensAre(src, f, ParenthesesRight, Semicolon);
      }
      var token := lexer.GetToken();
      if !ret {
        lexer.SkipCurrentLine();
        return false;
      }
      token := lexer.PeekToken();
      if token != Semicolon {
        if token != BracesRight {
          var _ := lexer.SkipCurrentLineUntil('}');
        }
        return false;
      }
      token := lexer.GetToken();
      ok := true;
    }

    // Brackets before a method make it one way, even when they are in error.
    method ParseMethodProperties() returns (ok: bool, oneway: bool)
      requires lexer.Valid() && lexer.havePeek
      modifies lexer
      ensures lexer.Valid() && lexer.Left() <= old(lexer.Left())
      ensures lexer.Left() < old(lexer.Left()) || (lexer.havePeek && lexer.currentToken == old(lexer.currentToken))
      ensures oneway <==> old(lexer.currentToken) == BracketsLeft
      ensures 0 <= old(lexer.from) <= |lexer.source| ==>
                Matches(if ok then Some(oneway) else None, lexer.from, ReadMark(lexer.source, old(lexer.from)))
    {
      hide *;
      ok, oneway := true, false;
      ghost var src, f := lexer.source, lexer.from;
      Within(lexer);
      var token := lexer.PeekToken();
      if f >= 0 {
        MarkIs(src, f);
        ThreeTokensAre(src, f, BracketsLeft, OnewayKey, BracketsRight);
        TwoTokensAre(src, Next(src, f).end, OnewayKey, BracketsRight);
      }
      if token == BracketsLeft {
        token := lexer.GetToken();
        token := lexer.PeekToken();
        if token != OnewayKey {
          if token != BracketsRight {
            var _ := lexer.SkipCurrentLineUntil(']');
          }
          ok := false;
        }
        token := lexer.GetToken();
        oneway := true;
        token := lexer.PeekToken();
        if token != BracketsRight {
          ok := false;
        } else {
          token := lexer.GetToken();
        }
      }
      if f >= 0 {
        MatchesIs(if ok then Some(oneway) else None, lexer.from, ReadMark(src, f));
      }
    }

    // ----- declarations -----

    // The name of a sequenceable class and the semicolon behind it.
    method ParseSequenceableName() returns (name: Option<string>)
      requires lexer.Valid()
      modifies lexer
      ensures lexer.Valid() && lexer.Left() <= old(lexer.Left())
      ensures name.Some? ==> IsName(name.value) && IsValidTypeName(name.value)
      ensures 0 <= old(lexer.from) <= |lexer.source| ==> Matches(name, lexer.from, ReadClassName(lexer.source, old(lexer.from)))
    {
      hide *;
      Within(lexer);
      ghost var src, f := lexer.source, lexer.from;
      ghost var r := if f >= 0 then ReadClassName(src, f) else Missing;
      if f >= 0 {
        ClassNameIs(src, f);
        TwoTokensAre(src, f, Identifier, Semicolon);
      }
      var token := lexer.PeekToken();
      if token != Identifier {
        lexer.SkipCurrentLine();
        MatchesIs(None, lexer.from, r);
        return None;
      }
      token := lexer.GetToken();
      var classFullName := lexer.identifier;
      token := lexer.PeekToken();
      if token != Semicolon {
        lexer.SkipCurrentLine();
        MatchesIs(None, lexer.from, r);
        return None;
      }
      token := lexer.GetToken();
      NamesAreWords(classFullName);
      MatchesIs(None, lexer.from, r);
      if classFullName == "" || !IsValidTypeName(classFullName) {
        return None;
      }
      name := Some(classFullName);
      MatchesIs(name, lexer.from, r);
    }

    method ParseSequenceable() returns (ok: bool, ghost part: Part)
      requires lexer.Valid() && TableOk(module_.D(), parsingInterface)
      requires lexer.havePeek && lexer.currentToken == SequenceableKey
      modifies lexer, module_`types, module_`nextId, module_`sequenceables
      ensures lexer.Valid() && TableOk(module_.D(), parsingInterface) && lexer.Left() < old(lexer.Left())
      ensures ok ==> Appended(old(module_.D()), module_.D(), part)
      ensures !ok ==> module_.D() == old(module_.D())
      ensures 0 <= old(lexer.from) <= |lexer.source| && InOrder(old(module_.D()), parsingInterface) ==>
                && Matches(if ok then Some(part) else None, lexer.from,
                           ReadPart(lexer.source, old(lexer.from), NamesOf(old(module_.D()).types, parsingInterface), Options()))
                && (ok && IsNew(Used(old(module_.D())), NameOf(part)) ==>
                      InOrder(module_.D(), parsingInterface)
                      && NamesOf(module_.D().types, parsingInterface)
                         == NamesAfter(NamesOf(old(module_.D()).types, parsingInterface), part))
    {
      hide *;
      ghost var d, src, f := module_.D(), lexer.source, lexer.from;
      ghost var names := NamesOf(d.types, parsingInterface);
      Within(lexer);
      ghost var r := if f >= 0 then ReadPart(src, f, names, Options()) else Missing;
      part := SequenceablePart(SequenceableForm("", ""));
      if f >= 0 {
        PartIs(src, f, names, Options());
        SequenceableIs(src, f);
      }
      var _ := lexer.GetToken();
      ghost var a := lexer.from;
      var classFullName := ParseSequenceableName();
      if f >= 0 {
        MatchesIs(classFullName, lexer.from, ReadClassName(src, a));
      }
      MatchesIs(None, lexer.from, r);
      if classFullName.None? {
        return false, part;
      }
      NamesAreWords(classFullName.value);
      var nspace, name := SplitName(classFullName.value);
      SplitIs(classFullName.value);
      DIs(module_);
      var id := module_.NewId();
      var n, decl := SequenceableNode(id, nspace, name), SequenceableDecl(id, nspace, name);
      module_.AddSequenceable(n, decl);
      DIs(module_);
      SequenceableAdded(d, parsingInterface, n, decl);
      SequenceableValue(d, n, decl);
      ok, part := true, SequenceablePart(SequenceableForm(nspace, name));
      MatchesIs(Some(part), lexer.from, r);
      SequenceableAppended(d, n, decl);
    }

    // The namespace and the short name, split at the last dot.
    method SplitName(fullName: string) returns (nspace: string, name: string)
      requires fullName != "" && IsIdentText(fullName) && IsValidTypeName(fullName)
      ensures nspace == NamespaceIn(fullName) && name == ShortName(fullName)
    {
      hide IsIdentText, LastDot;
      var index := S.LastIndexOfChar(fullName, '.', 0);
      if index != -1 {
        name := fullName[index + 1..];
        nspace := fullName[..index + 1];
      } else {
        name := fullName;
        nspace := ".";
      }
      LastDotIs(fullName, index);
    }

    // The brackets before an interface, and the keyword behind them.
    method ParseInterfaceProperties() returns (ok: bool)
      requires lexer.Valid()
      modifies lexer
      ensures lexer.Valid() && lexer.Left() <= old(lexer.Left())
      ensures 0 <= old(lexer.from) <= |lexer.source| ==>
                var e := TokensEnd(lexer.source, old(lexer.from), [OnewayKey, BracketsRight, InterfaceKey]);
                (ok <==> e.Some?) && (ok ==> lexer.from == e.value)
    {
      hide *;
      ghost var src, f := lexer.source, lexer.from;
      Within(lexer);
      if f >= 0 {
        ThreeTokensAre(src, f, OnewayKey, BracketsRight, InterfaceKey);
      }
      ok := true;
      var token := lexer.PeekToken();
      if token != OnewayKey {
        if token != BracketsRight {
          var _ := lexer.SkipCurrentLineUntil(']');
        }
        ok := false;
      }
      token := lexer.GetToken();
      Within(lexer);
      var closed := ParsePropertiesEnd();
      ok := ok && closed;
    }

    // The closing bracket and the keyword.
    method ParsePropertiesEnd() returns (ok: bool)
      requires lexer.Valid()
      modifies lexer
      ensures lexer.Valid() && lexer.Left() <= old(lexer.Left())
      ensures 0 <= old(lexer.from) <= |lexer.source| ==>
                var e := TokensEnd(lexer.source, old(lexer.from), [BracketsRight, InterfaceKey]);
                (ok <==> e.Some?) && (ok ==> lexer.from == e.value)
    {
      hide *;
      ghost var src, f := lexer.source, lexer.from;
      Within(lexer);
      if f >= 0 {
        TwoTokensAre(src, f, BracketsRight, InterfaceKey);
      }
      ok := true;
      var token := lexer.PeekToken();
      if token != BracketsRight {
        while token != BracketsRight && token != InterfaceKey && token != EndOfFile
          invariant lexer.Valid() && lexer.havePeek && token == lexer.currentToken && lexer.Left() <= old(lexer.Left())
          decreases lexer.Left()
        {
          var _ := lexer.GetToken();
          token := lexer.PeekToken();
        }
        ok := false;
      } else {
        token := lexer.GetToken();
      }
      token := lexer.PeekToken();
      if token != InterfaceKey {
        ok := false;
      } else {
        token := lexer.GetToken();
      }
    }

    // What comes before the name of an interface.
    method ParseInterfaceStart() returns (ok: bool, hasProperties: bool)
      requires lexer.Valid() && lexer.havePeek && lexer.currentToken in {BracketsLeft, InterfaceKey}
      modifies lexer
      ensures lexer.Valid() && lexer.Left() < old(lexer.Left()) && (!hasProperties ==> ok)
      ensures 0 <= old(lexer.from) <= |lexer.source| ==>
                Matches(if ok then Some(hasProperties) else None, lexer.from, ReadStart(lexer.source, old(lexer.from)))
    {
      hide *;
      ghost var src, f := lexer.source, lexer.from;
      Within(lexer);
      if f >= 0 {
        StartIs(src, f);
        OneTokenIs(src, f, InterfaceKey);
        FourTokensAre(src, f, BracketsLeft, OnewayKey, BracketsRight, InterfaceKey);
      }
      ok := true;
      var token := lexer.GetToken();
      hasProperties := token == BracketsLeft;
      if hasProperties {
        ok := ParseInterfaceProperties();
      }
      if f >= 0 {
        MatchesIs(if ok then Some(hasProperties) else None, lexer.from, ReadStart(src, f));
      }
    }

    // The name of an interface and the token behind it.
    method ParseInterfaceName() returns (name: Option<string>, isForward: bool)
      requires lexer.Valid()
      modifies lexer
      ensures lexer.Valid() && lexer.Left() <= old(lexer.Left())
      ensures name.Some? ==> IsName(name.value) && IsValidTypeName(name.value) && (targetIsTs || '.' in name.value)
      ensures 0 <= old(lexer.from) <= |lexer.source| ==>
                Matches(if name.Some? then Some((name.value, isForward)) else None, lexer.from,
                        ReadName(lexer.source, old(lexer.from), targetIsTs))
    {
      hide *;
      Within(lexer);
      ghost var src, f := lexer.source, lexer.from;
      ghost var r := if f >= 0 then ReadName(src, f, targetIsTs) else Missing;
      if f >= 0 {
        NameIs(src, f, targetIsTs);
      }
      var token := lexer.PeekToken();
      if token != Identifier {
        lexer.SkipCurrentLine();
        MatchesIs(None, lexer.from, r);
        return None, false;
      }
      token := lexer.GetToken();
      var interfaceFullName := lexer.identifier;
      token := lexer.PeekToken();
      if token != Semicolon && token != BracesLeft {
        lexer.SkipCurrentLine();
        MatchesIs(None, lexer.from, r);
        return None, false;
      }
      NamesAreWords(interfaceFullName);
      MatchesIs(None, lexer.from, r);
      if interfaceFullName == "" || !IsValidTypeName(interfaceFullName) {
        return None, false;
      }
      var dot := S.IndexOf(interfaceFullName, ".", 0);
      DotFound(interfaceFullName, dot);
      if dot == -1 && !targetIsTs {
        return None, false;
      }
      isForward := token == Semicolon;
      token := lexer.GetToken();
      name := Some(interfaceFullName);
      MatchesIs(Some((interfaceFullName, isForward)), lexer.from, r);
    }

    // What a parse depends on besides the text.
    ghost function Options(): Config {
      Config(moduleName, targetIsTs)
    }

    method ParseInterface() returns (ok: bool, ghost part: Part)
      requires lexer.Valid() && TableOk(module_.D(), parsingInterface)
      requires lexer.havePeek && lexer.currentToken in {BracketsLeft, InterfaceKey}
      modifies lexer, module_`types, module_`nextId, module_`interfaces, this`parsingInterface
      ensures lexer.Valid() && TableOk(module_.D(), parsingInterface) && lexer.Left() < old(lexer.Left())
      ensures module_.D().sequenceables == old(module_.D()).sequenceables
      ensures old(module_.D()).interfaces <= module_.D().interfaces
      ensures ok ==> Appended(old(module_.D()), module_.D(), part) && LicenseIs(module_.interfaces, module_.license)
      ensures 0 <= old(lexer.from) <= |lexer.source| && InOrder(old(module_.D()), old(parsingInterface)) ==>
                PartParsed(ReadPart(lexer.source, old(lexer.from), NamesOf(old(module_.D()).types, old(parsingInterface)), Options()),
                           ok, part, lexer.from, old(module_.D()), old(parsingInterface), module_.D(), parsingInterface)
    {
      hide *;
      ghost var d, p, src, f := module_.D(), parsingInterface, lexer.source, lexer.from;
      ghost var names := NamesOf(d.types, p);
      Within(lexer);
      OptionsAre();
      ghost var r := if f >= 0 then ReadPart(src, f, names, Options()) else Missing;
      part := InterfacePart(InterfaceForm("", "", false, true, []));
      if f >= 0 {
        PartIs(src, f, names, Options());
        InterfaceIs(src, f, names, Options());
      }
      var started, hasProperties := ParseInterfaceStart();
      ghost var a := lexer.from;
      if f >= 0 {
        MatchesIs(if started then Some(hasProperties) else None, a, ReadStart(src, f));
        if started {
          NamedIs(src, a, names, Options(), hasProperties);
        }
      }
      var fullName, isForward := ParseInterfaceName();
      ghost var b := lexer.from;
      if f >= 0 && started {
        MatchesIs(if fullName.Some? then Some((fullName.value, isForward)) else None, b, ReadName(src, a, targetIsTs));
      }
      DIs(module_);
      PartFailed(r, part, b, d, p, module_.D(), parsingInterface);
      if fullName.None? {
        return false, part;
      }
      NamesAreWords(fullName.value);
      ok, part := ParseNamedInterface(started, hasProperties, fullName.value, isForward);
      PartFailed(r, part, lexer.from, d, p, module_.D(), parsingInterface);
      if f >= 0 && started {
        PartOfIs(ReadBody(src, b, names, Options(), hasProperties, (fullName.value, isForward)));
      }
    }

    // An interface from its name on: a forward declaration, or a body.
    method ParseNamedInterface(started: bool, hasProperties: bool, fullName: string, isForward: bool)
      returns (ok: bool, ghost part: Part)
      requires lexer.Valid() && TableOk(module_.D(), parsingInterface) && (started || hasProperties)
      requires fullName != "" && IsIdentText(fullName) && IsValidTypeName(fullName)
      modifies lexer, module_`types, module_`nextId, module_`interfaces, this`parsingInterface
      ensures lexer.Valid() && TableOk(module_.D(), parsingInterface) && lexer.Left() <= old(lexer.Left()) && (ok ==> started)
      ensures module_.D().sequenceables == old(module_.D()).sequenceables
      ensures old(module_.D()).interfaces <= module_.D().interfaces
      ensures ok ==> Appended(old(module_.D()), module_.D(), part) && LicenseIs(module_.interfaces, module_.license)
      ensures started && 0 <= old(lexer.from) <= |lexer.source| && InOrder(old(module_.D()), old(parsingInterface)) ==>
                PartParsed(PartOf(ReadBody(lexer.source, old(lexer.from), NamesOf(old(module_.D()).types, old(parsingInterface)),
                                           Options(), hasProperties, (fullName, isForward))),
                           ok, part, lexer.from, old(module_.D()), old(parsingInterface), module_.D(), parsingInterface)
    {
      hide *;
      ghost var d, p, src, b := module_.D(), parsingInterface, lexer.source, lexer.from;
      ghost var names := NamesOf(d.types, p);
      Within(lexer);
      OptionsAre();
      ghost var rb := if b >= 0 then ReadBody(src, b, names, Options(), hasProperties, (fullName, isForward)) else Missing;
      if b >= 0 {
        NamedBodyIs(src, b, names, Options(), hasProperties, (fullName, isForward));
      }
      PartOfIs(rb);
      part := InterfacePart(InterfaceForm("", "", false, true, []));
      var nspace, name := SplitName(fullName);
      SplitIs(fullName);
      DIs(module_);
      var id := module_.NewId();
      DIs(module_);
      var n := InterfaceNode(id, nspace, name);
      parsingInterface := Some(n);
      Begun(d, p, n);
      PartFailed(PartOf(rb), part, b, d, p, module_.D(), parsingInterface);
      if isForward {
        if hasProperties {
          return false, part;
        }
        part := DeclareForward(d, p, n);
        if b >= 0 && InOrder(d, p) {
          MakePartParsed(PartOf(rb), true, part, lexer.from, d, p, module_.D(), parsingInterface);
        }
        return true, part;
      }
      if name != moduleName {
        return false, part;
      }
      ok, part := DefineInterface(started, hasProperties, n, d, p);
      if b >= 0 && started && InOrder(d, p) {
        if rb.Got? {
          InterfacePartIs(rb.value);
        }
        MakePartParsed(PartOf(rb), ok, part, lexer.from, d, p, module_.D(), parsingInterface);
      }
    }

    // A forward declaration is added at once.
    method DeclareForward(ghost d: Declarations, ghost p: Option<Node>, n: Node) returns (ghost part: Part)
      requires TableOk(d, p) && TableOk(module_.D(), Some(n)) && module_.D() == d.(nextId := d.nextId + 1)
      requires n.InterfaceNode? && n.id == d.nextId && n.name != "" && IsIdentText(n.name)
      modifies module_`types, module_`interfaces
      ensures TableOk(module_.D(), Some(n)) && module_.D().sequenceables == d.sequenceables
      ensures part == InterfacePart(InterfaceForm(n.nspace, n.name, false, true, [])) && NameOf(part) == n.name
      ensures Appended(d, module_.D(), part) && d.interfaces <= module_.D().interfaces
      ensures LicenseIs(module_.interfaces, module_.license)
      ensures InOrder(d, p) && IsNew(Used(d), n.name) ==>
                InOrder(module_.D(), Some(n))
                && NamesOf(module_.D().types, Some(n)) == NamesAfter(NamesOf(d.types, p), part)
    {
      hide *;
      ghost var e := module_.D();
      var decl := InterfaceDecl(n.id, Null, n.nspace, n.name, false, true, []);
      module_.AddInterface(n, decl);
      DIs(module_);
      InterfaceAdded(d, p, e, n, decl);
      NoForms();
      InterfaceAppended(d, module_.D(), decl);
      part := InterfacePart(InterfaceForm(n.nspace, n.name, false, true, []));
      InterfacePartIs(part.interface_);
      LicenseOf(d.interfaces, decl, module_.license);
    }

    // An interface with its body.
    method DefineInterface(started: bool, oneway: bool, n: Node, ghost d: Declarations, ghost p: Option<Node>)
      returns (ok: bool, ghost part: Part)
      requires lexer.Valid() && TableOk(module_.D(), parsingInterface) && parsingInterface == Some(n)
      requires module_.D() == d.(nextId := d.nextId + 1)
      requires n.InterfaceNode? && n.id == d.nextId && n.name != "" && IsIdentText(n.name)
      modifies lexer, module_`types, module_`nextId, module_`interfaces
      ensures lexer.Valid() && TableOk(module_.D(), parsingInterface) && lexer.Left() <= old(lexer.Left()) && (ok ==> started)
      ensures module_.D().sequenceables == d.sequenceables && d.interfaces <= module_.D().interfaces
      ensures NameOf(part) == n.name
      ensures ok ==> Appended(d, module_.D(), part) && LicenseIs(module_.interfaces, module_.license)
      ensures ok && InOrder(d, p) && IsNew(Used(d), n.name) ==>
                InOrder(module_.D(), Some(n))
                && NamesOf(module_.D().types, Some(n)) == NamesAfter(NamesOf(d.types, p), part)
      ensures started && 0 <= old(lexer.from) <= |lexer.source| && InOrder(d, p) && IsNew(Used(d), n.name) ==>
                var r := ReadMethods(lexer.source, old(lexer.from), BodyNames(NamesOf(d.types, p), n.nspace, n.name), oneway, []);
                if ok then r.Got? && part == InterfacePart(InterfaceForm(n.nspace, n.name, oneway, false, r.value)) && r.end == lexer.from
                else r.Missing?
    {
      hide *;
      ghost var src, b := lexer.source, lexer.from;
      Within(lexer);
      if InOrder(d, p) && IsNew(Used(d), n.name) {
        BegunIsGood(d, p, n);
      }
      ghost var decl;
      ok, decl := ParseInterfaceBody(started, oneway, n);
      DIs(module_);
      part := InterfacePart(InterfaceForm(n.nspace, n.name, oneway, false, MethodForms(decl.methods)));
      InterfacePartIs(part.interface_);
      if ok {
        InterfaceAppended(d, module_.D(), decl);
        InterfaceDone(d, p, n, module_.D());
        LicenseOf(d.interfaces, decl, module_.license);
      }
      if b >= 0 && started && InOrder(d, p) && IsNew(Used(d), n.name) {
        MethodsMatch(ok, decl.methods, lexer.from,
                     ReadMethods(src, b, BodyNames(NamesOf(d.types, p), n.nspace, n.name), oneway, []));
      }
    }

    // The methods between the braces; a first one is always tried, so an empty
    // body is an error. The closing brace is left ahead.
    method ParseMethods(ret: bool, oneway: bool) returns (ok: bool, methods: seq<Method>)
      requires lexer.Valid() && TableOk(module_.D(), parsingInterface)
      modifies lexer, module_`types, module_`nextId
      ensures lexer.Valid() && TableOk(module_.D(), parsingInterface) && lexer.Left() <= old(lexer.Left()) && (ok ==> ret)
      ensures lexer.havePeek && lexer.currentToken in {BracesRight, EndOfFile}
      ensures Extended(old(module_.D()), module_.D(), parsingInterface)
      ensures forall x :: x in methods ==> MethodKnown(module_.D().types, parsingInterface, x)
      ensures ret && 0 <= old(lexer.from) <= |lexer.source| && Good(old(module_.D()), parsingInterface) ==>
                var r := ReadMethods(lexer.source, old(lexer.from), NamesOf(old(module_.D()).types, parsingInterface), oneway, []);
                if ok && lexer.currentToken == BracesRight
                then 0 <= lexer.from <= |lexer.source| && r == Got(MethodForms(methods), Next(lexer.source, lexer.from).end)
                else r == Missing
    {
      hide *;
      ghost var d, src, f, names := module_.D(), lexer.source, lexer.from, NamesOf(module_.D().types, parsingInterface);
      Within(lexer);
      ghost var exact, first := ret && f >= 0 && Good(d, parsingInterface), true;
      ghost var r := if f >= 0 then ReadMethods(src, f, names, oneway, []) else Missing;
      ExtendedSelf(d, parsingInterface);
      NoForms();
      ok, methods := ret, [];
      var token := BracesLeft;
      while token != BracesRight && token != EndOfFile
        invariant lexer.Valid() && TableOk(module_.D(), parsingInterface) && lexer.Left() <= old(lexer.Left())
        invariant Extended(d, module_.D(), parsingInterface) && (ok ==> ret)
        invariant forall x :: x in methods ==> MethodKnown(module_.D().types, parsingInterface, x)
        invariant if first then token == BracesLeft && methods == [] && ok == ret && lexer.from == f
                  else lexer.havePeek && token == lexer.currentToken
        invariant exact && !first ==>
                    if ok then
                      && 0 <= lexer.from <= |src| && token == Next(src, lexer.from).token
                      && r == ReadMoreMethods(src, lexer.from, names, oneway, MethodForms(methods))
                    else r == Missing
        decreases lexer.Left(), if token == BracesRight || token == EndOfFile then 0 else 1
      {
        ghost var e, m := module_.D(), lexer.from;
        ExtendedIs(d, e, parsingInterface);
        if exact && ok {
          MethodsStep(src, m, names, oneway, MethodForms(methods));
        }
        var method_ := ParseMethod(oneway);
        MethodsLater(methods, e, module_.D(), parsingInterface);
        ExtendedTwice(d, e, module_.D(), parsingInterface);
        if exact && ok {
          MethodMatches(method_, lexer.from, ReadMethod(src, m, names, oneway));
        }
        if method_.Some? {
          OneMoreMethod(methods, method_.value);
          methods := methods + [method_.value];
        } else {
          ok := false;
        }
        token := lexer.PeekToken();
        Within(lexer);
        first := false;
      }
      if exact && ok {
        MethodsStep(src, lexer.from, names, oneway, MethodForms(methods));
      }
    }

    // The body of an interface. The interface is added when the closing brace
    // is found, whether or not all of its methods were in order.
    method ParseInterfaceBody(ret: bool, oneway: bool, n: Node) returns (ok: bool, ghost decl: InterfaceDecl)
      requires lexer.Valid() && TableOk(module_.D(), parsingInterface) && parsingInterface == Some(n) && n.InterfaceNode?
      modifies lexer, module_`types, module_`nextId, module_`interfaces
      ensures lexer.Valid() && TableOk(module_.D(), parsingInterface) && lexer.Left() <= old(lexer.Left()) && (ok ==> ret)
      ensures module_.D().sequenceables == old(module_.D()).sequenceables
      ensures old(module_.D()).interfaces <= module_.D().interfaces
      ensures ok ==> BodyAdded(old(module_.D()), n, module_.D()) && module_.D().interfaces == old(module_.D()).interfaces + [decl]
      ensures ok ==> decl == InterfaceDecl(n.id, module_.license, n.nspace, n.name, oneway, false, decl.methods)
      ensures ret && 0 <= old(lexer.from) <= |lexer.source| && Good(old(module_.D()), parsingInterface) ==>
                Matches(if ok then Some(MethodForms(decl.methods)) else None, lexer.from,
                        ReadMethods(lexer.source, old(lexer.from), NamesOf(old(module_.D()).types, parsingInterface), oneway, []))
    {
      hide *;
      ghost var d, src, f, names := module_.D(), lexer.source, lexer.from, NamesOf(module_.D().types, parsingInterface);
      DIs(module_);
      Within(lexer);
      var license := module_.license;
      var methods;
      ok, methods := ParseMethods(ret, oneway);
      ghost var e := module_.D();
      ExtendedIs(d, e, parsingInterface);
      Within(lexer);
      var added := InterfaceDecl(n.id, license, n.nspace, n.name, oneway, false, methods);
      decl := added;
      var token := lexer.PeekToken();
      if token != BracesRight {
        ok := false;
      } else {
        token := lexer.GetToken();
        module_.AddInterface(n, added);
        MakeBody(d, e, n, decl);
      }
      if f >= 0 {
        MatchesIs(if ok then Some(MethodForms(decl.methods)) else None, lexer.from, ReadMethods(src, f, names, oneway, []));
      }
    }

    // ----- the file -----

    // A block comment at the very beginning is the licence.
    method ParseLicense() returns (found: bool)
      requires lexer.Valid() && !lexer.havePeek
      modifies lexer, module_`license
      ensures lexer.Valid() && module_.D() == old(module_.D())
      ensures found <==> ScanToken(lexer.source, old(lexer.position), false).token == CommentBlock
      ensures found ==>
                var b, e := SpacesEnd(lexer.source, old(lexer.position)), ScanToken(lexer.source, old(lexer.position), false).end;
                b <= e && module_.license == Text(lexer.source[b..e])
      ensures !found ==> module_.license == old(module_.license)
      ensures if lexer.from >= 0 then lexer.from == Beginning(lexer.source, old(lexer.position))
              else lexer.havePeek && lexer.currentToken == CommentLine
                   && lexer.position == Beginning(lexer.source, old(lexer.position))
    {
      hide *;
      DIs(module_);
      Within(lexer);
      BeginningIs(lexer.source, lexer.position);
      var token := lexer.PeekWithComments();
      if token != CommentBlock {
        return false;
      }
      var _ := lexer.GetToken();
      module_.license := Text(lexer.comment);
      DIs(module_);
      Within(lexer);
      found := true;
    }

    // One declaration. Whatever it is, nothing declared before it is lost.
    method ParseDeclaration() returns (ok: bool, ghost part: Part)
      requires lexer.Valid() && TableOk(module_.D(), parsingInterface)
      requires lexer.havePeek && lexer.currentToken in {BracketsLeft, InterfaceKey, SequenceableKey}
      modifies lexer, module_`types, module_`nextId, module_`interfaces, module_`sequenceables, this`parsingInterface
      ensures lexer.Valid() && TableOk(module_.D(), parsingInterface) && lexer.Left() < old(lexer.Left())
      ensures DistinctNames(module_.D().sequenceables, module_.D().interfaces) ==>
                DistinctNames(old(module_.D()).sequenceables, old(module_.D()).interfaces)
      ensures ok ==> Appended(old(module_.D()), module_.D(), part)
      ensures 0 <= old(lexer.from) <= |lexer.source| && InOrder(old(module_.D()), old(parsingInterface)) ==>
                PartParsed(ReadPart(lexer.source, old(lexer.from), NamesOf(old(module_.D()).types, old(parsingInterface)), Options()),
                           ok, part, lexer.from, old(module_.D()), old(parsingInterface), module_.D(), parsingInterface)
    {
      hide *;
      ghost var d, p, src, f := module_.D(), parsingInterface, lexer.source, lexer.from;
      Within(lexer);
      if lexer.currentToken == SequenceableKey {
        ok, part := ParseSequenceable();
        if f >= 0 && InOrder(d, p) {
          SequenceableParsed(ReadPart(src, f, NamesOf(d.types, p), Options()), ok, part, lexer.from, d, p, module_.D());
        }
        if ok {
          AppendedIs(d, module_.D(), part);
        }
      } else {
        ok, part := ParseInterface();
      }
      FewerNames(d.sequenceables, d.interfaces, module_.D().sequenceables, module_.D().interfaces);
    }

    // One declaration, as progress through the file.
    method ParseTracked(ghost t: Tracker, ghost whole: Reading<seq<Part>>, ghost parts: seq<Part>, ghost exact: bool)
      returns (parsed: bool, token: Token, ghost part: Part)
      requires lexer.Valid() && TableOk(module_.D(), parsingInterface)
      requires lexer.havePeek && lexer.currentToken in {BracketsLeft, InterfaceKey, SequenceableKey}
      requires exact ==>
                 && t.src == lexer.source && t.config == Options() && InOrder(module_.D(), parsingInterface)
                 && DistinctNames(module_.D().sequenceables, module_.D().interfaces)
                 && Tracks(t, whole, module_.D(), parsingInterface, parts, lexer.from, lexer.position, lexer.currentToken)
      modifies lexer, module_`types, module_`nextId, module_`interfaces, module_`sequenceables, this`parsingInterface
      ensures lexer.Valid() && TableOk(module_.D(), parsingInterface) && lexer.Left() < old(lexer.Left())
      ensures lexer.havePeek && token == lexer.currentToken && (token == EndOfFile ==> lexer.Left() == 0)
      ensures DistinctNames(module_.D().sequenceables, module_.D().interfaces) ==>
                DistinctNames(old(module_.D()).sequenceables, old(module_.D()).interfaces)
      ensures exact && parsed && DistinctNames(module_.D().sequenceables, module_.D().interfaces) ==>
                InOrder(module_.D(), parsingInterface)
                && Tracks(t, whole, module_.D(), parsingInterface, parts + [part], lexer.from, lexer.position, token)
      ensures exact && whole.Got? && AllNew(Used(t.d0), whole.value) ==>
                parsed && DistinctNames(module_.D().sequenceables, module_.D().interfaces)
    {
      hide *;
      ghost var d, q, from, position, was := module_.D(), parsingInterface, lexer.from, lexer.position, lexer.currentToken;
      Within(lexer);
      if exact {
        TokenIsAhead(t, whole, d, q, parts, from, position, was);
      }
      parsed, part := ParseDeclaration();
      token := lexer.PeekToken();
      Within(lexer);
      if exact {
        PartTracked(t, whole, d, q, parts, from, position, was, parsed, part, module_.D(), parsingInterface,
                    lexer.from, lexer.position, token);
      }
    }

    // Comes to an end on every text. It finds no error, and leaves distinct
    // names, exactly when the text reads as declarations with new names, and
    // those are what it has added.
    method ParseFile() returns (ok: bool)
      requires lexer.Valid() && !lexer.havePeek && TableOk(module_.D(), parsingInterface)
      requires InOrder(module_.D(), parsingInterface)
      modifies lexer, module_, this`parsingInterface
      ensures lexer.Valid() && lexer.Left() == 0 && TableOk(module_.D(), parsingInterface)
      ensures var d, e := old(module_.D()), module_.D();
              var r := FileAt(lexer.source, old(lexer.position), d, old(parsingInterface), Options());
              && (ok && DistinctNames(e.sequenceables, e.interfaces) ==>
                    InOrder(e, parsingInterface) && r.Got? && AllNew(Used(d), r.value) && Adds(d, e, r.value))
              && (DistinctNames(d.sequenceables, d.interfaces) && r.Got? && AllNew(Used(d), r.value) ==>
                    ok && DistinctNames(e.sequenceables, e.interfaces))
    {
      hide *;
      ok := true;
      ghost var d0, src, p, q0 := module_.D(), lexer.source, lexer.position, parsingInterface;
      Within(lexer);
      ghost var t := Tracker(src, Beginning(src, p), Options(), d0);
      ghost var parts: seq<Part> := [];
      ghost var whole := FileAt(src, p, d0, q0, Options());
      FileAtIs(src, p, d0, q0, Options());
      var _ := ParseLicense();
      var token := lexer.PeekToken();
      Within(lexer);
      NothingYet(t, whole, q0, lexer.from, lexer.position, token);
      while token != EndOfFile
        invariant lexer.Valid() && TableOk(module_.D(), parsingInterface) && lexer.havePeek && token == lexer.currentToken
        invariant token == EndOfFile ==> lexer.Left() == 0
        invariant ok && DistinctNames(module_.D().sequenceables, module_.D().interfaces) ==>
                    InOrder(module_.D(), parsingInterface)
                    && Tracks(t, whole, module_.D(), parsingInterface, parts, lexer.from, lexer.position, token)
        invariant DistinctNames(d0.sequenceables, d0.interfaces) && whole.Got? && AllNew(Used(d0), whole.value) ==>
                    ok && DistinctNames(module_.D().sequenceables, module_.D().interfaces)
        decreases lexer.Left()
      {
        ghost var d, q, from, position := module_.D(), parsingInterface, lexer.from, lexer.position;
        ghost var was, exact := token, ok && DistinctNames(d.sequenceables, d.interfaces);
        Within(lexer);
        if token in {BracketsLeft, InterfaceKey, SequenceableKey} {
          var parsed;
          ghost var part;
          parsed, token, part := ParseTracked(t, whole, parts, exact);
          ok := parsed && ok;
          parts := parts + [part];
        } else if token == CommentLine {
          var _ := lexer.GetToken();
          Within(lexer);
          token := lexer.PeekToken();
          Within(lexer);
          if exact {
            CommentPassed(t, whole, d, q, parts, from, position, lexer.from, lexer.position, token);
          }
        } else {
          if exact {
            NothingElse(t, whole, d, q, parts, from, position, was);
          }
          var _ := lexer.GetToken();
          token := lexer.PeekToken();
          ok := false;
        }
      }
      if ok && DistinctNames(module_.D().sequenceables, module_.D().interfaces) {
        Within(lexer);
        FileTracked(t, whole, module_.D(), parsingInterface, parts, lexer.from, lexer.position);
      }
      var _ := lexer.GetToken();
    }

    lemma OptionsAre()
      ensures Options() == Config(moduleName, targetIsTs)
    {
    }

    method CheckIntegrity() returns (ok: bool)
      ensures ok <==> exists i :: 0 <= i < |module_.interfaces| && !module_.interfaces[i].external
    {
      for i := 0 to |module_.interfaces|
        invariant forall j :: 0 <= j < i ==> module_.interfaces[j].external
      {
        if !module_.interfaces[i].external {
          return true;
        }
      }
      ok := false;
    }

    method Parse() returns (ok: bool)
      requires lexer.Valid() && !lexer.havePeek && TableOk(module_.D(), parsingInterface)
      requires InOrder(module_.D(), parsingInterface)
      modifies lexer, module_, this`parsingInterface
      ensures ok ==> exists i :: 0 <= i < |module_.interfaces| && !module_.interfaces[i].external
      ensures var d, e := old(module_.D()), module_.D();
              var r := FileAt(lexer.source, old(lexer.position), d, old(parsingInterface), Options());
              && (ok && DistinctNames(e.sequenceables, e.interfaces) ==>
                    InOrder(e, parsingInterface) && r.Got? && AllNew(Used(d), r.value) && Adds(d, e, r.value))
              && (DistinctNames(d.sequenceables, d.interfaces) && d.interfaces == []
                  && r.Got? && AllNew(Used(d), r.value) && AnyDefined(r.value) ==>
                    ok && DistinctNames(e.sequenceables, e.interfaces))
    {
      hide *;
      ghost var d := module_.D();
      ghost var r := FileAt(lexer.source, lexer.position, d, parsingInterface, Options());
      ok := ParseFile();
      DIs(module_);
      if d.interfaces == [] && r.Got? && Adds(d, module_.D(), r.value) {
        DefinedAdded(d, module_.D(), r.value);
      }
      var integrity := CheckIntegrity();
      ok := integrity && ok;
    }
  }

  // What the text at p reads as, with the names declared by now.
  ghost function BaseAt(src: string, p: nat, d: Declarations, pending: Option<Node>): Parsed {
    if p <= |src| then ReadBase(src, p, NamesOf(d.types, pending)) else Failed
  }

  ghost function TypeAt(src: string, p: nat, d: Declarations, pending: Option<Node>): Parsed {
    if p <= |src| then ReadType(src, p, NamesOf(d.types, pending)) else Failed
  }

  ghost function MapValueAt(src: string, p: nat, key: Type, d: Declarations, pending: Option<Node>): Parsed {
    if p <= |src| then ReadMapValue(src, p, key, NamesOf(d.types, pending)) else Failed
  }

  lemma MapValueAtIs(src: string, p: int, key: Type, d: Declarations, pending: Option<Node>)
    requires p <= |src|
    ensures p >= 0 ==> MapValueAt(src, p, key, d, pending) == ReadMapValue(src, p, key, NamesOf(d.types, pending))
  {
    hide ReadMapValue, NamesOf;
  }

  lemma BaseAtIs(src: string, p: nat, d: Declarations, pending: Option<Node>)
    requires p <= |src|
    ensures BaseAt(src, p, d, pending) == ReadBase(src, p, NamesOf(d.types, pending))
  {
    hide ReadBase, NamesOf;
  }

  lemma TypeAtIs(src: string, p: nat, d: Declarations, pending: Option<Node>)
    requires p <= |src|
    ensures TypeAt(src, p, d, pending) == ReadType(src, p, NamesOf(d.types, pending))
  {
    hide ReadType, NamesOf;
  }

  lemma DIs(m: ASTModule)
    ensures m.D() == Declarations(m.types, m.nextId, m.sequenceables, m.interfaces)
  {
  }

  lemma FindTypeIs(m: ASTModule, name: string)
    ensures m.FindType(name) == if name != "" && name in m.types then Some(m.types[name]) else None
  {
  }

  lemma LookupIs(names: Names, word: string, end: nat)
    ensures Lookup(names, word, end) == if word in names then Parsed(names[word], end) else Failed
  {
  }

  lemma PendingIsInterface(pending: Option<Node>, nextId: nat)
    requires PendingOk(pending, nextId)
    ensures pending.Some? ==> pending.value.InterfaceNode? && pending.value.name != ""
  {
  }

  lemma NoPending(nextId: nat)
    ensures PendingOk(None, nextId)
  {
  }

  lemma LastDotIs(fullName: string, index: int)
    requires fullName != "" && IsValidTypeName(fullName) && -1 <= index < |fullName| && index != 0
    requires index > 0 ==> fullName[index] == '.'
    requires forall i :: 1 <= i < |fullName| && index < i ==> fullName[i] != '.'
    ensures LastDot(fullName) == index
  {
    hide LastDot;
    var i := LastDot(fullName);
    assert i != 0;
  }

  lemma SplitIs(fullName: string)
    requires fullName != "" && IsIdentText(fullName) && IsValidTypeName(fullName)
    ensures ShortName(fullName) != "" && IsIdentText(ShortName(fullName))
  {
    hide LastDot, IsIdentChar;
    var i := LastDot(fullName);
    assert i != |fullName| - 1;
    forall k | 0 <= k < |ShortName(fullName)| ensures IsIdentChar(ShortName(fullName)[k]) {
      assert ShortName(fullName)[k] == fullName[i + 1 + k];
    }
  }

  lemma DotFound(s: string, dot: int)
    requires S.IsFirstMatch(s, ".", 0, dot)
    ensures dot != -1 <==> '.' in s
  {
    S.SingleMatch(s, '.');
  }

  // The table is in good order and no interface is being parsed.
  ghost predicate InOrder(d: Declarations, pending: Option<Node>) {
    Good(d, pending) && Settled(d.types, pending)
  }

  lemma InOrderIs(d: Declarations, pending: Option<Node>)
    ensures InOrder(d, pending) <==> Good(d, pending) && Settled(d.types, pending)
  {
    hide Good, Settled;
  }

  lemma SequenceableAdded(d: Declarations, pending: Option<Node>, n: Node, decl: SequenceableDecl)
    requires TableOk(d, pending) && n.SequenceableNode? && n.id == d.nextId && n.name != "" && IsIdentText(n.name)
    requires decl.id == n.id && decl.nspace == n.nspace && decl.name == n.name
    ensures var e := WithSequenceable(d, n, decl);
            && TableOk(e, pending)
            && (InOrder(d, pending) && IsNew(Used(d), n.name) ==>
                  InOrder(e, pending)
                  && NamesOf(e.types, pending) == NamesOf(d.types, pending)[n.name := Sequenceable(n.nspace, n.name)])
  {
    hide *;
    var e := WithSequenceable(d, n, decl);
    TableOkIs(d, pending);
    TableOkIs(e, pending);
    SequenceableKeyed(d, pending, n, decl);
    InOrderIs(d, pending);
    InOrderIs(e, pending);
    SequenceableValue(d, n, decl);
    if InOrder(d, pending) && IsNew(Used(d), n.name) {
      NewIs(d, n.name);
      NewWord(d, pending, n.name);
      SequenceableKeeps(d, pending, n, decl);
      DeclaredText(n);
      WordsGrow(d.types, pending, e.types, pending, n);
    }
  }

  lemma SequenceableValue(d: Declarations, n: Node, decl: SequenceableDecl)
    ensures WithSequenceable(d, n, decl)
            == Declarations(d.types[NodeText(n) := n], d.nextId + 1, d.sequenceables + [decl], d.interfaces)
  {
    hide NodeText;
  }

  lemma SequenceableKeyed(d: Declarations, pending: Option<Node>, n: Node, decl: SequenceableDecl)
    requires Keyed(d.types, d.nextId) && PendingOk(pending, d.nextId)
    requires n.SequenceableNode? && n.id == d.nextId && IsIdentText(n.name)
    ensures var e := WithSequenceable(d, n, decl); Keyed(e.types, e.nextId) && PendingOk(pending, e.nextId)
  {
    hide IsIdentText;
  }

  // The short names of what has been declared.
  ghost function Used(d: Declarations): set<string> {
    (set x | x in d.sequenceables :: x.name) + set x | x in d.interfaces :: x.name
  }

  lemma NewIs(d: Declarations, name: string)
    requires IsNew(Used(d), name)
    ensures !IsPrimitiveName(name)
    ensures forall i :: 0 <= i < |d.sequenceables| ==> d.sequenceables[i].name != name
    ensures forall i :: 0 <= i < |d.interfaces| ==> d.interfaces[i].name != name
  {
    hide IsPrimitiveName;
    PrimitiveNames(name);
    forall i | 0 <= i < |d.sequenceables| ensures d.sequenceables[i].name != name {
      assert d.sequenceables[i] in d.sequenceables;
    }
    forall i | 0 <= i < |d.interfaces| ensures d.interfaces[i].name != name {
      assert d.interfaces[i] in d.interfaces;
    }
  }

  lemma PrimitiveNames(name: string)
    ensures IsPrimitiveName(name) <==> exists p: Prim :: name == PrimName(p)
  {
    if IsPrimitiveName(name) {
      var p := PrimitiveNamed(name);
      assert name == PrimName(p);
    }
  }

  lemma DeclaredText(n: Node)
    requires n.SequenceableNode? || n.InterfaceNode?
    ensures NodeText(n) == n.name && !IsContainerNode(n)
    ensures TypeOf(n) == if n.SequenceableNode? then Sequenceable(n.nspace, n.name) else Interface(n.nspace, n.name)
  {
  }

  // Declaring an object adds its word.
  lemma WordsGrow(a: Table, pending: Option<Node>, b: Table, pending': Option<Node>, n: Node)
    requires Settled(a, pending) && Settled(b, pending') && IsIdentText(NodeText(n)) && NodeText(n) in b && b[NodeText(n)] == n
    requires forall k :: IsIdentText(k) && k != NodeText(n) ==> (k in b <==> k in a) && (k in a ==> b[k] == a[k])
    ensures NamesOf(b, pending') == NamesOf(a, pending)[NodeText(n) := TypeOf(n)]
  {
    hide NodeText, IsIdentText, IsName, TypeOf, NamesOf, ObjectOf, Settled;
    var x, y := NamesOf(b, pending'), NamesOf(a, pending)[NodeText(n) := TypeOf(n)];
    forall k ensures k in x <==> k in y ensures k in x && k in y ==> x[k] == y[k] {
      SettledWord(a, pending, k);
      SettledWord(b, pending', k);
    }
  }

  lemma SettledWord(types: Table, pending: Option<Node>, k: string)
    requires Settled(types, pending)
    ensures k in NamesOf(types, pending) <==> IsIdentText(k) && k in types
    ensures k in NamesOf(types, pending) && k in types ==> NamesOf(types, pending)[k] == TypeOf(types[k])
  {
    hide NodeText, IsIdentText, IsName, TypeOf;
  }

  // An interface has been begun.
  lemma Begun(d: Declarations, pending: Option<Node>, n: Node)
    requires TableOk(d, pending) && n.InterfaceNode? && n.id == d.nextId && n.name != "" && IsIdentText(n.name)
    ensures TableOk(d.(nextId := d.nextId + 1), Some(n))
  {
    hide IsIdentText, NodeText;
  }

  // An interface has been added after the table grew from d, where it was
  // begun, to e.
  lemma InterfaceAdded(d: Declarations, pending: Option<Node>, e: Declarations, n: Node, decl: InterfaceDecl)
    requires e == d.(nextId := d.nextId + 1) && n.InterfaceNode? && n.id == d.nextId && n.name != "" && IsIdentText(n.name)
    requires TableOk(e, Some(n)) && decl.id == n.id && decl.nspace == n.nspace && decl.name == n.name && decl.methods == []
    ensures var f := WithInterface(e, n, decl);
            && TableOk(f, Some(n)) && f.sequenceables == d.sequenceables && f.interfaces == d.interfaces + [decl]
            && BodyAdded(e, n, f)
            && (InOrder(d, pending) && IsNew(Used(d), n.name) ==>
                  InOrder(f, Some(n))
                  && NamesOf(f.types, Some(n)) == NamesOf(d.types, pending)[n.name := Interface(n.nspace, n.name)])
  {
    hide *;
    ExtendedSelf(e, Some(n));
    MakeBody(e, e, n, decl);
    InterfaceDone(d, pending, n, WithInterface(e, n, decl));
    BodyIs(e, n, WithInterface(e, n, decl));
  }

  // The table has grown from d to e while the interface n was parsed, and
  // then the interface was added.
  ghost predicate BodyAdded(d: Declarations, n: Node, f: Declarations) {
    exists e, decl :: Body(d, e, n, decl) && f == WithInterface(e, n, decl)
  }

  ghost predicate Body(d: Declarations, e: Declarations, n: Node, decl: InterfaceDecl) {
    && Extended(d, e, Some(n)) && decl.id == n.id && n.InterfaceNode? && decl.nspace == n.nspace && decl.name == n.name
    && forall x :: x in decl.methods ==> MethodKnown(e.types, Some(n), x)
  }

  lemma MakeBody(d: Declarations, e: Declarations, n: Node, decl: InterfaceDecl)
    requires Extended(d, e, Some(n)) && TableOk(e, Some(n)) && n.InterfaceNode? && decl.id == n.id && decl.nspace == n.nspace && decl.name == n.name
    requires forall x :: x in decl.methods ==> MethodKnown(e.types, Some(n), x)
    ensures BodyAdded(d, n, WithInterface(e, n, decl)) && TableOk(WithInterface(e, n, decl), Some(n))
    ensures var f := WithInterface(e, n, decl); f.sequenceables == e.sequenceables && f.interfaces == e.interfaces + [decl]
  {
    hide Extended, MethodKnown, IsIdentText;
    assert Body(d, e, n, decl);
    InterfaceKeyed(e, n, decl);
  }

  lemma InterfaceKeyed(e: Declarations, n: Node, decl: InterfaceDecl)
    requires TableOk(e, Some(n)) && n.InterfaceNode?
    ensures TableOk(WithInterface(e, n, decl), Some(n))
  {
    hide IsIdentText;
  }

  lemma BodyIs(d: Declarations, n: Node, f: Declarations)
    requires BodyAdded(d, n, f)
    ensures f.sequenceables == d.sequenceables && d.interfaces <= f.interfaces
  {
    hide MethodKnown, Good, TableOk, NodeText, Grown;
  }

  lemma InterfaceDone(d: Declarations, pending: Option<Node>, n: Node, f: Declarations)
    requires n.InterfaceNode? && n.id == d.nextId && n.name != "" && IsIdentText(n.name)
    ensures BodyAdded(d.(nextId := d.nextId + 1), n, f) && InOrder(d, pending) && IsNew(Used(d), n.name) ==>
              InOrder(f, Some(n))
              && NamesOf(f.types, Some(n)) == NamesOf(d.types, pending)[n.name := Interface(n.nspace, n.name)]
  {
    hide *;
    var b := d.(nextId := d.nextId + 1);
    if BodyAdded(b, n, f) && InOrder(d, pending) && IsNew(Used(d), n.name) {
      var e, decl := BodyOf(b, n, f);
      InOrderIs(d, pending);
      InOrderIs(f, Some(n));
      BodyParts(b, e, n, decl);
      InterfaceValue(e, n, decl);
      NewIs(d, n.name);
      ExtendedIs(b, e, Some(n));
      NewWord(d, pending, n.name);
      BeginKeeps(d, pending, n);
      StillNew(b.types, e.types, n.name);
      OldInterfaces(d, pending, n.id);
      EndKeeps(e, n, decl);
      DeclaredText(n);
      OnlyWord(d.types, e.types, n);
      WordsGrow(d.types, pending, f.types, Some(n), n);
    }
  }

  lemma OnlyWord(a: Table, b: Table, n: Node)
    requires Grown(a, b)
    ensures forall k :: IsIdentText(k) && k != NodeText(n) ==>
              (k in b[NodeText(n) := n] <==> k in a) && (k in a ==> b[NodeText(n) := n][k] == a[k])
  {
    hide NodeText, IsIdentText;
  }

  // What the methods of an interface are read with is in good order.
  lemma BegunIsGood(d: Declarations, pending: Option<Node>, n: Node)
    requires n.InterfaceNode? && n.id == d.nextId && n.name != "" && IsIdentText(n.name)
    requires InOrder(d, pending) && IsNew(Used(d), n.name)
    ensures Good(d.(nextId := d.nextId + 1), Some(n))
    ensures NamesOf(d.types, Some(n)) == BodyNames(NamesOf(d.types, pending), n.nspace, n.name)
  {
    hide *;
    InOrderIs(d, pending);
    NewIs(d, n.name);
    NewWord(d, pending, n.name);
    BeginKeeps(d, pending, n);
    BegunNames(d, pending, n);
  }

  lemma BegunNames(d: Declarations, pending: Option<Node>, n: Node)
    requires Settled(d.types, pending) && n.InterfaceNode? && n.name !in d.types && IsIdentText(n.name)
    ensures NamesOf(d.types, Some(n)) == BodyNames(NamesOf(d.types, pending), n.nspace, n.name)
  {
    hide NodeText, IsIdentText, IsName, TypeOf, NamesOf, Settled;
    var x, y := NamesOf(d.types, Some(n)), BodyNames(NamesOf(d.types, pending), n.nspace, n.name);
    DeclaredText(n);
    forall k ensures k in x <==> k in y ensures k in x && k in y ==> x[k] == y[k] {
      SettledWord(d.types, pending, k);
      NamesOfWord(d.types, Some(n), k);
      if IsName(k) {
        NamesAreWords(k);
      }
    }
  }

  lemma NamesOfWord(types: Table, pending: Option<Node>, k: string)
    ensures k in NamesOf(types, pending) <==> IsIdentText(k) && ObjectOf(types, pending, k).Some?
    ensures k in NamesOf(types, pending) ==> NamesOf(types, pending)[k] == TypeOf(ObjectOf(types, pending, k).value)
  {
    hide NodeText, IsIdentText, IsName, TypeOf;
  }

  // ----- what was parsed, and what the text reads as -----

  datatype MethodHead = MethodHead(name: string, oneway: bool, ret: Node)

  function ParamFormOf(x: Param): ParamForm {
    ParamForm(x.name, x.isIn, x.isOut, TypeOf(x.typ))
  }

  function ParamForms(xs: seq<Param>): seq<ParamForm> {
    seq(|xs|, i requires 0 <= i < |xs| => ParamFormOf(xs[i]))
  }

  function MethodFormOf(x: Method): MethodForm {
    MethodForm(x.name, x.oneway, TypeOf(x.ret), ParamForms(x.params))
  }

  function MethodForms(xs: seq<Method>): seq<MethodForm> {
    seq(|xs|, i requires 0 <= i < |xs| => MethodFormOf(xs[i]))
  }

  function InterfaceFormOf(x: InterfaceDecl): InterfaceForm {
    InterfaceForm(x.nspace, x.name, x.oneway, x.external, MethodForms(x.methods))
  }

  function SequenceableFormOf(x: SequenceableDecl): SequenceableForm {
    SequenceableForm(x.nspace, x.name)
  }

  function FormOfParam(x: Option<Param>): Option<ParamForm> {
    if x.None? then None else Some(ParamFormOf(x.value))
  }

  function FormOfHead(x: Option<MethodHead>): Option<HeadForm> {
    if x.None? then None else Some(HeadForm(x.value.name, x.value.oneway, TypeOf(x.value.ret)))
  }

  function FormOfMethod(x: Option<Method>): Option<MethodForm> {
    if x.None? then None else Some(MethodFormOf(x.value))
  }

  // The parser has found what the text reads as, and is behind it; or neither
  // has found anything.
  predicate Matches<T(==)>(x: Option<T>, from: int, r: Reading<T>) {
    match r
    case Got(v, e) => x == Some(v) && from == e
    case Missing => x == None
  }

  lemma MatchesIs<T>(x: Option<T>, from: int, r: Reading<T>)
    ensures Matches(x, from, r) <==> if x.None? then r.Missing? else r.Got? && r.value == x.value && from == r.end
  {
  }

  lemma NoParam(from: int, r: Reading<ParamForm>)
    ensures Matches(FormOfParam(None), from, r) <==> r.Missing?
  {
  }

  lemma ThisParam(x: Param, from: int, r: Reading<ParamForm>)
    ensures Matches(FormOfParam(Some(x)), from, r)
            <==> r.Got? && r.value == ParamForm(x.name, x.isIn, x.isOut, TypeOf(x.typ)) && from == r.end
  {
    hide TypeOf;
  }

  lemma FormMatches(x: Option<Param>, from: int, r: Reading<ParamForm>)
    ensures Matches(FormOfParam(x), from, r)
            <==> if x.None? then r.Missing? else r.Got? && r.value == ParamFormOf(x.value) && from == r.end
  {
    hide ParamFormOf;
  }

  lemma NoForms()
    ensures ParamForms([]) == [] && MethodForms([]) == []
  {
  }

  lemma OneMoreForm(xs: seq<Param>, x: Param)
    ensures ParamForms(xs + [x]) == ParamForms(xs) + [ParamFormOf(x)]
  {
    hide ParamFormOf;
  }

  lemma OneMoreMethod(xs: seq<Method>, x: Method)
    ensures MethodForms(xs + [x]) == MethodForms(xs) + [MethodFormOf(x)]
  {
    hide MethodFormOf;
  }

  lemma NoHead(from: int, r: Reading<HeadForm>)
    ensures r.Missing? ==> Matches(FormOfHead(None), from, r) && Matches(None, from, r)
    ensures r.Got? ==> !Matches(FormOfHead(None), from, r)
  {
  }

  lemma ThisHead(x: MethodHead, from: int, r: Reading<HeadForm>)
    ensures Matches(FormOfHead(Some(x)), from, r)
            <==> r.Got? && r.value == HeadForm(x.name, x.oneway, TypeOf(x.ret)) && from == r.end
  {
    hide TypeOf;
  }

  lemma HeadMatches(ok: bool, x: Option<MethodHead>, from: int, r: Reading<HeadForm>)
    ensures Matches(if ok then FormOfHead(x) else None, from, r)
            <==> if !ok || x.None? then r.Missing?
                 else r.Got? && r.value == HeadForm(x.value.name, x.value.oneway, TypeOf(x.value.ret)) && from == r.end
  {
    hide TypeOf;
  }

  lemma NoMethod(from: int, r: Reading<MethodForm>)
    ensures Matches(FormOfMethod(None), from, r) <==> r.Missing?
  {
  }

  lemma ThisMethod(x: Method, from: int, r: Reading<MethodForm>)
    ensures Matches(FormOfMethod(Some(x)), from, r)
            <==> r.Got? && r.value == MethodForm(x.name, x.oneway, TypeOf(x.ret), ParamForms(x.params)) && from == r.end
  {
    hide TypeOf, ParamForms;
  }

  lemma MethodMatches(x: Option<Method>, from: int, r: Reading<MethodForm>)
    ensures Matches(FormOfMethod(x), from, r)
            <==> if x.None? then r.Missing? else r.Got? && r.value == MethodFormOf(x.value) && from == r.end
  {
    hide MethodFormOf;
  }

  lemma MethodsMatch(ok: bool, methods: seq<Method>, from: int, r: Reading<seq<MethodForm>>)
    ensures Matches(if ok then Some(MethodForms(methods)) else None, from, r)
            <==> if ok then r.Got? && r.value == MethodForms(methods) && from == r.end else r.Missing?
  {
    hide MethodForms;
  }

  lemma OutForms(params: seq<Param>)
    ensures HasOut(params) <==> AnyOut(ParamForms(params))
  {
    if AnyOut(ParamForms(params)) {
      var i :| 0 <= i < |params| && ParamForms(params)[i].isOut;
      assert params[i].isOut;
    }
    if HasOut(params) {
      var i :| 0 <= i < |params| && params[i].isOut;
      assert ParamForms(params)[i].isOut;
    }
  }

  // ----- one declaration more -----

  predicate Appended(d: Declarations, e: Declarations, x: Part) {
    match x
    case InterfacePart(i) =>
      && |e.interfaces| == |d.interfaces| + 1 && d.interfaces <= e.interfaces
      && InterfaceFormOf(e.interfaces[|d.interfaces|]) == i && e.sequenceables == d.sequenceables
    case SequenceablePart(s) =>
      && |e.sequenceables| == |d.sequenceables| + 1 && d.sequenceables <= e.sequenceables
      && SequenceableFormOf(e.sequenceables[|d.sequenceables|]) == s && e.interfaces == d.interfaces
  }

  lemma AppendedIs(d: Declarations, e: Declarations, x: Part)
    requires Appended(d, e, x)
    ensures d.interfaces <= e.interfaces && d.sequenceables <= e.sequenceables
  {
    hide InterfaceFormOf;
  }

  lemma SequenceableAppended(d: Declarations, n: Node, decl: SequenceableDecl)
    ensures Appended(d, WithSequenceable(d, n, decl), SequenceablePart(SequenceableForm(decl.nspace, decl.name)))
    ensures NameOf(SequenceablePart(SequenceableForm(decl.nspace, decl.name))) == decl.name
    ensures forall names :: NamesAfter(names, SequenceablePart(SequenceableForm(decl.nspace, decl.name)))
                            == names[decl.name := Sequenceable(decl.nspace, decl.name)]
  {
    hide NodeText;
    SequenceableValue(d, n, decl);
  }

  lemma InterfaceAppended(d: Declarations, f: Declarations, decl: InterfaceDecl)
    requires f.interfaces == d.interfaces + [decl] && f.sequenceables == d.sequenceables
    ensures Appended(d, f, InterfacePart(InterfaceForm(decl.nspace, decl.name, decl.oneway, decl.external, MethodForms(decl.methods))))
  {
    hide MethodForms;
  }

  lemma InterfacePartIs(i: InterfaceForm)
    ensures NameOf(InterfacePart(i)) == i.name
    ensures forall names :: NamesAfter(names, InterfacePart(i)) == names[i.name := Interface(i.nspace, i.name)]
  {
  }

  function PartOf(r: Reading<InterfaceForm>): Reading<Part> {
    match r
    case Missing => Missing
    case Got(x, e) => Got(InterfacePart(x), e)
  }

  lemma PartOfIs(r: Reading<InterfaceForm>)
    ensures PartOf(r) == if r.Missing? then Missing else Got(InterfacePart(r.value), r.end)
  {
  }

  // The last interface has the licence of the module, unless it is external.
  predicate LicenseIs(interfaces: seq<InterfaceDecl>, license: Text) {
    interfaces != []
    && interfaces[|interfaces| - 1].license == if interfaces[|interfaces| - 1].external then Null else license
  }

  lemma LicenseOf(interfaces: seq<InterfaceDecl>, decl: InterfaceDecl, license: Text)
    requires decl.license == if decl.external then Null else license
    ensures LicenseIs(interfaces + [decl], license)
  {
  }

  // A declaration with a new name is found exactly if the text reads as one,
  // and then its name is known and the table in good order.
  ghost predicate PartParsed(r: Reading<Part>, ok: bool, part: Part, from: int, d: Declarations, p: Option<Node>,
                             e: Declarations, p': Option<Node>)
  {
    && (r.Got? && IsNew(Used(d), NameOf(r.value)) ==> ok && part == r.value)
    && (ok && IsNew(Used(d), NameOf(part)) ==>
          && r.Got? && r.value == part && r.end == from && InOrder(e, p')
          && NamesOf(e.types, p') == NamesAfter(NamesOf(d.types, p), part))
  }

  lemma PartFailed(r: Reading<Part>, part: Part, from: int, d: Declarations, p: Option<Node>, e: Declarations, p': Option<Node>)
    ensures r.Missing? ==> PartParsed(r, false, part, from, d, p, e, p')
  {
  }

  lemma MakePartParsed(r: Reading<Part>, ok: bool, part: Part, from: int, d: Declarations, p: Option<Node>, e: Declarations,
                       p': Option<Node>)
    requires r.Got? ==> NameOf(r.value) == NameOf(part)
    requires IsNew(Used(d), NameOf(part)) ==>
               if ok then r.Got? && r.value == part && r.end == from else r.Missing?
    requires ok && IsNew(Used(d), NameOf(part)) ==>
               InOrder(e, p') && NamesOf(e.types, p') == NamesAfter(NamesOf(d.types, p), part)
    ensures PartParsed(r, ok, part, from, d, p, e, p')
  {
    hide IsNew, Used, NameOf, InOrder, NamesOf, NamesAfter;
  }

  lemma SequenceableParsed(r: Reading<Part>, ok: bool, part: Part, from: int, d: Declarations, p: Option<Node>, e: Declarations)
    requires Matches(if ok then Some(part) else None, from, r)
    requires ok && IsNew(Used(d), NameOf(part)) ==>
               InOrder(e, p) && NamesOf(e.types, p) == NamesAfter(NamesOf(d.types, p), part)
    ensures PartParsed(r, ok, part, from, d, p, e, p)
  {
    hide IsNew, Used, NameOf, InOrder, NamesOf, NamesAfter;
  }

  lemma DistinctSplit(d: Declarations, e: Declarations, x: Part)
    requires Appended(d, e, x)
    ensures DistinctNames(e.sequenceables, e.interfaces)
            <==> DistinctNames(d.sequenceables, d.interfaces) && IsNew(Used(d), NameOf(x))
    ensures Used(e) == Used(d) + {NameOf(x)}
  {
    hide IsPrimitiveName, MethodForms, PrimName;
    PrimitiveNames(NameOf(x));
    if x.InterfacePart? {
      var i := |d.interfaces|;
      assert e.interfaces[i].name == NameOf(x) && e.interfaces == d.interfaces + [e.interfaces[i]];
    } else {
      var i := |d.sequenceables|;
      assert e.sequenceables[i].name == NameOf(x) && e.sequenceables == d.sequenceables + [e.sequenceables[i]];
    }
  }

  // ----- the declarations of a file -----

  function Interfaces(parts: seq<Part>): seq<InterfaceForm> {
    if parts == [] then []
    else
      var rest, last := Interfaces(parts[..|parts| - 1]), parts[|parts| - 1];
      if last.InterfacePart? then rest + [last.interface_] else rest
  }

  function Sequenceables(parts: seq<Part>): seq<SequenceableForm> {
    if parts == [] then []
    else
      var rest, last := Sequenceables(parts[..|parts| - 1]), parts[|parts| - 1];
      if last.SequenceablePart? then rest + [last.sequenceable] else rest
  }

  function InterfaceForms(xs: seq<InterfaceDecl>): seq<InterfaceForm> {
    seq(|xs|, i requires 0 <= i < |xs| => InterfaceFormOf(xs[i]))
  }

  function SequenceableForms(xs: seq<SequenceableDecl>): seq<SequenceableForm> {
    seq(|xs|, i requires 0 <= i < |xs| => SequenceableFormOf(xs[i]))
  }

  // By these declarations e is more than d.
  predicate Adds(d: Declarations, e: Declarations, parts: seq<Part>) {
    && d.interfaces <= e.interfaces && d.sequenceables <= e.sequenceables
    && InterfaceForms(e.interfaces[|d.interfaces|..]) == Interfaces(parts)
    && SequenceableForms(e.sequenceables[|d.sequenceables|..]) == Sequenceables(parts)
  }

  lemma AddsNothing(d: Declarations)
    ensures Adds(d, d, [])
  {
  }

  lemma AddsOne(d0: Declarations, d: Declarations, e: Declarations, parts: seq<Part>, x: Part)
    requires Adds(d0, d, parts) && Appended(d, e, x)
    ensures Adds(d0, e, parts + [x])
  {
    hide InterfaceFormOf, SequenceableFormOf;
    assert (parts + [x])[..|parts|] == parts;
    var m, n := |d0.interfaces|, |d0.sequenceables|;
    if x.InterfacePart? {
      assert e.interfaces[m..] == d.interfaces[m..] + [e.interfaces[|d.interfaces|]];
    } else {
      assert e.sequenceables[n..] == d.sequenceables[n..] + [e.sequenceables[|d.sequenceables|]];
    }
  }

  // Some interface is not only declared.
  predicate AnyDefined(parts: seq<Part>) {
    exists i :: 0 <= i < |parts| && parts[i].InterfacePart? && !parts[i].interface_.external
  }

  lemma {:induction false} DefinedIn(parts: seq<Part>)
    ensures AnyDefined(parts) <==> exists i :: 0 <= i < |Interfaces(parts)| && !Interfaces(parts)[i].external
    decreases |parts|
  {
    if parts != [] {
      var init, last := parts[..|parts| - 1], parts[|parts| - 1];
      DefinedIn(init);
      DefinedAtEnd(init, last);
      assert parts == init + [last];
      var more := if last.InterfacePart? then [last.interface_] else [];
      assert Interfaces(parts) == Interfaces(init) + more;
      hide *;
      DefinedBehind(Interfaces(init), more);
      OneDefined(last, more);
    }
  }

  lemma DefinedAtEnd(init: seq<Part>, last: Part)
    ensures AnyDefined(init + [last]) <==> AnyDefined(init) || (last.InterfacePart? && !last.interface_.external)
  {
    var parts := init + [last];
    assert parts[|init|] == last;
    if i :| 0 <= i < |init| && init[i].InterfacePart? && !init[i].interface_.external {
      assert parts[i].InterfacePart?;
    }
  }

  lemma OneDefined(last: Part, more: seq<InterfaceForm>)
    requires more == if last.InterfacePart? then [last.interface_] else []
    ensures (exists i :: 0 <= i < |more| && !more[i].external) <==> last.InterfacePart? && !last.interface_.external
  {
    if last.InterfacePart? {
      assert more[0] == last.interface_;
    }
  }

  lemma DefinedBehind(a: seq<InterfaceForm>, b: seq<InterfaceForm>)
    ensures (exists i :: 0 <= i < |a + b| && !(a + b)[i].external)
            <==> (exists i :: 0 <= i < |a| && !a[i].external) || exists i :: 0 <= i < |b| && !b[i].external
  {
    if i :| 0 <= i < |a| && !a[i].external {
      assert !(a + b)[i].external;
    }
    if i :| 0 <= i < |b| && !b[i].external {
      assert !(a + b)[|a| + i].external;
    }
  }

  lemma DefinedAdded(d: Declarations, e: Declarations, parts: seq<Part>)
    requires d.interfaces == [] && Adds(d, e, parts)
    ensures AnyDefined(parts) <==> exists i :: 0 <= i < |e.interfaces| && !e.interfaces[i].external
  {
    hide AnyDefined, Interfaces, Sequenceables, MethodForms;
    DefinedIn(parts);
    assert e.interfaces[0..] == e.interfaces;
    var xs := InterfaceForms(e.interfaces);
    assert xs == Interfaces(parts);
    forall i | 0 <= i < |xs| ensures xs[i].external == e.interfaces[i].external {
    }
    if i :| 0 <= i < |e.interfaces| && !e.interfaces[i].external {
      assert !xs[i].external;
    }
    if i :| 0 <= i < |xs| && !xs[i].external {
      assert !e.interfaces[i].external;
    }
  }

  ghost function FileAt(src: string, p: nat, d: Declarations, pending: Option<Node>, config: Config): Reading<seq<Part>> {
    if p <= |src| then ReadFile(src, p, NamesOf(d.types, pending), config) else Missing
  }

  lemma FileAtIs(src: string, p: nat, d: Declarations, pending: Option<Node>, config: Config)
    requires p <= |src|
    ensures FileAt(src, p, d, pending, config) == ReadParts(src, Beginning(src, p), NamesOf(d.types, pending), config, [])
  {
    hide ReadParts, Beginning, NamesOf;
  }

  // ----- progress through a file -----

  // The text, where its declarations begin, and what was declared before.
  datatype Tracker = Tracker(src: string, start: nat, config: Config, d0: Declarations)

  // `parts` have been read of the file, up to where the token ahead starts. A
  // line comment that comes first is still ahead.
  ghost predicate Tracks(t: Tracker, whole: Reading<seq<Part>>, d: Declarations, p: Option<Node>, parts: seq<Part>,
                         from: int, position: int, token: Token)
  {
    && t.start <= |t.src| && from <= |t.src|
    && (if from >= 0 then
          token == Next(t.src, from).token && whole == ReadParts(t.src, from, NamesOf(d.types, p), t.config, parts)
        else
          && parts == [] && position == t.start && token == CommentLine
          && whole == ReadParts(t.src, t.start, NamesOf(d.types, p), t.config, []))
    && AllNew(Used(t.d0), parts) && Used(d) == Used(t.d0) + NamesIn(parts) && Adds(t.d0, d, parts)
  }

  lemma NothingYet(t: Tracker, whole: Reading<seq<Part>>, q: Option<Node>, from: int, position: int, token: Token)
    requires t.start <= |t.src| && from <= |t.src| && whole == ReadParts(t.src, t.start, NamesOf(t.d0.types, q), t.config, [])
    requires if from >= 0 then from == t.start && token == Next(t.src, from).token else position == t.start && token == CommentLine
    ensures Tracks(t, whole, t.d0, q, [], from, position, token)
  {
    hide NamesOf, Next, ReadParts, Used;
    AddsNothing(t.d0);
    assert NamesIn([]) == {};
  }

  lemma TokenIsAhead(t: Tracker, whole: Reading<seq<Part>>, d: Declarations, p: Option<Node>, parts: seq<Part>,
                     from: int, position: int, token: Token)
    requires Tracks(t, whole, d, p, parts, from, position, token)
    ensures token != CommentLine ==> from >= 0
  {
    hide NamesOf, Next, ReadParts, Used, Adds, AllNew;
  }

  lemma PartTracked(t: Tracker, whole: Reading<seq<Part>>, d: Declarations, p: Option<Node>, parts: seq<Part>,
                    from: int, position: int, was: Token, parsed: bool, x: Part, e: Declarations, p': Option<Node>,
                    from': int, position': int, token: Token)
    requires Tracks(t, whole, d, p, parts, from, position, was) && was != CommentLine && was != EndOfFile && 0 <= from
    requires DistinctNames(d.sequenceables, d.interfaces) && (parsed ==> Appended(d, e, x))
    requires PartParsed(ReadPart(t.src, from, NamesOf(d.types, p), t.config), parsed, x, from', d, p, e, p')
    requires from' <= |t.src| && (from' >= 0 ==> token == Next(t.src, from').token)
    ensures parsed && DistinctNames(e.sequenceables, e.interfaces) ==>
              InOrder(e, p') && Tracks(t, whole, e, p', parts + [x], from', position', token)
    ensures whole.Got? && AllNew(Used(t.d0), whole.value) ==> parsed && DistinctNames(e.sequenceables, e.interfaces)
  {
    hide NamesOf, Next, ReadParts, ReadPart, Used, Adds, AllNew, IsNew, NamesIn, NameOf, NamesAfter, DistinctNames, InOrder, Appended;
    var names := NamesOf(d.types, p);
    var r := ReadPart(t.src, from, names, t.config);
    PartsStep(t.src, from, names, t.config, parts);
    if parsed {
      DistinctSplit(d, e, x);
      AddsOne(t.d0, d, e, parts, x);
      OneMoreNew(Used(t.d0), parts, x);
    }
    if whole.Got? && AllNew(Used(t.d0), whole.value) {
      SeenStays(t.src, r.end, NamesAfter(names, r.value), t.config, parts + [r.value]);
      NewPrefix(Used(t.d0), whole.value, |parts|);
      assert whole.value[..|parts|] == parts && whole.value[|parts|] == r.value;
    }
  }

  lemma OneMoreNew(used: set<string>, parts: seq<Part>, x: Part)
    ensures AllNew(used, parts + [x]) <==> AllNew(used, parts) && IsNew(used + NamesIn(parts), NameOf(x))
    ensures NamesIn(parts + [x]) == NamesIn(parts) + {NameOf(x)}
  {
    hide IsNew, NameOf;
    var all := parts + [x];
    assert all[..|all| - 1] == parts && all[|all| - 1] == x;
    assert forall y :: y in all <==> y in parts || y == x;
  }

  lemma CommentPassed(t: Tracker, whole: Reading<seq<Part>>, d: Declarations, p: Option<Node>, parts: seq<Part>,
                      from: int, position: int, from': int, position': int, token: Token)
    requires Tracks(t, whole, d, p, parts, from, position, CommentLine)
    requires from' == position && 0 <= from' <= |t.src| && token == Next(t.src, from').token
    ensures Tracks(t, whole, d, p, parts, from', position', token)
  {
    hide NamesOf, Next, ReadParts, Used, Adds, AllNew;
    if from >= 0 {
      NoCommentHere(t.src, from);
    }
  }

  lemma NothingElse(t: Tracker, whole: Reading<seq<Part>>, d: Declarations, p: Option<Node>, parts: seq<Part>,
                    from: int, position: int, token: Token)
    requires Tracks(t, whole, d, p, parts, from, position, token)
    requires token !in {BracketsLeft, InterfaceKey, SequenceableKey, CommentLine, EndOfFile}
    ensures whole == Missing
  {
    hide NamesOf, Next, ReadParts, ReadPart, Used, Adds, AllNew;
    NoPart(t.src, from, NamesOf(d.types, p), t.config);
    PartsStep(t.src, from, NamesOf(d.types, p), t.config, parts);
  }

  lemma FileTracked(t: Tracker, whole: Reading<seq<Part>>, d: Declarations, p: Option<Node>, parts: seq<Part>,
                    from: int, position: int)
    requires Tracks(t, whole, d, p, parts, from, position, EndOfFile)
    ensures whole.Got? && whole.value == parts && AllNew(Used(t.d0), parts) && Adds(t.d0, d, parts)
  {
    hide NamesOf, Next, ReadParts, ReadPart, Used, Adds, AllNew;
    PartsStep(t.src, from, NamesOf(d.types, p), t.config, parts);
  }

  lemma BodyOf(d: Declarations, n: Node, f: Declarations) returns (e: Declarations, decl: InterfaceDecl)
    requires BodyAdded(d, n, f)
    ensures Body(d, e, n, decl) && f == WithInterface(e, n, decl)
  {
    hide Body, WithInterface;
    e, decl :| Body(d, e, n, decl) && f == WithInterface(e, n, decl);
  }

  lemma BodyParts(d: Declarations, e: Declarations, n: Node, decl: InterfaceDecl)
    requires Body(d, e, n, decl)
    ensures Extended(d, e, Some(n)) && decl.id == n.id && n.InterfaceNode? && decl.nspace == n.nspace && decl.name == n.name
    ensures forall x :: x in decl.methods ==> MethodKnown(e.types, Some(n), x)
  {
    hide Extended, MethodKnown;
  }

  lemma InterfaceValue(d: Declarations, n: Node, decl: InterfaceDecl)
    ensures WithInterface(d, n, decl)
            == Declarations(d.types[NodeText(n) := n], d.nextId, d.sequenceables, d.interfaces + [decl])
  {
    hide NodeText;
  }

  lemma StillNew(a: Table, b: Table, name: string)
    requires Grown(a, b) && IsIdentText(name) && name !in a
    ensures name !in b
  {
    hide IsIdentText;
  }

  lemma OldInterfaces(d: Declarations, pending: Option<Node>, id: nat)
    requires Good(d, pending) && id == d.nextId
    ensures forall x :: x in d.interfaces ==> x.id != id
  {
    hide Keyed, PendingOk, UniqueIds, NestedKnown, AllDeclared, WellFormed, NamesOf, MethodKnown;
  }

  lemma MethodsLater(methods: seq<Method>, a: Declarations, b: Declarations, pending: Option<Node>)
    requires Extended(a, b, pending) && forall x :: x in methods ==> MethodKnown(a.types, pending, x)
    ensures forall x :: x in methods ==> MethodKnown(b.types, pending, x)
  {
    hide Good, TableOk, MethodKnown, Grown;
    forall x | x in methods ensures MethodKnown(b.types, pending, x) {
      GrownMethod(a.types, b.types, pending, x);
    }
  }

  lemma FewerNames(a: seq<SequenceableDecl>, b: seq<InterfaceDecl>, a': seq<SequenceableDecl>, b': seq<InterfaceDecl>)
    requires a <= a' && b <= b'
    ensures DistinctNames(a', b') ==> DistinctNames(a, b)
  {
    hide IsPrimitiveName;
  }

  lemma ParamsLater(params: seq<Param>, a: Declarations, b: Declarations, pending: Option<Node>)
    requires Extended(a, b, pending) && forall p :: p in params ==> Known(a.types, pending, p.typ)
    ensures forall p :: p in params ==> Known(b.types, pending, p.typ)
  {
    hide Good, Known, TableOk;
    forall p | p in params ensures Known(b.types, pending, p.typ) {
      GrownInterned(a.types, b.types, pending, p.typ);
    }
  }

  lemma KnownLater(n: Node, a: Declarations, b: Declarations, pending: Option<Node>)
    requires Extended(a, b, pending) && Known(a.types, pending, n)
    ensures Known(b.types, pending, n)
  {
    hide Good, Known, TableOk;
    GrownInterned(a.types, b.types, pending, n);
  }

  predicate HasOut(params: seq<Param>) {
    exists i :: 0 <= i < |params| && params[i].isOut
  }

  lemma NoOut(params: seq<Param>)
    ensures !HasOut(params) ==> forall p :: p in params ==> !p.isOut
  {
  }

  lemma MakeMethod(types: Table, pending: Option<Node>, x: Method)
    requires Known(types, pending, x.ret) && forall p :: p in x.params ==> Known(types, pending, p.typ)
    ensures MethodKnown(types, pending, x)
  {
    hide Known;
  }

  lemma KeyedIs(types: Table, nextId: nat, text: string)
    requires Keyed(types, nextId)
    ensures text in types ==> NodeText(types[text]) == text
  {
    hide NodeText;
  }

  lemma NotArrayText(r: Node, n: Node)
    requires NodeText(r) == NodeText(n)
    ensures n.ListNode? || n.MapNode? ==> !r.ArrayNode?
  {
    LastOfText(r);
    LastOfText(n);
  }

  lemma LastOfText(n: Node)
    ensures n.ListNode? || n.MapNode? ==> NodeText(n) != "" && NodeText(n)[|NodeText(n)| - 1] == '>'
    ensures n.ArrayNode? ==> NodeText(n) != "" && NodeText(n)[|NodeText(n)| - 1] == ']'
  {
  }

  lemma WordFound(d: Declarations, pending: Option<Node>, n: Option<Node>, word: string)
    requires IsIdentText(word) && (IsName(word) || IsPrimitiveName(word))
    requires n.Some? ==> NodeText(n.value) == word && Interned(d.types, pending, n.value)
    ensures Result(n, d, pending) && (n.Some? ==> !n.value.ArrayNode?)
  {
    hide Interned, IsIdentText, IsName, IsPrimitiveName, NodeText;
    if n.Some? && n.value.ArrayNode? {
      ContainersAreNoWords(n.value);
    }
  }

  lemma BaseTokens()
    ensures !IsPrimitiveType(ListKey) && !IsPrimitiveType(MapKey) && !IsPrimitiveType(Identifier) && !IsPrimitiveType(EndOfFile)
  {
  }

  lemma KeywordsAreNotEmpty(token: Token)
    requires IsPrimitiveType(token)
    ensures PrimitiveWord(token) != "" && IsIdentText(PrimitiveWord(token)) && IsPrimitiveName(PrimitiveWord(token))
  {
    KeywordsAreNoNames(token);
  }

  lemma ObjectOfName(types: Table, nextId: nat, pending: Option<Node>, name: string)
    requires IsName(name) && PendingOk(pending, nextId)
    ensures ObjectOf(types, pending, name)
            == if pending.Some? && pending.value.name == name then pending else if name in types then Some(types[name]) else None
  {
    hide IsName, IsIdentText;
  }

  lemma SomeText(n: Node)
    requires IsContainerNode(n)
    ensures NodeText(n) != ""
  {
  }
}
