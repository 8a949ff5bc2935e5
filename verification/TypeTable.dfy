/** The interned type table of a module under construction: one object for every
    printed type name, and what it promises to those who look types up. */
module TypeTable {
  import opened IdlTypes
  import opened IdlAst
  import opened Lexing
  import opened TypeText

  type Table = map<string, Node>

  // What has been declared so far; nextId is the address of the next object.
  datatype Declarations = Declarations(
    types: Table, nextId: nat, sequenceables: seq<SequenceableDecl>, interfaces: seq<InterfaceDecl>)

  function FirstTypes(): Table {
    map["boolean" := PrimitiveNode(0, Boolean), "byte" := PrimitiveNode(1, Byte), "short" := PrimitiveNode(2, Short),
        "int" := PrimitiveNode(3, Integer), "long" := PrimitiveNode(4, Long), "float" := PrimitiveNode(5, Float),
        "double" := PrimitiveNode(6, Double), "char" := PrimitiveNode(7, Char), "String" := PrimitiveNode(8, String),
        "void" := PrimitiveNode(9, Void)]
  }

  predicate IsContainerNode(n: Node) {
    n.ListNode? || n.MapNode? || n.ArrayNode?
  }

  // Every key is the printed name of its entry.
  ghost predicate Keyed(types: Table, nextId: nat) {
    forall k :: k in types ==> NodeText(types[k]) == k && types[k].id < nextId && (IsContainerNode(types[k]) || IsIdentText(k))
  }

  // The interface whose body is being parsed.
  predicate PendingOk(pending: Option<Node>, nextId: nat) {
    pending.Some? ==>
      pending.value.InterfaceNode? && pending.value.id < nextId && pending.value.name != "" && IsIdentText(pending.value.name)
  }

  // The object a type name stands for: the interface being parsed goes first.
  function ObjectOf(types: Table, pending: Option<Node>, text: string): Option<Node> {
    if pending.Some? && IsName(text) && NodeText(pending.value) == text then pending
    else if text in types then Some(types[text]) else None
  }

  // What the words stand for.
  ghost function NamesOf(types: Table, pending: Option<Node>): Names {
    map k | k in Words(types, pending) :: TypeOf(Denoted(types, pending, k))
  }

  ghost function Words(types: Table, pending: Option<Node>): set<string> {
    set k | k in types.Keys + (if pending.Some? then {NodeText(pending.value)} else {})
            && IsIdentText(k) && ObjectOf(types, pending, k).Some?
  }

  function Denoted(types: Table, pending: Option<Node>, text: string): Node
    requires ObjectOf(types, pending, text).Some?
  {
    ObjectOf(types, pending, text).value
  }

  // The object is the one its printed name stands for.
  predicate Interned(types: Table, pending: Option<Node>, n: Node) {
    ObjectOf(types, pending, NodeText(n)) == Some(n)
  }

  // The object is in the table, or is the interface being parsed.
  predicate Known(types: Table, pending: Option<Node>, n: Node) {
    (NodeText(n) in types && types[NodeText(n)] == n) || pending == Some(n)
  }

  predicate DeclaredIn(n: Node, sequenceables: seq<SequenceableDecl>, interfaces: seq<InterfaceDecl>) {
    match n
    case SequenceableNode(id, nspace, name) =>
      name != "" && exists i :: 0 <= i < |sequenceables| && sequenceables[i] == SequenceableDecl(id, nspace, name)
    case InterfaceNode(id, nspace, name) =>
      name != ""
      && exists i :: 0 <= i < |interfaces| && interfaces[i].id == id && interfaces[i].nspace == nspace && interfaces[i].name == name
    case _ => true
  }

  // ----- a table in good order -----

  ghost predicate UniqueIds(types: Table, pending: Option<Node>) {
    && (forall j, k :: j in types && k in types && types[j].id == types[k].id ==> j == k)
    && (pending.Some? ==> forall k :: k in types && types[k].id == pending.value.id ==> types[k] == pending.value)
  }

  ghost predicate NestedKnown(types: Table, pending: Option<Node>) {
    forall k, c :: k in types && c in Nested(types[k]) ==> Known(types, pending, c)
  }

  ghost predicate AllDeclared(types: Table, sequenceables: seq<SequenceableDecl>, interfaces: seq<InterfaceDecl>) {
    forall k :: k in types ==> DeclaredIn(types[k], sequenceables, interfaces)
  }

  // Entries are types of the grammar over the words of the table.
  ghost predicate WellFormed(types: Table, names: Names) {
    && (forall p: Prim :: PrimName(p) in names && names[PrimName(p)] == Primitive(p))
    && (forall k :: k in types && IsContainerNode(types[k]) ==> InGrammar(TypeOf(types[k]), names))
  }

  ghost predicate MethodKnown(types: Table, pending: Option<Node>, x: Method) {
    Known(types, pending, x.ret) && forall p :: p in x.params ==> Known(types, pending, p.typ)
  }

  ghost predicate DeclsOk(d: Declarations, pending: Option<Node>) {
    && (forall i, j :: 0 <= i < j < |d.sequenceables| ==> d.sequenceables[i].id != d.sequenceables[j].id)
    && (forall i, j :: 0 <= i < j < |d.interfaces| ==> d.interfaces[i].id != d.interfaces[j].id)
    && (forall x :: x in d.sequenceables ==> x.id < d.nextId) && (forall x :: x in d.interfaces ==> x.id < d.nextId)
    && (forall i, x :: 0 <= i < |d.interfaces| && x in d.interfaces[i].methods ==> MethodKnown(d.types, pending, x))
  }

  ghost predicate Good(d: Declarations, pending: Option<Node>) {
    && Keyed(d.types, d.nextId) && PendingOk(pending, d.nextId)
    && UniqueIds(d.types, pending) && NestedKnown(d.types, pending) && AllDeclared(d.types, d.sequenceables, d.interfaces)
    && WellFormed(d.types, NamesOf(d.types, pending)) && DeclsOk(d, pending)
  }

  // No interface is being parsed: the last one has been added.
  predicate Settled(types: Table, pending: Option<Node>) {
    pending.Some? ==> NodeText(pending.value) in types && types[NodeText(pending.value)] == pending.value
  }

  // ----- the table grows by composed types -----

  ghost predicate Grown(a: Table, b: Table) {
    && (forall k :: k in a ==> k in b && b[k] == a[k])
    && forall k :: k in b && k !in a ==> !IsIdentText(k)
  }

  lemma NamesAreWords(text: string)
    requires IsName(text)
    ensures IsIdentText(text) && text != ""
  {
  }

  lemma GrownNames(a: Table, b: Table, pending: Option<Node>)
    requires Grown(a, b)
    ensures NamesOf(a, pending) == NamesOf(b, pending)
  {
    hide NodeText, IsName, IsIdentText, TypeOf;
    forall k | IsIdentText(k) ensures ObjectOf(a, pending, k) == ObjectOf(b, pending, k) {
    }
    assert Words(a, pending) == Words(b, pending);
  }

  lemma GrownInterned(a: Table, b: Table, pending: Option<Node>, n: Node)
    requires Grown(a, b)
    ensures Interned(a, pending, n) ==> Interned(b, pending, n)
    ensures Known(a, pending, n) ==> Known(b, pending, n)
  {
    hide NodeText, IsName, IsIdentText;
  }

  // Composed types do not look like words.
  lemma ContainersAreNoWords(n: Node)
    requires IsContainerNode(n)
    ensures !IsIdentText(NodeText(n))
  {
    var text := NodeText(n);
    assert text != "" && text[|text| - 1] in {'>', ']'};
  }

  lemma InternedIsKnown(types: Table, pending: Option<Node>, n: Node)
    requires Interned(types, pending, n)
    ensures Known(types, pending, n)
  {
  }

  // ----- interning a composed type -----

  function WithType(d: Declarations, n: Node): Declarations {
    if NodeText(n) in d.types then d.(nextId := d.nextId + 1)
    else d.(types := d.types[NodeText(n) := n], nextId := d.nextId + 1)
  }

  lemma WithTypeGrows(d: Declarations, n: Node)
    requires IsContainerNode(n)
    ensures Grown(d.types, WithType(d, n).types) && NodeText(n) in WithType(d, n).types
    ensures Keyed(d.types, d.nextId) && n.id == d.nextId ==> Keyed(WithType(d, n).types, d.nextId + 1)
  {
    hide NodeText, IsIdentText;
    ContainersAreNoWords(n);
  }

  lemma InternKeepsIds(d: Declarations, pending: Option<Node>, n: Node)
    requires UniqueIds(d.types, pending) && Keyed(d.types, d.nextId) && PendingOk(pending, d.nextId) && n.id == d.nextId
    ensures UniqueIds(WithType(d, n).types, pending)
  {
    hide NodeText, IsIdentText;
  }

  lemma InternKeepsNested(d: Declarations, pending: Option<Node>, n: Node)
    requires NestedKnown(d.types, pending) && forall c :: c in Nested(n) ==> Known(d.types, pending, c)
    ensures NestedKnown(WithType(d, n).types, pending)
  {
    hide NodeText, Nested;
    var t := WithType(d, n).types;
    assert forall x :: Known(d.types, pending, x) ==> Known(t, pending, x);
    forall k, c | k in t && c in Nested(t[k]) ensures Known(t, pending, c) {
      if k !in d.types {
        assert t[k] == n;
      }
    }
  }

  lemma InternKeepsDecls(d: Declarations, pending: Option<Node>, n: Node)
    requires DeclsOk(d, pending) && AllDeclared(d.types, d.sequenceables, d.interfaces) && IsContainerNode(n)
    ensures DeclsOk(WithType(d, n), pending)
    ensures AllDeclared(WithType(d, n).types, d.sequenceables, d.interfaces)
  {
    hide NodeText, Known;
    var t := WithType(d, n);
    WithTypeGrows(d, n);
    forall i, x | 0 <= i < |d.interfaces| && x in d.interfaces[i].methods ensures MethodKnown(t.types, pending, x) {
      GrownMethod(d.types, t.types, pending, x);
    }
  }

  lemma GrownMethod(a: Table, b: Table, pending: Option<Node>, x: Method)
    requires Grown(a, b) && MethodKnown(a, pending, x)
    ensures MethodKnown(b, pending, x)
  {
    hide Known;
    GrownInterned(a, b, pending, x.ret);
    forall p | p in x.params ensures Known(b, pending, p.typ) {
      GrownInterned(a, b, pending, p.typ);
    }
  }

  lemma InternKeepsForm(d: Declarations, n: Node, names: Names)
    requires WellFormed(d.types, names) && IsContainerNode(n) && InGrammar(TypeOf(n), names)
    ensures WellFormed(WithType(d, n).types, names)
  {
    hide NodeText, InGrammar, IsIdentText, TypeOf, PrimName;
  }

  // Interning keeps the table in good order, and what is found under the
  // name of a type is that type.
  lemma InternKeeps(d: Declarations, pending: Option<Node>, n: Node)
    requires Good(d, pending) && IsContainerNode(n) && n.id == d.nextId
    requires InGrammar(TypeOf(n), NamesOf(d.types, pending)) && forall c :: c in Nested(n) ==> Known(d.types, pending, c)
    ensures Good(WithType(d, n), pending)
    ensures NodeText(n) in d.types ==> TypeOf(d.types[NodeText(n)]) == TypeOf(n)
  {
    hide *;
    GoodIs(d, pending);
    var t := WithType(d, n);
    WithTypeGrows(d, n);
    GrownNames(d.types, t.types, pending);
    InternKeepsIds(d, pending, n);
    InternKeepsNested(d, pending, n);
    InternKeepsDecls(d, pending, n);
    InternKeepsForm(d, n, NamesOf(d.types, pending));
    WithTypeIs(d, n, pending);
    GoodIs(t, pending);
    if NodeText(n) in d.types {
      SameText(d.types, d.nextId, NamesOf(d.types, pending), n);
    }
  }

  lemma GoodIs(d: Declarations, pending: Option<Node>)
    ensures Good(d, pending) <==>
              && Keyed(d.types, d.nextId) && PendingOk(pending, d.nextId)
              && UniqueIds(d.types, pending) && NestedKnown(d.types, pending)
              && AllDeclared(d.types, d.sequenceables, d.interfaces)
              && WellFormed(d.types, NamesOf(d.types, pending)) && DeclsOk(d, pending)
  {
    hide Keyed, PendingOk, UniqueIds, NestedKnown, AllDeclared, WellFormed, DeclsOk, NamesOf;
  }

  lemma WithTypeIs(d: Declarations, n: Node, pending: Option<Node>)
    requires PendingOk(pending, d.nextId)
    ensures var t := WithType(d, n);
            && t.nextId == d.nextId + 1 && t.sequenceables == d.sequenceables && t.interfaces == d.interfaces
            && PendingOk(pending, t.nextId)
  {
    hide NodeText, IsIdentText;
  }

  lemma SameText(types: Table, nextId: nat, names: Names, n: Node)
    requires Keyed(types, nextId) && WellFormed(types, names) && IsContainerNode(n) && InGrammar(TypeOf(n), names)
    requires NodeText(n) in types
    ensures TypeOf(types[NodeText(n)]) == TypeOf(n)
  {
    hide InGrammar, IsIdentText, TypeOf, PrimName, ToString;
    ContainersAreNoWords(n);
    TextDeterminesType(TypeOf(types[NodeText(n)]), TypeOf(n), names);
  }

  // ----- looking words up -----

  // What a word denotes is interned, and of the grammar.
  lemma LookupWord(d: Declarations, pending: Option<Node>, word: string)
    requires Keyed(d.types, d.nextId) && IsName(word) && ObjectOf(d.types, pending, word).Some?
    ensures var n := ObjectOf(d.types, pending, word).value;
            && Interned(d.types, pending, n) && NodeText(n) == word
            && (Good(d, pending) ==> InGrammar(TypeOf(n), NamesOf(d.types, pending)))
            && word in NamesOf(d.types, pending) && NamesOf(d.types, pending)[word] == TypeOf(n)
  {
    hide InGrammar, IsName, NamesOf, Good, TypeOf, NodeText;
    var n := ObjectOf(d.types, pending, word).value;
    NamesAreWords(word);
    NamesHave(d.types, pending, word);
    if Good(d, pending) {
      WordInGrammar(d, pending, n, word);
    }
  }

  lemma NamesHave(types: Table, pending: Option<Node>, word: string)
    requires IsIdentText(word)
    ensures word in NamesOf(types, pending) <==> ObjectOf(types, pending, word).Some?
    ensures word in NamesOf(types, pending) ==> NamesOf(types, pending)[word] == TypeOf(ObjectOf(types, pending, word).value)
  {
    hide IsName, TypeOf, NodeText, IsIdentText;
  }

  lemma WordInGrammar(d: Declarations, pending: Option<Node>, n: Node, word: string)
    requires Good(d, pending) && NodeText(n) == word && IsName(word)
    requires word in NamesOf(d.types, pending) && NamesOf(d.types, pending)[word] == TypeOf(n)
    ensures InGrammar(TypeOf(n), NamesOf(d.types, pending))
  {
    hide IsName, NamesOf, UniqueIds, NestedKnown, AllDeclared, DeclsOk, IsIdentText;
    NamesAreWords(word);
    if IsContainerNode(n) {
      ContainersAreNoWords(n);
    }
  }

  // The keyword of a primitive type finds the type.
  lemma LookupPrimitive(d: Declarations, pending: Option<Node>, token: Token)
    requires Keyed(d.types, d.nextId) && IsPrimitiveType(token)
    ensures var word := PrimitiveWord(token);
            && ObjectOf(d.types, pending, word) == (if word in d.types then Some(d.types[word]) else None)
            && (word in NamesOf(d.types, pending) <==> word in d.types)
            && (word in d.types ==> NamesOf(d.types, pending)[word] == TypeOf(d.types[word])
                                    && Interned(d.types, pending, d.types[word]))
            && (Good(d, pending) ==> word in d.types && InGrammar(TypeOf(d.types[word]), NamesOf(d.types, pending)))
  {
    hide *;
    var word := PrimitiveWord(token);
    KeywordsAreNoNames(token);
    ObjectOfKeyword(d.types, pending, word);
    NamesHave(d.types, pending, word);
    InternedIs(d.types, d.nextId, pending, word);
    if Good(d, pending) {
      PrimitiveGood(d, pending, token);
    }
  }

  lemma KeywordsAreNoNames(token: Token)
    requires IsPrimitiveType(token)
    ensures !IsName(PrimitiveWord(token)) && IsIdentText(PrimitiveWord(token))
  {
  }

  lemma ObjectOfKeyword(types: Table, pending: Option<Node>, word: string)
    requires !IsName(word)
    ensures ObjectOf(types, pending, word) == if word in types then Some(types[word]) else None
  {
    hide IsName;
  }

  lemma InternedIs(types: Table, nextId: nat, pending: Option<Node>, word: string)
    requires Keyed(types, nextId) && !IsName(word)
    ensures word in types ==> Interned(types, pending, types[word])
  {
    hide IsName, NodeText;
  }

  lemma PrimitiveGood(d: Declarations, pending: Option<Node>, token: Token)
    requires Good(d, pending) && IsPrimitiveType(token)
    ensures PrimitiveWord(token) in NamesOf(d.types, pending)
    ensures InGrammar(NamesOf(d.types, pending)[PrimitiveWord(token)], NamesOf(d.types, pending))
  {
    hide NamesOf, Keyed, PendingOk, UniqueIds, NestedKnown, AllDeclared, DeclsOk, IsIdentText;
    var p := PrimitiveOf(token);
  }

  function PrimitiveOf(token: Token): (p: Prim)
    requires IsPrimitiveType(token)
    ensures PrimName(p) == PrimitiveWord(token)
  {
    match token
    case BooleanKey => Boolean
    case CharKey => Char
    case ByteKey => Byte
    case ShortKey => Short
    case IntegerKey => Integer
    case LongKey => Long
    case FloatKey => Float
    case DoubleKey => Double
    case StringKey => String
  }

  // ----- types as they are written -----

  // Its text can be read: it is composed, a name or a primitive type's word.
  predicate Spoken(n: Node) {
    IsContainerNode(n) || IsName(NodeText(n)) || IsPrimitiveName(NodeText(n))
  }

  lemma SpokenInGrammar(d: Declarations, pending: Option<Node>, n: Node)
    requires Good(d, pending) && Interned(d.types, pending, n) && Spoken(n)
    ensures InGrammar(TypeOf(n), NamesOf(d.types, pending))
  {
    hide *;
    GoodIs(d, pending);
    SpokenIs(d.types, pending, n);
    if IsContainerNode(n) {
      ContainersAreNoWords(n);
      ComposedInGrammar(d, pending, NodeText(n));
    } else if IsName(NodeText(n)) {
      LookupWord(d, pending, NodeText(n));
    } else {
      PrimitiveInGrammar(d, pending, n);
    }
  }

  lemma SpokenIs(types: Table, pending: Option<Node>, n: Node)
    requires Spoken(n) && Interned(types, pending, n)
    ensures ObjectOf(types, pending, NodeText(n)) == Some(n)
    ensures IsContainerNode(n) || IsName(NodeText(n)) || IsPrimitiveName(NodeText(n))
    ensures IsContainerNode(n) ==> NodeText(n) in types && types[NodeText(n)] == n
  {
    hide NodeText, IsName, IsPrimitiveName, IsIdentText;
    if IsContainerNode(n) {
      ContainersAreNoWords(n);
      if IsName(NodeText(n)) {
        NamesAreWords(NodeText(n));
      }
    }
  }

  lemma ComposedInGrammar(d: Declarations, pending: Option<Node>, text: string)
    requires Good(d, pending) && text in d.types && !IsIdentText(text)
    ensures InGrammar(TypeOf(d.types[text]), NamesOf(d.types, pending))
  {
    hide InGrammar, NamesOf, IsIdentText, UniqueIds, NestedKnown, AllDeclared, DeclsOk, PrimName;
  }

  lemma PrimitiveInGrammar(d: Declarations, pending: Option<Node>, n: Node)
    requires Good(d, pending) && ObjectOf(d.types, pending, NodeText(n)) == Some(n) && IsPrimitiveName(NodeText(n))
    ensures InGrammar(TypeOf(n), NamesOf(d.types, pending))
  {
    hide NamesOf, ObjectOf, Keyed, PendingOk, UniqueIds, NestedKnown, AllDeclared, DeclsOk, IsIdentText, IsPrimitiveName, PrimName,
         NodeText, TypeOf;
    var p := PrimitiveNamed(NodeText(n));
    PrimitiveWords(p);
    NamesHave(d.types, pending, PrimName(p));
  }

  function PrimitiveNamed(name: string): (p: Prim)
    requires IsPrimitiveName(name)
    ensures PrimName(p) == name
  {
    if name == "boolean" then Boolean
    else if name == "char" then Char
    else if name == "byte" then Byte
    else if name == "short" then Short
    else if name == "int" then Integer
    else if name == "long" then Long
    else if name == "float" then Float
    else if name == "double" then Double
    else if name == "String" then String
    else Void
  }

  // ----- declarations -----

  // Declared short names are distinct, and none is the name of a primitive type.
  predicate DistinctNames(sequenceables: seq<SequenceableDecl>, interfaces: seq<InterfaceDecl>) {
    && (forall i, j :: 0 <= i < j < |sequenceables| ==> sequenceables[i].name != sequenceables[j].name)
    && (forall i, j :: 0 <= i < j < |interfaces| ==> interfaces[i].name != interfaces[j].name)
    && (forall i, j :: 0 <= i < |sequenceables| && 0 <= j < |interfaces| ==> sequenceables[i].name != interfaces[j].name)
    && (forall i :: 0 <= i < |sequenceables| ==> !IsPrimitiveName(sequenceables[i].name))
    && (forall i :: 0 <= i < |interfaces| ==> !IsPrimitiveName(interfaces[i].name))
  }

  predicate IsPrimitiveName(name: string) {
    name == "boolean" || name == "char" || name == "byte" || name == "short" || name == "int" || name == "long"
    || name == "float" || name == "double" || name == "String" || name == "void"
  }

  // A word that is neither primitive nor declared is not in the table.
  lemma NewWord(d: Declarations, pending: Option<Node>, name: string)
    requires Good(d, pending) && IsIdentText(name) && !IsPrimitiveName(name)
    requires forall i :: 0 <= i < |d.sequenceables| ==> d.sequenceables[i].name != name
    requires forall i :: 0 <= i < |d.interfaces| ==> d.interfaces[i].name != name
    ensures name !in d.types
  {
    hide NamesOf, UniqueIds, NestedKnown, DeclsOk, IsIdentText, InGrammar, WellFormed;
    if name in d.types {
      var n := d.types[name];
      assert DeclaredIn(n, d.sequenceables, d.interfaces) && NodeText(n) == name;
      if IsContainerNode(n) {
        ContainersAreNoWords(n);
      }
    }
  }

  // A new name is added to the words: nothing else changes.
  lemma WordAdded(types: Table, pending: Option<Node>, types': Table, pending': Option<Node>)
    requires forall k :: IsIdentText(k) && ObjectOf(types, pending, k).Some? ==>
               ObjectOf(types', pending', k) == ObjectOf(types, pending, k)
    ensures forall k :: k in NamesOf(types, pending) ==>
              k in NamesOf(types', pending') && NamesOf(types', pending')[k] == NamesOf(types, pending)[k]
  {
    hide NamesOf, ObjectOf, IsIdentText, TypeOf;
    forall k | k in NamesOf(types, pending)
      ensures k in NamesOf(types', pending') && NamesOf(types', pending')[k] == NamesOf(types, pending)[k]
    {
      NamesAreOfWords(types, pending, k);
      NamesHave(types, pending, k);
      NamesHave(types', pending', k);
    }
  }

  lemma NamesAreOfWords(types: Table, pending: Option<Node>, k: string)
    requires k in NamesOf(types, pending)
    ensures IsIdentText(k)
  {
  }

  lemma FormKept(types: Table, names: Names, types': Table, names': Names)
    requires WellFormed(types, names) && forall k :: k in names ==> k in names' && names'[k] == names[k]
    requires forall k :: k in types' && k !in types ==> !IsContainerNode(types'[k]) && IsIdentText(k)
    requires forall k :: k in types && k in types' ==> types'[k] == types[k]
    ensures WellFormed(types', names')
  {
    hide InGrammar, IsIdentText, TypeOf, PrimName;
    forall k | k in types' && IsContainerNode(types'[k]) ensures InGrammar(TypeOf(types'[k]), names') {
      MoreNames(TypeOf(types'[k]), names, names');
    }
  }

  // The names after the interface n is being parsed.
  lemma PendingNames(types: Table, pending: Option<Node>, n: Node)
    requires Settled(types, pending) && NodeText(n) !in types
    ensures forall k :: IsIdentText(k) && ObjectOf(types, pending, k).Some? ==>
              ObjectOf(types, Some(n), k) == ObjectOf(types, pending, k)
  {
    hide IsIdentText, NodeText;
  }

  // An interface is begun.
  lemma BeginKeeps(d: Declarations, pending: Option<Node>, n: Node)
    requires Good(d, pending) && Settled(d.types, pending)
    requires n.InterfaceNode? && n.id == d.nextId && n.name != "" && IsIdentText(n.name) && n.name !in d.types
    ensures Good(d.(nextId := d.nextId + 1), Some(n))
  {
    hide *;
    var e := d.(nextId := d.nextId + 1);
    GoodIs(d, pending);
    GoodIs(e, Some(n));
    InterfaceText(n);
    PendingNames(d.types, pending, n);
    WordAdded(d.types, pending, d.types, Some(n));
    FormKept(d.types, NamesOf(d.types, pending), d.types, NamesOf(d.types, Some(n)));
    BeginKeepsRest(d, pending, n);
  }

  lemma InterfaceText(n: Node)
    requires n.InterfaceNode?
    ensures NodeText(n) == n.name
  {
  }

  lemma BeginKeepsRest(d: Declarations, pending: Option<Node>, n: Node)
    requires Keyed(d.types, d.nextId) && UniqueIds(d.types, pending) && NestedKnown(d.types, pending) && DeclsOk(d, pending)
    requires Settled(d.types, pending) && n.InterfaceNode? && n.id == d.nextId && n.name != "" && IsIdentText(n.name)
    ensures var e := d.(nextId := d.nextId + 1);
            && Keyed(e.types, e.nextId) && PendingOk(Some(n), e.nextId) && UniqueIds(e.types, Some(n))
            && NestedKnown(e.types, Some(n)) && DeclsOk(e, Some(n))
  {
    hide NodeText, IsIdentText, Nested, DeclsOk;
    assert forall x :: Known(d.types, pending, x) ==> Known(d.types, Some(n), x);
    BeginKeepsDecls(d, pending, n);
  }

  lemma BeginKeepsDecls(d: Declarations, pending: Option<Node>, n: Node)
    requires DeclsOk(d, pending) && Settled(d.types, pending)
    ensures DeclsOk(d.(nextId := d.nextId + 1), Some(n))
  {
    hide MethodKnown, NodeText;
    forall x | MethodKnown(d.types, pending, x) ensures MethodKnown(d.types, Some(n), x) {
      BeginMethod(d.types, pending, n, x);
    }
  }

  lemma BeginMethod(types: Table, pending: Option<Node>, n: Node, x: Method)
    requires MethodKnown(types, pending, x) && Settled(types, pending)
    ensures MethodKnown(types, Some(n), x)
  {
  }

  function WithInterface(d: Declarations, n: Node, decl: InterfaceDecl): Declarations {
    d.(types := d.types[NodeText(n) := n], interfaces := d.interfaces + [decl])
  }

  // An interface is added under its name.
  lemma EndKeeps(d: Declarations, n: Node, decl: InterfaceDecl)
    requires Good(d, Some(n)) && n.InterfaceNode? && n.name !in d.types
    requires decl.id == n.id && decl.nspace == n.nspace && decl.name == n.name && forall x :: x in decl.methods ==> MethodKnown(d.types, Some(n), x)
    requires forall x :: x in d.interfaces ==> x.id != n.id
    ensures Good(WithInterface(d, n, decl), Some(n)) && Settled(WithInterface(d, n, decl).types, Some(n))
  {
    hide *;
    var e := WithInterface(d, n, decl);
    GoodIs(d, Some(n));
    GoodIs(e, Some(n));
    InterfaceText(n);
    EndNames(d, n, decl);
    WordAdded(d.types, Some(n), e.types, Some(n));
    EndForm(d, n, decl);
    FormKept(d.types, NamesOf(d.types, Some(n)), e.types, NamesOf(e.types, Some(n)));
    EndKeepsTable(d, n, decl);
    EndKeepsDecls(d, n, decl);
  }

  lemma EndForm(d: Declarations, n: Node, decl: InterfaceDecl)
    requires n.InterfaceNode? && n.name !in d.types && PendingOk(Some(n), d.nextId)
    ensures var t := WithInterface(d, n, decl).types;
            && (forall k :: k in t && k !in d.types ==> !IsContainerNode(t[k]) && IsIdentText(k))
            && (forall k :: k in d.types && k in t ==> t[k] == d.types[k])
  {
    hide IsIdentText;
  }

  lemma EndNames(d: Declarations, n: Node, decl: InterfaceDecl)
    requires n.InterfaceNode? && n.name !in d.types
    ensures var t := WithInterface(d, n, decl).types;
            forall k :: IsIdentText(k) && ObjectOf(d.types, Some(n), k).Some? ==>
              ObjectOf(t, Some(n), k) == ObjectOf(d.types, Some(n), k)
  {
    hide IsIdentText, IsName;
  }

  lemma EndKeepsTable(d: Declarations, n: Node, decl: InterfaceDecl)
    requires Keyed(d.types, d.nextId) && UniqueIds(d.types, Some(n)) && NestedKnown(d.types, Some(n)) && PendingOk(Some(n), d.nextId)
    requires n.InterfaceNode? && n.name !in d.types
    ensures var t := WithInterface(d, n, decl).types;
            && Keyed(t, d.nextId) && UniqueIds(t, Some(n)) && NestedKnown(t, Some(n)) && Settled(t, Some(n))
  {
    hide IsIdentText;
    var t := WithInterface(d, n, decl).types;
    assert forall x :: Known(d.types, Some(n), x) ==> Known(t, Some(n), x);
  }

  lemma EndKeepsDecls(d: Declarations, n: Node, decl: InterfaceDecl)
    requires AllDeclared(d.types, d.sequenceables, d.interfaces) && DeclsOk(d, Some(n)) && PendingOk(Some(n), d.nextId)
    requires n.InterfaceNode? && n.name !in d.types && decl.id == n.id && decl.nspace == n.nspace && decl.name == n.name
    requires (forall x :: x in decl.methods ==> MethodKnown(d.types, Some(n), x)) && forall x :: x in d.interfaces ==> x.id != n.id
    ensures var e := WithInterface(d, n, decl);
            AllDeclared(e.types, e.sequenceables, e.interfaces) && DeclsOk(e, Some(n)) && e.nextId == d.nextId
  {
    hide IsIdentText, ToString, MethodKnown;
    var e := WithInterface(d, n, decl);
    forall x | MethodKnown(d.types, Some(n), x) ensures MethodKnown(e.types, Some(n), x) {
      EndMethod(d, n, decl, x);
    }
    forall k | k in e.types ensures DeclaredIn(e.types[k], e.sequenceables, e.interfaces) {
      if k in d.types && k != NodeText(n) {
        StillDeclared(d.types[k], d.sequenceables, d.interfaces, decl);
      } else {
        assert e.interfaces[|d.interfaces|] == decl;
      }
    }
  }

  lemma EndMethod(d: Declarations, n: Node, decl: InterfaceDecl, x: Method)
    requires MethodKnown(d.types, Some(n), x) && n.InterfaceNode? && n.name !in d.types
    ensures MethodKnown(WithInterface(d, n, decl).types, Some(n), x)
  {
  }

  lemma StillDeclared(n: Node, sequenceables: seq<SequenceableDecl>, interfaces: seq<InterfaceDecl>, decl: InterfaceDecl)
    requires DeclaredIn(n, sequenceables, interfaces)
    ensures DeclaredIn(n, sequenceables, interfaces + [decl])
  {
    if n.InterfaceNode? {
      var i :| 0 <= i < |interfaces| && interfaces[i].id == n.id && interfaces[i].nspace == n.nspace && interfaces[i].name == n.name;
      assert (interfaces + [decl])[i] == interfaces[i];
    }
  }

  function WithSequenceable(d: Declarations, n: Node, decl: SequenceableDecl): Declarations {
    d.(types := d.types[NodeText(n) := n], nextId := d.nextId + 1, sequenceables := d.sequenceables + [decl])
  }

  // A sequenceable is added under its name.
  lemma SequenceableKeeps(d: Declarations, pending: Option<Node>, n: Node, decl: SequenceableDecl)
    requires Good(d, pending) && Settled(d.types, pending)
    requires n.SequenceableNode? && n.id == d.nextId && n.name != "" && IsIdentText(n.name) && n.name !in d.types
    requires decl.id == n.id && decl.nspace == n.nspace && decl.name == n.name
    ensures Good(WithSequenceable(d, n, decl), pending) && Settled(WithSequenceable(d, n, decl).types, pending)
  {
    hide *;
    var e := WithSequenceable(d, n, decl);
    GoodIs(d, pending);
    GoodIs(e, pending);
    SequenceableNames(d, pending, n, decl);
    WordAdded(d.types, pending, e.types, pending);
    FormKept(d.types, NamesOf(d.types, pending), e.types, NamesOf(e.types, pending));
    SequenceableKeepsTable(d, pending, n, decl);
    SequenceableKeepsDecls(d, pending, n, decl);
  }

  lemma SequenceableNames(d: Declarations, pending: Option<Node>, n: Node, decl: SequenceableDecl)
    requires n.SequenceableNode? && n.name !in d.types && IsIdentText(n.name) && Settled(d.types, pending)
    ensures var t := WithSequenceable(d, n, decl).types;
            && (forall k :: IsIdentText(k) && ObjectOf(d.types, pending, k).Some? ==>
                              ObjectOf(t, pending, k) == ObjectOf(d.types, pending, k))
            && (forall k :: k in t && k !in d.types ==> !IsContainerNode(t[k]) && IsIdentText(k))
            && (forall k :: k in d.types && k in t ==> t[k] == d.types[k])
            && Settled(t, pending)
  {
    hide IsIdentText, IsName;
  }

  lemma SequenceableKeepsTable(d: Declarations, pending: Option<Node>, n: Node, decl: SequenceableDecl)
    requires Keyed(d.types, d.nextId) && UniqueIds(d.types, pending) && NestedKnown(d.types, pending) && PendingOk(pending, d.nextId)
    requires n.SequenceableNode? && n.name !in d.types && n.id == d.nextId && IsIdentText(n.name)
    ensures var e := WithSequenceable(d, n, decl);
            && Keyed(e.types, e.nextId) && UniqueIds(e.types, pending) && NestedKnown(e.types, pending) && PendingOk(pending, e.nextId)
  {
    hide IsIdentText;
    var t := WithSequenceable(d, n, decl).types;
    assert forall x :: Known(d.types, pending, x) ==> Known(t, pending, x);
  }

  lemma SequenceableKeepsDecls(d: Declarations, pending: Option<Node>, n: Node, decl: SequenceableDecl)
    requires AllDeclared(d.types, d.sequenceables, d.interfaces) && DeclsOk(d, pending)
    requires n.SequenceableNode? && n.name != "" && n.name !in d.types && n.id == d.nextId
    requires decl.id == n.id && decl.nspace == n.nspace && decl.name == n.name
    ensures var e := WithSequenceable(d, n, decl);
            AllDeclared(e.types, e.sequenceables, e.interfaces) && DeclsOk(e, pending)
  {
    hide IsIdentText, ToString, MethodKnown;
    var e := WithSequenceable(d, n, decl);
    forall x | MethodKnown(d.types, pending, x) ensures MethodKnown(e.types, pending, x) {
      SequenceableMethod(d, pending, n, decl, x);
    }
    forall k | k in e.types ensures DeclaredIn(e.types[k], e.sequenceables, e.interfaces) {
      if k in d.types && k != NodeText(n) {
        StillDeclaredToo(d.types[k], d.sequenceables, d.interfaces, decl);
      } else {
        assert e.sequenceables[|d.sequenceables|] == decl;
      }
    }
  }

  lemma SequenceableMethod(d: Declarations, pending: Option<Node>, n: Node, decl: SequenceableDecl, x: Method)
    requires MethodKnown(d.types, pending, x) && n.SequenceableNode? && n.name !in d.types
    ensures MethodKnown(WithSequenceable(d, n, decl).types, pending, x)
  {
  }

  lemma StillDeclaredToo(n: Node, sequenceables: seq<SequenceableDecl>, interfaces: seq<InterfaceDecl>, decl: SequenceableDecl)
    requires DeclaredIn(n, sequenceables, interfaces)
    ensures DeclaredIn(n, sequenceables + [decl], interfaces)
  {
    if n.SequenceableNode? {
      var i :| 0 <= i < |sequenceables| && sequenceables[i] == SequenceableDecl(n.id, n.nspace, n.name);
      assert (sequenceables + [decl])[i] == sequenceables[i];
    }
  }

  // The table a module starts with.
  lemma FirstIsGood()
    ensures Good(Declarations(FirstTypes(), 10, [], []), None) && Keyed(FirstTypes(), 10) && Settled(FirstTypes(), None)
  {
    hide *;
    var d := Declarations(FirstTypes(), 10, [], []);
    GoodIs(d, None);
    FirstEntries();
    FirstForm();
    FirstRest(d);
  }

  lemma FirstEntries()
    ensures Keyed(FirstTypes(), 10) && UniqueIds(FirstTypes(), None) && NestedKnown(FirstTypes(), None)
    ensures AllDeclared(FirstTypes(), [], []) && PendingOk(None, 10) && Settled(FirstTypes(), None)
  {
    hide FirstTypes;
    forall k | k in FirstTypes() ensures FirstTypes()[k].PrimitiveNode? && NodeText(FirstTypes()[k]) == k {
      FirstIs(k);
    }
    forall k | k in FirstTypes() ensures FirstTypes()[k].id < 10 && IsIdentText(k) {
      FirstIs(k);
      FirstAreWords(k);
    }
    forall j, k | j in FirstTypes() && k in FirstTypes() && FirstTypes()[j].id == FirstTypes()[k].id ensures j == k {
      FirstIs(j);
      FirstIs(k);
    }
  }

  function FirstName(id: nat): string {
    if id == 0 then "boolean" else if id == 1 then "byte" else if id == 2 then "short" else if id == 3 then "int"
    else if id == 4 then "long" else if id == 5 then "float" else if id == 6 then "double" else if id == 7 then "char"
    else if id == 8 then "String" else "void"
  }

  lemma FirstIs(k: string)
    requires k in FirstTypes()
    ensures var n := FirstTypes()[k]; n.PrimitiveNode? && n.id < 10 && NodeText(n) == k == FirstName(n.id)
  {
  }

  lemma FirstHas(p: Prim)
    ensures PrimName(p) in FirstTypes() && TypeOf(FirstTypes()[PrimName(p)]) == Primitive(p)
  {
  }

  lemma FirstForm()
    ensures WellFormed(FirstTypes(), NamesOf(FirstTypes(), None))
  {
    hide FirstTypes, NamesOf, TypeOf, IsIdentText, PrimName;
    var types := FirstTypes();
    var names := NamesOf(types, None);
    forall p: Prim ensures PrimName(p) in names && names[PrimName(p)] == Primitive(p) {
      FirstHas(p);
      PrimitiveWords(p);
      NamesHave(types, None, PrimName(p));
    }
    forall k | k in types ensures IsIdentText(k) && !IsContainerNode(types[k]) {
      FirstAreWords(k);
    }
  }

  lemma FirstRest(d: Declarations)
    requires d.sequenceables == [] && d.interfaces == []
    ensures DeclsOk(d, None)
  {
  }

  lemma FirstAreWords(k: string)
    requires k in FirstTypes()
    ensures IsIdentText(k) && !IsContainerNode(FirstTypes()[k])
  {
    assert k in {"boolean", "byte", "short", "int", "long", "float", "double", "char", "String", "void"};
  }
}
