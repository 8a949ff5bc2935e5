/** The syntax tree a parse leaves behind, as the metadata builder reads it. A
    node's `id` stands for the address of the object in the compiler. */
module IdlAst {
  import opened IdlTypes

  datatype Node =
    | PrimitiveNode(id: nat, prim: Prim)
    | SequenceableNode(id: nat, nspace: string, name: string)
    | InterfaceNode(id: nat, nspace: string, name: string)
    | ListNode(id: nat, element: Node)
    | MapNode(id: nat, key: Node, value: Node)
    | ArrayNode(id: nat, element: Node)

  function TypeOf(n: Node): Type {
    match n
    case PrimitiveNode(_, p) => Primitive(p)
    case SequenceableNode(_, s, n) => Sequenceable(s, n)
    case InterfaceNode(_, s, n) => Interface(s, n)
    case ListNode(_, e) => List(TypeOf(e))
    case MapNode(_, k, v) => Map(TypeOf(k), TypeOf(v))
    case ArrayNode(_, e) => Array(TypeOf(e))
  }

  function Nested(n: Node): seq<Node> {
    match n
    case ListNode(_, e) => [e]
    case MapNode(_, k, v) => [k, v]
    case ArrayNode(_, e) => [e]
    case _ => []
  }

  function NodeText(n: Node): string {
    ToString(TypeOf(n))
  }

  // A string that may never have been set.
  datatype Text = Null | Text(chars: string)

  datatype Param = Param(name: string, isIn: bool, isOut: bool, typ: Node)

  datatype Method = Method(name: string, oneway: bool, ret: Node, params: seq<Param>)

  datatype InterfaceDecl = InterfaceDecl(
    id: nat, license: Text, nspace: string, name: string, oneway: bool, external: bool, methods: seq<Method>)

  datatype SequenceableDecl = SequenceableDecl(id: nat, nspace: string, name: string)

  // A namespace lists its declarations by address.
  datatype Namespace = Namespace(
    name: string, sequenceables: seq<nat>, interfaces: seq<nat>, inner: seq<Namespace>)

  datatype TypeEntry = TypeEntry(key: string, node: Node)

  // The type table is listed in the (unspecified) order of its hash map.
  datatype Module = Module(
    name: string, namespaces: seq<Namespace>, sequenceables: seq<SequenceableDecl>,
    interfaces: seq<InterfaceDecl>, types: seq<TypeEntry>)
  {
    predicate IsValid() {
      name != "" && interfaces != []
    }
  }

  // The place of an address in a list of addresses, or -1.
  function IndexIn(ids: seq<nat>, id: nat): (i: int)
    ensures -1 <= i < |ids|
    ensures i == -1 <==> id !in ids
    ensures i != -1 ==> ids[i] == id
    ensures i != -1 ==> id !in ids[..i]
  {
    if ids == [] then -1
    else if ids[0] == id then 0
    else
      var rest := IndexIn(ids[1..], id);
      if rest == -1 then -1 else rest + 1
  }

  lemma IndexInIs(ids: seq<nat>, id: nat, i: nat)
    requires i < |ids| && ids[i] == id && id !in ids[..i]
    ensures IndexIn(ids, id) == i
  {
  }

  function TypeIds(types: seq<TypeEntry>): seq<nat> {
    seq(|types|, i requires 0 <= i < |types| => types[i].node.id)
  }

  function SequenceableIds(ds: seq<SequenceableDecl>): seq<nat> {
    seq(|ds|, i requires 0 <= i < |ds| => ds[i].id)
  }

  function InterfaceIds(ds: seq<InterfaceDecl>): seq<nat> {
    seq(|ds|, i requires 0 <= i < |ds| => ds[i].id)
  }
}
