/** The types of the interface definition language, as trees. A declared type
    carries the printed name of its namespace ("a.b.") and its short name. */
module IdlTypes {

  datatype Option<T> = None | Some(value: T)

  datatype Prim = Boolean | Char | Byte | Short | Integer | Long | Float | Double | String | Void

  datatype Type =
    | Primitive(prim: Prim)
    | Sequenceable(nspace: string, name: string)
    | Interface(nspace: string, name: string)
    | List(element: Type)
    | Map(key: Type, value: Type)
    | Array(element: Type)
  {
    predicate IsNamed() {
      Sequenceable? || Interface?
    }

    predicate IsContainer() {
      List? || Map? || Array?
    }

    predicate IsVoid() {
      this == Primitive(Void)
    }
  }

  function PrimName(p: Prim): string {
    match p
    case Boolean => "boolean"
    case Char => "char"
    case Byte => "byte"
    case Short => "short"
    case Integer => "int"
    case Long => "long"
    case Float => "float"
    case Double => "double"
    case String => "String"
    case Void => "void"
  }

  // The printed form of a type: what the type table is keyed by.
  function ToString(t: Type): string {
    match t
    case Primitive(p) => PrimName(p)
    case Sequenceable(_, n) => n
    case Interface(_, n) => n
    case List(e) => "List<" + ToString(e) + ">"
    case Map(k, v) => "Map<" + ToString(k) + ", " + ToString(v) + ">"
    case Array(e) => ToString(e) + "[]"
  }

  predicate IsLetter(c: char) {
    'a' <= c <= 'z' || 'A' <= c <= 'Z'
  }

  predicate IsDigit(c: char) {
    '0' <= c <= '9'
  }

  // The characters the lexer accepts inside an identifier.
  predicate IsIdentChar(c: char) {
    IsLetter(c) || c == '_' || IsDigit(c) || c == '.'
  }

  predicate IsIdentText(s: string) {
    forall i :: 0 <= i < |s| ==> IsIdentChar(s[i])
  }
}
