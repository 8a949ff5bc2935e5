/** Method signatures: the type code every AST type contributes, the cached
    signature a method builds from them, and the proof that the code can be
    decoded in only one way. */
module Signatures {
  import opened IdlTypes

  function PrimCode(p: Prim): char {
    match p
    case Boolean => 'Z'
    case Byte => 'B'
    case Char => 'C'
    case Double => 'D'
    case Float => 'F'
    case Integer => 'I'
    case Long => 'J'
    case Short => 'S'
    case String => 'T'
    case Void => 'V'
  }

  function ReplaceChar(s: string, old_: char, new_: char): (r: string)
    ensures |r| == |s|
    ensures forall i :: 0 <= i < |s| ==> r[i] == if s[i] == old_ then new_ else s[i]
  {
    seq(|s|, i requires 0 <= i < |s| => if s[i] == old_ then new_ else s[i])
  }

  function FullName(t: Type): string
    requires t.IsNamed()
  {
    t.nspace + t.name
  }

  function Signature(t: Type): string {
    match t
    case Primitive(p) => [PrimCode(p)]
    case Sequenceable(_, _) => "L" + ReplaceChar(FullName(t), '.', '/') + ";"
    case Interface(_, _) => "L" + ReplaceChar(FullName(t), '.', '/') + ";"
    case List(e) => "LList[" + Signature(e) + "];"
    case Map(k, v) => "LMap[" + Signature(k) + Signature(v) + "];"
    case Array(e) => "[" + Signature(e)
  }

  function Concat(ts: seq<Type>): string {
    if ts == [] then "" else Signature(ts[0]) + Concat(ts[1..])
  }

  function MethodSignature(returnType: Type, parameters: seq<Type>): string {
    "(" + Signature(returnType) + ")" + Concat(parameters)
  }

  // Every named part of `t` is one of the declarations.
  predicate Over(t: Type, decls: set<Type>) {
    match t
    case Primitive(_) => true
    case Sequenceable(_, _) => t in decls
    case Interface(_, _) => t in decls
    case List(e) => Over(e, decls)
    case Map(k, v) => Over(k, decls) && Over(v, decls)
    case Array(e) => Over(e, decls)
  }

  // Declarations have identifier names and each full name is declared once.
  ghost predicate DeclaredOnce(decls: set<Type>) {
    && (forall d :: d in decls ==> d.IsNamed() && IsIdentText(FullName(d)))
    && (forall c, d :: c in decls && d in decls && FullName(c) == FullName(d) ==> c == d)
  }

  class ASTMethod {
    var returnType: Type
    var parameters: seq<Type>
    var signature: string

    constructor (returnType: Type)
      ensures this.returnType == returnType && parameters == [] && signature == ""
    {
      this.returnType, parameters, signature := returnType, [], "";
    }

    method AddParameter(p: Type)
      modifies this`parameters
      ensures parameters == old(parameters) + [p]
    {
      parameters := parameters + [p];
    }

    method BuildSignature()
      modifies this`signature
      ensures signature == MethodSignature(returnType, parameters)
    {
      var sb := "(" + Signature(returnType) + ")";
      var i := 0;
      while i < |parameters|
        invariant i <= |parameters|
        invariant sb + Concat(parameters[i..]) == MethodSignature(returnType, parameters)
      {
        sb := sb + Signature(parameters[i]);
        i := i + 1;
      }
      signature := sb;
    }

    // The signature is cached: parameters added after the first call are not in it.
    method GetSignature() returns (r: string)
      modifies this`signature
      ensures r == signature
      ensures r == if old(signature) == "" then MethodSignature(returnType, parameters) else old(signature)
    {
      if signature == "" {
        BuildSignature();
      }
      r := signature;
    }
  }

  // `i` is the first place of `s` that holds one of `marks`.
  predicate FirstMark(s: string, marks: string, i: nat) {
    i < |s| && s[i] in marks && forall j :: 0 <= j < i ==> s[j] !in marks
  }

  // A text without `stop`, closed by `stop`, can be split off in only one way.
  lemma SplitAt(a: string, x: string, b: string, y: string, stop: char)
    requires stop !in a && stop !in b
    requires a + [stop] + x == b + [stop] + y
    ensures a == b && x == y
  {
    var l, r := a + [stop] + x, b + [stop] + y;
    assert FirstMark(l, [stop], |a|);
    assert FirstMark(r, [stop], |b|);
    assert a == l[..|a|] && b == r[..|b|];
    assert x == l[|a| + 1..] && y == r[|b| + 1..];
  }

  lemma CommonPrefix(p: string, x: string, y: string)
    requires p + x == p + y
    ensures x == y
  {
    assert x == (p + x)[|p|..] && y == (p + y)[|p|..];
  }

  // No identifier code starts like a container code: the latter meets '['
  // where the former still has an identifier character or its ';'.
  lemma NamedIsNotContainer(a: string, x: string, word: string, y: string)
    requires ';' !in a && '[' !in a
    requires ';' !in word && '[' !in word
    ensures "L" + a + ";" + x != "L" + word + "[" + y
  {
    var l, r := "L" + a + ";" + x, "L" + word + "[" + y;
    assert FirstMark(l, ";[", 1 + |a|) && l[1 + |a|] == ';';
    assert FirstMark(r, ";[", 1 + |word|) && r[1 + |word|] == '[';
  }

  lemma SlashedName(t: Type, decls: set<Type>) returns (a: string)
    requires t.IsNamed() && t in decls && DeclaredOnce(decls)
    ensures a == ReplaceChar(FullName(t), '.', '/')
    ensures Signature(t) == "L" + a + ";"
    ensures ';' !in a && '[' !in a
  {
    a := ReplaceChar(FullName(t), '.', '/');
    assert forall i :: 0 <= i < |a| ==> IsIdentChar(FullName(t)[i]);
  }

  lemma SameNamed(t: Type, x: string, u: Type, y: string, decls: set<Type>)
    requires DeclaredOnce(decls) && t in decls && u in decls
    requires Signature(t) + x == Signature(u) + y
    ensures t == u && x == y
  {
    var a := SlashedName(t, decls);
    var b := SlashedName(u, decls);
    assert "L" + (a + ";" + x) == Signature(t) + x;
    assert "L" + (b + ";" + y) == Signature(u) + y;
    CommonPrefix("L", a + ";" + x, b + ";" + y);
    SplitAt(a, x, b, y, ';');
    var f, g := FullName(t), FullName(u);
    forall i | 0 <= i < |f| ensures f[i] == g[i] {
      assert IsIdentChar(f[i]) && IsIdentChar(g[i]);
      assert a[i] == b[i];
    }
    assert f == g;
  }

  // What follows the first two characters of a code that starts with "L".
  lemma NamedVersusContainer(t: Type, x: string, u: Type, y: string, decls: set<Type>)
    requires DeclaredOnce(decls) && t in decls && (u.List? || u.Map?)
    ensures Signature(t) + x != Signature(u) + y
  {
    var a := SlashedName(t, decls);
    assert Signature(t) + x == "L" + a + ";" + x;
    if u.List? {
      NamedIsNotContainer(a, x, "List", Signature(u.element) + "];" + y);
      assert Signature(u) + y == "L" + "List" + "[" + (Signature(u.element) + "];" + y);
    } else {
      var body := Signature(u.key) + Signature(u.value) + "];" + y;
      NamedIsNotContainer(a, x, "Map", body);
      assert Signature(u) + y == "L" + "Map" + "[" + body;
    }
  }

  lemma FirstCharacter(t: Type, x: string)
    ensures |Signature(t) + x| >= 1
    ensures (Signature(t) + x)[0] == match t
            case Primitive(p) => PrimCode(p)
            case Array(_) => '['
            case _ => 'L'
  {
  }

  // The code is prefix-free: whatever follows, the type is determined.
  lemma {:induction false} PrefixFree(t: Type, x: string, u: Type, y: string, decls: set<Type>)
    requires DeclaredOnce(decls) && Over(t, decls) && Over(u, decls)
    requires Signature(t) + x == Signature(u) + y
    ensures t == u && x == y
    decreases t, 1
  {
    FirstCharacter(t, x);
    FirstCharacter(u, y);
    if t.Primitive? {
      CommonPrefix(Signature(t), x, y);
    } else if t.Array? {
      assert Signature(t) + x == "[" + (Signature(t.element) + x);
      assert Signature(u) + y == "[" + (Signature(u.element) + y);
      CommonPrefix("[", Signature(t.element) + x, Signature(u.element) + y);
      PrefixFree(t.element, x, u.element, y, decls);
    } else if t.IsNamed() && u.IsNamed() {
      SameNamed(t, x, u, y, decls);
    } else if t.IsNamed() {
      NamedVersusContainer(t, x, u, y, decls);
      assert false;
    } else if u.IsNamed() {
      NamedVersusContainer(u, y, t, x, decls);
      assert false;
    } else {
      SecondCharacter(t, x);
      SecondCharacter(u, y);
      SameContainer(t, x, u, y, decls);
    }
  }

  lemma {:induction false} SameContainer(t: Type, x: string, u: Type, y: string, decls: set<Type>)
    requires (t.List? && u.List?) || (t.Map? && u.Map?)
    requires DeclaredOnce(decls) && Over(t, decls) && Over(u, decls)
    requires Signature(t) + x == Signature(u) + y
    ensures t == u && x == y
    decreases t, 0
  {
    if t.List? {
      ListCode(t, x);
      ListCode(u, y);
      hide Signature, DeclaredOnce;
      CommonPrefix("LList[", Signature(t.element) + ("];" + x), Signature(u.element) + ("];" + y));
      PrefixFree(t.element, "];" + x, u.element, "];" + y, decls);
    } else {
      var tv, uv := Signature(t.value) + ("];" + x), Signature(u.value) + ("];" + y);
      MapCode(t, x);
      MapCode(u, y);
      hide Signature, DeclaredOnce;
      CommonPrefix("LMap[", Signature(t.key) + tv, Signature(u.key) + uv);
      PrefixFree(t.key, tv, u.key, uv, decls);
      PrefixFree(t.value, "];" + x, u.value, "];" + y, decls);
    }
    CommonPrefix("];", x, y);
  }

  lemma SecondCharacter(t: Type, x: string)
    requires t.List? || t.Map?
    ensures |Signature(t) + x| >= 2
    ensures (Signature(t) + x)[1] == if t.List? then 'L' else 'M'
  {
  }

  lemma ListCode(t: Type, x: string)
    requires t.List?
    ensures Signature(t) + x == "LList[" + (Signature(t.element) + ("];" + x))
  {
    var e := Signature(t.element);
    assert Signature(t) == "LList[" + e + "];";
    assert "LList[" + e + "];" + x == "LList[" + (e + ("];" + x));
  }

  lemma MapCode(t: Type, x: string)
    requires t.Map?
    ensures Signature(t) + x == "LMap[" + (Signature(t.key) + (Signature(t.value) + ("];" + x)))
  {
    var k, v := Signature(t.key), Signature(t.value);
    assert Signature(t) == "LMap[" + k + v + "];";
    assert "LMap[" + k + v + "];" + x == "LMap[" + (k + (v + ("];" + x)));
  }

  lemma {:induction false} ConcatInjective(ts: seq<Type>, us: seq<Type>, decls: set<Type>)
    requires DeclaredOnce(decls)
    requires forall t :: t in ts ==> Over(t, decls)
    requires forall u :: u in us ==> Over(u, decls)
    requires Concat(ts) == Concat(us)
    ensures ts == us
  {
    if ts == [] {
      if us != [] {
        FirstCharacter(us[0], Concat(us[1..]));
      }
    } else {
      FirstCharacter(ts[0], Concat(ts[1..]));
      PrefixFree(ts[0], Concat(ts[1..]), us[0], Concat(us[1..]), decls);
      ConcatInjective(ts[1..], us[1..], decls);
    }
  }

  // The return type and the whole parameter list can be recovered from a signature.
  lemma SignatureDecodable(r: Type, ps: seq<Type>, r': Type, ps': seq<Type>, decls: set<Type>)
    requires DeclaredOnce(decls)
    requires Over(r, decls) && forall t :: t in ps ==> Over(t, decls)
    requires Over(r', decls) && forall t :: t in ps' ==> Over(t, decls)
    ensures MethodSignature(r, ps) == MethodSignature(r', ps') <==> r == r' && ps == ps'
  {
    hide Signature, Concat, Over, DeclaredOnce;
    if MethodSignature(r, ps) == MethodSignature(r', ps') {
      var x, y := ")" + Concat(ps), ")" + Concat(ps');
      assert MethodSignature(r, ps) == "(" + (Signature(r) + x);
      assert MethodSignature(r', ps') == "(" + (Signature(r') + y);
      CommonPrefix("(", Signature(r) + x, Signature(r') + y);
      PrefixFree(r, x, r', y, decls);
      CommonPrefix(")", Concat(ps), Concat(ps'));
      ConcatInjective(ps, ps', decls);
    }
  }

  // What each type contributes, spelled out; a type of every kind is among them.
  lemma SignaturesSpelled()
    ensures Signature(Primitive(Boolean)) == "Z" && Signature(Primitive(Byte)) == "B" && Signature(Primitive(Char)) == "C"
    ensures Signature(Primitive(Double)) == "D" && Signature(Primitive(Float)) == "F" && Signature(Primitive(Integer)) == "I"
    ensures Signature(Primitive(Long)) == "J" && Signature(Primitive(Short)) == "S" && Signature(Primitive(String)) == "T"
    ensures Signature(Primitive(Void)) == "V"
    ensures Signature(List(Primitive(String))) == "LList[T];"
    ensures Signature(Map(Primitive(Long), Array(Primitive(Byte)))) == "LMap[J[B];"
    ensures Signature(Interface("a.b.", "C")) == Signature(Sequenceable("a.b.", "C")) == "La/b/C;"
  {
    NestedSpelled();
    NamedSpelled();
  }

  lemma NestedSpelled()
    ensures Signature(List(Primitive(String))) == "LList[T];"
    ensures Signature(Map(Primitive(Long), Array(Primitive(Byte)))) == "LMap[J[B];"
  {
    var j, b := Primitive(Long), Array(Primitive(Byte));
    assert Signature(j) == "J" && Signature(b) == "[B";
    assert Signature(Map(j, b)) == "LMap[" + "J" + "[B" + "];";
  }

  lemma NamedSpelled()
    ensures Signature(Interface("a.b.", "C")) == Signature(Sequenceable("a.b.", "C")) == "La/b/C;"
  {
    var full := ReplaceChar("a.b.C", '.', '/');
    assert "a.b." + "C" == "a.b.C";
    assert full == "a/b/C";
  }

  // A method's signature is its result in parentheses and its parameters in order.
  lemma {:induction false} SignatureIsOrdered(r: Type, ps: seq<Type>, p: Type)
    ensures MethodSignature(r, []) == "(" + Signature(r) + ")"
    ensures MethodSignature(r, ps + [p]) == MethodSignature(r, ps) + Signature(p)
  {
    ConcatAtEnd(ps, p);
    var c := Concat(ps);
    assert "(" + Signature(r) + ")" + (c + Signature(p)) == "(" + Signature(r) + ")" + c + Signature(p);
  }

  lemma {:induction false} ConcatAtEnd(ps: seq<Type>, p: Type)
    ensures Concat(ps + [p]) == Concat(ps) + Signature(p)
  {
    hide Signature;
    if ps == [] {
      assert [p][1..] == [];
    } else {
      ConcatAtEnd(ps[1..], p);
      assert (ps + [p])[1..] == ps[1..] + [p];
    }
  }
}
