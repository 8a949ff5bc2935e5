/** Declarations printed and read back: what a person would write for a
    parameter, a method, an interface or a whole file reads as exactly that. */
module PrintedText {
  import opened IdlTypes
  import opened Lexing
  import opened TypeText
  import opened SourceText

  // ----- printing -----

  function AttributesText(isIn: bool, isOut: bool): string {
    if isIn && isOut then "[inout]" else if isIn then "[in]" else if isOut then "[out]" else "[]"
  }

  function ParamText(x: ParamForm): string {
    AttributesText(x.isIn, x.isOut) + " " + ToString(x.typ) + " " + x.name
  }

  // Parameters up to the closing parenthesis.
  function ParamsText(xs: seq<ParamForm>): string {
    if xs == [] then ")" else ParamText(xs[0]) + (if |xs| == 1 then "" else ", ") + ParamsText(xs[1..])
  }

  function MethodText(x: MethodForm): string {
    (if x.oneway then "[oneway] " else "") + ToString(x.ret) + " " + x.name + "(" + ParamsText(x.params) + ";"
  }

  // Methods, a line each, up to the closing brace.
  function MethodsText(xs: seq<MethodForm>): string {
    if xs == [] then "}" else MethodText(xs[0]) + (if |xs| == 1 then "" else "\n") + MethodsText(xs[1..])
  }

  function FullName(nspace: string, name: string): string {
    if nspace == "." then name else nspace + name
  }

  function InterfaceText(x: InterfaceForm): string {
    (if x.oneway then "[oneway] " else "") + "interface " + FullName(x.nspace, x.name)
    + if x.external then ";" else " {" + MethodsText(x.methods)
  }

  function SequenceableText(x: SequenceableForm): string {
    "sequenceable " + FullName(x.nspace, x.name) + ";"
  }

  function PartText(x: Part): string {
    match x
    case InterfacePart(i) => InterfaceText(i)
    case SequenceablePart(s) => SequenceableText(s)
  }

  function FileText(parts: seq<Part>): string {
    if parts == [] then "" else PartText(parts[0]) + "\n" + FileText(parts[1..])
  }

  // ----- what can be written -----

  predicate ParamSayable(x: ParamForm, names: Names) {
    InGrammar(x.typ, names) && IsName(x.name)
  }

  predicate MethodSayable(x: MethodForm, names: Names, onewayInterface: bool) {
    && InGrammar(x.ret, names) && IsName(x.name)
    && (forall i :: 0 <= i < |x.params| ==> ParamSayable(x.params[i], names))
    && (onewayInterface || x.oneway ==> x.ret.IsVoid() && !AnyOut(x.params))
  }

  // The full name is a word, and splits into the two at its last dot.
  predicate NameSayable(nspace: string, name: string) {
    var full := FullName(nspace, name);
    && IsName(full) && IsValidTypeName(full) && name != "" && '.' !in name
    && nspace != "" && nspace[|nspace| - 1] == '.'
  }

  predicate InterfaceSayable(x: InterfaceForm, names: Names, config: Config) {
    && NameSayable(x.nspace, x.name) && (x.nspace != "." || config.targetIsTs)
    && if x.external then !x.oneway && x.methods == []
       else
         && x.name == config.moduleName && x.methods != []
         && forall i :: 0 <= i < |x.methods| ==> MethodSayable(x.methods[i], BodyNames(names, x.nspace, x.name), x.oneway)
  }

  predicate PartSayable(x: Part, names: Names, config: Config) {
    match x
    case InterfacePart(i) => InterfaceSayable(i, names, config)
    case SequenceablePart(s) => NameSayable(s.nspace, s.name)
  }

  // Each declaration may use the names declared before it.
  predicate FileSayable(parts: seq<Part>, names: Names, config: Config) {
    parts == []
    || (PartSayable(parts[0], names, config) && FileSayable(parts[1..], NamesAfter(names, parts[0]), config))
  }

  // ----- texts in a text -----

  predicate Here(src: string, p: nat, text: string) {
    p + |text| <= |src| && src[p..p + |text|] == text
  }

  lemma HereJoin(src: string, p: nat, a: string, b: string)
    ensures Here(src, p, a + b) <==> Here(src, p, a) && Here(src, p + |a|, b)
  {
    if p + |a| + |b| <= |src| {
      var s := src[p..p + |a + b|];
      assert s[..|a|] == src[p..p + |a|] && s[|a|..] == src[p + |a|..p + |a| + |b|];
      assert (a + b)[..|a|] == a && (a + b)[|a|..] == b;
    }
  }

  lemma HereThree(src: string, p: nat, a: string, b: string, c: string)
    ensures Here(src, p, a + b + c) <==> Here(src, p, a) && Here(src, p + |a|, b) && Here(src, p + |a| + |b|, c)
  {
    hide Here;
    HereJoin(src, p, a + b, c);
    HereJoin(src, p, a, b);
  }

  lemma HereFits(src: string, p: nat, text: string)
    requires Here(src, p, text)
    ensures p + |text| <= |src|
  {
  }

  lemma HereChar(src: string, p: nat, text: string, i: nat)
    requires Here(src, p, text) && i < |text|
    ensures p + i < |src| && src[p + i] == text[i]
  {
    assert src[p..p + |text|][i] == src[p + i];
  }

  // ----- tokens -----

  predicate IsSymbol(c: char) {
    c in {'<', '>', '{', '}', '[', ']', ',', '(', ')', ';'}
  }

  lemma SymbolNext(src: string, p: nat, c: char)
    requires p < |src| && src[p] == c && IsSymbol(c)
    ensures Next(src, p) == Scan(Symbol(c), "", p + 1)
  {
  }

  lemma SymbolsAre()
    ensures Symbol('[') == BracketsLeft && Symbol(']') == BracketsRight && Symbol('(') == ParenthesesLeft
            && Symbol(')') == ParenthesesRight && Symbol('{') == BracesLeft && Symbol('}') == BracesRight
            && Symbol(',') == Comma && Symbol(';') == Semicolon
    ensures IsSymbol('[') && IsSymbol(']') && IsSymbol('(') && IsSymbol(')') && IsSymbol('{') && IsSymbol('}')
            && IsSymbol(',') && IsSymbol(';')
  {
  }

  predicate IsWord(text: string) {
    text != "" && StartsWord(text[0]) && IsIdentText(text)
  }

  // A word, and whatever ends it: a white space goes with it.
  lemma WordNext(src: string, p: nat, word: string)
    requires Here(src, p, word) && IsWord(word) && p + |word| < |src| && !IsIdentChar(src[p + |word|])
    ensures Next(src, p)
            == Scan(Keyword(word), word, if IsSpace(src[p + |word|]) then p + |word| + 1 else p + |word|)
  {
    hide Keyword, IsIdentChar, IsSpace, StartsWord;
    WordAt(src, p, word);
  }

  lemma EndsWord(c: char)
    requires c in {' ', '\n', '[', ']', '(', ')', ',', ';', '{', '}'}
    ensures !IsIdentChar(c) && (IsSpace(c) <==> c in {' ', '\n'})
  {
  }

  lemma KeywordsAre()
    ensures Keyword("in") == InKey && Keyword("out") == OutKey && Keyword("inout") == InoutKey
    ensures Keyword("oneway") == OnewayKey && Keyword("interface") == InterfaceKey && Keyword("sequenceable") == SequenceableKey
    ensures IsWord("in") && IsWord("out") && IsWord("inout") && IsWord("oneway") && IsWord("interface") && IsWord("sequenceable")
  {
  }

  lemma NamesAre(word: string)
    requires IsName(word)
    ensures IsWord(word) && Keyword(word) == Identifier
  {
    hide Keyword;
  }

  // ----- white space in front -----

  lemma SpaceBeforeParams(src: string, p: nat, names: Names, seen: seq<ParamForm>)
    requires p < |src| && IsSpace(src[p])
    ensures ReadParams(src, p, names, seen) == ReadParams(src, p + 1, names, seen)
  {
    hide Next, ReadAttributes, ReadTyped, ReadParam, ReadParams, IsSpace, CommaEnd;
    SpaceAt(src, p);
    ParamIs(src, p, names);
    ParamIs(src, p + 1, names);
    ParamsStep(src, p, names, seen);
    ParamsStep(src, p + 1, names, seen);
  }

  lemma SpaceBeforeTokens(src: string, p: nat, t: Token, tokens: seq<Token>)
    requires p < |src| && IsSpace(src[p])
    ensures TokensEnd(src, p, [t] + tokens) == TokensEnd(src, p + 1, [t] + tokens)
  {
    hide Next, TokensEnd, IsSpace;
    SpaceAt(src, p);
    TokensIs(src, p, t, tokens);
    TokensIs(src, p + 1, t, tokens);
  }

  lemma SpaceBeforeMethod(src: string, p: nat, names: Names, onewayInterface: bool)
    requires p < |src| && IsSpace(src[p])
    ensures ReadMethod(src, p, names, onewayInterface) == ReadMethod(src, p + 1, names, onewayInterface)
  {
    hide Next, TokensEnd, IsSpace, ReadMethod, ReadHead, ReadMark, ReadParams, ReadType, ReadResult, AnyOut;
    SpaceAt(src, p);
    SpaceBefore(src, p, names);
    MarkIs(src, p);
    MarkIs(src, p + 1);
    SpaceBeforeTokens(src, p, BracketsLeft, [OnewayKey, BracketsRight]);
    assert [BracketsLeft] + [OnewayKey, BracketsRight] == [BracketsLeft, OnewayKey, BracketsRight];
    HeadIs(src, p, names, onewayInterface);
    HeadIs(src, p + 1, names, onewayInterface);
    ResultReadIs(src, p, names, onewayInterface, false);
    ResultReadIs(src, p + 1, names, onewayInterface, false);
    MethodIs(src, p, names, onewayInterface);
    MethodIs(src, p + 1, names, onewayInterface);
  }

  lemma SpaceBeforePart(src: string, p: nat, names: Names, config: Config)
    requires p < |src| && IsSpace(src[p])
    ensures ReadPart(src, p, names, config) == ReadPart(src, p + 1, names, config)
  {
    hide Next, TokensEnd, IsSpace, ReadPart, ReadSequenceable, ReadInterface, ReadStart, ReadNamed, ReadClassName;
    SpaceAt(src, p);
    PartIs(src, p, names, config);
    PartIs(src, p + 1, names, config);
    if Next(src, p).token == SequenceableKey {
      SequenceableIs(src, p);
      SequenceableIs(src, p + 1);
    }
    StartIs(src, p);
    StartIs(src, p + 1);
    SpaceBeforeTokens(src, p, BracketsLeft, [OnewayKey, BracketsRight, InterfaceKey]);
    SpaceBeforeTokens(src, p, InterfaceKey, []);
    assert [BracketsLeft] + [OnewayKey, BracketsRight, InterfaceKey] == [BracketsLeft, OnewayKey, BracketsRight, InterfaceKey];
    assert [InterfaceKey] + [] == [InterfaceKey];
    InterfaceIs(src, p, names, config);
    InterfaceIs(src, p + 1, names, config);
  }

  // ----- a type and a name -----

  // A type, a blank and a word, which ends at a symbol.
  lemma TypeAndWord(src: string, p: nat, t: Type, word: string, names: Names)
    requires Here(src, p, ToString(t) + " " + word) && InGrammar(t, names) && IsWord(word)
    requires var e := p + |ToString(t)| + 1 + |word|; e < |src| && src[e] in {'(', ')', ','}
    ensures var r := ReadType(src, p, names);
            && r.Parsed? && r.typ == t
            && Next(src, r.end) == Scan(Keyword(word), word, p + |ToString(t)| + 1 + |word|)
  {
    hide *;
    var e := p + |ToString(t)|;
    HereThree(src, p, ToString(t), " ", word);
    HereChar(src, e, " ", 0);
    EndsWord(src[e]);
    EndsWord(src[e + 1 + |word|]);
    Standing(src, p, t);
    WordNext(src, e + 1, word);
    SpaceAt(src, e);
    EndIs(src, p, t);
    WordIsNoBracket(word);
    ReadsBack(src, p, t, names);
  }

  lemma Standing(src: string, p: nat, t: Type)
    requires Here(src, p, ToString(t)) && p + |ToString(t)| < |src| && !IsIdentChar(src[p + |ToString(t)|])
    ensures StandsAt(src, p, t)
  {
    hide ToString, IsIdentChar;
  }

  lemma EndIs(src: string, p: nat, t: Type)
    requires StandsAt(src, p, t)
    ensures EndOf(src, p, t) in {p + |ToString(t)|, p + |ToString(t)| + 1}
  {
    hide ToString, StandsAt;
  }

  lemma WordIsNoBracket(word: string)
    ensures Keyword(word) != BracketsLeft
  {
  }

  // ----- parameters -----

  lemma AttributesRead(src: string, p: nat, isIn: bool, isOut: bool)
    requires Here(src, p, AttributesText(isIn, isOut))
    ensures Next(src, p).token == BracketsLeft
    ensures ReadAttributes(src, Next(src, p).end, false, false) == Got((isIn, isOut), p + |AttributesText(isIn, isOut)|)
  {
    hide *;
    SymbolsAre();
    KeywordsAre();
    AttributesAre(isIn, isOut);
    var word := if isIn && isOut then "inout" else if isIn then "in" else if isOut then "out" else "";
    HereThree(src, p, "[", word, "]");
    HereChar(src, p, "[", 0);
    HereChar(src, p + 1 + |word|, "]", 0);
    SymbolNext(src, p, '[');
    SymbolNext(src, p + 1 + |word|, ']');
    EndsWord(']');
    if word != "" {
      WordNext(src, p + 1, word);
    }
    AttributesStep(src, p + 1, false, false);
  }

  lemma AttributesAre(isIn: bool, isOut: bool)
    ensures AttributesText(isIn, isOut)
            == "[" + (if isIn && isOut then "inout" else if isIn then "in" else if isOut then "out" else "") + "]"
  {
  }

  lemma ParamReads(src: string, p: nat, x: ParamForm, names: Names)
    requires Here(src, p, ParamText(x)) && ParamSayable(x, names)
    requires p + |ParamText(x)| < |src| && src[p + |ParamText(x)|] in {',', ')'}
    ensures ReadParam(src, p, names) == Got(x, p + |ParamText(x)|)
  {
    hide *;
    ParamTextIs(x);
    ParamSayableIs(x, names);
    var io := AttributesText(x.isIn, x.isOut);
    var rest := ToString(x.typ) + " " + x.name;
    var a := p + |io|;
    HereThree(src, p, io, " ", rest);
    HereChar(src, a, " ", 0);
    AttributesRead(src, p, x.isIn, x.isOut);
    EndsWord(' ');
    SpaceBefore(src, a, names);
    NamesAre(x.name);
    TypeAndWord(src, a + 1, x.typ, x.name, names);
    ParamIs(src, p, names);
    TypedIs(src, a, names, (x.isIn, x.isOut));
  }

  lemma ParamTextIs(x: ParamForm)
    ensures ParamText(x) == AttributesText(x.isIn, x.isOut) + " " + (ToString(x.typ) + " " + x.name)
    ensures |ParamText(x)| == |AttributesText(x.isIn, x.isOut)| + 1 + |ToString(x.typ)| + 1 + |x.name|
  {
    hide AttributesText, ToString;
  }

  lemma ParamSayableIs(x: ParamForm, names: Names)
    ensures ParamSayable(x, names) <==> InGrammar(x.typ, names) && IsName(x.name)
  {
    hide InGrammar, IsName;
  }

  lemma ParamsTextIs(xs: seq<ParamForm>)
    ensures xs == [] ==> ParamsText(xs) == ")"
    ensures xs != [] ==> ParamsText(xs) == ParamText(xs[0]) + (if |xs| == 1 then "" else ", ") + ParamsText(xs[1..])
    ensures |xs| == 1 ==> ParamsText(xs[1..]) == ")"
  {
    hide ParamText;
  }

  // A comma and a blank, or the end.
  lemma BehindParam(src: string, p: nat, last: bool, names: Names, seen: seq<ParamForm>)
    requires Here(src, p, if last then ")" else ", ")
    ensures p < |src| && src[p] in {',', ')'}
    ensures p + (if last then 0 else 2) <= |src|
    ensures ReadParams(src, CommaEnd(src, p), names, seen) == ReadParams(src, p + if last then 0 else 2, names, seen)
  {
    hide *;
    SymbolsAre();
    if last {
      HereChar(src, p, ")", 0);
    } else {
      HereChar(src, p, ", ", 0);
      HereChar(src, p, ", ", 1);
      EndsWord(' ');
      SpaceBeforeParams(src, p + 1, names, seen);
    }
    SymbolNext(src, p, src[p]);
    CommaEndIs(src, p);
  }

  lemma NoEndFirst(src: string, p: nat, names: Names)
    requires p <= |src| && ReadParam(src, p, names).Got?
    ensures Next(src, p).token != ParenthesesRight
  {
    hide Next, ReadType, ReadAttributes;
  }

  lemma {:induction false} ParamsRead(src: string, p: nat, xs: seq<ParamForm>, names: Names, seen: seq<ParamForm>)
    requires Here(src, p, ParamsText(xs)) && forall i :: 0 <= i < |xs| ==> ParamSayable(xs[i], names)
    ensures ReadParams(src, p, names, seen) == Got(seen + xs, p + |ParamsText(xs)|)
    decreases |xs|
  {
    hide *;
    ParamsTextIs(xs);
    HereFits(src, p, ParamsText(xs));
    ParamsStep(src, p, names, seen);
    SymbolsAre();
    if xs == [] {
      HereChar(src, p, ")", 0);
      SymbolNext(src, p, ')');
      assert seen + [] == seen;
    } else {
      var sep, e := if |xs| == 1 then "" else ", ", p + |ParamText(xs[0])|;
      HereThree(src, p, ParamText(xs[0]), sep, ParamsText(xs[1..]));
      BehindParam(src, e, |xs| == 1, names, seen + [xs[0]]);
      ParamReads(src, p, xs[0], names);
      NoEndFirst(src, p, names);
      ParamsRead(src, e + |sep|, xs[1..], names, seen + [xs[0]]);
      assert seen + [xs[0]] + xs[1..] == seen + xs;
    }
  }

  // ----- methods -----

  lemma MarkReads(src: string, p: nat)
    requires Here(src, p, "[oneway] ")
    ensures TokensEnd(src, p, [BracketsLeft, OnewayKey, BracketsRight]) == Some(p + 8)
    ensures Next(src, p).token == BracketsLeft && Next(src, p).end == p + 1
    ensures TokensEnd(src, p + 1, [OnewayKey, BracketsRight]) == Some(p + 8)
    ensures p + 8 < |src| && src[p + 8] == ' '
  {
    hide *;
    SymbolsAre();
    KeywordsAre();
    assert "[oneway] " == "[" + "oneway" + "] ";
    HereThree(src, p, "[", "oneway", "] ");
    HereChar(src, p, "[", 0);
    HereChar(src, p + 7, "] ", 0);
    HereChar(src, p + 7, "] ", 1);
    SymbolNext(src, p, '[');
    EndsWord(']');
    WordNext(src, p + 1, "oneway");
    SymbolNext(src, p + 7, ']');
    ThreeTokensAre(src, p, BracketsLeft, OnewayKey, BracketsRight);
    TwoTokensAre(src, p + 1, OnewayKey, BracketsRight);
  }

  lemma NoBracketFirst(src: string, p: nat, names: Names)
    requires p <= |src| && ReadType(src, p, names).Parsed?
    ensures Next(src, p).token !in {BracketsLeft, BracesRight}
  {
    hide Next, ReadType, Lookup;
    BaseIsNext(src, p, names);
    BaseParsed(src, p, names);
  }

  lemma BaseParsed(src: string, p: nat, names: Names)
    requires p <= |src| && ReadType(src, p, names).Parsed?
    ensures ReadBase(src, p, names).Parsed?
  {
    hide Next, ReadBase;
  }

  lemma MethodTextIs(x: MethodForm)
    ensures var mark, head := if x.oneway then "[oneway] " else "", ToString(x.ret) + " " + x.name;
            && MethodText(x) == mark + head + ("(" + ParamsText(x.params) + ";")
            && |MethodText(x)| == |mark| + |ToString(x.ret)| + 1 + |x.name| + 1 + |ParamsText(x.params)| + 1
  {
    hide ToString, ParamsText;
    var mark, t, ps := if x.oneway then "[oneway] " else "", ToString(x.ret), ParamsText(x.params);
    assert mark + t + " " + x.name + "(" + ps + ";" == mark + (t + " " + x.name) + ("(" + ps + ";");
  }

  lemma MethodSayableIs(x: MethodForm, names: Names, onewayInterface: bool)
    ensures MethodSayable(x, names, onewayInterface) <==>
              && InGrammar(x.ret, names) && IsName(x.name)
              && (forall i :: 0 <= i < |x.params| ==> ParamSayable(x.params[i], names))
              && (onewayInterface || x.oneway ==> x.ret.IsVoid() && !AnyOut(x.params))
  {
    hide InGrammar, IsName, ParamSayable, AnyOut;
  }

  // The mark, the type and the name of a method, up to its parenthesis.
  lemma HeadReads(src: string, p: nat, x: MethodForm, names: Names, onewayInterface: bool)
    requires MethodSayable(x, names, onewayInterface)
    requires Here(src, p, (if x.oneway then "[oneway] " else "") + (ToString(x.ret) + " " + x.name))
    requires var b := p + (if x.oneway then 9 else 0) + |ToString(x.ret)| + 1 + |x.name|; b < |src| && src[b] == '('
    ensures ReadHead(src, p, names, onewayInterface)
            == Got(HeadForm(x.name, x.oneway, x.ret),
                   p + (if x.oneway then 9 else 0) + |ToString(x.ret)| + 1 + |x.name| + 1)
  {
    hide *;
    var mark, rest := if x.oneway then "[oneway] " else "", ToString(x.ret) + " " + x.name;
    assert |mark| == if x.oneway then 9 else 0;
    MethodSayableIs(x, names, onewayInterface);
    HereJoin(src, p, mark, rest);
    NamesAre(x.name);
    TypeAndWord(src, p + |mark|, x.ret, x.name, names);
    NoBracketFirst(src, p + |mark|, names);
    MarkIs(src, p);
    HeadIs(src, p, names, onewayInterface);
    if x.oneway {
      MarkReads(src, p);
      EndsWord(' ');
      SpaceBefore(src, p + 8, names);
    }
    var a := p + if x.oneway then 8 else 0;
    ResultReadIs(src, a, names, onewayInterface, x.oneway);
    SymbolsAre();
    SymbolNext(src, p + |mark| + |ToString(x.ret)| + 1 + |x.name|, '(');
    TwoTokensAre(src, ReadType(src, a, names).end, Identifier, ParenthesesLeft);
  }

  lemma MethodReads(src: string, p: nat, x: MethodForm, names: Names, onewayInterface: bool)
    requires Here(src, p, MethodText(x)) && MethodSayable(x, names, onewayInterface)
    ensures ReadMethod(src, p, names, onewayInterface) == Got(x, p + |MethodText(x)|)
    ensures Next(src, p).token != BracesRight
  {
    hide *;
    MethodTextIs(x);
    MethodSayableIs(x, names, onewayInterface);
    var mark, head, ps := if x.oneway then "[oneway] " else "", ToString(x.ret) + " " + x.name, ParamsText(x.params);
    var b := p + |mark| + |head|;
    HereJoin(src, p, mark + head, "(" + ps + ";");
    HereThree(src, b, "(", ps, ";");
    HereChar(src, b, "(", 0);
    HereChar(src, b + 1 + |ps|, ";", 0);
    HeadReads(src, p, x, names, onewayInterface);
    ParamsRead(src, b + 1, x.params, names, []);
    assert [] + x.params == x.params;
    SymbolsAre();
    SymbolNext(src, b + 1 + |ps|, ';');
    MethodIs(src, p, names, onewayInterface);
    NotClosed(src, p, names, onewayInterface);
  }

  lemma NotClosed(src: string, p: nat, names: Names, onewayInterface: bool)
    requires p <= |src| && ReadHead(src, p, names, onewayInterface).Got?
    ensures Next(src, p).token != BracesRight
  {
    hide *;
    HeadIs(src, p, names, onewayInterface);
    MarkIs(src, p);
    if Next(src, p).token != BracketsLeft {
      ResultReadIs(src, p, names, onewayInterface, false);
      NoBracketFirst(src, p, names);
    }
  }

  lemma MethodsTextIs(xs: seq<MethodForm>)
    ensures xs == [] ==> MethodsText(xs) == "}"
    ensures xs != [] ==> MethodsText(xs) == MethodText(xs[0]) + (if |xs| == 1 then "" else "\n") + MethodsText(xs[1..])
    ensures |xs| == 1 ==> MethodsText(xs[1..]) == "}"
  {
    hide MethodText;
  }

  lemma NewlineBeforeMethods(src: string, p: nat, names: Names, oneway: bool, seen: seq<MethodForm>)
    requires p < |src| && src[p] == '\n' && Next(src, p + 1).token != BracesRight
    ensures ReadMoreMethods(src, p, names, oneway, seen) == ReadMethods(src, p + 1, names, oneway, seen)
  {
    hide *;
    EndsWord('\n');
    SpaceAt(src, p);
    SpaceBeforeMethod(src, p, names, oneway);
    MethodsStep(src, p, names, oneway, seen);
    MethodsStep(src, p + 1, names, oneway, seen);
  }

  lemma {:induction false} MethodsRead(src: string, p: nat, xs: seq<MethodForm>, names: Names, oneway: bool, seen: seq<MethodForm>)
    requires xs != [] && Here(src, p, MethodsText(xs)) && forall i :: 0 <= i < |xs| ==> MethodSayable(xs[i], names, oneway)
    ensures ReadMethods(src, p, names, oneway, seen) == Got(seen + xs, p + |MethodsText(xs)|)
    ensures Next(src, p).token != BracesRight
    decreases |xs|
  {
    hide *;
    MethodsTextIs(xs);
    var sep, e := if |xs| == 1 then "" else "\n", p + |MethodText(xs[0])|;
    HereThree(src, p, MethodText(xs[0]), sep, MethodsText(xs[1..]));
    MethodReads(src, p, xs[0], names, oneway);
    MethodsStep(src, p, names, oneway, seen);
    MethodsStep(src, e, names, oneway, seen + [xs[0]]);
    if |xs| == 1 {
      HereChar(src, e, "}", 0);
      SymbolsAre();
      SymbolNext(src, e, '}');
      assert [xs[0]] == xs;
    } else {
      HereChar(src, e, "\n", 0);
      MethodsRead(src, e + 1, xs[1..], names, oneway, seen + [xs[0]]);
      NewlineBeforeMethods(src, e, names, oneway, seen + [xs[0]]);
      assert seen + [xs[0]] + xs[1..] == seen + xs;
    }
  }

  // ----- declarations -----

  lemma NameSplits(nspace: string, name: string)
    requires NameSayable(nspace, name)
    ensures var full := FullName(nspace, name);
            && full != "" && IsValidTypeName(full) && IsName(full) && NamespaceIn(full) == nspace && ShortName(full) == name
            && ('.' in full <==> nspace != ".")
  {
    hide IsName, LastDot;
    var full := FullName(nspace, name);
    var i := LastDot(full);
    if nspace == "." {
      assert i == -1;
    } else {
      assert full[|nspace| - 1] == '.';
      forall j | |nspace| <= j < |full| ensures full[j] != '.' {
        assert full[j] == name[j - |nspace|];
      }
      assert i == |nspace| - 1;
      assert full[..i + 1] == nspace && full[i + 1..] == name;
    }
  }

  lemma ClassNameReads(src: string, p: nat, nspace: string, name: string)
    requires Here(src, p, FullName(nspace, name) + ";") && NameSayable(nspace, name)
    ensures ReadClassName(src, p) == Got(FullName(nspace, name), p + |FullName(nspace, name)| + 1)
  {
    hide *;
    var full := FullName(nspace, name);
    NameSplits(nspace, name);
    NamesAre(full);
    HereJoin(src, p, full, ";");
    HereChar(src, p + |full|, ";", 0);
    EndsWord(';');
    WordNext(src, p, full);
    SymbolsAre();
    SymbolNext(src, p + |full|, ';');
    TwoTokensAre(src, p, Identifier, Semicolon);
    ClassNameIs(src, p);
  }

  lemma SequenceableReads(src: string, p: nat, x: SequenceableForm)
    requires Here(src, p, SequenceableText(x)) && NameSayable(x.nspace, x.name)
    ensures Next(src, p).token == SequenceableKey
    ensures ReadSequenceable(src, p) == Got(x, p + |SequenceableText(x)|)
  {
    hide *;
    SequenceableTextIs(x);
    var full := FullName(x.nspace, x.name);
    HereThree(src, p, "sequenceable", " ", full + ";");
    HereChar(src, p + 12, " ", 0);
    KeywordsAre();
    EndsWord(' ');
    WordNext(src, p, "sequenceable");
    ClassNameReads(src, p + 13, x.nspace, x.name);
    NameSplits(x.nspace, x.name);
    SequenceableIs(src, p);
  }

  lemma SequenceableTextIs(x: SequenceableForm)
    ensures SequenceableText(x) == "sequenceable" + " " + (FullName(x.nspace, x.name) + ";")
    ensures |SequenceableText(x)| == 13 + |FullName(x.nspace, x.name)| + 1
  {
    hide FullName;
    assert "sequenceable " == "sequenceable" + " ";
    assert "sequenceable " + FullName(x.nspace, x.name) + ";" == "sequenceable" + " " + (FullName(x.nspace, x.name) + ";");
  }

  // The mark and the keyword.
  lemma StartReads(src: string, p: nat, oneway: bool)
    requires Here(src, p, (if oneway then "[oneway] " else "") + "interface ")
    ensures ReadStart(src, p) == Got(oneway, p + (if oneway then 19 else 10))
    ensures Next(src, p).token == if oneway then BracketsLeft else InterfaceKey
  {
    hide *;
    var mark := if oneway then "[oneway] " else "";
    var a := p + |mark|;
    HereJoin(src, p, mark, "interface ");
    assert "interface " == "interface" + " ";
    HereJoin(src, a, "interface", " ");
    HereChar(src, a + 9, " ", 0);
    KeywordsAre();
    EndsWord(' ');
    WordNext(src, a, "interface");
    StartIs(src, p);
    if oneway {
      MarkReads(src, p);
      SpaceAt(src, p + 8);
      FourTokensAre(src, p, BracketsLeft, OnewayKey, BracketsRight, InterfaceKey);
      ThreeTokensAre(src, p + 1, OnewayKey, BracketsRight, InterfaceKey);
      TwoTokensAre(src, p + 1, OnewayKey, BracketsRight);
      TwoTokensAre(src, Next(src, p + 1).end, BracketsRight, InterfaceKey);
    } else {
      OneTokenIs(src, p, InterfaceKey);
    }
  }

  // The full name and what follows it.
  lemma NameReads(src: string, p: nat, nspace: string, name: string, forward: bool, targetIsTs: bool)
    requires Here(src, p, FullName(nspace, name) + if forward then ";" else " {") && NameSayable(nspace, name)
    requires nspace != "." || targetIsTs
    ensures ReadName(src, p, targetIsTs)
            == Got((FullName(nspace, name), forward), p + |FullName(nspace, name)| + if forward then 1 else 2)
  {
    hide *;
    var full := FullName(nspace, name);
    NameSplits(nspace, name);
    NamesAre(full);
    HereJoin(src, p, full, if forward then ";" else " {");
    var e := p + |full|;
    SymbolsAre();
    if forward {
      HereChar(src, e, ";", 0);
      EndsWord(';');
      SymbolNext(src, e, ';');
    } else {
      HereChar(src, e, " {", 0);
      HereChar(src, e, " {", 1);
      EndsWord(' ');
      SymbolNext(src, e + 1, '{');
    }
    WordNext(src, p, full);
    NameIs(src, p, targetIsTs);
  }

  lemma InterfaceTextIs(x: InterfaceForm)
    ensures var start, full := (if x.oneway then "[oneway] " else "") + "interface ", FullName(x.nspace, x.name);
            && (x.external ==> InterfaceText(x) == start + (full + ";"))
            && (!x.external ==> InterfaceText(x) == start + (full + " {") + MethodsText(x.methods))
            && |start| == if x.oneway then 19 else 10
  {
    hide FullName, MethodsText;
    var start, full := (if x.oneway then "[oneway] " else "") + "interface ", FullName(x.nspace, x.name);
    assert start + full + ";" == start + (full + ";");
    assert start + full + (" {" + MethodsText(x.methods)) == start + (full + " {") + MethodsText(x.methods);
  }

  lemma InterfaceSayableIs(x: InterfaceForm, names: Names, config: Config)
    ensures InterfaceSayable(x, names, config) <==>
              && NameSayable(x.nspace, x.name) && (x.nspace != "." || config.targetIsTs)
              && if x.external then !x.oneway && x.methods == []
                 else
                   && x.name == config.moduleName && x.methods != []
                   && forall i :: 0 <= i < |x.methods| ==> MethodSayable(x.methods[i], BodyNames(names, x.nspace, x.name), x.oneway)
  {
    hide NameSayable, MethodSayable, BodyNames;
  }

  lemma InterfaceReads(src: string, p: nat, x: InterfaceForm, names: Names, config: Config)
    requires Here(src, p, InterfaceText(x)) && InterfaceSayable(x, names, config)
    ensures Next(src, p).token in {BracketsLeft, InterfaceKey}
    ensures ReadInterface(src, p, names, config) == Got(x, p + |InterfaceText(x)|)
  {
    hide *;
    InterfaceTextIs(x);
    InterfaceSayableIs(x, names, config);
    var start, full := (if x.oneway then "[oneway] " else "") + "interface ", FullName(x.nspace, x.name);
    var a := p + |start|;
    NameSplits(x.nspace, x.name);
    if x.external {
      HereJoin(src, p, start, full + ";");
    } else {
      HereThree(src, p, start, full + " {", MethodsText(x.methods));
    }
    StartReads(src, p, x.oneway);
    NameReads(src, a, x.nspace, x.name, x.external, config.targetIsTs);
    InterfaceIs(src, p, names, config);
    NamedIs(src, a, names, config, x.oneway);
    var b := a + |full| + if x.external then 1 else 2;
    NamedBodyIs(src, b, names, config, x.oneway, (full, x.external));
    if !x.external {
      MethodsRead(src, b, x.methods, BodyNames(names, x.nspace, x.name), x.oneway, []);
      assert [] + x.methods == x.methods;
    }
  }

  lemma PartReads(src: string, p: nat, x: Part, names: Names, config: Config)
    requires Here(src, p, PartText(x)) && PartSayable(x, names, config)
    ensures ReadPart(src, p, names, config) == Got(x, p + |PartText(x)|)
    ensures Next(src, p).token in {BracketsLeft, InterfaceKey, SequenceableKey}
  {
    hide *;
    PartTextIs(x, names, config);
    HereFits(src, p, PartText(x));
    PartIs(src, p, names, config);
    match x
    case InterfacePart(i) => InterfaceReads(src, p, i, names, config);
    case SequenceablePart(s) => SequenceableReads(src, p, s);
  }

  lemma PartTextIs(x: Part, names: Names, config: Config)
    ensures PartText(x) == if x.InterfacePart? then InterfaceText(x.interface_) else SequenceableText(x.sequenceable)
    ensures PartSayable(x, names, config)
            <==> if x.InterfacePart? then InterfaceSayable(x.interface_, names, config)
                 else NameSayable(x.sequenceable.nspace, x.sequenceable.name)
  {
    hide InterfaceText, SequenceableText, InterfaceSayable, NameSayable;
  }

  // ----- files -----

  lemma FileTextIs(parts: seq<Part>, names: Names, config: Config)
    requires parts != []
    ensures FileText(parts) == PartText(parts[0]) + "\n" + FileText(parts[1..])
    ensures FileSayable(parts, names, config) ==>
              PartSayable(parts[0], names, config) && FileSayable(parts[1..], NamesAfter(names, parts[0]), config)
  {
    hide PartText, PartSayable, NamesAfter;
  }

  lemma {:induction false} PartsRead(src: string, p: nat, parts: seq<Part>, names: Names, config: Config, seen: seq<Part>)
    requires Here(src, p, FileText(parts)) && p + |FileText(parts)| == |src| && FileSayable(parts, names, config)
    ensures ReadParts(src, p, names, config, seen) == Got(seen + parts, |src|)
    decreases |parts|
  {
    hide *;
    if parts == [] {
      NothingLeft(src, p, parts);
      PartsStep(src, p, names, config, seen);
      assert seen + [] == seen;
    } else {
      FileTextIs(parts, names, config);
      var e := p + |PartText(parts[0])|;
      HereThree(src, p, PartText(parts[0]), "\n", FileText(parts[1..]));
      HereChar(src, e, "\n", 0);
      PartReads(src, p, parts[0], names, config);
      PartsStep(src, p, names, config, seen);
      EndsWord('\n');
      var names', seen' := NamesAfter(names, parts[0]), seen + [parts[0]];
      SpaceAt(src, e);
      SpaceBeforePart(src, e, names', config);
      PartsStep(src, e, names', config, seen');
      PartsStep(src, e + 1, names', config, seen');
      PartsRead(src, e + 1, parts[1..], names', config, seen');
      assert seen + [parts[0]] + parts[1..] == seen + parts;
    }
  }

  lemma NothingLeft(src: string, p: nat, parts: seq<Part>)
    requires parts == [] && p + |FileText(parts)| == |src|
    ensures p == |src| && Next(src, p).token == EndOfFile
  {
  }

  lemma StartsPlainly(src: string, parts: seq<Part>, names: Names, config: Config)
    requires src == FileText(parts) && FileSayable(parts, names, config)
    ensures Beginning(src, 0) == 0
  {
    hide *;
    BeginningIs(src, 0);
    if parts == [] {
      EmptyFile(src, parts);
    } else {
      FileTextIs(parts, names, config);
      WholeHere(src);
      HereThree(src, 0, PartText(parts[0]), "\n", FileText(parts[1..]));
      PartReads(src, 0, parts[0], names, config);
      FirstChar(src, parts[0]);
      NoComment(src);
    }
  }

  lemma EmptyFile(src: string, parts: seq<Part>)
    requires src == FileText(parts) && parts == []
    ensures ScanToken(src, 0, false).token == EndOfFile
  {
  }

  lemma WholeHere(src: string)
    ensures Here(src, 0, src)
  {
  }

  lemma FirstChar(src: string, x: Part)
    requires Here(src, 0, PartText(x))
    ensures src != "" && src[0] in {'[', 'i', 's'}
  {
    hide FullName, MethodsText;
    HereChar(src, 0, PartText(x), 0);
  }

  lemma NoComment(src: string)
    requires src != "" && src[0] in {'[', 'i', 's'}
    ensures ScanToken(src, 0, false).token !in {CommentBlock, CommentLine}
  {
    hide Keyword, WordEnd;
    if StartsWord(src[0]) {
      KeywordIsWord(src[0..WordEnd(src, 1)]);
    }
  }

  // A file of declarations, printed, reads back as exactly those declarations.
  lemma PrintedFileReads(parts: seq<Part>, names: Names, config: Config)
    requires FileSayable(parts, names, config)
    ensures ReadFile(FileText(parts), 0, names, config) == Got(parts, |FileText(parts)|)
  {
    hide *;
    var src := FileText(parts);
    StartsPlainly(src, parts, names, config);
    WholeHere(src);
    PartsRead(src, 0, parts, names, config, []);
    assert [] + parts == parts;
    ReadFileIs(src, 0, names, config);
  }

  lemma ReadFileIs(src: string, p: nat, names: Names, config: Config)
    requires p <= |src|
    ensures ReadFile(src, p, names, config) == ReadParts(src, Beginning(src, p), names, config, [])
  {
    hide ReadParts, Beginning;
  }

  // ----- whatever reads can be printed -----

  // Each word stands for a primitive type of that spelling or for a declared
  // type of that short name.
  ghost predicate Honest(names: Names) {
    forall k :: k in names ==> Spells(k, names[k])
  }

  predicate Spells(word: string, t: Type) {
    match t
    case Primitive(p) => word == PrimName(p)
    case Sequenceable(_, n) => word == n && NotPrimitiveName(word)
    case Interface(_, n) => word == n && NotPrimitiveName(word)
    case _ => false
  }

  predicate NotPrimitiveName(word: string) {
    forall p: Prim :: word != PrimName(p)
  }

  lemma HonestAt(names: Names, word: string)
    requires Honest(names) && word in names
    ensures Spells(word, names[word])
  {
    hide Spells;
  }

  lemma LookedUp(names: Names, word: string)
    requires Honest(names) && word in names && (IsName(word) || exists p: Prim :: word == PrimName(p))
    ensures InGrammar(names[word], names) && !names[word].Array?
  {
    hide PrimName, IsName;
    HonestAt(names, word);
  }

  lemma KeywordOfPrimitive(t: Token)
    requires IsPrimitiveType(t)
    ensures exists p: Prim :: PrimitiveWord(t) == PrimName(p)
  {
    var p := match t
      case BooleanKey => Boolean
      case CharKey => Char
      case ByteKey => Byte
      case ShortKey => Short
      case IntegerKey => Integer
      case LongKey => Long
      case FloatKey => Float
      case DoubleKey => Double
      case _ => String;
    assert PrimitiveWord(t) == PrimName(p);
  }

  lemma LookupIs(names: Names, word: string, end: nat)
    ensures Lookup(names, word, end) == if word in names then Parsed(names[word], end) else Failed
  {
  }

  lemma {:induction false} BaseSayable(src: string, p: nat, names: Names)
    requires p <= |src| && Honest(names) && ReadBase(src, p, names).Parsed?
    ensures InGrammar(ReadBase(src, p, names).typ, names) && !ReadBase(src, p, names).typ.Array?
    decreases |src| - p, 0
  {
    hide *;
    BaseIsNext(src, p, names);
    AfterTokenIs(src, Next(src, p), names);
    var s := Next(src, p);
    if IsPrimitiveType(s.token) {
      KeywordOfPrimitive(s.token);
      LookupIs(names, PrimitiveWord(s.token), s.end);
      LookedUp(names, PrimitiveWord(s.token));
    } else if s.token == Identifier {
      NameScanned(src, p);
      LookupIs(names, s.text, s.end);
      LookedUp(names, s.text);
    } else if s.token == ListKey {
      NextAdvances(src, p);
      ListSayable(src, s.end, names);
    } else {
      NextAdvances(src, p);
      MapSayable(src, s.end, names);
    }
  }

  lemma NextAdvances(src: string, p: nat)
    requires p <= |src| && Next(src, p).token in {ListKey, MapKey}
    ensures p < Next(src, p).end <= |src|
  {
    hide ScanToken;
  }

  lemma NameScanned(src: string, p: nat)
    requires p <= |src| && Next(src, p).token == Identifier
    ensures IsName(Next(src, p).text)
  {
    hide IsName, ScanToken;
    NamesAreScanned(src, p, true);
  }

  lemma AfterTokenIs(src: string, s: Scan, names: Names)
    requires s.end <= |src|
    ensures AfterToken(src, s, names)
            == if IsPrimitiveType(s.token) then Lookup(names, PrimitiveWord(s.token), s.end)
               else if s.token == Identifier then Lookup(names, s.text, s.end)
               else if s.token == ListKey then ReadList(src, s.end, names)
               else if s.token == MapKey then ReadMap(src, s.end, names)
               else Failed
  {
    hide IsPrimitiveType, PrimitiveWord, Lookup, ReadList, ReadMap;
  }

  lemma {:induction false} ListSayable(src: string, p: nat, names: Names)
    requires p <= |src| && Honest(names) && ReadList(src, p, names).Parsed?
    ensures InGrammar(ReadList(src, p, names).typ, names) && !ReadList(src, p, names).typ.Array?
    decreases |src| - p, 2
  {
    hide Next, ReadType, InGrammar, Honest;
    TypeSayable(src, Next(src, p).end, names);
    ContainerIs(ReadList(src, p, names).typ, names);
  }

  lemma {:induction false} MapSayable(src: string, p: nat, names: Names)
    requires p <= |src| && Honest(names) && ReadMap(src, p, names).Parsed?
    ensures InGrammar(ReadMap(src, p, names).typ, names) && !ReadMap(src, p, names).typ.Array?
    decreases |src| - p, 2
  {
    hide Next, ReadType, InGrammar, Honest;
    var key := ReadType(src, Next(src, p).end, names);
    TypeSayable(src, Next(src, p).end, names);
    TypeSayable(src, Next(src, key.end).end, names);
    ContainerIs(ReadMap(src, p, names).typ, names);
  }

  lemma ContainerIs(t: Type, names: Names)
    ensures t.List? ==> (InGrammar(t, names) <==> InGrammar(t.element, names))
    ensures t.Map? ==> (InGrammar(t, names) <==> InGrammar(t.key, names) && InGrammar(t.value, names))
    ensures t.Array? ==> (InGrammar(t, names) <==> !t.element.Array? && InGrammar(t.element, names))
  {
  }

  // A type that reads is one of the grammar.
  lemma {:induction false} TypeSayable(src: string, p: nat, names: Names)
    requires p <= |src| && Honest(names) && ReadType(src, p, names).Parsed?
    ensures InGrammar(ReadType(src, p, names).typ, names)
    decreases |src| - p, 1
  {
    hide Next, ReadBase, InGrammar, Honest;
    BaseSayable(src, p, names);
    ContainerIs(ReadType(src, p, names).typ, names);
  }

  lemma ReadParamSayable(src: string, p: nat, names: Names)
    requires p <= |src| && Honest(names) && ReadParam(src, p, names).Got?
    ensures ParamSayable(ReadParam(src, p, names).value, names)
  {
    hide *;
    ParamIs(src, p, names);
    var io := ReadAttributes(src, Next(src, p).end, false, false);
    TypedIs(src, io.end, names, io.value);
    TypeSayable(src, io.end, names);
    NameScanned(src, ReadType(src, io.end, names).end);
    ParamSayableIs(ReadParam(src, p, names).value, names);
  }

  lemma {:induction false} ReadParamsSayable(src: string, p: nat, names: Names, seen: seq<ParamForm>)
    requires p <= |src| && Honest(names) && ReadParams(src, p, names, seen).Got?
    requires forall i :: 0 <= i < |seen| ==> ParamSayable(seen[i], names)
    ensures var xs := ReadParams(src, p, names, seen).value; forall i :: 0 <= i < |xs| ==> ParamSayable(xs[i], names)
    decreases |src| - p
  {
    hide *;
    ParamsStep(src, p, names, seen);
    if Next(src, p).token != ParenthesesRight {
      ReadParamSayable(src, p, names);
      var r := ReadParam(src, p, names);
      ReadParamsSayable(src, CommaEnd(src, r.end), names, seen + [r.value]);
    }
  }

  lemma ReadMethodSayable(src: string, p: nat, names: Names, oneway: bool)
    requires p <= |src| && Honest(names) && ReadMethod(src, p, names, oneway).Got?
    ensures MethodSayable(ReadMethod(src, p, names, oneway).value, names, oneway)
  {
    hide *;
    MethodIs(src, p, names, oneway);
    HeadIs(src, p, names, oneway);
    var h, m := ReadHead(src, p, names, oneway), ReadMark(src, p);
    ResultReadIs(src, m.end, names, oneway, m.value);
    TypeSayable(src, m.end, names);
    var e := ReadType(src, m.end, names).end;
    TwoTokensAre(src, e, Identifier, ParenthesesLeft);
    NameScanned(src, e);
    ReadParamsSayable(src, h.end, names, []);
    MethodSayableIs(ReadMethod(src, p, names, oneway).value, names, oneway);
  }

  lemma {:induction false} ReadMethodsSayable(src: string, p: nat, names: Names, oneway: bool, seen: seq<MethodForm>)
    requires p <= |src| && Honest(names) && ReadMethods(src, p, names, oneway, seen).Got?
    requires forall i :: 0 <= i < |seen| ==> MethodSayable(seen[i], names, oneway)
    ensures var xs := ReadMethods(src, p, names, oneway, seen).value;
            xs != [] && forall i :: 0 <= i < |xs| ==> MethodSayable(xs[i], names, oneway)
    decreases |src| - p
  {
    hide *;
    MethodsStep(src, p, names, oneway, seen);
    ReadMethodSayable(src, p, names, oneway);
    var r := ReadMethod(src, p, names, oneway);
    MethodsStep(src, r.end, names, oneway, seen + [r.value]);
    if Next(src, r.end).token != BracesRight {
      ReadMethodsSayable(src, r.end, names, oneway, seen + [r.value]);
    }
  }

  // A full name that reads is put together from its two parts again.
  lemma SplitSayable(full: string)
    requires full != "" && IsName(full) && IsValidTypeName(full)
    ensures NameSayable(NamespaceIn(full), ShortName(full))
    ensures '.' !in full <==> NamespaceIn(full) == "."
  {
    hide IsName, LastDot;
    var i := LastDot(full);
    var short := full[i + 1..];
    forall j | 0 <= j < |short| ensures short[j] != '.' {
      assert short[j] == full[i + 1 + j];
    }
    if i == -1 {
      assert short == full;
    } else {
      assert full[..i + 1][i] == '.';
      assert full[..i + 1] + short == full;
    }
  }

  lemma ReadInterfaceSayable(src: string, p: nat, names: Names, config: Config)
    requires p <= |src| && Honest(names) && ReadInterface(src, p, names, config).Got?
    requires NotPrimitiveName(ReadInterface(src, p, names, config).value.name)
    ensures InterfaceSayable(ReadInterface(src, p, names, config).value, names, config)
  {
    hide *;
    InterfaceIs(src, p, names, config);
    var s, x := ReadStart(src, p), ReadInterface(src, p, names, config).value;
    NamedIs(src, s.end, names, config, s.value);
    NameIs(src, s.end, config.targetIsTs);
    var r := ReadName(src, s.end, config.targetIsTs);
    NameScanned(src, s.end);
    SplitSayable(r.value.0);
    NamedBodyIs(src, r.end, names, config, s.value, r.value);
    if !r.value.1 {
      BodyHonest(names, x.nspace, x.name);
      ReadMethodsSayable(src, r.end, BodyNames(names, x.nspace, x.name), s.value, []);
    }
    InterfaceSayableIs(x, names, config);
  }

  lemma BodyHonest(names: Names, nspace: string, name: string)
    requires Honest(names) && NotPrimitiveName(name)
    ensures Honest(BodyNames(names, nspace, name))
  {
    hide IsName, NotPrimitiveName;
  }

  lemma ReadPartSayable(src: string, p: nat, names: Names, config: Config)
    requires p <= |src| && Honest(names) && ReadPart(src, p, names, config).Got?
    requires NotPrimitiveName(NameOf(ReadPart(src, p, names, config).value))
    ensures PartSayable(ReadPart(src, p, names, config).value, names, config)
    ensures Honest(NamesAfter(names, ReadPart(src, p, names, config).value))
  {
    hide *;
    PartIs(src, p, names, config);
    var x := ReadPart(src, p, names, config).value;
    PartTextIs(x, names, config);
    NameOfIs(x);
    AfterHonest(names, x);
    if Next(src, p).token == SequenceableKey {
      SequenceableIs(src, p);
      var a := Next(src, p).end;
      ClassNameIs(src, a);
      TwoTokensAre(src, a, Identifier, Semicolon);
      NameScanned(src, a);
      SplitSayable(Next(src, a).text);
    } else {
      ReadInterfaceSayable(src, p, names, config);
    }
  }

  lemma NameOfIs(x: Part)
    ensures NameOf(x) == if x.InterfacePart? then x.interface_.name else x.sequenceable.name
  {
  }

  lemma AfterHonest(names: Names, x: Part)
    requires Honest(names) && NotPrimitiveName(NameOf(x))
    ensures Honest(NamesAfter(names, x))
  {
    hide NotPrimitiveName;
  }

  lemma {:induction false} ReadPartsSayable(src: string, p: nat, names: Names, config: Config, seen: seq<Part>, used: set<string>)
    requires p <= |src| && Honest(names) && ReadParts(src, p, names, config, seen).Got?
    requires AllNew(used, ReadParts(src, p, names, config, seen).value)
    ensures var parts := ReadParts(src, p, names, config, seen).value;
            seen <= parts && FileSayable(parts[|seen|..], names, config)
    decreases |src| - p
  {
    hide *;
    var parts := ReadParts(src, p, names, config, seen).value;
    PartsStep(src, p, names, config, seen);
    if Next(src, p).token == EndOfFile {
      SayNothing(names, config);
      assert seen[|seen|..] == [];
    } else {
      var r := ReadPart(src, p, names, config);
      SeenStays(src, r.end, NamesAfter(names, r.value), config, seen + [r.value]);
      NewPrefix(used, parts, |seen|);
      assert parts[|seen|] == r.value;
      NewIs(used + NamesIn(parts[..|seen|]), NameOf(r.value));
      ReadPartSayable(src, p, names, config);
      ReadPartsSayable(src, r.end, NamesAfter(names, r.value), config, seen + [r.value], used);
      assert parts[|seen|..][0] == r.value && parts[|seen|..][1..] == parts[|seen| + 1..];
      SayMore(parts[|seen|..], names, config);
    }
  }

  lemma NewIs(used: set<string>, name: string)
    requires IsNew(used, name)
    ensures NotPrimitiveName(name)
  {
    hide PrimName;
  }

  lemma SayNothing(names: Names, config: Config)
    ensures FileSayable([], names, config)
  {
  }

  lemma SayMore(parts: seq<Part>, names: Names, config: Config)
    requires parts != [] && PartSayable(parts[0], names, config) && FileSayable(parts[1..], NamesAfter(names, parts[0]), config)
    ensures FileSayable(parts, names, config)
  {
    hide PartSayable, NamesAfter;
  }

  // Whatever declarations a text of any layout reads as, printed they read as
  // the same.
  lemma FilePrintsAgain(src: string, p: nat, names: Names, config: Config, used: set<string>)
    requires p <= |src| && Honest(names) && ReadFile(src, p, names, config).Got?
    requires AllNew(used, ReadFile(src, p, names, config).value)
    ensures var parts := ReadFile(src, p, names, config).value;
            && FileSayable(parts, names, config)
            && ReadFile(FileText(parts), 0, names, config) == Got(parts, |FileText(parts)|)
  {
    hide *;
    ReadFileIs(src, p, names, config);
    var parts := ReadFile(src, p, names, config).value;
    ReadPartsSayable(src, Beginning(src, p), names, config, [], used);
    assert parts[0..] == parts;
    PrintedFileReads(parts, names, config);
  }
}
