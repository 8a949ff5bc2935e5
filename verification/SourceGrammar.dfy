/** The grammar of a file over its words: which words a type, a parameter, a
    method, an interface and a whole file are made of, whatever white space and
    comments are between them. A text reads as declarations exactly if its words
    are words of those. */
module SourceGrammar {
  import opened IdlTypes
  import opened Lexing
  import opened TypeText
  import opened SourceText
  import opened PrintedText

  // A word of letters or a single sign.
  datatype Word = Word(token: Token, text: string)

  type Words = seq<Word>

  function Sign(c: char): Word {
    Word(Symbol(c), "")
  }

  function Letters(text: string): Word {
    Word(Keyword(text), text)
  }

  // The words of a text from p on.
  function WordsOf(src: string, p: nat): Words
    requires p <= |src|
    decreases |src| - p
  {
    var s := Next(src, p);
    if s.token == EndOfFile then [] else [Word(s.token, s.text)] + WordsOf(src, s.end)
  }

  // ----- the grammar -----

  function TypeWords(t: Type): Words {
    match t
    case Primitive(p) => [Letters(PrimName(p))]
    case Sequenceable(_, n) => [Letters(n)]
    case Interface(_, n) => [Letters(n)]
    case List(e) => [Letters("List"), Sign('<')] + TypeWords(e) + [Sign('>')]
    case Map(k, v) => [Letters("Map"), Sign('<')] + TypeWords(k) + [Sign(',')] + TypeWords(v) + [Sign('>')]
    case Array(e) => TypeWords(e) + [Sign('['), Sign(']')]
  }

  predicate IsDirection(w: Word) {
    w == Letters("in") || w == Letters("out") || w == Letters("inout")
  }

  // Directions and commas, and no two directions side by side: what they come
  // to, on top of what was read before.
  predicate Directed(w: Words, i0: bool, o0: bool, isIn: bool, isOut: bool) {
    && (forall i :: 0 <= i < |w| ==> IsDirection(w[i]) || w[i] == Sign(','))
    && (forall i :: 0 <= i < |w| - 1 ==> w[i] == Sign(',') || w[i + 1] == Sign(','))
    && (isIn <==> i0 || Letters("in") in w || Letters("inout") in w)
    && (isOut <==> o0 || Letters("out") in w || Letters("inout") in w)
  }

  ghost predicate IsParam(w: Words, x: ParamForm, names: Names) {
    && ParamSayable(x, names)
    && exists i :: 0 <= i < |w| && ParamSplits(w, i, x)
  }

  // The closing bracket is at i.
  predicate ParamSplits(w: Words, i: nat, x: ParamForm) {
    && 0 < i < |w| && w[0] == Sign('[') && Directed(w[1..i], false, false, x.isIn, x.isOut) && w[i] == Sign(']')
    && w[i + 1..] == TypeWords(x.typ) + [Letters(x.name)]
  }

  // A comma in front does not count.
  function CommaOff(w: Words): Words {
    if w != [] && w[0] == Sign(',') then w[1..] else w
  }

  // Parameters up to the closing parenthesis; a comma may follow each.
  ghost predicate AreParams(w: Words, xs: seq<ParamForm>, names: Names)
    decreases |xs|
  {
    if xs == [] then w == [Sign(')')]
    else exists i :: 0 <= i <= |w| && IsParam(w[..i], xs[0], names) && AreParams(CommaOff(w[i..]), xs[1..], names)
  }

  function MarkWords(oneway: bool): Words {
    if oneway then [Sign('['), Letters("oneway"), Sign(']')] else []
  }

  ghost predicate IsMethod(w: Words, x: MethodForm, names: Names, onewayInterface: bool) {
    && MethodSayable(x, names, onewayInterface)
    && exists i :: 0 <= i <= |w| && MethodSplits(w, i, x, names)
  }

  // The parameters are from i on, up to the semicolon.
  ghost predicate MethodSplits(w: Words, i: nat, x: MethodForm, names: Names) {
    && i < |w| && w[..i] == MarkWords(x.oneway) + TypeWords(x.ret) + [Letters(x.name), Sign('(')]
    && AreParams(w[i..|w| - 1], x.params, names) && w[|w| - 1] == Sign(';')
  }

  // Methods up to the closing brace.
  ghost predicate AreMethods(w: Words, xs: seq<MethodForm>, names: Names, onewayInterface: bool)
    decreases |xs|
  {
    xs != []
    && exists i :: 0 <= i <= |w| && IsMethod(w[..i], xs[0], names, onewayInterface)
                   && if |xs| == 1 then w[i..] == [Sign('}')] else AreMethods(w[i..], xs[1..], names, onewayInterface)
  }

  function StartWords(x: InterfaceForm): Words {
    MarkWords(x.oneway) + [Letters("interface"), Letters(FullName(x.nspace, x.name)), if x.external then Sign(';') else Sign('{')]
  }

  ghost predicate IsInterface(w: Words, x: InterfaceForm, names: Names, config: Config) {
    && InterfaceSayable(x, names, config)
    && StartWords(x) <= w
    && var rest := w[|StartWords(x)|..];
       if x.external then rest == [] else AreMethods(rest, x.methods, BodyNames(names, x.nspace, x.name), x.oneway)
  }

  predicate IsSequenceable(w: Words, x: SequenceableForm) {
    NameSayable(x.nspace, x.name) && w == [Letters("sequenceable"), Letters(FullName(x.nspace, x.name)), Sign(';')]
  }

  ghost predicate IsPart(w: Words, x: Part, names: Names, config: Config) {
    match x
    case InterfacePart(i) => IsInterface(w, i, names, config)
    case SequenceablePart(s) => IsSequenceable(w, s)
  }

  ghost predicate AreParts(w: Words, xs: seq<Part>, names: Names, config: Config)
    decreases |xs|
  {
    if xs == [] then w == []
    else exists i :: 0 <= i <= |w| && IsPart(w[..i], xs[0], names, config) && AreParts(w[i..], xs[1..], NamesAfter(names, xs[0]), config)
  }

  // ----- one word -----

  lemma WordsStep(src: string, p: nat)
    requires p <= |src|
    ensures var s := Next(src, p);
            WordsOf(src, p) == if s.token == EndOfFile then [] else [Word(s.token, s.text)] + WordsOf(src, s.end)
  {
    hide Next;
  }

  // The first word, and what comes behind it.
  lemma FirstWord(src: string, p: nat, w: Word, rest: Words)
    requires p <= |src| && WordsOf(src, p) == [w] + rest
    ensures Next(src, p).token == w.token && Next(src, p).text == w.text && WordsOf(src, Next(src, p).end) == rest
    ensures w.token != EndOfFile
  {
    hide Next, WordsOf;
    WordsStep(src, p);
    var all := WordsOf(src, p);
    assert all[0] == w && all[1..] == rest;
    if Next(src, p).token != EndOfFile {
      assert all[1..] == WordsOf(src, Next(src, p).end);
    }
  }

  // A token is either a word of letters or a sign.
  lemma {:induction false} TokenIsWord(src: string, p: nat, skipComment: bool)
    requires p <= |src|
    ensures var s := ScanToken(src, p, skipComment);
            s.token in {EndOfFile, CommentBlock, CommentLine}
            || (s.text != "" && s.token == Keyword(s.text)) || (s.text == "" && exists c :: s.token == Symbol(c))
    decreases |src| - p
  {
    hide WordEnd, LineEnd, BlockEnd, Keyword, Symbol;
    if p == |src| {
    } else if IsSpace(src[p]) {
      TokenIsWord(src, p + 1, skipComment);
    } else if StartsWord(src[p]) {
      assert src[p..WordEnd(src, p + 1)] != "";
    } else if src[p] == '/' && p + 1 < |src| && src[p + 1] == '/' {
      if skipComment {
        TokenIsWord(src, LineEnd(src, p + 1), skipComment);
      }
    } else if src[p] == '/' && p + 1 < |src| && src[p + 1] == '*' {
      if skipComment {
        TokenIsWord(src, BlockEnd(src, p + 1), skipComment);
      }
    } else {
      assert ScanToken(src, p, skipComment).token == Symbol(src[p]);
    }
  }

  lemma NextIsWord(src: string, p: nat)
    requires p <= |src| && Next(src, p).token != EndOfFile
    ensures var s := Next(src, p);
            (s.text != "" && s.token == Keyword(s.text)) || (s.text == "" && exists c :: s.token == Symbol(c))
  {
    hide ScanToken, Keyword, Symbol;
    TokenIsWord(src, p, true);
    NoCommentHere(src, p);
  }

  lemma SignsAreNoLetters(c: char)
    ensures Symbol(c) in {AngleLeft, AngleRight, BracesLeft, BracesRight, BracketsLeft, BracketsRight, Comma, ParenthesesLeft,
                          ParenthesesRight, Dot, Semicolon, Unknown}
  {
  }

  lemma LettersAreNoSigns(text: string)
    ensures Keyword(text) !in {AngleLeft, AngleRight, BracesLeft, BracesRight, BracketsLeft, BracketsRight, Comma,
                               ParenthesesLeft, ParenthesesRight, Dot, Semicolon, Unknown, EndOfFile}
  {
  }

  // A sign is known by its token.
  lemma SignRead(src: string, p: nat, c: char)
    requires p <= |src| && IsSymbol(c) && Next(src, p).token == Symbol(c)
    ensures WordsOf(src, p) == [Sign(c)] + WordsOf(src, Next(src, p).end)
  {
    hide Next, WordsOf, Keyword, Symbol;
    SignsAreNoLetters(c);
    NextIsWord(src, p);
    LettersAreNoSigns(Next(src, p).text);
    KnownSign(c);
    WordsStep(src, p);
  }

  lemma KnownSign(c: char)
    requires IsSymbol(c)
    ensures Symbol(c) in {AngleLeft, AngleRight, BracesLeft, BracesRight, BracketsLeft, BracketsRight, Comma, ParenthesesLeft,
                          ParenthesesRight, Semicolon}
  {
  }

  // How a keyword is spelled.
  function Spelling(t: Token): string {
    match t
    case BooleanKey => "boolean"
    case ByteKey => "byte"
    case CharKey => "char"
    case DoubleKey => "double"
    case FloatKey => "float"
    case InKey => "in"
    case InoutKey => "inout"
    case IntegerKey => "int"
    case InterfaceKey => "interface"
    case ListKey => "List"
    case LongKey => "long"
    case MapKey => "Map"
    case OnewayKey => "oneway"
    case OutKey => "out"
    case SequenceableKey => "sequenceable"
    case ShortKey => "short"
    case StringKey => "String"
    case _ => ""
  }

  // The keywords are these words and no others.
  lemma KeywordsAreSpelled(text: string)
    ensures Keyword(text) != Identifier ==> text == Spelling(Keyword(text)) != ""
  {
  }

  lemma KeywordsDiffer(a: string, b: string)
    requires Keyword(a) == Keyword(b) && Keyword(a) != Identifier
    ensures a == b
  {
    hide *;
    KeywordsAreSpelled(a);
    KeywordsAreSpelled(b);
  }

  // A keyword is known by its token.
  lemma KeyRead(src: string, p: nat, text: string)
    requires p <= |src| && Next(src, p).token == Keyword(text) && Keyword(text) != Identifier
    ensures WordsOf(src, p) == [Letters(text)] + WordsOf(src, Next(src, p).end)
  {
    hide Next, WordsOf, Keyword, Symbol;
    NextIsWord2(src, p, text);
    KeywordsDiffer(Next(src, p).text, text);
    WordsStep(src, p);
  }

  lemma NextIsWord2(src: string, p: nat, text: string)
    requires p <= |src| && Next(src, p).token == Keyword(text)
    ensures Next(src, p).token == Keyword(Next(src, p).text) && Next(src, p).token != EndOfFile
  {
    hide Next, Keyword, Symbol;
    LettersAreNoSigns(text);
    NextIsWord(src, p);
    if c :| Next(src, p).token == Symbol(c) {
      SignsAreNoLetters(c);
    }
  }

  // An identifier is known by its text.
  lemma NameRead(src: string, p: nat)
    requires p <= |src| && Next(src, p).token == Identifier
    ensures WordsOf(src, p) == [Letters(Next(src, p).text)] + WordsOf(src, Next(src, p).end)
    ensures IsName(Next(src, p).text)
  {
    hide Next, WordsOf, Keyword, Symbol, IsName;
    IdentifierIsKeyword();
    NextIsWord2(src, p, "a");
    NameScanned(src, p);
    WordsStep(src, p);
  }

  lemma IdentifierIsKeyword()
    ensures Keyword("a") == Identifier
  {
  }

  // ----- types: what reads has the words -----

  lemma SpelledWords(word: string, t: Type)
    requires Spells(word, t)
    ensures TypeWords(t) == [Letters(word)]
  {
    hide Letters, NotPrimitiveName, PrimName;
  }

  lemma PrimitiveToken(t: Token)
    requires IsPrimitiveType(t)
    ensures Keyword(PrimitiveWord(t)) == t && t != Identifier
  {
  }

  lemma {:induction false} BaseHasWords(src: string, p: nat, names: Names)
    requires p <= |src| && Honest(names) && ReadBase(src, p, names).Parsed?
    ensures var r := ReadBase(src, p, names); WordsOf(src, p) == TypeWords(r.typ) + WordsOf(src, r.end)
    decreases |src| - p, 0
  {
    hide *;
    BaseIsNext(src, p, names);
    AfterTokenIs(src, Next(src, p), names);
    var s := Next(src, p);
    if IsPrimitiveType(s.token) {
      var word := PrimitiveWord(s.token);
      PrimitiveToken(s.token);
      LookupIs(names, word, s.end);
      KeyRead(src, p, word);
      HonestAt(names, word);
      SpelledWords(word, names[word]);
    } else if s.token == Identifier {
      LookupIs(names, s.text, s.end);
      NameRead(src, p);
      HonestAt(names, s.text);
      SpelledWords(s.text, names[s.text]);
    } else if s.token == ListKey {
      NextAdvances(src, p);
      ContainerWords();
      KeyRead(src, p, "List");
      ListHasWords(src, s.end, names);
    } else {
      NextAdvances(src, p);
      ContainerWords();
      KeyRead(src, p, "Map");
      MapHasWords(src, s.end, names);
    }
  }

  lemma TypeWordsAre(t: Type)
    ensures t.List? ==> TypeWords(t) == [Letters("List"), Sign('<')] + TypeWords(t.element) + [Sign('>')]
    ensures t.Map? ==>
              TypeWords(t) == [Letters("Map"), Sign('<')] + TypeWords(t.key) + [Sign(',')] + TypeWords(t.value) + [Sign('>')]
    ensures t.Array? ==> TypeWords(t) == TypeWords(t.element) + [Sign('['), Sign(']')]
    ensures TypeWords(t) != []
  {
    hide Letters, Sign;
  }

  lemma AnglesAre()
    ensures Symbol('<') == AngleLeft && Symbol('>') == AngleRight && IsSymbol('<') && IsSymbol('>')
  {
  }

  lemma ListReadIs(src: string, p: nat, names: Names)
    requires p <= |src| && ReadList(src, p, names).Parsed?
    ensures var e := ReadType(src, Next(src, p).end, names);
            && Next(src, p).token == AngleLeft && e.Parsed? && Next(src, e.end).token == AngleRight
            && ReadList(src, p, names) == Parsed(List(e.typ), Next(src, e.end).end)
  {
    hide Next, ReadType;
  }

  lemma MapReadIs(src: string, p: nat, names: Names)
    requires p <= |src| && ReadMap(src, p, names).Parsed?
    ensures var k := ReadType(src, Next(src, p).end, names);
            && Next(src, p).token == AngleLeft && k.Parsed? && Next(src, k.end).token == Comma
            && var v := ReadType(src, Next(src, k.end).end, names);
               && v.Parsed? && Next(src, v.end).token == AngleRight
               && ReadMap(src, p, names) == Parsed(Map(k.typ, v.typ), Next(src, v.end).end)
  {
    hide Next, ReadType;
  }

  lemma {:induction false} ListHasWords(src: string, p: nat, names: Names)
    requires p <= |src| && Honest(names) && ReadList(src, p, names).Parsed?
    ensures var r := ReadList(src, p, names);
            r.typ.List? && [Letters("List")] + WordsOf(src, p) == TypeWords(r.typ) + WordsOf(src, r.end)
    decreases |src| - p, 2
  {
    hide *;
    ListReadIs(src, p, names);
    AnglesAre();
    var e := ReadType(src, Next(src, p).end, names);
    SignRead(src, p, '<');
    TypeHasWords(src, Next(src, p).end, names);
    SignRead(src, e.end, '>');
    TypeWordsAre(List(e.typ));
    var rest := WordsOf(src, Next(src, e.end).end);
    assert [Letters("List")] + ([Sign('<')] + (TypeWords(e.typ) + ([Sign('>')] + rest)))
        == [Letters("List"), Sign('<')] + TypeWords(e.typ) + [Sign('>')] + rest;
  }

  lemma {:induction false} MapHasWords(src: string, p: nat, names: Names)
    requires p <= |src| && Honest(names) && ReadMap(src, p, names).Parsed?
    ensures var r := ReadMap(src, p, names);
            r.typ.Map? && [Letters("Map")] + WordsOf(src, p) == TypeWords(r.typ) + WordsOf(src, r.end)
    decreases |src| - p, 2
  {
    hide *;
    MapReadIs(src, p, names);
    AnglesAre();
    SymbolsAre();
    var k := ReadType(src, Next(src, p).end, names);
    var v := ReadType(src, Next(src, k.end).end, names);
    SignRead(src, p, '<');
    TypeHasWords(src, Next(src, p).end, names);
    SignRead(src, k.end, ',');
    TypeHasWords(src, Next(src, k.end).end, names);
    SignRead(src, v.end, '>');
    TypeWordsAre(Map(k.typ, v.typ));
    var rest := WordsOf(src, Next(src, v.end).end);
    assert [Letters("Map")] + ([Sign('<')] + (TypeWords(k.typ) + ([Sign(',')] + (TypeWords(v.typ) + ([Sign('>')] + rest)))))
        == [Letters("Map"), Sign('<')] + TypeWords(k.typ) + [Sign(',')] + TypeWords(v.typ) + [Sign('>')] + rest;
  }

  lemma TypeReadIs(src: string, p: nat, names: Names)
    requires p <= |src|
    ensures var b := ReadBase(src, p, names);
            && (b.Failed? ==> ReadType(src, p, names) == Failed)
            && (b.Parsed? && Next(src, b.end).token != BracketsLeft ==> ReadType(src, p, names) == b)
            && (b.Parsed? && Next(src, b.end).token == BracketsLeft ==>
                  var right := Next(src, Next(src, b.end).end);
                  ReadType(src, p, names) == if right.token != BracketsRight then Failed else Parsed(Array(b.typ), right.end))
  {
    hide Next, ReadBase;
  }

  // A type that reads has the words of the type.
  lemma {:induction false} TypeHasWords(src: string, p: nat, names: Names)
    requires p <= |src| && Honest(names) && ReadType(src, p, names).Parsed?
    ensures var r := ReadType(src, p, names); WordsOf(src, p) == TypeWords(r.typ) + WordsOf(src, r.end)
    decreases |src| - p, 1
  {
    hide *;
    TypeReadIs(src, p, names);
    BaseHasWords(src, p, names);
    var b := ReadBase(src, p, names);
    if Next(src, b.end).token == BracketsLeft {
      SymbolsAre();
      var a := Next(src, b.end).end;
      SignRead(src, b.end, '[');
      SignRead(src, a, ']');
      TypeWordsAre(Array(b.typ));
      var rest := WordsOf(src, Next(src, a).end);
      assert TypeWords(b.typ) + ([Sign('[')] + ([Sign(']')] + rest)) == TypeWords(b.typ) + [Sign('['), Sign(']')] + rest;
    }
  }

  // ----- types: what has the words reads -----

  lemma WordFirst(src: string, p: nat, word: string, rest: Words)
    requires p <= |src| && WordsOf(src, p) == [Letters(word)] + rest
    ensures Next(src, p).token == Keyword(word) && Next(src, p).text == word && WordsOf(src, Next(src, p).end) == rest
  {
    hide Next, WordsOf, Keyword;
    FirstWord(src, p, Letters(word), rest);
  }

  lemma SignFirst(src: string, p: nat, c: char, rest: Words)
    requires p <= |src| && WordsOf(src, p) == [Sign(c)] + rest
    ensures Next(src, p).token == Symbol(c) && WordsOf(src, Next(src, p).end) == rest
  {
    hide Next, WordsOf, Symbol;
    FirstWord(src, p, Sign(c), rest);
  }

  lemma NoBracketNext(src: string, p: nat, rest: Words)
    requires p <= |src| && WordsOf(src, p) == rest && (rest == [] || rest[0] != Sign('['))
    ensures Next(src, p).token != BracketsLeft
  {
    hide *;
    if Next(src, p).token == BracketsLeft {
      BracketFirst(src, p);
    }
  }

  lemma BracketFirst(src: string, p: nat)
    requires p <= |src| && Next(src, p).token == BracketsLeft
    ensures WordsOf(src, p) != [] && WordsOf(src, p)[0] == Sign('[')
  {
    hide *;
    SymbolsAre();
    SignRead(src, p, '[');
  }

  // A single word that denotes a type.
  lemma WordReads(src: string, p: nat, t: Type, rest: Words, names: Names)
    requires p <= |src| && InGrammar(t, names) && WordsOf(src, p) == TypeWords(t) + rest && EndsInWord(t)
    ensures ReadBase(src, p, names) == Parsed(t, Next(src, p).end) && WordsOf(src, Next(src, p).end) == rest
  {
    hide *;
    WordTypes(t);
    var word := if t.Primitive? then PrimName(t.prim) else t.name;
    WordOfType(t, names, word);
    WordFirst(src, p, word, rest);
    if t.Primitive? {
      PrimitiveWords(t.prim);
    }
    BaseIsNext(src, p, names);
    AfterTokenIs(src, Next(src, p), names);
    LookupIs(names, word, Next(src, p).end);
    IdentifierIsNoType();
  }

  lemma WordTypes(t: Type)
    ensures EndsInWord(t) <==> t.Primitive? || t.Sequenceable? || t.Interface?
    ensures t.IsNamed() <==> t.Sequenceable? || t.Interface?
  {
  }

  lemma WordOfType(t: Type, names: Names, word: string)
    requires InGrammar(t, names) && EndsInWord(t) && word == if t.Primitive? then PrimName(t.prim) else t.name
    ensures TypeWords(t) == [Letters(word)] && word in names && names[word] == t && (t.IsNamed() ==> Keyword(word) == Identifier)
    ensures t.Primitive? || t.IsNamed()
  {
    hide Letters, PrimName, Keyword;
  }

  lemma IdentifierIsNoType()
    ensures !IsPrimitiveType(Identifier) && !IsPrimitiveType(ListKey) && !IsPrimitiveType(MapKey)
  {
  }

  lemma TypeCases(t: Type, names: Names)
    requires InGrammar(t, names)
    ensures EndsInWord(t) || t.List? || t.Map? || t.Array?
    ensures t.List? ==> InGrammar(t.element, names) && !EndsInWord(t)
    ensures t.Map? ==> InGrammar(t.key, names) && InGrammar(t.value, names) && !EndsInWord(t)
    ensures t.Array? ==> InGrammar(t.element, names) && !t.element.Array? && !EndsInWord(t)
  {
    hide PrimName, IsName;
  }

  // What has the words of a type, and no bracket behind them, reads as it.
  lemma {:induction false} WordsReadAsType(src: string, p: nat, t: Type, rest: Words, names: Names)
    requires p <= |src| && InGrammar(t, names) && WordsOf(src, p) == TypeWords(t) + rest
    ensures !t.Array? ==>
              var r := ReadBase(src, p, names); r.Parsed? && r.typ == t && WordsOf(src, r.end) == rest
    ensures t.Array? || rest == [] || rest[0] != Sign('[') ==>
              var r := ReadType(src, p, names); r.Parsed? && r.typ == t && WordsOf(src, r.end) == rest
    decreases t, 1
  {
    hide *;
    TypeCases(t, names);
    TypeReadIs(src, p, names);
    if EndsInWord(t) {
      WordReads(src, p, t, rest, names);
    } else if t.List? {
      ListReads(src, p, t, rest, names);
    } else if t.Map? {
      MapReads(src, p, t, rest, names);
    } else {
      SymbolsAre();
      TypeWordsAre(t);
      assert TypeWords(t) + rest == TypeWords(t.element) + ([Sign('[')] + ([Sign(']')] + rest));
      WordsReadAsType(src, p, t.element, [Sign('[')] + ([Sign(']')] + rest), names);
      var b := ReadBase(src, p, names);
      SignFirst(src, b.end, '[', [Sign(']')] + rest);
      SignFirst(src, Next(src, b.end).end, ']', rest);
    }
    if !t.Array? && (rest == [] || rest[0] != Sign('[')) {
      NoBracketNext(src, ReadBase(src, p, names).end, rest);
    }
  }

  lemma {:induction false} ListReads(src: string, p: nat, t: Type, rest: Words, names: Names)
    requires p <= |src| && InGrammar(t, names) && WordsOf(src, p) == TypeWords(t) + rest && t.List?
    ensures var r := ReadBase(src, p, names); r.Parsed? && r.typ == t && WordsOf(src, r.end) == rest
    decreases t, 0
  {
    hide *;
    TypeCases(t, names);
    TypeWordsAre(t);
    ContainerWords();
    AnglesAre();
    SignsDiffer();
    IdentifierIsNoType();
    var inner := TypeWords(t.element) + ([Sign('>')] + rest);
    assert TypeWords(t) + rest == [Letters("List")] + ([Sign('<')] + inner);
    WordFirst(src, p, "List", [Sign('<')] + inner);
    var a := Next(src, p).end;
    SignFirst(src, a, '<', inner);
    WordsReadAsType(src, Next(src, a).end, t.element, [Sign('>')] + rest, names);
    SignFirst(src, ReadType(src, Next(src, a).end, names).end, '>', rest);
    BaseIsNext(src, p, names);
    AfterTokenIs(src, Next(src, p), names);
    ListGot(src, a, names);
  }

  lemma SignsDiffer()
    ensures Sign('>') != Sign('[') && Sign(',') != Sign('[')
  {
  }

  lemma ListGot(src: string, p: nat, names: Names)
    requires p <= |src| && Next(src, p).token == AngleLeft && ReadType(src, Next(src, p).end, names).Parsed?
    requires Next(src, ReadType(src, Next(src, p).end, names).end).token == AngleRight
    ensures var e := ReadType(src, Next(src, p).end, names);
            ReadList(src, p, names) == Parsed(List(e.typ), Next(src, e.end).end)
  {
    hide Next, ReadType;
  }

  lemma {:induction false} MapReads(src: string, p: nat, t: Type, rest: Words, names: Names)
    requires p <= |src| && InGrammar(t, names) && WordsOf(src, p) == TypeWords(t) + rest && t.Map?
    ensures var r := ReadBase(src, p, names); r.Parsed? && r.typ == t && WordsOf(src, r.end) == rest
    decreases t, 0
  {
    hide *;
    TypeCases(t, names);
    TypeWordsAre(t);
    ContainerWords();
    AnglesAre();
    SignsDiffer();
    SymbolsAre();
    IdentifierIsNoType();
    var value := TypeWords(t.value) + ([Sign('>')] + rest);
    var inner := TypeWords(t.key) + ([Sign(',')] + value);
    assert TypeWords(t) + rest == [Letters("Map")] + ([Sign('<')] + inner);
    WordFirst(src, p, "Map", [Sign('<')] + inner);
    var a := Next(src, p).end;
    SignFirst(src, a, '<', inner);
    var b := Next(src, a).end;
    WordsReadAsType(src, b, t.key, [Sign(',')] + value, names);
    var c := ReadType(src, b, names).end;
    SignFirst(src, c, ',', value);
    WordsReadAsType(src, Next(src, c).end, t.value, [Sign('>')] + rest, names);
    SignFirst(src, ReadType(src, Next(src, c).end, names).end, '>', rest);
    BaseIsNext(src, p, names);
    AfterTokenIs(src, Next(src, p), names);
    MapGot(src, a, names);
  }

  lemma MapGot(src: string, p: nat, names: Names)
    requires p <= |src| && Next(src, p).token == AngleLeft && ReadType(src, Next(src, p).end, names).Parsed?
    requires Next(src, ReadType(src, Next(src, p).end, names).end).token == Comma
    requires var c := Next(src, ReadType(src, Next(src, p).end, names).end).end;
             ReadType(src, c, names).Parsed? && Next(src, ReadType(src, c, names).end).token == AngleRight
    ensures var k := ReadType(src, Next(src, p).end, names);
            var v := ReadType(src, Next(src, k.end).end, names);
            ReadMap(src, p, names) == Parsed(Map(k.typ, v.typ), Next(src, v.end).end)
  {
    hide Next, ReadType;
  }

  // ----- parameters -----

  lemma NoDirections(i0: bool, o0: bool)
    ensures Directed([], i0, o0, i0, o0)
  {
  }

  // The words of the directions.
  lemma DirectionsAre()
    ensures Letters("in").token == InKey && Letters("out").token == OutKey && Letters("inout").token == InoutKey
    ensures Sign(',').token == Comma
    ensures Letters("in") != Letters("out") && Letters("in") != Letters("inout") && Letters("out") != Letters("inout")
    ensures Letters("in") != Sign(',') && Letters("out") != Sign(',') && Letters("inout") != Sign(',')
  {
  }

  // A direction and a comma, or a direction alone, or a comma alone in front.
  lemma DirectedComma(w: Words, i0: bool, o0: bool, isIn: bool, isOut: bool)
    ensures Directed([Sign(',')] + w, i0, o0, isIn, isOut) <==> Directed(w, i0, o0, isIn, isOut)
  {
    hide Letters, Sign, IsDirection;
    DirectionsAre();
    var v := [Sign(',')] + w;
    assert v[1..] == w;
    assert forall i :: 0 <= i < |w| ==> v[i + 1] == w[i];
    if Directed(v, i0, o0, isIn, isOut) {
      forall i | 0 <= i < |w| ensures IsDirection(w[i]) || w[i] == Sign(',') {
        assert IsDirection(v[i + 1]) || v[i + 1] == Sign(',');
      }
      forall i | 0 <= i < |w| - 1 ensures w[i] == Sign(',') || w[i + 1] == Sign(',') {
        assert v[i + 1] == Sign(',') || v[i + 2] == Sign(',');
      }
    }
  }

  function Ins(w: Word): bool {
    w == Letters("in") || w == Letters("inout")
  }

  function Outs(w: Word): bool {
    w == Letters("out") || w == Letters("inout")
  }

  lemma DirectedOne(d: Word, w: Words, i0: bool, o0: bool, isIn: bool, isOut: bool)
    requires w == [] || w[0] == Sign(',')
    ensures Directed([d] + w, i0, o0, isIn, isOut) && d != Sign(',')
            <==> IsDirection(d) && Directed(w, i0 || Ins(d), o0 || Outs(d), isIn, isOut)
  {
    hide Letters, Sign;
    DirectionsAre();
    var v := [d] + w;
    assert v[1..] == w && v[0] == d;
    if Directed(v, i0, o0, isIn, isOut) {
      forall i | 0 <= i < |w| ensures IsDirection(w[i]) || w[i] == Sign(',') {
        assert v[i + 1] == w[i];
      }
      forall i | 0 <= i < |w| - 1 ensures w[i] == Sign(',') || w[i + 1] == Sign(',') {
        assert v[i + 1] == w[i] && v[i + 2] == w[i + 1];
      }
    }
  }

  lemma DirectionToken(d: Word)
    requires IsDirection(d)
    ensures d.token in {InKey, OutKey, InoutKey} && d != Sign(',') && d == Letters(d.text) && Keyword(d.text) == d.token
    ensures Ins(d) <==> d.token in {InKey, InoutKey}
    ensures Outs(d) <==> d.token in {OutKey, InoutKey}
  {
    hide Letters, Sign;
    DirectionsAre();
    LettersIs("in");
    LettersIs("out");
    LettersIs("inout");
  }

  lemma LettersIs(text: string)
    ensures Letters(text).token == Keyword(text) && Letters(text).text == text
  {
    hide Keyword;
  }

  lemma DirectionRead(src: string, p: nat) returns (d: Word)
    requires p <= |src| && Next(src, p).token in {InKey, OutKey, InoutKey}
    ensures IsDirection(d) && d.token == Next(src, p).token && WordsOf(src, p) == [d] + WordsOf(src, Next(src, p).end)
  {
    hide Next, WordsOf, Keyword, Letters;
    KeywordsAre();
    DirectionsAre();
    var text := if Next(src, p).token == InKey then "in" else if Next(src, p).token == OutKey then "out" else "inout";
    d := Letters(text);
    KeyRead(src, p, text);
  }

  lemma AttributesGot(src: string, p: nat, i0: bool, o0: bool)
    requires p <= |src| && ReadAttributes(src, p, i0, o0).Got?
    ensures Next(src, p).token == BracketsRight ==> ReadAttributes(src, p, i0, o0) == Got((i0, o0), Next(src, p).end)
    ensures Next(src, p).token == Comma ==> ReadAttributes(src, p, i0, o0) == ReadAttributes(src, Next(src, p).end, i0, o0)
    ensures var s := Next(src, p);
            s.token in {InKey, OutKey, InoutKey} ==>
              var i, o := i0 || s.token in {InKey, InoutKey}, o0 || s.token in {OutKey, InoutKey};
              var t := Next(src, s.end);
              && t.token in {Comma, BracketsRight}
              && ReadAttributes(src, p, i0, o0) == if t.token == Comma then ReadAttributes(src, t.end, i, o) else Got((i, o), t.end)
    ensures Next(src, p).token in {BracketsRight, Comma, InKey, OutKey, InoutKey}
  {
    hide Next, ReadAttributes;
    AttributesStep(src, p, i0, o0);
  }

  lemma {:induction false} AttributesHaveWords(src: string, p: nat, i0: bool, o0: bool) returns (w: Words)
    requires p <= |src| && ReadAttributes(src, p, i0, o0).Got?
    ensures var r := ReadAttributes(src, p, i0, o0);
            && WordsOf(src, p) == w + ([Sign(']')] + WordsOf(src, r.end)) && Directed(w, i0, o0, r.value.0, r.value.1)
    decreases |src| - p
  {
    hide *;
    AttributesGot(src, p, i0, o0);
    SymbolsAre();
    var s := Next(src, p);
    if s.token == BracketsRight {
      SignRead(src, p, ']');
      NoDirections(i0, o0);
      w := [];
      assert WordsOf(src, p) == [] + ([Sign(']')] + WordsOf(src, s.end));
    } else if s.token == Comma {
      SignRead(src, p, ',');
      CommaAdvances(src, p);
      w := AttributesHaveWords(src, s.end, i0, o0);
      var r := ReadAttributes(src, p, i0, o0);
      DirectedComma(w, i0, o0, r.value.0, r.value.1);
      assert [Sign(',')] + (w + ([Sign(']')] + WordsOf(src, r.end))) == ([Sign(',')] + w) + ([Sign(']')] + WordsOf(src, r.end));
      w := [Sign(',')] + w;
    } else {
      w := DirectedHasWords(src, p, i0, o0);
    }
  }

  lemma Regroup(a: Words, b: Words, c: Words)
    ensures a + (b + c) == (a + b) + c
  {
  }

  lemma CommaAdvances(src: string, p: nat)
    requires p <= |src| && Next(src, p).token in {Comma, InKey, OutKey, InoutKey}
    ensures p < Next(src, p).end <= |src|
  {
    hide ScanToken;
  }

  lemma {:induction false} DirectedHasWords(src: string, p: nat, i0: bool, o0: bool) returns (w: Words)
    requires p <= |src| && ReadAttributes(src, p, i0, o0).Got? && Next(src, p).token in {InKey, OutKey, InoutKey}
    ensures var r := ReadAttributes(src, p, i0, o0);
            && WordsOf(src, p) == w + ([Sign(']')] + WordsOf(src, r.end)) && Directed(w, i0, o0, r.value.0, r.value.1)
    decreases |src| - p, 0
  {
    hide *;
    AttributesGot(src, p, i0, o0);
    SymbolsAre();
    var r := ReadAttributes(src, p, i0, o0);
    var end := [Sign(']')] + WordsOf(src, r.end);
    var d := DirectionRead(src, p);
    DirectionToken(d);
    CommaAdvances(src, p);
    var a := Next(src, p).end;
    if Next(src, a).token == Comma {
      CommaAdvances(src, a);
      SignRead(src, a, ',');
      w := AttributesHaveWords(src, Next(src, a).end, i0 || Ins(d), o0 || Outs(d));
      DirectedComma(w, i0 || Ins(d), o0 || Outs(d), r.value.0, r.value.1);
      Regroup([Sign(',')], w, end);
      w := [Sign(',')] + w;
    } else {
      SignRead(src, a, ']');
      NoDirections(i0 || Ins(d), o0 || Outs(d));
      w := [];
      assert w + end == end;
    }
    Regroup([d], w, end);
    DirectedOne(d, w, i0, o0, r.value.0, r.value.1);
    w := [d] + w;
  }

  lemma {:induction false} WordsReadAsAttributes(src: string, p: nat, w: Words, i0: bool, o0: bool, isIn: bool, isOut: bool, rest: Words)
    requires p <= |src| && WordsOf(src, p) == w + ([Sign(']')] + rest) && Directed(w, i0, o0, isIn, isOut)
    ensures var r := ReadAttributes(src, p, i0, o0); r.Got? && r.value == (isIn, isOut) && WordsOf(src, r.end) == rest
    decreases |w|
  {
    hide *;
    SymbolsAre();
    AttributesStep(src, p, i0, o0);
    var end := [Sign(']')] + rest;
    if w == [] {
      assert w + end == end;
      SignFirst(src, p, ']', rest);
      OnlyDirections(i0, o0, isIn, isOut);
    } else {
      assert w == [w[0]] + w[1..];
      assert w + end == [w[0]] + (w[1..] + end);
      if w[0] == Sign(',') {
        SignFirst(src, p, ',', w[1..] + end);
        DirectedComma(w[1..], i0, o0, isIn, isOut);
        WordsReadAsAttributes(src, Next(src, p).end, w[1..], i0, o0, isIn, isOut, rest);
      } else {
        DirectedHead(w, i0, o0, isIn, isOut);
        var d := w[0];
        DirectedOne(d, w[1..], i0, o0, isIn, isOut);
        DirectionToken(d);
        WordFirst(src, p, d.text, w[1..] + end);
        var a := Next(src, p).end;
        if |w| == 1 {
          assert w[1..] + end == end;
          SignFirst(src, a, ']', rest);
          assert w[1..] == [];
          OnlyDirections(i0 || Ins(d), o0 || Outs(d), isIn, isOut);
        } else {
          assert w[1..] == [Sign(',')] + w[2..];
          assert w[1..] + end == [Sign(',')] + (w[2..] + end);
          SignFirst(src, a, ',', w[2..] + end);
          DirectedComma(w[2..], i0 || Ins(d), o0 || Outs(d), isIn, isOut);
          WordsReadAsAttributes(src, Next(src, a).end, w[2..], i0 || Ins(d), o0 || Outs(d), isIn, isOut, rest);
        }
      }
    }
  }

  lemma OnlyDirections(i0: bool, o0: bool, isIn: bool, isOut: bool)
    requires Directed([], i0, o0, isIn, isOut)
    ensures isIn == i0 && isOut == o0
  {
  }

  // A direction at the front has a comma or nothing behind it.
  lemma DirectedHead(w: Words, i0: bool, o0: bool, isIn: bool, isOut: bool)
    requires w != [] && Directed(w, i0, o0, isIn, isOut) && w[0] != Sign(',')
    ensures IsDirection(w[0]) && (|w| > 1 ==> w[1] == Sign(','))
  {
    hide Letters, Sign, IsDirection;
  }

  // The words of a parameter put together.
  lemma MakeParam(w: Words, x: ParamForm, names: Names)
    requires ParamSayable(x, names) && Directed(w, false, false, x.isIn, x.isOut)
    ensures IsParam([Sign('[')] + w + [Sign(']')] + TypeWords(x.typ) + [Letters(x.name)], x, names)
  {
    hide ParamSayable, Directed, TypeWords, Letters, Sign;
    var v := [Sign('[')] + w + [Sign(']')] + TypeWords(x.typ) + [Letters(x.name)];
    assert v[1..|w| + 1] == w && v[|w| + 2..] == TypeWords(x.typ) + [Letters(x.name)];
    assert ParamSplits(v, |w| + 1, x);
  }

  lemma TakeParam(w: Words, x: ParamForm, names: Names) returns (a: Words)
    requires IsParam(w, x, names)
    ensures ParamSayable(x, names) && Directed(a, false, false, x.isIn, x.isOut)
    ensures w == [Sign('[')] + a + [Sign(']')] + TypeWords(x.typ) + [Letters(x.name)]
  {
    hide ParamSayable, Directed, TypeWords, Letters, Sign;
    var i :| 0 <= i < |w| && ParamSplits(w, i, x);
    a := w[1..i];
    assert w == [w[0]] + w[1..i] + [w[i]] + w[i + 1..];
  }

  lemma ParamHasWords(src: string, p: nat, names: Names) returns (w: Words)
    requires p <= |src| && Honest(names) && ReadParam(src, p, names).Got?
    ensures var r := ReadParam(src, p, names); WordsOf(src, p) == w + WordsOf(src, r.end) && IsParam(w, r.value, names)
  {
    hide *;
    SymbolsAre();
    ParamIs(src, p, names);
    var x := ReadParam(src, p, names).value;
    var a := Next(src, p).end;
    var io := ReadAttributes(src, a, false, false);
    TypedIs(src, io.end, names, io.value);
    var t := ReadType(src, io.end, names);
    SignRead(src, p, '[');
    var d := AttributesHaveWords(src, a, false, false);
    TypeHasWords(src, io.end, names);
    NameRead(src, t.end);
    ReadParamSayable(src, p, names);
    MakeParam(d, x, names);
    w := [Sign('[')] + d + [Sign(']')] + TypeWords(x.typ) + [Letters(x.name)];
    var rest := WordsOf(src, ReadParam(src, p, names).end);
    assert [Sign('[')] + (d + ([Sign(']')] + (TypeWords(x.typ) + ([Letters(x.name)] + rest)))) == w + rest;
  }

  lemma WordsReadAsParam(src: string, p: nat, w: Words, x: ParamForm, names: Names, rest: Words)
    requires p <= |src| && WordsOf(src, p) == w + rest && IsParam(w, x, names)
    ensures var r := ReadParam(src, p, names); r.Got? && r.value == x && WordsOf(src, r.end) == rest
    ensures Next(src, p).token == BracketsLeft
  {
    hide *;
    SymbolsAre();
    var d := TakeParam(w, x, names);
    ParamSayableIs(x, names);
    var last := [Letters(x.name)] + rest;
    var typ := TypeWords(x.typ) + last;
    assert w + rest == [Sign('[')] + (d + ([Sign(']')] + typ));
    SignFirst(src, p, '[', d + ([Sign(']')] + typ));
    var a := Next(src, p).end;
    WordsReadAsAttributes(src, a, d, false, false, x.isIn, x.isOut, typ);
    var io := ReadAttributes(src, a, false, false);
    NameIsNoSign(x.name);
    WordsReadAsType(src, io.end, x.typ, last, names);
    WordFirst(src, ReadType(src, io.end, names).end, x.name, rest);
    NamesAre(x.name);
    ParamIs(src, p, names);
    TypedIs(src, io.end, names, io.value);
  }

  lemma NameIsNoSign(name: string)
    ensures Letters(name) != Sign('[') && Letters(name) != Sign(',') && Letters(name) != Sign(')') && Letters(name) != Sign('}')
  {
    hide Keyword;
    LettersAreNoSigns(name);
  }

  lemma AreParamsIs(w: Words, xs: seq<ParamForm>, names: Names)
    ensures xs == [] ==> (AreParams(w, xs, names) <==> w == [Sign(')')])
    ensures xs != [] ==>
              (AreParams(w, xs, names) <==>
                 exists i :: 0 <= i <= |w| && IsParam(w[..i], xs[0], names) && AreParams(CommaOff(w[i..]), xs[1..], names))
  {
    hide IsParam, CommaOff, Sign;
  }

  lemma {:induction false} SomeWords(w: Words, xs: seq<ParamForm>, names: Names)
    requires AreParams(w, xs, names)
    ensures w != []
  {
    hide TypeWords, Directed;
  }

  lemma CommaOffIs(w: Words)
    ensures w != [] && w[0] == Sign(',') ==> w == [Sign(',')] + CommaOff(w)
    ensures w == [] || w[0] != Sign(',') ==> w == CommaOff(w)
    ensures CommaOff([Sign(',')] + w) == w
  {
    hide Sign;
    assert ([Sign(',')] + w)[1..] == w;
  }

  lemma NoCommaFirst(src: string, p: nat, w: Words, rest: Words)
    requires p <= |src| && WordsOf(src, p) == w + rest && Next(src, p).token != Comma
    ensures w == [] || w[0] != Sign(',')
  {
    hide *;
    if w != [] && w[0] == Sign(',') {
      assert w + rest == [Sign(',')] + (w[1..] + rest);
      SignFirst(src, p, ',', w[1..] + rest);
      SymbolsAre();
    }
  }

  lemma {:induction false} ParamsHaveWords(src: string, p: nat, names: Names, seen: seq<ParamForm>) returns (w: Words)
    requires p <= |src| && Honest(names) && ReadParams(src, p, names, seen).Got?
    ensures var r := ReadParams(src, p, names, seen);
            && seen <= r.value && WordsOf(src, p) == w + WordsOf(src, r.end) && AreParams(w, r.value[|seen|..], names)
    decreases |src| - p
  {
    hide *;
    SymbolsAre();
    ParamsStep(src, p, names, seen);
    var r := ReadParams(src, p, names, seen);
    if Next(src, p).token == ParenthesesRight {
      SignRead(src, p, ')');
      w := [Sign(')')];
      assert r.value[|seen|..] == [];
      AreParamsIs(w, [], names);
    } else {
      var x := ReadParam(src, p, names);
      var v := ParamHasWords(src, p, names);
      var e := CommaEnd(src, x.end);
      CommaEndIs(src, x.end);
      var more := ParamsHaveWords(src, e, names, seen + [x.value]);
      var c := if Next(src, x.end).token == Comma then [Sign(',')] else [];
      if Next(src, x.end).token == Comma {
        SignRead(src, x.end, ',');
      } else {
        NoCommaFirst(src, e, more, WordsOf(src, r.end));
      }
      CommaOffIs(more);
      w := v + (c + more);
      assert w + WordsOf(src, r.end) == v + (c + (more + WordsOf(src, r.end)));
      assert c == [] ==> c + (more + WordsOf(src, r.end)) == more + WordsOf(src, r.end) && c + more == more;
      var xs := r.value[|seen|..];
      assert xs[0] == x.value && xs[1..] == r.value[|seen| + 1..];
      assert w[..|v|] == v && w[|v|..] == c + more;
      AreParamsIs(w, xs, names);
    }
  }

  lemma {:induction false} WordsReadAsParams(src: string, p: nat, w: Words, xs: seq<ParamForm>, names: Names, seen: seq<ParamForm>, rest: Words)
    requires p <= |src| && WordsOf(src, p) == w + rest && AreParams(w, xs, names)
    ensures var r := ReadParams(src, p, names, seen); r.Got? && r.value == seen + xs && WordsOf(src, r.end) == rest
    decreases |xs|
  {
    hide *;
    SymbolsAre();
    AreParamsIs(w, xs, names);
    ParamsStep(src, p, names, seen);
    if xs == [] {
      SignFirst(src, p, ')', rest);
      assert seen + xs == seen;
    } else {
      var i :| 0 <= i <= |w| && IsParam(w[..i], xs[0], names) && AreParams(CommaOff(w[i..]), xs[1..], names);
      var tail := w[i..];
      assert w + rest == w[..i] + (tail + rest);
      WordsReadAsParam(src, p, w[..i], xs[0], names, tail + rest);
      var a := ReadParam(src, p, names).end;
      WordsBehind(src, a, tail, xs[1..], names, rest);
      WordsReadAsParams(src, CommaEnd(src, a), CommaOff(tail), xs[1..], names, seen + [xs[0]], rest);
      assert seen + [xs[0]] + xs[1..] == seen + xs;
    }
  }

  // Behind a parameter and its comma.
  lemma WordsBehind(src: string, a: nat, tail: Words, xs: seq<ParamForm>, names: Names, rest: Words)
    requires a <= |src| && WordsOf(src, a) == tail + rest && AreParams(CommaOff(tail), xs, names)
    ensures WordsOf(src, CommaEnd(src, a)) == CommaOff(tail) + rest
  {
    hide *;
    SymbolsAre();
    CommaEndIs(src, a);
    CommaOffIs(tail);
    SomeWords(CommaOff(tail), xs, names);
    if tail[0] == Sign(',') {
      assert tail + rest == [Sign(',')] + (CommaOff(tail) + rest);
      SignFirst(src, a, ',', CommaOff(tail) + rest);
    } else {
      assert tail + rest == [tail[0]] + (tail[1..] + rest);
      NoCommaNext(src, a, tail + rest);
    }
  }

  lemma NoCommaNext(src: string, p: nat, w: Words)
    requires p <= |src| && WordsOf(src, p) == w && (w == [] || w[0] != Sign(','))
    ensures Next(src, p).token != Comma
  {
    hide *;
    if Next(src, p).token == Comma {
      CommaFirst(src, p);
    }
  }

  lemma CommaFirst(src: string, p: nat)
    requires p <= |src| && Next(src, p).token == Comma
    ensures WordsOf(src, p) != [] && WordsOf(src, p)[0] == Sign(',')
  {
    hide *;
    SymbolsAre();
    SignRead(src, p, ',');
  }

  // ----- methods -----

  lemma MarkHasWords(src: string, p: nat)
    requires p <= |src| && ReadMark(src, p).Got?
    ensures var m := ReadMark(src, p); WordsOf(src, p) == MarkWords(m.value) + WordsOf(src, m.end)
  {
    hide *;
    MarkIs(src, p);
    MarkWordsAre();
    if Next(src, p).token == BracketsLeft {
      ThreeTokensAre(src, p, BracketsLeft, OnewayKey, BracketsRight);
      OnewayHasWords(src, p);
    } else {
      assert [] + WordsOf(src, p) == WordsOf(src, p);
    }
  }

  lemma MarkWordsAre()
    ensures MarkWords(true) == [Sign('['), Letters("oneway"), Sign(']')] && MarkWords(false) == []
  {
    hide Sign, Letters;
  }

  lemma OnewayHasWords(src: string, p: nat)
    requires p <= |src| && Next(src, p).token == BracketsLeft
    requires TokensEnd(src, Next(src, p).end, [OnewayKey, BracketsRight]).Some?
    ensures WordsOf(src, p) == MarkWords(true) + WordsOf(src, TokensEnd(src, Next(src, p).end, [OnewayKey, BracketsRight]).value)
  {
    hide *;
    SymbolsAre();
    KeywordsAre();
    OnewayIsNoName();
    MarkWordsAre();
    var a := Next(src, p).end;
    var b := Next(src, a).end;
    TwoTokensAre(src, a, OnewayKey, BracketsRight);
    SignRead(src, p, '[');
    KeyRead(src, a, "oneway");
    SignRead(src, b, ']');
    var rest := WordsOf(src, Next(src, b).end);
    assert [Sign('[')] + ([Letters("oneway")] + ([Sign(']')] + rest)) == [Sign('['), Letters("oneway"), Sign(']')] + rest;
  }

  lemma OnewayIsNoName()
    ensures OnewayKey != Identifier && InterfaceKey != Identifier && SequenceableKey != Identifier
  {
  }

  lemma WordsReadAsMark(src: string, p: nat, oneway: bool, rest: Words)
    requires p <= |src| && WordsOf(src, p) == MarkWords(oneway) + rest && (oneway || rest == [] || rest[0] != Sign('['))
    ensures var m := ReadMark(src, p); m.Got? && m.value == oneway && WordsOf(src, m.end) == rest
    ensures oneway ==> Next(src, p).token == BracketsLeft && WordsOf(src, Next(src, p).end) == [Letters("oneway")] + ([Sign(']')] + rest)
    ensures !oneway ==> Next(src, p).token != BracketsLeft
  {
    hide *;
    SymbolsAre();
    KeywordsAre();
    MarkIs(src, p);
    MarkWordsAre();
    if oneway {
      assert MarkWords(true) + rest == [Sign('[')] + ([Letters("oneway")] + ([Sign(']')] + rest));
      SignFirst(src, p, '[', [Letters("oneway")] + ([Sign(']')] + rest));
      var a := Next(src, p).end;
      WordFirst(src, a, "oneway", [Sign(']')] + rest);
      SignFirst(src, Next(src, a).end, ']', rest);
      ThreeTokensAre(src, p, BracketsLeft, OnewayKey, BracketsRight);
      TwoTokensAre(src, a, OnewayKey, BracketsRight);
    } else {
      assert [] + rest == rest;
      NoBracketNext(src, p, rest);
    }
  }

  function HeadWords(oneway: bool, ret: Type, name: string): Words {
    MarkWords(oneway) + TypeWords(ret) + [Letters(name), Sign('(')]
  }

  lemma HeadHasWords(src: string, p: nat, names: Names, onewayInterface: bool)
    requires p <= |src| && Honest(names) && ReadHead(src, p, names, onewayInterface).Got?
    ensures var r := ReadHead(src, p, names, onewayInterface);
            WordsOf(src, p) == HeadWords(r.value.oneway, r.value.ret, r.value.name) + WordsOf(src, r.end)
  {
    hide *;
    SymbolsAre();
    HeadIs(src, p, names, onewayInterface);
    var m, r := ReadMark(src, p), ReadHead(src, p, names, onewayInterface);
    ResultReadIs(src, m.end, names, onewayInterface, m.value);
    MarkHasWords(src, p);
    TypeHasWords(src, m.end, names);
    var a := ReadType(src, m.end, names).end;
    TwoTokensAre(src, a, Identifier, ParenthesesLeft);
    NameRead(src, a);
    SignRead(src, Next(src, a).end, '(');
    HeadWordsAre(r.value.oneway, r.value.ret, r.value.name, WordsOf(src, r.end));
  }

  lemma HeadWordsAre(oneway: bool, ret: Type, name: string, rest: Words)
    ensures HeadWords(oneway, ret, name) == MarkWords(oneway) + TypeWords(ret) + [Letters(name), Sign('(')]
    ensures HeadWords(oneway, ret, name) + rest == MarkWords(oneway) + (TypeWords(ret) + ([Letters(name)] + ([Sign('(')] + rest)))
  {
    hide MarkWords, TypeWords, Letters, Sign;
  }

  lemma WordsReadAsHead(src: string, p: nat, x: MethodForm, names: Names, onewayInterface: bool, rest: Words)
    requires p <= |src| && WordsOf(src, p) == HeadWords(x.oneway, x.ret, x.name) + rest && MethodSayable(x, names, onewayInterface)
    ensures var r := ReadHead(src, p, names, onewayInterface);
            r.Got? && r.value == HeadForm(x.name, x.oneway, x.ret) && WordsOf(src, r.end) == rest
  {
    hide *;
    SymbolsAre();
    MethodSayableIs(x, names, onewayInterface);
    HeadWordsAre(x.oneway, x.ret, x.name, rest);
    NamesAre(x.name);
    NameIsNoSign(x.name);
    var last := [Letters(x.name)] + ([Sign('(')] + rest);
    TypeStarts(x.ret, names, last);
    WordsReadAsMark(src, p, x.oneway, TypeWords(x.ret) + last);
    var m := ReadMark(src, p);
    WordsReadAsType(src, m.end, x.ret, last, names);
    var a := ReadType(src, m.end, names).end;
    WordFirst(src, a, x.name, [Sign('(')] + rest);
    SignFirst(src, Next(src, a).end, '(', rest);
    TwoTokensAre(src, a, Identifier, ParenthesesLeft);
    HeadIs(src, p, names, onewayInterface);
    ResultReadIs(src, m.end, names, onewayInterface, m.value);
  }

  // A type starts with a word of letters.
  lemma {:induction false} TypeStarts(t: Type, names: Names, rest: Words)
    requires InGrammar(t, names)
    ensures TypeWords(t) != [] && (TypeWords(t) + rest)[0] != Sign('[')
    decreases t
  {
    hide Sign, Letters, PrimName, IsName, Keyword;
    match t
    case Primitive(p) => NameIsNoSign(PrimName(p));
    case Sequenceable(_, n) => NameIsNoSign(n);
    case Interface(_, n) => NameIsNoSign(n);
    case List(e) => NameIsNoSign("List");
    case Map(k, v) => NameIsNoSign("Map");
    case Array(e) => TypeStarts(e, names, []);
  }

  lemma MakeMethod(w: Words, x: MethodForm, names: Names, onewayInterface: bool)
    requires MethodSayable(x, names, onewayInterface) && AreParams(w, x.params, names)
    ensures IsMethod(HeadWords(x.oneway, x.ret, x.name) + w + [Sign(';')], x, names, onewayInterface)
  {
    hide MethodSayable, AreParams, MarkWords, TypeWords, Letters, Sign;
    var h := HeadWords(x.oneway, x.ret, x.name);
    var v := h + w + [Sign(';')];
    assert v[..|h|] == h && v[|h|..|v| - 1] == w;
    assert MethodSplits(v, |h|, x, names);
  }

  lemma TakeMethod(w: Words, x: MethodForm, names: Names, onewayInterface: bool) returns (a: Words)
    requires IsMethod(w, x, names, onewayInterface)
    ensures MethodSayable(x, names, onewayInterface) && AreParams(a, x.params, names)
    ensures w == HeadWords(x.oneway, x.ret, x.name) + a + [Sign(';')]
  {
    hide MethodSayable, AreParams, MarkWords, TypeWords, Letters, Sign;
    var i :| 0 <= i <= |w| && MethodSplits(w, i, x, names);
    a := w[i..|w| - 1];
    assert w == w[..i] + w[i..|w| - 1] + [w[|w| - 1]];
  }

  lemma MethodHasWords(src: string, p: nat, names: Names, onewayInterface: bool) returns (w: Words)
    requires p <= |src| && Honest(names) && ReadMethod(src, p, names, onewayInterface).Got?
    ensures var r := ReadMethod(src, p, names, onewayInterface);
            WordsOf(src, p) == w + WordsOf(src, r.end) && IsMethod(w, r.value, names, onewayInterface)
  {
    hide *;
    SymbolsAre();
    MethodIs(src, p, names, onewayInterface);
    var h, r := ReadHead(src, p, names, onewayInterface), ReadMethod(src, p, names, onewayInterface);
    var params := ReadParams(src, h.end, names, []);
    HeadHasWords(src, p, names, onewayInterface);
    var a := ParamsHaveWords(src, h.end, names, []);
    assert params.value[0..] == params.value;
    SignRead(src, params.end, ';');
    ReadMethodSayable(src, p, names, onewayInterface);
    var x := r.value;
    MakeMethod(a, x, names, onewayInterface);
    w := HeadWords(x.oneway, x.ret, x.name) + a + [Sign(';')];
    assert HeadWords(x.oneway, x.ret, x.name) + (a + ([Sign(';')] + WordsOf(src, r.end))) == w + WordsOf(src, r.end);
  }

  lemma WordsReadAsMethod(src: string, p: nat, w: Words, x: MethodForm, names: Names, onewayInterface: bool, rest: Words)
    requires p <= |src| && WordsOf(src, p) == w + rest && IsMethod(w, x, names, onewayInterface)
    ensures var r := ReadMethod(src, p, names, onewayInterface); r.Got? && r.value == x && WordsOf(src, r.end) == rest
    ensures Next(src, p).token != BracesRight
  {
    hide *;
    SymbolsAre();
    var a := TakeMethod(w, x, names, onewayInterface);
    MethodSayableIs(x, names, onewayInterface);
    assert w + rest == HeadWords(x.oneway, x.ret, x.name) + (a + ([Sign(';')] + rest));
    WordsReadAsHead(src, p, x, names, onewayInterface, a + ([Sign(';')] + rest));
    var h := ReadHead(src, p, names, onewayInterface);
    WordsReadAsParams(src, h.end, a, x.params, names, [], [Sign(';')] + rest);
    assert [] + x.params == x.params;
    SignFirst(src, ReadParams(src, h.end, names, []).end, ';', rest);
    MethodIs(src, p, names, onewayInterface);
    NotClosed(src, p, names, onewayInterface);
  }

  lemma AreMethodsIs(w: Words, xs: seq<MethodForm>, names: Names, onewayInterface: bool)
    requires xs != []
    ensures AreMethods(w, xs, names, onewayInterface) <==>
              exists i :: 0 <= i <= |w| && IsMethod(w[..i], xs[0], names, onewayInterface)
                          && if |xs| == 1 then w[i..] == [Sign('}')] else AreMethods(w[i..], xs[1..], names, onewayInterface)
  {
    hide IsMethod, Sign;
  }

  lemma {:induction false} MethodsHaveWords(src: string, p: nat, names: Names, oneway: bool, seen: seq<MethodForm>) returns (w: Words)
    requires p <= |src| && Honest(names) && ReadMethods(src, p, names, oneway, seen).Got?
    ensures var r := ReadMethods(src, p, names, oneway, seen);
            && seen < r.value && WordsOf(src, p) == w + WordsOf(src, r.end) && AreMethods(w, r.value[|seen|..], names, oneway)
    decreases |src| - p
  {
    hide *;
    SymbolsAre();
    MethodsStep(src, p, names, oneway, seen);
    var r, x := ReadMethods(src, p, names, oneway, seen), ReadMethod(src, p, names, oneway);
    MethodsStep(src, x.end, names, oneway, seen + [x.value]);
    var v := MethodHasWords(src, p, names, oneway);
    var more;
    if Next(src, x.end).token == BracesRight {
      SignRead(src, x.end, '}');
      more := [Sign('}')];
    } else {
      more := MethodsHaveWords(src, x.end, names, oneway, seen + [x.value]);
    }
    w := v + more;
    assert v + (more + WordsOf(src, r.end)) == w + WordsOf(src, r.end);
    var xs := r.value[|seen|..];
    assert xs[0] == x.value && xs[1..] == r.value[|seen| + 1..];
    assert w[..|v|] == v && w[|v|..] == more;
    AreMethodsIs(w, xs, names, oneway);
  }

  lemma TakeMethods(w: Words, xs: seq<MethodForm>, names: Names, oneway: bool) returns (v: Words, more: Words)
    requires xs != [] && AreMethods(w, xs, names, oneway)
    ensures w == v + more && IsMethod(v, xs[0], names, oneway)
    ensures if |xs| == 1 then more == [Sign('}')] else AreMethods(more, xs[1..], names, oneway)
  {
    hide *;
    AreMethodsIs(w, xs, names, oneway);
    var i :| 0 <= i <= |w| && IsMethod(w[..i], xs[0], names, oneway)
             && if |xs| == 1 then w[i..] == [Sign('}')] else AreMethods(w[i..], xs[1..], names, oneway);
    v, more := w[..i], w[i..];
  }

  lemma {:induction false} WordsReadAsMethods(src: string, p: nat, w: Words, xs: seq<MethodForm>, names: Names, oneway: bool,
                                              seen: seq<MethodForm>, rest: Words)
    requires p <= |src| && xs != [] && WordsOf(src, p) == w + rest && AreMethods(w, xs, names, oneway)
    ensures var r := ReadMethods(src, p, names, oneway, seen); r.Got? && r.value == seen + xs && WordsOf(src, r.end) == rest
    ensures Next(src, p).token != BracesRight
    decreases |xs|
  {
    hide *;
    SymbolsAre();
    var v, more := TakeMethods(w, xs, names, oneway);
    Regroup(v, more, rest);
    WordsReadAsMethod(src, p, v, xs[0], names, oneway, more + rest);
    MethodsStep(src, p, names, oneway, seen);
    var e := ReadMethod(src, p, names, oneway).end;
    MethodsStep(src, e, names, oneway, seen + [xs[0]]);
    if |xs| == 1 {
      SignFirst(src, e, '}', rest);
      assert [xs[0]] == xs;
    } else {
      WordsReadAsMethods(src, e, more, xs[1..], names, oneway, seen + [xs[0]], rest);
      assert seen + [xs[0]] + xs[1..] == seen + xs;
    }
  }

  // ----- declarations -----

  lemma FullNameIs(full: string)
    requires full != "" && IsValidTypeName(full)
    ensures FullName(NamespaceIn(full), ShortName(full)) == full
  {
    var i := LastDot(full);
    if i == -1 {
      assert full[0..] == full;
    } else {
      assert full[..i + 1] + full[i + 1..] == full;
      assert full[..i + 1] != ".";
    }
  }

  lemma StartHasWords(src: string, p: nat)
    requires p <= |src| && ReadStart(src, p).Got?
    ensures var s := ReadStart(src, p); WordsOf(src, p) == MarkWords(s.value) + ([Letters("interface")] + WordsOf(src, s.end))
  {
    hide *;
    StartIs(src, p);
    KeywordsAre();
    OnewayIsNoName();
    if Next(src, p).token == BracketsLeft {
      FourTokensAre(src, p, BracketsLeft, OnewayKey, BracketsRight, InterfaceKey);
      var a := Next(src, p).end;
      var b := Next(src, a).end;
      ThreeTokensAre(src, a, OnewayKey, BracketsRight, InterfaceKey);
      TwoTokensAre(src, b, BracketsRight, InterfaceKey);
      TwoTokensAre(src, a, OnewayKey, BracketsRight);
      OnewayHasWords(src, p);
      KeyRead(src, Next(src, b).end, "interface");
    } else {
      OneTokenIs(src, p, InterfaceKey);
      KeyRead(src, p, "interface");
      MarkWordsAre();
      assert [] + ([Letters("interface")] + WordsOf(src, Next(src, p).end)) == [Letters("interface")] + WordsOf(src, Next(src, p).end);
    }
  }

  lemma WordsReadAsStart(src: string, p: nat, oneway: bool, rest: Words)
    requires p <= |src| && WordsOf(src, p) == MarkWords(oneway) + ([Letters("interface")] + rest)
    ensures var s := ReadStart(src, p); s.Got? && s.value == oneway && WordsOf(src, s.end) == rest
    ensures Next(src, p).token == if oneway then BracketsLeft else InterfaceKey
  {
    hide *;
    SymbolsAre();
    KeywordsAre();
    StartIs(src, p);
    NameIsNoSign("interface");
    var last := [Letters("interface")] + rest;
    WordsReadAsMark(src, p, oneway, last);
    if oneway {
      var a := Next(src, p).end;
      WordFirst(src, a, "oneway", [Sign(']')] + last);
      var b := Next(src, a).end;
      SignFirst(src, b, ']', last);
      WordFirst(src, Next(src, b).end, "interface", rest);
      FourTokensAre(src, p, BracketsLeft, OnewayKey, BracketsRight, InterfaceKey);
      ThreeTokensAre(src, a, OnewayKey, BracketsRight, InterfaceKey);
      TwoTokensAre(src, b, BracketsRight, InterfaceKey);
    } else {
      MarkWordsAre();
      assert [] + last == last;
      WordFirst(src, p, "interface", rest);
      OneTokenIs(src, p, InterfaceKey);
    }
  }

  lemma StartWordsAre(x: InterfaceForm, rest: Words)
    ensures var sign := if x.external then Sign(';') else Sign('{');
            StartWords(x) + rest
            == MarkWords(x.oneway) + ([Letters("interface")] + ([Letters(FullName(x.nspace, x.name))] + ([sign] + rest)))
  {
    hide MarkWords, Letters, Sign, FullName;
  }

  lemma IsInterfaceIs(w: Words, x: InterfaceForm, names: Names, config: Config)
    ensures IsInterface(w, x, names, config) <==>
              && InterfaceSayable(x, names, config)
              && exists rest :: w == StartWords(x) + rest
                                && if x.external then rest == [] else AreMethods(rest, x.methods, BodyNames(names, x.nspace, x.name), x.oneway)
  {
    hide InterfaceSayable, StartWords, AreMethods, BodyNames;
    var s := StartWords(x);
    if s <= w {
      assert w == s + w[|s|..];
    }
    forall rest | w == s + rest ensures s <= w && w[|s|..] == rest {
    }
  }

  lemma BodyHasWords(src: string, p: nat, x: InterfaceForm, names: Names) returns (w: Words)
    requires p <= |src| && Honest(names) && NotPrimitiveName(x.name)
    requires var r := ReadMethods(src, p, BodyNames(names, x.nspace, x.name), x.oneway, []); r.Got? && r.value == x.methods
    ensures var r := ReadMethods(src, p, BodyNames(names, x.nspace, x.name), x.oneway, []);
            WordsOf(src, p) == w + WordsOf(src, r.end) && AreMethods(w, x.methods, BodyNames(names, x.nspace, x.name), x.oneway)
  {
    hide *;
    BodyHonest(names, x.nspace, x.name);
    w := MethodsHaveWords(src, p, BodyNames(names, x.nspace, x.name), x.oneway, []);
    assert x.methods[0..] == x.methods;
  }

  lemma InterfaceHasWords(src: string, p: nat, names: Names, config: Config) returns (w: Words)
    requires p <= |src| && Honest(names) && ReadInterface(src, p, names, config).Got?
    requires NotPrimitiveName(ReadInterface(src, p, names, config).value.name)
    ensures var r := ReadInterface(src, p, names, config);
            WordsOf(src, p) == w + WordsOf(src, r.end) && IsInterface(w, r.value, names, config)
  {
    hide *;
    SymbolsAre();
    InterfaceIs(src, p, names, config);
    var s, r := ReadStart(src, p), ReadInterface(src, p, names, config);
    var x := r.value;
    NamedIs(src, s.end, names, config, s.value);
    NameIs(src, s.end, config.targetIsTs);
    var n := ReadName(src, s.end, config.targetIsTs);
    NamedBodyIs(src, n.end, names, config, s.value, n.value);
    StartHasWords(src, p);
    NameRead(src, s.end);
    FullNameIs(n.value.0);
    SignRead(src, Next(src, s.end).end, if n.value.1 then ';' else '{');
    ReadInterfaceSayable(src, p, names, config);
    var rest := [];
    if n.value.1 {
      assert rest + WordsOf(src, n.end) == WordsOf(src, n.end);
    } else {
      rest := BodyHasWords(src, n.end, x, names);
    }
    w := StartWords(x) + rest;
    IsInterfaceIs(w, x, names, config);
    StartWordsAre(x, rest + WordsOf(src, r.end));
    Regroup(StartWords(x), rest, WordsOf(src, r.end));
  }

  lemma WordsReadAsInterface(src: string, p: nat, w: Words, x: InterfaceForm, names: Names, config: Config, rest: Words)
    requires p <= |src| && WordsOf(src, p) == w + rest && IsInterface(w, x, names, config)
    ensures var r := ReadInterface(src, p, names, config); r.Got? && r.value == x && WordsOf(src, r.end) == rest
    ensures Next(src, p).token in {BracketsLeft, InterfaceKey}
  {
    hide *;
    SymbolsAre();
    IsInterfaceIs(w, x, names, config);
    InterfaceSayableIs(x, names, config);
    NameSplits(x.nspace, x.name);
    var full := FullName(x.nspace, x.name);
    NamesAre(full);
    var body :| w == StartWords(x) + body
                && if x.external then body == [] else AreMethods(body, x.methods, BodyNames(names, x.nspace, x.name), x.oneway);
    assert w + rest == StartWords(x) + (body + rest);
    StartWordsAre(x, body + rest);
    var sign := if x.external then ';' else '{';
    WordsReadAsStart(src, p, x.oneway, [Letters(full)] + ([Sign(sign)] + (body + rest)));
    var a := ReadStart(src, p).end;
    WordFirst(src, a, full, [Sign(sign)] + (body + rest));
    SignFirst(src, Next(src, a).end, sign, body + rest);
    NameIs(src, a, config.targetIsTs);
    InterfaceIs(src, p, names, config);
    NamedIs(src, a, names, config, x.oneway);
    var b := Next(src, Next(src, a).end).end;
    NamedBodyIs(src, b, names, config, x.oneway, (full, x.external));
    if x.external {
      assert [] + rest == rest;
    } else {
      WordsReadAsMethods(src, b, body, x.methods, BodyNames(names, x.nspace, x.name), x.oneway, [], rest);
      assert [] + x.methods == x.methods;
    }
  }

  lemma IsSequenceableIs(w: Words, x: SequenceableForm)
    ensures IsSequenceable(w, x) <==>
              NameSayable(x.nspace, x.name) && w == [Letters("sequenceable"), Letters(FullName(x.nspace, x.name)), Sign(';')]
  {
    hide NameSayable, Letters, Sign, FullName;
  }

  lemma SequenceableHasWords(src: string, p: nat) returns (w: Words)
    requires p <= |src| && ReadSequenceable(src, p).Got? && Next(src, p).token == SequenceableKey
    ensures var r := ReadSequenceable(src, p); WordsOf(src, p) == w + WordsOf(src, r.end) && IsSequenceable(w, r.value)
  {
    hide *;
    SymbolsAre();
    KeywordsAre();
    OnewayIsNoName();
    SequenceableIs(src, p);
    var a, r := Next(src, p).end, ReadSequenceable(src, p);
    ClassNameIs(src, a);
    TwoTokensAre(src, a, Identifier, Semicolon);
    KeyRead(src, p, "sequenceable");
    NameRead(src, a);
    SignRead(src, Next(src, a).end, ';');
    var full := Next(src, a).text;
    SplitSayable(full);
    FullNameIs(full);
    w := [Letters("sequenceable"), Letters(full), Sign(';')];
    IsSequenceableIs(w, r.value);
    assert [Letters("sequenceable")] + ([Letters(full)] + ([Sign(';')] + WordsOf(src, r.end))) == w + WordsOf(src, r.end);
  }

  lemma WordsReadAsSequenceable(src: string, p: nat, w: Words, x: SequenceableForm, rest: Words)
    requires p <= |src| && WordsOf(src, p) == w + rest && IsSequenceable(w, x)
    ensures Next(src, p).token == SequenceableKey
    ensures var r := ReadSequenceable(src, p); r.Got? && r.value == x && WordsOf(src, r.end) == rest
  {
    hide *;
    SymbolsAre();
    KeywordsAre();
    IsSequenceableIs(w, x);
    NameSplits(x.nspace, x.name);
    var full := FullName(x.nspace, x.name);
    NamesAre(full);
    assert w + rest == [Letters("sequenceable")] + ([Letters(full)] + ([Sign(';')] + rest));
    WordFirst(src, p, "sequenceable", [Letters(full)] + ([Sign(';')] + rest));
    var a := Next(src, p).end;
    WordFirst(src, a, full, [Sign(';')] + rest);
    SignFirst(src, Next(src, a).end, ';', rest);
    TwoTokensAre(src, a, Identifier, Semicolon);
    ClassNameIs(src, a);
    SequenceableIs(src, p);
  }

  lemma IsPartIs(w: Words, x: Part, names: Names, config: Config)
    ensures IsPart(w, x, names, config)
            <==> if x.InterfacePart? then IsInterface(w, x.interface_, names, config) else IsSequenceable(w, x.sequenceable)
  {
    hide IsInterface, IsSequenceable;
  }

  lemma PartHasWords(src: string, p: nat, names: Names, config: Config) returns (w: Words)
    requires p <= |src| && Honest(names) && ReadPart(src, p, names, config).Got?
    requires NotPrimitiveName(NameOf(ReadPart(src, p, names, config).value))
    ensures var r := ReadPart(src, p, names, config);
            WordsOf(src, p) == w + WordsOf(src, r.end) && IsPart(w, r.value, names, config)
  {
    hide *;
    PartIs(src, p, names, config);
    var x := ReadPart(src, p, names, config).value;
    NameOfIs(x);
    if Next(src, p).token == SequenceableKey {
      w := SequenceableHasWords(src, p);
    } else {
      w := InterfaceHasWords(src, p, names, config);
    }
    IsPartIs(w, x, names, config);
  }

  lemma WordsReadAsPart(src: string, p: nat, w: Words, x: Part, names: Names, config: Config, rest: Words)
    requires p <= |src| && WordsOf(src, p) == w + rest && IsPart(w, x, names, config)
    ensures var r := ReadPart(src, p, names, config); r.Got? && r.value == x && WordsOf(src, r.end) == rest
    ensures Next(src, p).token != EndOfFile
  {
    hide *;
    IsPartIs(w, x, names, config);
    PartIs(src, p, names, config);
    if x.InterfacePart? {
      WordsReadAsInterface(src, p, w, x.interface_, names, config, rest);
    } else {
      WordsReadAsSequenceable(src, p, w, x.sequenceable, rest);
    }
  }

  // ----- files -----

  lemma ArePartsIs(w: Words, xs: seq<Part>, names: Names, config: Config)
    ensures xs == [] ==> (AreParts(w, xs, names, config) <==> w == [])
    ensures xs != [] ==>
              (AreParts(w, xs, names, config) <==>
                 exists i :: 0 <= i <= |w| && IsPart(w[..i], xs[0], names, config)
                             && AreParts(w[i..], xs[1..], NamesAfter(names, xs[0]), config))
  {
    hide IsPart, NamesAfter;
  }

  lemma {:induction false} PartsHaveWords(src: string, p: nat, names: Names, config: Config, seen: seq<Part>, used: set<string>)
    requires p <= |src| && Honest(names) && ReadParts(src, p, names, config, seen).Got?
    requires AllNew(used, ReadParts(src, p, names, config, seen).value)
    ensures var parts := ReadParts(src, p, names, config, seen).value;
            seen <= parts && AreParts(WordsOf(src, p), parts[|seen|..], names, config)
    decreases |src| - p
  {
    hide *;
    var parts, w := ReadParts(src, p, names, config, seen).value, WordsOf(src, p);
    PartsStep(src, p, names, config, seen);
    WordsStep(src, p);
    if Next(src, p).token == EndOfFile {
      assert parts[|seen|..] == [];
      ArePartsIs(w, [], names, config);
    } else {
      var r := ReadPart(src, p, names, config);
      SeenStays(src, r.end, NamesAfter(names, r.value), config, seen + [r.value]);
      NewPrefix(used, parts, |seen|);
      assert parts[|seen|] == r.value;
      NewIs(used + NamesIn(parts[..|seen|]), NameOf(r.value));
      ReadPartSayable(src, p, names, config);
      var v := PartHasWords(src, p, names, config);
      PartsHaveWords(src, r.end, NamesAfter(names, r.value), config, seen + [r.value], used);
      var xs := parts[|seen|..];
      assert xs[0] == r.value && xs[1..] == parts[|seen| + 1..];
      assert w[..|v|] == v && w[|v|..] == WordsOf(src, r.end);
      ArePartsIs(w, xs, names, config);
    }
  }

  lemma {:induction false} WordsReadAsParts(src: string, p: nat, xs: seq<Part>, names: Names, config: Config, seen: seq<Part>)
    requires p <= |src| && AreParts(WordsOf(src, p), xs, names, config)
    ensures ReadParts(src, p, names, config, seen) == Got(seen + xs, |src|)
    decreases |xs|
  {
    hide *;
    var w := WordsOf(src, p);
    ArePartsIs(w, xs, names, config);
    PartsStep(src, p, names, config, seen);
    if xs == [] {
      WordsStep(src, p);
      assert seen + xs == seen;
    } else {
      var i :| 0 <= i <= |w| && IsPart(w[..i], xs[0], names, config) && AreParts(w[i..], xs[1..], NamesAfter(names, xs[0]), config);
      assert w == w[..i] + w[i..];
      WordsReadAsPart(src, p, w[..i], xs[0], names, config, w[i..]);
      WordsReadAsParts(src, ReadPart(src, p, names, config).end, xs[1..], NamesAfter(names, xs[0]), config, seen + [xs[0]]);
      assert seen + [xs[0]] + xs[1..] == seen + xs;
    }
  }

  // A text reads as declarations, no name of which is in use, exactly if its
  // words, behind a comment that comes first, are words of those declarations.
  lemma ReadsIffGrammar(src: string, p: nat, parts: seq<Part>, names: Names, config: Config, used: set<string>)
    requires p <= |src| && Honest(names) && AllNew(used, parts)
    ensures ReadFile(src, p, names, config) == Got(parts, |src|) <==> AreParts(WordsOf(src, Beginning(src, p)), parts, names, config)
  {
    hide *;
    ReadFileIs(src, p, names, config);
    var b := Beginning(src, p);
    if ReadFile(src, p, names, config) == Got(parts, |src|) {
      PartsHaveWords(src, b, names, config, [], used);
      assert parts[0..] == parts;
    }
    if AreParts(WordsOf(src, b), parts, names, config) {
      WordsReadAsParts(src, b, parts, names, config, []);
      assert [] + parts == parts;
    }
  }
}
