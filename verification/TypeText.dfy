/** The printed form of a type, read back: what the parser makes of a text when
    the names in it are declared. */
module TypeText {
  import opened IdlTypes
  import opened Lexing

  // The types a module declares, under their short names.
  type Names = map<string, Type>

  datatype Parsed = Parsed(typ: Type, end: nat) | Failed

  predicate IsPrimitiveType(token: Token) {
    token == BooleanKey || token == CharKey || token == ByteKey || token == ShortKey || token == IntegerKey
    || token == LongKey || token == FloatKey || token == DoubleKey || token == StringKey
  }

  // What DumpToken prints for the keyword of a primitive type.
  function PrimitiveWord(token: Token): string
    requires IsPrimitiveType(token)
  {
    match token
    case BooleanKey => "boolean"
    case CharKey => "char"
    case ByteKey => "byte"
    case ShortKey => "short"
    case IntegerKey => "int"
    case LongKey => "long"
    case FloatKey => "float"
    case DoubleKey => "double"
    case StringKey => "String"
  }

  function Lookup(names: Names, word: string, end: nat): Parsed {
    if word in names then Parsed(names[word], end) else Failed
  }

  // A type without brackets behind it.
  function ReadBase(src: string, p: nat, names: Names): (r: Parsed)
    requires p <= |src|
    ensures r.Parsed? ==> p < r.end <= |src|
    decreases |src| - p, 0
  {
    var s := Next(src, p);
    if IsPrimitiveType(s.token) then Lookup(names, PrimitiveWord(s.token), s.end)
    else if s.token == Identifier then Lookup(names, s.text, s.end)
    else if s.token == ListKey then
      var left := Next(src, s.end);
      if left.token != AngleLeft then Failed
      else
        var element := ReadType(src, left.end, names);
        if element.Failed? then Failed
        else
          var right := Next(src, element.end);
          if right.token != AngleRight then Failed else Parsed(List(element.typ), right.end)
    else if s.token == MapKey then
      var left := Next(src, s.end);
      if left.token != AngleLeft then Failed
      else
        var key := ReadType(src, left.end, names);
        if key.Failed? then Failed
        else
          var comma := Next(src, key.end);
          if comma.token != Comma then Failed
          else
            var value := ReadType(src, comma.end, names);
            if value.Failed? then Failed
            else
              var right := Next(src, value.end);
              if right.token != AngleRight then Failed else Parsed(Map(key.typ, value.typ), right.end)
    else Failed
  }

  // At most one pair of brackets is read.
  function ReadType(src: string, p: nat, names: Names): (r: Parsed)
    requires p <= |src|
    ensures r.Parsed? ==> p < r.end <= |src|
    decreases |src| - p, 1
  {
    var base := ReadBase(src, p, names);
    if base.Failed? then Failed
    else
      var left := Next(src, base.end);
      if left.token != BracketsLeft then base
      else
        var right := Next(src, left.end);
        if right.token != BracketsRight then Failed else Parsed(Array(base.typ), right.end)
  }

  // The types of the grammar: names are declared, and no array is directly
  // made of arrays.
  predicate InGrammar(t: Type, names: Names) {
    match t
    case Primitive(p) => PrimName(p) in names && names[PrimName(p)] == t
    case Sequenceable(_, n) => IsName(n) && n in names && names[n] == t
    case Interface(_, n) => IsName(n) && n in names && names[n] == t
    case List(e) => InGrammar(e, names)
    case Map(k, v) => InGrammar(k, names) && InGrammar(v, names)
    case Array(e) => !e.Array? && InGrammar(e, names)
  }

  predicate EndsInWord(t: Type) {
    t.Primitive? || t.IsNamed()
  }

  // The text of t stands at p and no word goes on behind it.
  predicate StandsAt(src: string, p: nat, t: Type) {
    var e := p + |ToString(t)|;
    && e <= |src| && src[p..e] == ToString(t)
    && (EndsInWord(t) && e < |src| ==> !IsIdentChar(src[e]))
  }

  // Reading t from p ends here: behind its text, and behind one white space
  // character that follows a word.
  function EndOf(src: string, p: nat, t: Type): (e: nat)
    requires StandsAt(src, p, t)
    ensures p + |ToString(t)| <= e <= |src|
  {
    var e := p + |ToString(t)|;
    if EndsInWord(t) && e < |src| && IsSpace(src[e]) then e + 1 else e
  }

  // ----- single tokens -----

  lemma WordAt(src: string, p: nat, word: string)
    requires word != "" && StartsWord(word[0]) && IsIdentText(word) && p + |word| <= |src| && src[p..p + |word|] == word
    requires p + |word| < |src| ==> !IsIdentChar(src[p + |word|])
    ensures Next(src, p) == Scan(Keyword(word), word,
                                 if p + |word| < |src| && IsSpace(src[p + |word|]) then p + |word| + 1 else p + |word|)
  {
    hide Keyword;
    assert src[p] == src[p..p + |word|][0] == word[0];
    LettersAreNoSpaces(src[p]);
    WordEndAt(src, p + 1, p + |word|, p, word);
  }

  lemma LettersAreNoSpaces(c: char)
    requires StartsWord(c)
    ensures !IsSpace(c)
  {
  }

  lemma {:induction false} WordEndAt(src: string, i: nat, e: nat, p: nat, word: string)
    requires p <= i <= e <= |src| && e == p + |word| && src[p..e] == word && IsIdentText(word)
    requires e < |src| ==> !IsIdentChar(src[e])
    ensures WordEnd(src, i) == e
    decreases e - i
  {
    if i < e {
      assert src[i] == src[p..e][i - p] == word[i - p];
      WordEndAt(src, i + 1, e, p, word);
    }
  }

  lemma SymbolAt(src: string, p: nat)
    requires p < |src| && src[p] in {'<', '>', '[', ']', ','}
    ensures Next(src, p) == Scan(Symbol(src[p]), "", p + 1)
  {
  }

  lemma SpaceAt(src: string, p: nat)
    requires p < |src| && IsSpace(src[p])
    ensures Next(src, p) == Next(src, p + 1)
  {
  }

  // Reading starts with the next token, whatever white space is before it.
  lemma SpaceBefore(src: string, p: nat, names: Names)
    requires p < |src| && IsSpace(src[p])
    ensures ReadType(src, p, names) == ReadType(src, p + 1, names)
  {
    hide Next;
    SpaceAt(src, p);
    BaseIsNext(src, p, names);
    BaseIsNext(src, p + 1, names);
  }

  // ReadBase depends on the first token only by what it is and where it ends.
  lemma BaseIsNext(src: string, p: nat, names: Names)
    requires p <= |src|
    ensures ReadBase(src, p, names) == AfterToken(src, Next(src, p), names)
  {
    hide Next, ReadType, Lookup, PrimitiveWord, IsPrimitiveType;
  }

  function AfterToken(src: string, s: Scan, names: Names): Parsed
    requires s.end <= |src|
  {
    if IsPrimitiveType(s.token) then Lookup(names, PrimitiveWord(s.token), s.end)
    else if s.token == Identifier then Lookup(names, s.text, s.end)
    else if s.token == ListKey then ReadList(src, s.end, names)
    else if s.token == MapKey then ReadMap(src, s.end, names)
    else Failed
  }

  // Behind the word List, behind the word Map.
  function ReadList(src: string, p: nat, names: Names): (r: Parsed)
    requires p <= |src|
  {
    var left := Next(src, p);
    if left.token != AngleLeft then Failed
    else
      var element := ReadType(src, left.end, names);
      if element.Failed? then Failed
      else
        var right := Next(src, element.end);
        if right.token != AngleRight then Failed else Parsed(List(element.typ), right.end)
  }

  function ReadMap(src: string, p: nat, names: Names): (r: Parsed)
    requires p <= |src|
  {
    var left := Next(src, p);
    if left.token != AngleLeft then Failed
    else
      var key := ReadType(src, left.end, names);
      if key.Failed? then Failed
      else
        var comma := Next(src, key.end);
        if comma.token != Comma then Failed
        else
          var value := ReadType(src, comma.end, names);
          if value.Failed? then Failed
          else
            var right := Next(src, value.end);
            if right.token != AngleRight then Failed else Parsed(Map(key.typ, value.typ), right.end)
  }

  lemma PrimitiveWords(p: Prim)
    ensures PrimName(p) != "" && StartsWord(PrimName(p)[0]) && IsIdentText(PrimName(p))
    ensures p != Void ==> IsPrimitiveType(Keyword(PrimName(p))) && PrimitiveWord(Keyword(PrimName(p))) == PrimName(p)
    ensures p == Void ==> Keyword(PrimName(p)) == Identifier
  {
    hide *;
    PrimitiveLetters(p);
    if p in {Boolean, Char, Byte, Short, Integer} {
      PrimitiveKeys(p);
    } else {
      OtherPrimitiveKeys(p);
    }
  }

  lemma PrimitiveLetters(p: Prim)
    ensures PrimName(p) != "" && StartsWord(PrimName(p)[0]) && IsIdentText(PrimName(p))
  {
  }

  lemma PrimitiveKeys(p: Prim)
    requires p in {Boolean, Char, Byte, Short, Integer}
    ensures p != Void && IsPrimitiveType(Keyword(PrimName(p))) && PrimitiveWord(Keyword(PrimName(p))) == PrimName(p)
  {
  }

  lemma OtherPrimitiveKeys(p: Prim)
    requires p !in {Boolean, Char, Byte, Short, Integer}
    ensures p != Void ==> IsPrimitiveType(Keyword(PrimName(p))) && PrimitiveWord(Keyword(PrimName(p))) == PrimName(p)
    ensures p == Void ==> Keyword(PrimName(p)) == Identifier
  {
  }

  lemma ContainerWords()
    ensures Keyword("List") == ListKey && Keyword("Map") == MapKey
  {
  }

  // ----- round trip -----

  // Every type of the grammar reads back from its text, and exactly the text
  // is read, if no bracket follows it.
  lemma {:induction false} ReadsBack(src: string, p: nat, t: Type, names: Names)
    requires InGrammar(t, names) && StandsAt(src, p, t)
    ensures !t.Array? ==> ReadBase(src, p, names) == Parsed(t, EndOf(src, p, t))
    ensures t.Array? || Next(src, EndOf(src, p, t)).token != BracketsLeft ==>
              ReadType(src, p, names) == Parsed(t, EndOf(src, p, t))
    decreases t
  {
    hide *;
    GrammarParts(t, names);
    if t.Array? {
      ArrayText(src, p, t.element);
      ReadsBack(src, p, t.element, names);
      ReadsArray(src, p, t.element, names);
    } else {
      if t.List? {
        ListText(src, p, t.element);
        ReadsBack(src, p + 5, t.element, names);
        ReadsList(src, p, t.element, names);
      } else if t.Map? {
        MapText(src, p, t.key, t.value);
        var q := p + 4 + |ToString(t.key)| + 2;
        ReadsBack(src, p + 4, t.key, names);
        ReadsBack(src, q, t.value, names);
        ReadsHereIs(src, p + 4, t.key, names);
        ReadsHereIs(src, q, t.value, names);
        ReadsMap(src, p, t.key, t.value, names);
      } else {
        ReadsWord(src, p, t, names);
      }
      ReadsPlain(src, p, t, names);
    }
  }

  lemma GrammarParts(t: Type, names: Names)
    requires InGrammar(t, names)
    ensures match t
            case Primitive(p) => true
            case Sequenceable(_, _) => true
            case Interface(_, _) => true
            case List(e) => InGrammar(e, names)
            case Map(k, v) => InGrammar(k, names) && InGrammar(v, names)
            case Array(e) => !e.Array? && InGrammar(e, names)
  {
  }

  // Without brackets behind it a type is its base.
  lemma ReadsPlain(src: string, p: nat, t: Type, names: Names)
    requires StandsAt(src, p, t) && ReadBase(src, p, names) == Parsed(t, EndOf(src, p, t))
    ensures Next(src, EndOf(src, p, t)).token != BracketsLeft ==> ReadType(src, p, names) == Parsed(t, EndOf(src, p, t))
  {
    hide Next, ReadBase, EndOf, StandsAt;
  }

  lemma ReadsWord(src: string, p: nat, t: Type, names: Names)
    requires InGrammar(t, names) && StandsAt(src, p, t) && !t.List? && !t.Map? && !t.Array?
    ensures ReadBase(src, p, names) == Parsed(t, EndOf(src, p, t))
  {
    hide Next, Keyword, IsPrimitiveType, PrimitiveWord, IsIdentText, IsIdentChar, StartsWord, ReadBase, ReadType, PrimName;
    if t.Primitive? {
      PrimitiveWords(t.prim);
    } else {
      NamesAreNotPrimitive();
    }
    WordAt(src, p, ToString(t));
    BaseIsNext(src, p, names);
    NamesAreNotPrimitive();
  }

  lemma NamesAreNotPrimitive()
    ensures !IsPrimitiveType(Identifier)
  {
  }

  // Cutting a text that stands at p.
  lemma Parts(src: string, p: nat, a: string, m: string, b: string)
    requires p + |a| + |m| + |b| <= |src| && src[p..p + |a| + |m| + |b|] == a + m + b
    ensures src[p..p + |a|] == a && src[p + |a|..p + |a| + |m|] == m
    ensures src[p + |a| + |m|..p + |a| + |m| + |b|] == b
  {
    var text := a + m + b;
    Cut(src, p, text, 0, |a|);
    Cut(src, p, text, |a|, |a| + |m|);
    Cut(src, p, text, |a| + |m|, |text|);
  }

  lemma Cut(src: string, p: nat, text: string, i: nat, j: nat)
    requires i <= j <= |text| && p + |text| <= |src| && src[p..p + |text|] == text
    ensures src[p + i..p + j] == text[i..j]
  {
    forall k | 0 <= k < j - i ensures src[p + i..p + j][k] == text[i..j][k] {
      assert src[p..p + |text|][i + k] == text[i + k];
    }
  }

  lemma OneChar(src: string, p: nat, c: char)
    requires p < |src| && src[p..p + 1] == [c]
    ensures src[p] == c
  {
    assert src[p..p + 1][0] == src[p];
  }

  lemma TwoChars(src: string, p: nat, c: char, d: char)
    requires p + 1 < |src| && src[p..p + 2] == [c, d]
    ensures src[p] == c && src[p + 1] == d
  {
    assert src[p..p + 2][0] == src[p] && src[p..p + 2][1] == src[p + 1];
  }

  lemma ListText(src: string, p: nat, e: Type)
    requires StandsAt(src, p, List(e))
    ensures p + 5 + |ToString(e)| < |src| && StandsAt(src, p + 5, e)
    ensures src[p..p + 4] == "List" && src[p + 4] == '<' && src[p + 5 + |ToString(e)|] == '>'
    ensures EndOf(src, p, List(e)) == p + 5 + |ToString(e)| + 1
  {
    hide *;
    var text := ToString(e);
    ListIs(src, p, e);
    assert ("List" + "<") + text + ">" == "List<" + text + ">";
    Parts(src, p, "List<", text, ">");
    Parts(src, p, "List", "<", "");
    OneChar(src, p + 4, '<');
    OneChar(src, p + 5 + |text|, '>');
    BracketsEndWords();
    StandsBefore(src, p + 5, e);
  }

  lemma ListIs(src: string, p: nat, e: Type)
    requires StandsAt(src, p, List(e))
    ensures var n := |ToString(e)|; p + 5 + n + 1 <= |src| && src[p..p + 5 + n + 1] == "List<" + ToString(e) + ">"
    ensures EndOf(src, p, List(e)) == p + 5 + |ToString(e)| + 1
  {
  }

  lemma BracketsEndWords()
    ensures !IsIdentChar('>') && !IsIdentChar(',') && !IsIdentChar('[')
  {
  }

  lemma StandsBefore(src: string, p: nat, t: Type)
    requires p + |ToString(t)| < |src| && src[p..p + |ToString(t)|] == ToString(t) && !IsIdentChar(src[p + |ToString(t)|])
    ensures StandsAt(src, p, t)
  {
  }

  lemma MapText(src: string, p: nat, k: Type, v: Type)
    requires StandsAt(src, p, Map(k, v))
    ensures var q := p + 4 + |ToString(k)| + 2;
            && q + |ToString(v)| < |src| && StandsAt(src, p + 4, k) && StandsAt(src, q, v)
            && src[p..p + 3] == "Map" && src[p + 3] == '<' && src[q - 2] == ',' && src[q - 1] == ' '
            && src[q + |ToString(v)|] == '>' && EndOf(src, p, Map(k, v)) == q + |ToString(v)| + 1
  {
    hide *;
    var a, b := ToString(k), ToString(v);
    var q := p + 4 + |a| + 2;
    MapIs(src, p, k, v);
    Parts(src, p, "Map<", a, ", " + b + ">");
    Parts(src, p, "Map", "<", "");
    OneChar(src, p + 3, '<');
    Parts(src, q - 2, ", ", b, ">");
    TwoChars(src, q - 2, ',', ' ');
    OneChar(src, q + |b|, '>');
    BracketsEndWords();
    StandsBefore(src, p + 4, k);
    StandsBefore(src, q, v);
  }

  lemma MapIs(src: string, p: nat, k: Type, v: Type)
    requires StandsAt(src, p, Map(k, v))
    ensures var text := "Map<" + ToString(k) + (", " + ToString(v) + ">");
            p + |text| <= |src| && src[p..p + |text|] == text && EndOf(src, p, Map(k, v)) == p + |text|
  {
    assert "Map<" + ToString(k) + (", " + ToString(v) + ">") == ToString(Map(k, v));
  }

  lemma ArrayText(src: string, p: nat, e: Type)
    requires StandsAt(src, p, Array(e))
    ensures p + |ToString(e)| + 1 < |src| && StandsAt(src, p, e)
    ensures src[p + |ToString(e)|] == '[' && src[p + |ToString(e)| + 1] == ']'
    ensures EndOf(src, p, Array(e)) == p + |ToString(e)| + 2 && EndOf(src, p, e) == p + |ToString(e)|
  {
    hide *;
    var text := ToString(e);
    ArrayIs(src, p, e);
    assert "" + text + "[]" == text + "[]";
    Parts(src, p, "", text, "[]");
    TwoChars(src, p + |text|, '[', ']');
    BracketsEndWords();
    StandsBefore(src, p, e);
    EndsBefore(src, p, e);
  }

  lemma ArrayIs(src: string, p: nat, e: Type)
    requires StandsAt(src, p, Array(e))
    ensures var n := |ToString(e)|; p + n + 2 <= |src| && src[p..p + n + 2] == ToString(e) + "[]"
    ensures EndOf(src, p, Array(e)) == p + |ToString(e)| + 2
  {
  }

  lemma EndsBefore(src: string, p: nat, t: Type)
    requires StandsAt(src, p, t) && p + |ToString(t)| < |src| && src[p + |ToString(t)|] == '['
    ensures EndOf(src, p, t) == p + |ToString(t)|
  {
  }

  // Behind a type stands a symbol: it is the next token.
  lemma SymbolBehind(src: string, p: nat, t: Type)
    requires StandsAt(src, p, t) && p + |ToString(t)| < |src| && src[p + |ToString(t)|] in {'<', '>', '[', ']', ','}
    ensures EndOf(src, p, t) == p + |ToString(t)|
    ensures Next(src, EndOf(src, p, t)) == Scan(Symbol(src[p + |ToString(t)|]), "", p + |ToString(t)| + 1)
  {
    SymbolAt(src, p + |ToString(t)|);
  }

  lemma Symbols()
    ensures Symbol('<') == AngleLeft && Symbol('>') == AngleRight && Symbol('[') == BracketsLeft && Symbol(']') == BracketsRight
            && Symbol(',') == Comma
  {
  }

  lemma ReadsArray(src: string, p: nat, e: Type, names: Names)
    requires StandsAt(src, p, Array(e)) && StandsAt(src, p, e) && ReadBase(src, p, names) == Parsed(e, EndOf(src, p, e))
    ensures ReadType(src, p, names) == Parsed(Array(e), EndOf(src, p, Array(e)))
  {
    hide Next, ReadBase, EndOf, StandsAt, ToString, Symbol;
    ArrayText(src, p, e);
    Symbols();
    SymbolBehind(src, p, e);
    SymbolAt(src, p + |ToString(e)| + 1);
  }

  lemma ReadsList(src: string, p: nat, e: Type, names: Names)
    requires StandsAt(src, p, List(e)) && StandsAt(src, p + 5, e)
    requires Next(src, EndOf(src, p + 5, e)).token != BracketsLeft || e.Array? ==>
               ReadType(src, p + 5, names) == Parsed(e, EndOf(src, p + 5, e))
    ensures ReadBase(src, p, names) == Parsed(List(e), EndOf(src, p, List(e)))
  {
    hide Next, ReadBase, EndOf, StandsAt, ToString, Symbol, ReadType, Keyword, IsPrimitiveType;
    ListText(src, p, e);
    Symbols();
    ContainerWords();
    ListIsWord(src, p);
    WordAt(src, p, "List");
    SymbolAt(src, p + 4);
    SymbolBehind(src, p + 5, e);
    BaseIsNext(src, p, names);
    NotPrimitive();
  }

  lemma NotPrimitive()
    ensures !IsPrimitiveType(ListKey) && !IsPrimitiveType(MapKey)
  {
  }

  lemma ListIsWord(src: string, p: nat)
    ensures StartsWord("List"[0]) && IsIdentText("List") && StartsWord("Map"[0]) && IsIdentText("Map")
    ensures !IsIdentChar('<') && !IsSpace('<')
  {
  }

  // Where t stands it is read, unless a bracket follows.
  predicate ReadsHere(src: string, p: nat, t: Type, names: Names)
    requires StandsAt(src, p, t)
  {
    Next(src, EndOf(src, p, t)).token != BracketsLeft || t.Array? ==>
      ReadType(src, p, names) == Parsed(t, EndOf(src, p, t))
  }

  lemma ReadsHereIs(src: string, p: nat, t: Type, names: Names)
    requires StandsAt(src, p, t)
    ensures ReadsHere(src, p, t, names) <==>
              (Next(src, EndOf(src, p, t)).token != BracketsLeft || t.Array? ==>
                 ReadType(src, p, names) == Parsed(t, EndOf(src, p, t)))
  {
    hide StandsAt, Next, EndOf, ReadType;
  }

  lemma ReadsMap(src: string, p: nat, k: Type, v: Type, names: Names)
    requires StandsAt(src, p, Map(k, v)) && StandsAt(src, p + 4, k) && StandsAt(src, p + 6 + |ToString(k)|, v)
    requires ReadsHere(src, p + 4, k, names) && ReadsHere(src, p + 6 + |ToString(k)|, v, names)
    ensures ReadBase(src, p, names) == Parsed(Map(k, v), EndOf(src, p, Map(k, v)))
  {
    hide *;
    MapText(src, p, k, v);
    var q := p + 6 + |ToString(k)|;
    Symbols();
    ContainerWords();
    ListIsWord(src, p);
    WordAt(src, p, "Map");
    SymbolAt(src, p + 3);
    SymbolBehind(src, p + 4, k);
    BlankIsSpace();
    SpaceBefore(src, q - 1, names);
    SymbolBehind(src, q, v);
    ReadsHereIs(src, p + 4, k, names);
    ReadsHereIs(src, q, v, names);
    MapSteps(src, p, names, p + 3, p + 4, k, EndOf(src, p + 4, k), q - 1, v, EndOf(src, q, v), EndOf(src, p, Map(k, v)));
  }

  lemma BlankIsSpace()
    ensures IsSpace(' ')
  {
  }

  lemma MapSteps(src: string, p: nat, names: Names, a: nat, b: nat, k: Type, c: nat, d: nat, v: Type, e: nat, f: nat)
    requires p <= |src| && a <= |src| && b <= |src| && c <= |src| && d <= |src| && e <= |src|
    requires Next(src, p).token == MapKey && Next(src, p).end == a && Next(src, a).token == AngleLeft && Next(src, a).end == b
    requires ReadType(src, b, names) == Parsed(k, c) && Next(src, c).token == Comma && Next(src, c).end == d
    requires ReadType(src, d, names) == Parsed(v, e) && Next(src, e).token == AngleRight && Next(src, e).end == f
    ensures ReadBase(src, p, names) == Parsed(Map(k, v), f)
  {
    hide Next, ReadBase, ReadType, ReadList, IsPrimitiveType, PrimitiveWord, Lookup;
    BaseIsNext(src, p, names);
    NotPrimitive();
  }

  // ----- the text determines the type -----

  lemma TextDeterminesType(a: Type, b: Type, names: Names)
    requires InGrammar(a, names) && InGrammar(b, names) && ToString(a) == ToString(b)
    ensures a == b
  {
    hide *;
    var src := ToString(a);
    WholeText(a);
    WholeText(b);
    ReadsBack(src, 0, a, names);
    ReadsBack(src, 0, b, names);
  }

  lemma WholeText(t: Type)
    ensures StandsAt(ToString(t), 0, t) && EndOf(ToString(t), 0, t) == |ToString(t)|
    ensures Next(ToString(t), |ToString(t)|).token == EndOfFile
  {
  }

  // The names of other types do not matter, nor do further names.
  lemma {:induction false} MoreNames(t: Type, names: Names, more: Names)
    requires InGrammar(t, names) && forall n :: n in names ==> n in more && more[n] == names[n]
    ensures InGrammar(t, more)
    decreases t
  {
    match t
    case List(e) => MoreNames(e, names, more);
    case Map(k, v) => MoreNames(k, names, more); MoreNames(v, names, more);
    case Array(e) => MoreNames(e, names, more);
    case _ =>
  }
}
