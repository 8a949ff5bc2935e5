/** The lexer: it reads tokens from a character sequence, one at a time, with a
    lookahead of one token. */
module Lexing {
  import opened IdlTypes

  datatype Token =
    | Unknown
    | BooleanKey | CharKey | ByteKey | ShortKey | IntegerKey | LongKey | FloatKey | DoubleKey | StringKey | ListKey | MapKey
    | InKey | InterfaceKey | OnewayKey | OutKey | InoutKey | SequenceableKey
    | Dot | Comma | Semicolon | BracesLeft | BracesRight | BracketsLeft | BracketsRight | ParenthesesLeft | ParenthesesRight
    | AngleLeft | AngleRight
    | Identifier | CommentBlock | CommentLine | EndOfFile

  function Keyword(text: string): Token {
    if text == "boolean" then BooleanKey
    else if text == "byte" then ByteKey
    else if text == "char" then CharKey
    else if text == "double" then DoubleKey
    else if text == "float" then FloatKey
    else if text == "in" then InKey
    else if text == "inout" then InoutKey
    else if text == "int" then IntegerKey
    else if text == "interface" then InterfaceKey
    else if text == "List" then ListKey
    else if text == "long" then LongKey
    else if text == "Map" then MapKey
    else if text == "oneway" then OnewayKey
    else if text == "out" then OutKey
    else if text == "sequenceable" then SequenceableKey
    else if text == "short" then ShortKey
    else if text == "String" then StringKey
    else Identifier
  }

  function Symbol(c: char): Token {
    if c == '<' then AngleLeft
    else if c == '>' then AngleRight
    else if c == '{' then BracesLeft
    else if c == '}' then BracesRight
    else if c == '[' then BracketsLeft
    else if c == ']' then BracketsRight
    else if c == ',' then Comma
    else if c == '(' then ParenthesesLeft
    else if c == ')' then ParenthesesRight
    else if c == '.' then Dot
    else if c == ';' then Semicolon
    else Unknown
  }

  predicate IsSpace(c: char) {
    c == ' ' || '\t' <= c <= '\r'
  }

  predicate StartsWord(c: char) {
    IsLetter(c) || c == '_'
  }

  // What is read when nothing is left.
  const NO_CHAR: char := '\U{FF}'

  // ----- the tokens of a text -----

  function WordEnd(src: string, p: nat): (e: nat)
    requires p <= |src|
    ensures p <= e <= |src| && (forall i :: p <= i < e ==> IsIdentChar(src[i])) && (e < |src| ==> !IsIdentChar(src[e]))
    decreases |src| - p
  {
    if p < |src| && IsIdentChar(src[p]) then WordEnd(src, p + 1) else p
  }

  // Behind the end of the line.
  function LineEnd(src: string, p: nat): (e: nat)
    requires p <= |src|
    ensures p <= e <= |src| && (p < |src| ==> p < e)
    decreases |src| - p
  {
    if p == |src| then p else if src[p] == '\n' then p + 1 else LineEnd(src, p + 1)
  }

  // Behind the end of a block comment. The star that opens it may close it too.
  function BlockEnd(src: string, p: nat): (e: nat)
    requires p <= |src|
    ensures p <= e <= |src| && (p < |src| ==> p < e)
    decreases |src| - p
  {
    if p == |src| then p
    else if src[p] == '*' && p + 1 < |src| && src[p + 1] == '/' then p + 2
    else BlockEnd(src, p + 1)
  }

  // A line comment ends behind the first newline from p on, or with the text.
  lemma {:induction false} LineEndsBehindNewline(src: string, p: nat)
    requires p <= |src|
    ensures var e := LineEnd(src, p);
            && (forall i :: p <= i < e - 1 ==> src[i] != '\n')
            && (if '\n' in src[p..] then p < e && src[e - 1] == '\n' else e == |src|)
    decreases |src| - p
  {
    if p < |src| {
      assert src[p..] == [src[p]] + src[p + 1..];
      if src[p] != '\n' {
        LineEndsBehindNewline(src, p + 1);
      }
    }
  }

  // "*/" stands at i.
  predicate ClosesAt(src: string, i: int) {
    0 <= i && i + 1 < |src| && src[i] == '*' && src[i + 1] == '/'
  }

  // A block comment ends behind the first "*/" from the star that opens it on,
  // that star included, or with the text.
  lemma {:induction false} BlockEndsBehindStarSlash(src: string, p: nat)
    requires p <= |src|
    ensures var e := BlockEnd(src, p);
            && (forall i :: p <= i < e - 2 ==> !ClosesAt(src, i))
            && ((ClosesAt(src, e - 2) && p <= e - 2) || (e == |src| && forall i :: p <= i ==> !ClosesAt(src, i)))
    decreases |src| - p
  {
    if p < |src| && !ClosesAt(src, p) {
      BlockEndsBehindStarSlash(src, p + 1);
    }
  }

  // Where the white space from p on ends.
  function SpacesEnd(src: string, p: nat): (e: nat)
    requires p <= |src|
    ensures p <= e <= |src| && (forall i :: p <= i < e ==> IsSpace(src[i])) && (e < |src| ==> !IsSpace(src[e]))
    decreases |src| - p
  {
    if p < |src| && IsSpace(src[p]) then SpacesEnd(src, p + 1) else p
  }

  // Behind the end of the line and one character more.
  function LineSkipped(src: string, p: nat): (e: nat)
    requires p <= |src|
    ensures p <= e <= |src|
  {
    var e := LineEnd(src, p);
    if p < e < |src| then e + 1 else e
  }

  // Behind the next such character on the line, or else as above.
  function SkippedUntil(src: string, p: nat, untilChar: char): (e: nat)
    requires p <= |src|
    ensures p <= e <= |src|
    decreases |src| - p
  {
    if p == |src| then p
    else if src[p] == untilChar then p + 1
    else if src[p] == '\n' then (if p + 1 < |src| then p + 2 else p + 1)
    else SkippedUntil(src, p + 1, untilChar)
  }

  datatype Scan = Scan(token: Token, text: string, end: nat)

  // One white space character behind a word belongs to it.
  function ScanWord(src: string, p: nat): (s: Scan)
    requires p < |src| && StartsWord(src[p])
    ensures p < s.end <= |src|
  {
    var e := WordEnd(src, p + 1);
    Scan(Keyword(src[p..e]), src[p..e], if e < |src| && IsSpace(src[e]) then e + 1 else e)
  }

  // The next token, comments skipped or not.
  function ScanToken(src: string, p: nat, skipComment: bool): (s: Scan)
    requires p <= |src|
    ensures p <= s.end <= |src| && (s.token != EndOfFile ==> p < s.end) && (s.token == EndOfFile ==> s.end == |src|)
    decreases |src| - p
  {
    if p == |src| then Scan(EndOfFile, "", p)
    else if IsSpace(src[p]) then ScanToken(src, p + 1, skipComment)
    else if StartsWord(src[p]) then WordIsNoEnd(src, p); ScanWord(src, p)
    else if src[p] == '/' && p + 1 < |src| && src[p + 1] == '/' then
      (if skipComment then ScanToken(src, LineEnd(src, p + 1), skipComment) else Scan(CommentLine, "", LineEnd(src, p + 1)))
    else if src[p] == '/' && p + 1 < |src| && src[p + 1] == '*' then
      (if skipComment then ScanToken(src, BlockEnd(src, p + 1), skipComment) else Scan(CommentBlock, "", BlockEnd(src, p + 1)))
    else Scan(Symbol(src[p]), "", p + 1)
  }

  lemma WordIsNoEnd(src: string, p: nat)
    requires p < |src| && StartsWord(src[p])
    ensures ScanWord(src, p).token != EndOfFile
  {
    hide Keyword;
    KeywordIsWord(src[p..WordEnd(src, p + 1)]);
  }

  lemma KeywordIsWord(text: string)
    ensures Keyword(text) !in {Unknown, EndOfFile, CommentBlock, CommentLine}
  {
  }

  // The next token of the program text proper.
  function Next(src: string, p: nat): (s: Scan)
    requires p <= |src|
    ensures p <= s.end <= |src| && (s.token != EndOfFile ==> p < s.end) && (s.token == EndOfFile ==> s.end == |src|)
  {
    ScanToken(src, p, true)
  }

  // A blank, a tab, an end of line or of page is passed over in front of a token,
  // ends a word and is swallowed behind it; a letter, a digit, an underscore or a
  // dot goes on with a word.
  lemma BlanksAndWords(src: string, p: nat)
    requires p < |src|
    ensures src[p] in {' ', '\t', '\n', '\U{0B}', '\U{0C}', '\r'} ==> Next(src, p) == Next(src, p + 1)
    ensures src[p] in {' ', '\t', '\n', '\U{0B}', '\U{0C}', '\r'} <==> SpacesEnd(src, p) > p
    ensures WordEnd(src, p) > p <==>
              'a' <= src[p] <= 'z' || 'A' <= src[p] <= 'Z' || '0' <= src[p] <= '9' || src[p] == '_' || src[p] == '.'
    ensures Next(src, p).text != "" && WordEnd(src, p) > p ==>
              'a' <= src[p] <= 'z' || 'A' <= src[p] <= 'Z' || src[p] == '_'
  {
    hide Keyword, Symbol, LineEnd, BlockEnd;
  }

  // Where no comment stands the two ways to read a token agree.
  lemma {:induction false} NoCommentHere(src: string, p: nat)
    requires p <= |src|
    ensures ScanToken(src, p, false).token !in {CommentBlock, CommentLine} ==> Next(src, p) == ScanToken(src, p, false)
    ensures Next(src, p).token !in {CommentBlock, CommentLine}
    decreases |src| - p
  {
    hide WordEnd, LineEnd, BlockEnd, Keyword;
    if p == |src| {
    } else if IsSpace(src[p]) {
      NoCommentHere(src, p + 1);
    } else if StartsWord(src[p]) {
      KeywordIsWord(src[p..WordEnd(src, p + 1)]);
    } else if src[p] == '/' && p + 1 < |src| && src[p + 1] == '/' {
      NoCommentHere(src, LineEnd(src, p + 1));
    } else if src[p] == '/' && p + 1 < |src| && src[p + 1] == '*' {
      NoCommentHere(src, BlockEnd(src, p + 1));
    }
  }

  // A word that is no keyword: what an identifier token stands for.
  predicate IsName(text: string) {
    text != "" && StartsWord(text[0]) && IsIdentText(text) && Keyword(text) == Identifier
  }

  lemma {:induction false} NamesAreScanned(src: string, p: nat, skipComment: bool)
    requires p <= |src|
    ensures ScanToken(src, p, skipComment).token == Identifier ==> IsName(ScanToken(src, p, skipComment).text)
    decreases |src| - p
  {
    hide WordEnd, LineEnd, BlockEnd, Keyword;
    if p == |src| {
    } else if IsSpace(src[p]) {
      NamesAreScanned(src, p + 1, skipComment);
    } else if StartsWord(src[p]) {
      var e := WordEnd(src, p + 1);
      assert forall i :: 0 <= i < e - p ==> src[p..e][i] == src[p + i];
    } else if src[p] == '/' && p + 1 < |src| && src[p + 1] == '/' {
      NamesAreScanned(src, LineEnd(src, p + 1), skipComment);
    } else if src[p] == '/' && p + 1 < |src| && src[p + 1] == '*' {
      NamesAreScanned(src, BlockEnd(src, p + 1), skipComment);
    } else {
      SymbolIsNoWord(src[p]);
    }
  }

  lemma SymbolIsNoWord(c: char)
    ensures Symbol(c) != Identifier
  {
  }

  class Lexer {
    const source: string
    var position: nat
    var currentToken: Token
    var havePeek: bool
    var identifier: string
    var comment: string
    // Where the token read ahead starts, or else the position; -1 after
    // characters were skipped behind a token read ahead.
    ghost var from: int

    constructor (source: string)
      ensures Valid() && this.source == source && from == 0 && !havePeek && position == 0
    {
      this.source, position, currentToken, havePeek, identifier, comment, from := source, 0, Unknown, false, "", "", 0;
    }

    ghost predicate Valid()
      reads this
    {
      && position <= |source| && -1 <= from <= |source|
      && (!havePeek ==> from == position)
      && (havePeek && currentToken == EndOfFile ==> position == |source|)
      && (havePeek && from >= 0 ==> Reads(Next(source, from)))
      && (currentToken == Identifier ==> IsName(identifier))
    }

    // The last token read is s.
    ghost predicate Reads(s: Scan)
      reads this
    {
      currentToken == s.token && position == s.end && (s.token == Identifier ==> identifier == s.text)
    }

    // How much there is left to read: a token ahead counts for one, a
    // character for two.
    ghost function Left(): nat
      requires Valid()
      reads this
    {
      2 * (|source| - position) + if havePeek && currentToken != EndOfFile then 1 else 0
    }

    predicate IsEof()
      requires position <= |source|
      reads this
    {
      position == |source|
    }

    function PeekChar(): char
      requires position <= |source|
      reads this
    {
      if position < |source| then source[position] else NO_CHAR
    }

    method GetChar() returns (c: char)
      requires position <= |source|
      modifies this`position
      ensures c == old(PeekChar()) && position == if old(position) < |source| then old(position) + 1 else old(position)
    {
      c := PeekChar();
      if position < |source| {
        position := position + 1;
      }
    }

    method GetToken() returns (token: Token)
      requires Valid()
      modifies this
      ensures Valid() && !havePeek && token == currentToken
      ensures Left() <= old(Left()) && (token != EndOfFile ==> Left() < old(Left())) && (token == EndOfFile ==> Left() == 0)
      ensures old(from) >= 0 ==> Reads(Next(source, old(from)))
      ensures 0 <= from <= |source| && -1 <= old(from) <= |source| && (token == Identifier ==> IsName(identifier))
      ensures old(from) >= 0 ==>
                var s := Next(source, old(from));
                token == s.token && from == s.end && (token == Identifier ==> identifier == s.text)
      ensures old(havePeek) ==> token == old(currentToken) && identifier == old(identifier) && position == old(position)
      ensures old(havePeek) ==> comment == old(comment)
    {
      if !havePeek {
        var _ := ReadToken(true);
      }
      havePeek := false;
      from := position;
      token := currentToken;
    }

    method PeekToken() returns (token: Token)
      requires Valid()
      modifies this
      ensures Valid() && havePeek && token == currentToken && from == old(from) && -1 <= from <= |source|
      ensures Left() <= old(Left()) && (token == EndOfFile ==> Left() == 0) && (old(Left()) == 0 ==> token == EndOfFile)
      ensures from >= 0 ==> token == Next(source, from).token
      ensures old(havePeek) ==> position == old(position) && identifier == old(identifier) && token == old(currentToken)
    {
      if !havePeek {
        var _ := ReadToken(true);
        havePeek := true;
      }
      token := currentToken;
    }

    // Used on the first token of a file only, where a comment is the licence.
    method PeekWithComments() returns (token: Token)
      requires Valid() && !havePeek
      modifies this
      ensures Valid() && havePeek && token == currentToken && Left() <= old(Left())
      ensures token == ScanToken(source, old(position), false).token
      ensures token in {CommentBlock, CommentLine} ==> position == ScanToken(source, old(position), false).end && 0 < position
      ensures token == CommentBlock ==>
                SpacesEnd(source, old(position)) <= position && comment == source[SpacesEnd(source, old(position))..position]
      ensures from == if token in {CommentBlock, CommentLine} then -1 else old(position)
    {
      hide ScanToken;
      token := ReadToken(false);
      havePeek := true;
      from := if token in {CommentBlock, CommentLine} then -1 else old(position);
      NoCommentHere(source, old(position));
    }

    method ReadToken(skipComment: bool) returns (token: Token)
      requires position <= |source|
      modifies this`position, this`currentToken, this`identifier, this`comment
      ensures position <= |source| && Reads(ScanToken(source, old(position), skipComment)) && token == currentToken
      ensures token == CommentBlock && !skipComment ==>
                SpacesEnd(source, old(position)) <= position && comment == source[SpacesEnd(source, old(position))..position]
      ensures token == Identifier ==> IsName(identifier)
    {
      hide WordEnd, LineEnd, BlockEnd, Keyword, ScanWord;
      while !IsEof()
        invariant position <= |source|
        invariant ScanToken(source, old(position), skipComment) == ScanToken(source, position, skipComment)
        invariant !skipComment ==> SpacesEnd(source, old(position)) == SpacesEnd(source, position)
        decreases |source| - position
      {
        var c := GetChar();
        if IsSpace(c) {
          continue;
        } else if StartsWord(c) {
          token := ReadIdentifier(c);
          NamesAreScanned(source, old(position), skipComment);
          return;
        }
        if c == '/' && PeekChar() == '/' {
          ReadLineComment(c);
          if !skipComment {
            return currentToken;
          }
          continue;
        } else if c == '/' && PeekChar() == '*' {
          ReadBlockComment(c);
          if !skipComment {
            return currentToken;
          }
          continue;
        }
        currentToken := Symbol(c);
        return currentToken;
      }
      currentToken := EndOfFile;
      token := currentToken;
    }

    method ReadIdentifier(c: char) returns (token: Token)
      requires 0 < position <= |source| && c == source[position - 1] && StartsWord(c)
      modifies this`position, this`currentToken, this`identifier
      ensures position <= |source| && Reads(ScanWord(source, old(position) - 1)) && token == currentToken
      ensures token != CommentBlock
    {
      hide Keyword, IsIdentChar, IsSpace, IsLetter;
      var key, d := [c], c;
      ghost var start := position - 1;
      while !IsEof()
        invariant start < position <= |source| && key == source[start..position]
        invariant WordEnd(source, start + 1) == WordEnd(source, position)
        decreases |source| - position
      {
        d := PeekChar();
        if IsIdentChar(d) {
          d := GetChar();
          key := key + [d];
          continue;
        }
        if IsSpace(d) {
          var _ := GetChar();
        }
        break;
      }
      KeywordIsWord(key);
      if Keyword(key) == Identifier {
        identifier := key;
        currentToken := Identifier;
      } else {
        currentToken := Keyword(key);
      }
      token := currentToken;
    }

    method ReadLineComment(c: char)
      requires position < |source| && source[position] == '/'
      modifies this`position, this`currentToken, this`comment
      ensures position == LineEnd(source, old(position)) && currentToken == CommentLine
    {
      var sb := [c];
      while !IsEof()
        invariant position <= |source| && LineEnd(source, old(position)) == LineEnd(source, position)
        decreases |source| - position
      {
        var d := GetChar();
        if d == '\n' {
          break;
        }
        sb := sb + [d];
      }
      comment := sb;
      currentToken := CommentLine;
    }

    method ReadBlockComment(c: char)
      requires 0 < position < |source| && source[position] == '*' && c == source[position - 1]
      modifies this`position, this`currentToken, this`comment
      ensures position == BlockEnd(source, old(position)) && currentToken == CommentBlock
      ensures comment == source[old(position) - 1..position]
    {
      var sb := [c];
      while !IsEof()
        invariant old(position) <= position <= |source| && sb == source[old(position) - 1..position]
        invariant BlockEnd(source, old(position)) == BlockEnd(source, position)
        decreases |source| - position
      {
        var d := GetChar();
        sb := sb + [d];
        if d == '*' && PeekChar() == '/' {
          d := GetChar();
          sb := sb + [d];
          break;
        }
      }
      comment := sb;
      currentToken := CommentBlock;
    }

    // Skips characters, whatever token was read ahead. The first character of
    // the next line goes too.
    method SkipCurrentLine()
      requires Valid()
      modifies this`position, this`from
      ensures Valid() && Left() <= old(Left()) && position == LineSkipped(source, old(position))
    {
      while !IsEof()
        invariant old(position) <= position <= |source| && LineEnd(source, old(position)) == LineEnd(source, position)
        decreases |source| - position
      {
        var c := GetChar();
        if c == '\n' {
          var _ := GetChar();
          break;
        }
      }
      from := if havePeek then -1 else position;
    }

    method SkipCurrentLineUntil(untilChar: char) returns (found: bool)
      requires Valid()
      modifies this`position, this`from
      ensures Valid() && Left() <= old(Left()) && position == SkippedUntil(source, old(position), untilChar)
    {
      found := true;
      while !IsEof()
        invariant old(position) <= position <= |source|
        invariant SkippedUntil(source, old(position), untilChar) == SkippedUntil(source, position, untilChar)
        decreases |source| - position
      {
        var c := GetChar();
        if c == untilChar {
          break;
        }
        if c == '\n' {
          var _ := GetChar();
          found := false;
          break;
        }
      }
      from := if havePeek then -1 else position;
    }
  }

  // What a valid lexer promises about its lookahead.
  lemma Within(lexer: Lexer)
    requires lexer.Valid()
    ensures -1 <= lexer.from <= |lexer.source| && lexer.position <= |lexer.source|
    ensures lexer.havePeek && lexer.from >= 0 ==> lexer.currentToken == Next(lexer.source, lexer.from).token
    ensures !lexer.havePeek ==> lexer.from == lexer.position
  {
  }
}
