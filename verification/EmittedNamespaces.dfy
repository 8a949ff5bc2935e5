/** The namespace blocks the C++ emitter opens and closes around its classes. */
module EmittedNamespaces {
  import opened Strings

  // A name part between two dots.
  predicate IsSegment(s: string) {
    s != "" && '.' !in s && '\0' !in s
  }

  predicate AreSegments(segments: seq<string>) {
    forall i :: 0 <= i < |segments| ==> IsSegment(segments[i])
  }

  // Every part is followed by a dot, as the compiler prints namespaces.
  function Dotted(segments: seq<string>): string {
    if segments == [] then "" else Dotted(segments[..|segments| - 1]) + segments[|segments| - 1] + "."
  }

  // A namespace may have a file path in front of it, set off by a second dot.
  function WithPath(path: seq<string>, segments: seq<string>): string {
    if path == [] then Dotted(segments) else Dotted(path) + "." + Dotted(segments)
  }

  function Reversed(segments: seq<string>): seq<string> {
    if segments == [] then [] else [segments[|segments| - 1]] + Reversed(segments[..|segments| - 1])
  }

  lemma {:induction false} DottedFront(segments: seq<string>)
    requires segments != []
    ensures Dotted(segments) == segments[0] + "." + Dotted(segments[1..])
    decreases |segments|
  {
    var n := |segments|;
    var init, tail := segments[..n - 1], segments[1..];
    if n == 1 {
      assert init == [] && tail == [];
    } else {
      DottedFront(init);
      assert init[1..] == tail[..|tail| - 1] && tail[|tail| - 1] == segments[n - 1] && init[0] == segments[0];
      hide Dotted;
      DottedLast(segments);
      DottedLast(tail);
    }
  }

  lemma DottedLast(segments: seq<string>)
    requires segments != []
    ensures Dotted(segments) == Dotted(segments[..|segments| - 1]) + segments[|segments| - 1] + "."
  {
  }

  // In a dotted text no dot follows another and the last character is a dot.
  lemma {:induction false} DotsApart(segments: seq<string>)
    requires AreSegments(segments)
    ensures segments != [] ==> var s := Dotted(segments); |s| > 1 && s[0] != '.' && s[|s| - 1] == '.'
    ensures forall i :: 0 <= i < |Dotted(segments)| - 1 && Dotted(segments)[i] == '.' ==> Dotted(segments)[i + 1] != '.'
    decreases |segments|
  {
    if segments != [] {
      var n := |segments|;
      DotsApart(segments[..n - 1]);
      assert segments[n - 1][0] != '.';
    }
  }

  lemma NoDoubleDot(s: string)
    requires forall i :: 0 <= i < |s| - 1 && s[i] == '.' ==> s[i + 1] != '.'
    ensures forall i :: !MatchAt(s, "..", i)
  {
    forall i ensures !MatchAt(s, "..", i) {
      if MatchAt(s, "..", i) {
        DoubleDotAt(s, i);
      }
    }
  }

  // What is behind the first double dot, or everything.
  function CutPath(fpnp: string): string {
    var pos := FirstMatch(fpnp, "..", 0);
    if pos == -1 then fpnp else SubstringFrom(fpnp, pos + 2)
  }

  lemma OneFirstMatch(s: string, t: string, a: int, b: int)
    requires IsFirstMatch(s, t, 0, a) && IsFirstMatch(s, t, 0, b)
    ensures a == b
  {
    hide MatchAt;
  }

  method GetNamespace(fpnp: string, ghost path: seq<string>, ghost segments: seq<string>) returns (r: string)
    ensures r == CutPath(fpnp)
    ensures fpnp == WithPath(path, segments) && AreSegments(path) && AreSegments(segments) ==> r == Dotted(segments)
  {
    hide FirstMatch, IsFirstMatch;
    var pos := IndexOf(fpnp, "..", 0);
    OneFirstMatch(fpnp, "..", pos, FirstMatch(fpnp, "..", 0));
    if pos == -1 {
      r := fpnp;
    } else {
      r := SubstringFrom(fpnp, pos + 2);
    }
    if fpnp == WithPath(path, segments) && AreSegments(path) && AreSegments(segments) {
      PathEnds(path, segments, pos);
    }
  }

  lemma DoubleDotAt(s: string, i: int)
    requires MatchAt(s, "..", i)
    ensures s[i] == '.' && s[i + 1] == '.'
  {
    assert s[i] == s[i..i + 2][0] && s[i + 1] == s[i..i + 2][1];
  }

  // The first double dot is the one behind the path.
  lemma PathEnds(path: seq<string>, segments: seq<string>, pos: int)
    requires AreSegments(path) && AreSegments(segments)
    requires WithPath(path, segments) != "" ==> IsFirstMatch(WithPath(path, segments), "..", 0, pos)
    requires WithPath(path, segments) == "" ==> pos == -1
    ensures path == [] ==> pos == -1
    ensures path != [] ==> pos + 1 == |Dotted(path)|
                           && SubstringFrom(WithPath(path, segments), pos + 2) == Dotted(segments)
  {
    var s, p := WithPath(path, segments), Dotted(path);
    DotsApart(path);
    DotsApart(segments);
    if path == [] {
      NoDoubleDot(s);
    } else {
      assert s[|p| - 1..|p| + 1] == "..";
      assert MatchAt(s, "..", |p| - 1);
      DoubleDotAt(s, pos);
      assert forall i :: 0 <= i < |p| ==> s[i] == p[i];
      assert s[|p| + 1..] == Dotted(segments);
    }
  }

  // ----- opening -----

  // The parts of a namespace that a dot follows; parts may be empty.
  function Pieces(nspace: string): seq<string>
    decreases |nspace|
  {
    var i := FirstMatch(nspace, ".", 0);
    if i == -1 then [] else [Substring(nspace, 0, i)] + Pieces(SubstringFrom(nspace, i + 1))
  }

  // The names of the blocks opened, outermost first.
  method EmitBeginNamespace(fpnp: string, ghost path: seq<string>, ghost segments: seq<string>)
    returns (begun: seq<string>)
    ensures begun == Pieces(CutPath(fpnp))
    ensures fpnp == WithPath(path, segments) && AreSegments(path) && AreSegments(segments) ==> begun == segments
  {
    hide *;
    var nspace := GetNamespace(fpnp, path, segments);
    ghost var all := nspace;
    begun := [];
    var index := IndexOfChar(nspace, '.', 0);
    while index != -1
      invariant -1 <= index < |nspace| && IsFirstMatch(nspace, ".", 0, index)
      invariant Pieces(all) == begun + Pieces(nspace)
      decreases |nspace|
    {
      PiecesIs(nspace, index);
      TailIs(nspace, index);
      begun := begun + [Substring(nspace, 0, index)];
      nspace := SubstringFrom(nspace, index + 1);
      index := IndexOfChar(nspace, '.', 0);
    }
    PiecesIs(nspace, index);
    if AreSegments(segments) {
      SegmentsAreParts(segments);
      PiecesOfDotted(segments);
    }
  }

  lemma PiecesIs(s: string, index: int)
    requires IsFirstMatch(s, ".", 0, index)
    ensures Pieces(s) == if index == -1 then [] else [Substring(s, 0, index)] + Pieces(SubstringFrom(s, index + 1))
  {
    hide MatchAt, IsFirstMatch, FirstMatch, Substring, SubstringFrom;
    OneFirstMatch(s, ".", index, FirstMatch(s, ".", 0));
  }

  lemma TailIs(s: string, index: int)
    requires 0 <= index < |s|
    ensures SubstringFrom(s, index + 1) == s[index + 1..] && Substring(s, 0, index) == s[..index]
  {
  }

  predicate AreParts(parts: seq<string>) {
    forall i :: 0 <= i < |parts| ==> '.' !in parts[i]
  }

  lemma SegmentsAreParts(segments: seq<string>)
    requires AreSegments(segments)
    ensures AreParts(segments) && (segments != [] ==> segments[0] != "")
  {
  }

  lemma {:induction false} PiecesOfDotted(parts: seq<string>)
    requires AreParts(parts)
    ensures Pieces(Dotted(parts)) == parts
    decreases |parts|
  {
    hide Dotted, FirstMatch, IsFirstMatch, Substring, SubstringFrom, MatchAt;
    var s := Dotted(parts);
    if parts == [] {
      NothingDotted();
    } else {
      FirstPart(parts, FirstMatch(s, ".", 0));
      PiecesOfDotted(parts[1..]);
      assert parts == [parts[0]] + parts[1..];
    }
  }

  lemma NothingDotted()
    ensures Dotted([]) == "" && Pieces("") == []
  {
  }

  lemma FirstPart(left: seq<string>, index: int)
    requires AreParts(left) && left != [] && IsFirstMatch(Dotted(left), ".", 0, index)
    ensures 0 <= index < |Dotted(left)| && Substring(Dotted(left), 0, index) == left[0]
    ensures SubstringFrom(Dotted(left), index + 1) == Dotted(left[1..])
  {
    var s := Dotted(left);
    DottedFront(left);
    SingleMatch(s, '.');
    assert s[|left[0]|] == '.' && MatchAt(s, ".", |left[0]|);
    assert s[index] == '.';
    assert forall i :: 0 <= i < |left[0]| ==> s[i] == left[0][i] && left[0][i] != '.';
    assert s[|left[0]| + 1..] == Dotted(left[1..]);
  }

  // A namespace that ends in a dot is made of its parts.
  lemma {:induction false} DottedPieces(nspace: string)
    requires nspace != "" ==> nspace[|nspace| - 1] == '.'
    ensures Dotted(Pieces(nspace)) == nspace && AreParts(Pieces(nspace))
    decreases |nspace|
  {
    hide *;
    if nspace == "" {
      NothingDotted();
      NoParts();
    } else {
      var i := FirstDot(nspace);
      var head, tail := nspace[..i], nspace[i + 1..];
      PiecesIs(nspace, i);
      TailIs(nspace, i);
      DottedPieces(tail);
      DottedFront([head] + Pieces(tail));
      MoreParts(head, Pieces(tail));
      assert ([head] + Pieces(tail))[1..] == Pieces(tail);
      assert nspace == head + "." + tail;
    }
  }

  lemma FirstDot(s: string) returns (i: nat)
    requires s != "" && s[|s| - 1] == '.'
    ensures i < |s| && IsFirstMatch(s, ".", 0, i) && s[i] == '.' && '.' !in s[..i]
  {
    SingleMatch(s, '.');
    i := FirstMatch(s, ".", 0);
    assert MatchAt(s, ".", |s| - 1);
    hide FirstMatch;
  }

  lemma NoParts()
    ensures AreParts([])
  {
  }

  lemma MoreParts(head: string, parts: seq<string>)
    requires AreParts(parts) && '.' !in head
    ensures AreParts([head] + parts)
  {
  }

  // ----- closing -----

  // The last dot, but one at index 0 does not count.
  function LastDot(s: string): (i: int)
    ensures -1 <= i < |s| && i != 0 && (i > 0 ==> s[i] == '.') && forall j :: 1 <= j < |s| && i < j ==> s[j] != '.'
  {
    if |s| < 2 then -1 else if s[|s| - 1] == '.' then |s| - 1 else LastDot(s[..|s| - 1])
  }

  function Closings(s: string): seq<string>
    decreases |s|
  {
    if s == "" then []
    else
      var i := LastDot(s);
      if i == -1 then [s] else [s[i + 1..]] + Closings(s[..i])
  }

  function WithoutLast(s: string): string {
    if s == "" then "" else s[..|s| - 1]
  }

  // The names of the blocks closed, innermost first.
  method EmitEndNamespace(fpnp: string, ghost path: seq<string>, ghost segments: seq<string>)
    returns (ended: seq<string>)
    ensures ended == Closings(WithoutLast(CutPath(fpnp)))
    ensures fpnp == WithPath(path, segments) && AreSegments(path) && AreSegments(segments) ==> ended == Reversed(segments)
  {
    hide FirstMatch, WithPath, AreSegments, Dotted, CutPath, Closings, LastDot;
    NothingClosed();
    var nspace := GetNamespace(fpnp, path, segments);
    nspace := Substring(nspace, 0, |nspace| - 1);
    ghost var all := nspace;
    ended := [];
    while nspace != ""
      invariant Closings(all) == ended + Closings(nspace)
      decreases |nspace|
    {
      var index := LastIndexOfChar(nspace, '.', |nspace|);
      assert index == LastDot(nspace);
      ClosingsIs(nspace);
      assert nspace[index + 1..|nspace|] == nspace[index + 1..];
      ended := ended + [if index != -1 then Substring(nspace, index + 1, |nspace|) else nspace];
      nspace := Substring(nspace, 0, index);
    }
    if AreSegments(segments) {
      SegmentsAreParts(segments);
      ClosingsOfParts(segments);
    }
  }

  // A dotted text without its last dot.
  function Undotted(left: seq<string>): string {
    if left == [] then "" else Dotted(left[..|left| - 1]) + left[|left| - 1]
  }

  lemma UndottedIs(parts: seq<string>)
    ensures Undotted(parts) == WithoutLast(Dotted(parts))
  {
    if parts != [] {
      DottedLast(parts);
    }
  }

  lemma {:induction false} ReversedCount(parts: seq<string>)
    ensures |Reversed(parts)| == |parts|
  {
    if parts != [] {
      ReversedCount(parts[..|parts| - 1]);
    }
  }

  // Every part is closed again, unless the first one is empty: then one block
  // too few is closed.
  lemma {:induction false} ClosingsOfParts(parts: seq<string>)
    requires AreParts(parts)
    ensures var closed_ := Closings(WithoutLast(Dotted(parts)));
            && (parts == [] || parts[0] != "" ==> closed_ == Reversed(parts))
            && (parts != [] && parts[0] == "" ==> |closed_| == |parts| - 1)
    decreases |parts|
  {
    hide Dotted, Closings, Reversed;
    UndottedIs(parts);
    if parts == [] {
      NothingClosed();
    } else {
      var init, last := parts[..|parts| - 1], parts[|parts| - 1];
      ReversedLast(parts);
      if init == [] {
        assert parts == [last];
        OnePart(last);
      } else {
        ClosingsOfParts(init);
        UndottedIs(init);
        LastPart(parts);
        ReversedCount(init);
      }
    }
  }

  lemma NothingClosed()
    ensures Dotted([]) == "" && Closings("") == [] && Reversed([]) == []
  {
  }

  lemma ReversedLast(parts: seq<string>)
    requires parts != []
    ensures Reversed(parts) == [parts[|parts| - 1]] + Reversed(parts[..|parts| - 1])
  {
  }

  lemma OnePart(part: string)
    requires '.' !in part
    ensures Undotted([part]) == part && Closings(part) == (if part == "" then [] else [part]) && Reversed([part]) == [part]
  {
    NothingClosed();
    assert [part][..0] == [];
    assert "" + part == part;
    assert forall i :: 0 <= i < |part| ==> part[i] in part;
  }

  lemma LastPart(parts: seq<string>)
    requires AreParts(parts) && |parts| > 1
    ensures var init, last, u := parts[..|parts| - 1], parts[|parts| - 1], Undotted(parts);
            if init == [""] then Closings(u) == [u] && Undotted(init) == ""
            else Closings(u) == [last] + Closings(Undotted(init))
  {
    hide *;
    var init, last, u := parts[..|parts| - 1], parts[|parts| - 1], Undotted(parts);
    var d := Dotted(init);
    UndottedIs(init);
    UndottedLast(parts);
    DottedLast(init);
    ShortDotted(init);
    BehindDot(d, last);
    ClosingsIs(u);
    BeforeDot(d);
  }

  lemma UndottedLast(parts: seq<string>)
    requires AreParts(parts) && parts != []
    ensures Undotted(parts) == Dotted(parts[..|parts| - 1]) + parts[|parts| - 1] && '.' !in parts[|parts| - 1]
  {
    hide Dotted;
  }

  lemma BehindDot(d: string, last: string)
    requires d != "" && d[|d| - 1] == '.' && '.' !in last
    ensures LastDot(d + last) == if |d| == 1 then -1 else |d| - 1
    ensures (d + last)[|d|..] == last && (d + last)[..|d| - 1] == d[..|d| - 1]
  {
    var u := d + last;
    assert u[|d| - 1] == '.';
    assert forall i :: |d| <= i < |u| ==> u[i] == last[i - |d|] && u[i] in last;
    hide LastDot;
  }

  lemma BeforeDot(d: string)
    requires d != ""
    ensures WithoutLast(d) == d[..|d| - 1]
  {
  }

  lemma ClosingsIs(s: string)
    requires s != ""
    ensures Closings(s) == if LastDot(s) == -1 then [s] else [s[LastDot(s) + 1..]] + Closings(s[..LastDot(s)])
  {
    hide LastDot;
  }

  // Only an empty part alone gives a single dot.
  lemma ShortDotted(parts: seq<string>)
    requires parts != []
    ensures |Dotted(parts)| == 1 <==> parts == [""]
  {
    if |parts| > 1 {
      DottedLast(parts);
      DottedLast(parts[..|parts| - 1]);
    } else {
      assert parts[..0] == [] && parts == [parts[0]];
    }
  }

  // Blocks are closed in the reverse of the order they were opened in, exactly
  // when the namespace that is left behind the file path does not start with a
  // dot: behind three dots in a row one block more is opened than closed.
  method EmitAround(fpnp: string, ghost path: seq<string>, ghost segments: seq<string>)
    returns (begun: seq<string>, ended: seq<string>)
    ensures fpnp == WithPath(path, segments) && AreSegments(path) && AreSegments(segments) ==>
              begun == segments && ended == Reversed(begun)
    ensures fpnp != "" && fpnp[|fpnp| - 1] == '.' ==>
              && (ended == Reversed(begun) <==> CutPath(fpnp) == "" || CutPath(fpnp)[0] != '.')
              && (ended != Reversed(begun) ==> |begun| == |ended| + 1)
  {
    hide *;
    begun := EmitBeginNamespace(fpnp, path, segments);
    ended := EmitEndNamespace(fpnp, path, segments);
    if fpnp != "" && fpnp[|fpnp| - 1] == '.' {
      Balance(fpnp);
    }
  }

  lemma CutEnds(fpnp: string)
    requires fpnp != "" && fpnp[|fpnp| - 1] == '.'
    ensures var n := CutPath(fpnp); n != "" ==> n[|n| - 1] == '.'
  {
    hide FirstMatch;
  }

  lemma Balance(fpnp: string)
    requires fpnp != "" && fpnp[|fpnp| - 1] == '.'
    ensures var n := CutPath(fpnp); var begun, ended := Pieces(n), Closings(WithoutLast(n));
            && (ended == Reversed(begun) <==> n == "" || n[0] != '.')
            && (ended != Reversed(begun) ==> |begun| == |ended| + 1)
  {
    hide CutPath, Closings, Reversed, Dotted, Pieces;
    var n := CutPath(fpnp);
    CutEnds(fpnp);
    DottedPieces(n);
    var parts := Pieces(n);
    ClosingsOfParts(parts);
    ReversedCount(parts);
    if parts == [] {
      NothingDotted();
    } else {
      DottedFront(parts);
      assert n == parts[0] + "." + Dotted(parts[1..]);
      assert parts[0] != "" ==> n[0] == parts[0][0] && parts[0][0] in parts[0];
    }
  }

  // The parser takes a...b.IFoo for an interface in the namespace a...b.: one
  // block is opened without a name, and never closed.
  lemma ThreeDots()
    ensures var begun, ended := Pieces(CutPath("a...b.")), Closings(WithoutLast(CutPath("a...b.")));
            |begun| == |ended| + 1
  {
    hide Pieces, Closings, WithoutLast, CutPath, Reversed;
    ThreeDotsCut();
    Balance("a...b.");
  }

  lemma ThreeDotsCut()
    ensures CutPath("a...b.") == ".b."
  {
    hide FirstMatch;
    var s := "a...b.";
    assert s[1..3] == ".." && s[0..2][0] == 'a';
    assert IsFirstMatch(s, "..", 0, 1);
    OneFirstMatch(s, "..", 1, FirstMatch(s, "..", 0));
    assert s[3..] == ".b.";
  }
}
