/** Searching, cutting and replacing in the compiler's String class. A String is
    its characters up to the terminating NUL; the null and the empty String are
    not told apart here. */
module Strings {

  predicate MatchAt(s: string, t: string, i: int) {
    0 <= i && i + |t| <= |s| && s[i..i + |t|] == t
  }

  // `r` is the least index in [lo, ..) where t matches, or -1 when there is none.
  ghost predicate IsFirstMatch(s: string, t: string, lo: int, r: int) {
    && (r == -1 || (lo <= r && MatchAt(s, t, r)))
    && forall i :: lo <= i && (r == -1 || i < r) ==> !MatchAt(s, t, i)
  }

  // `r` is the greatest match start that is at most `hi`, or -1.
  ghost predicate IsLastMatch(s: string, t: string, hi: int, r: int) {
    && (r == -1 || (r <= hi && MatchAt(s, t, r)))
    && forall i :: r < i <= hi ==> !MatchAt(s, t, i)
  }

  function FirstMatch(s: string, t: string, lo: nat): (r: int)
    ensures IsFirstMatch(s, t, lo, r)
    ensures r >= -1
    decreases |s| - lo
  {
    if lo > |s| then -1
    else if MatchAt(s, t, lo) then lo
    else FirstMatch(s, t, lo + 1)
  }

  lemma SingleMatch(s: string, c: char)
    ensures forall i :: MatchAt(s, [c], i) <==> 0 <= i < |s| && s[i] == c
  {
    forall i | 0 <= i < |s| ensures MatchAt(s, [c], i) <==> s[i] == c {
      assert s[i..i + 1] == [s[i]];
    }
  }

  lemma MatchInSuffix(s: string, t: string, begin: nat, i: nat)
    requires begin <= |s|
    ensures MatchAt(s[begin..], t, i) <==> MatchAt(s, t, begin + i)
  {
    if i + |t| <= |s| - begin {
      assert s[begin..][i..i + |t|] == s[begin + i..begin + i + |t|];
    }
  }

  method IndexOfChar(s: string, c: char, fromIndex: int) returns (r: int)
    ensures c != '\0' ==> IsFirstMatch(s, [c], if fromIndex < 0 then 0 else fromIndex, r)
    ensures c == '\0' ==> r == -1
    ensures -1 <= r < |s|
  {
    if s == "" || c == '\0' {
      return -1;
    }
    SingleMatch(s, c);
    var p := fromIndex;
    if fromIndex < 0 {
      p := 0;
    } else if fromIndex >= |s| {
      return -1;
    }
    ghost var lo := p;
    while p != |s|
      invariant lo <= p <= |s|
      invariant forall i :: lo <= i < p ==> s[i] != c
      decreases |s| - p
    {
      if s[p] == c {
        return p;
      }
      p := p + 1;
    }
    r := -1;
  }

  // strstr, applied to the text from `fromIndex` on.
  method IndexOf(s: string, t: string, fromIndex: int) returns (r: int)
    ensures t != "" ==> IsFirstMatch(s, t, if fromIndex < 0 then 0 else fromIndex, r)
    ensures t == "" ==> r == -1
    ensures r == -1 || 0 <= r <= |s| - |t|
  {
    if s == "" || t == "" {
      return -1;
    }
    var p := fromIndex;
    if fromIndex < 0 {
      p := 0;
    } else if fromIndex >= |s| {
      return -1;
    }
    r := FirstMatch(s, t, p);
  }

  // The scan stops before it looks at index 0, and a start of 0 means the end.
  method LastIndexOfChar(s: string, c: char, fromIndex: int) returns (r: int)
    ensures -1 <= r < |s| && r != 0
    ensures r > 0 ==> s[r] == c
    ensures fromIndex < 0 || c == '\0' ==> r == -1
    ensures fromIndex >= 0 && c != '\0' ==>
              forall i :: 1 <= i < |s| && r < i <= LastStart(s, fromIndex) ==> s[i] != c
    ensures fromIndex >= 0 ==> r <= LastStart(s, fromIndex)
  {
    if s == "" || c == '\0' {
      return -1;
    }
    if fromIndex < 0 {
      return -1;
    }
    var p := LastStart(s, fromIndex);
    ghost var hi := p;
    while p != 0
      invariant 0 <= p <= hi
      invariant forall i :: p < i <= hi ==> s[i] != c
      decreases p
    {
      if s[p] == c {
        return p;
      }
      p := p - 1;
    }
    r := -1;
  }

  function LastStart(s: string, fromIndex: int): int {
    if fromIndex == 0 || fromIndex >= |s| then |s| - 1 else fromIndex
  }

  // The result is the last occurrence, as its name says, exactly when the
  // character is not found at index 0 alone.
  lemma LastIndexOfCharIsLast(s: string, c: char, fromIndex: int, r: int)
    requires s != "" && fromIndex >= 0 && c != '\0'
    requires -1 <= r < |s| && r != 0 && r <= LastStart(s, fromIndex)
    requires r > 0 ==> s[r] == c
    requires forall i :: 1 <= i < |s| && r < i <= LastStart(s, fromIndex) ==> s[i] != c
    ensures IsLastMatch(s, [c], LastStart(s, fromIndex), r) <==>
            !(s[0] == c && forall i :: 1 <= i <= LastStart(s, fromIndex) ==> s[i] != c)
  {
    SingleMatch(s, c);
    assert MatchAt(s, [c], 0) <==> s[0] == c;
  }

  // The two nested scans: find the last character of `t`, then compare backwards.
  method LastIndexOfInternal(s: string, t: string, fromIndex: int) returns (r: int)
    requires t != ""
    ensures IsLastMatch(s, t, fromIndex, r)
    ensures -1 <= r
  {
    hide MatchAt;
    TooFarRight(s, t);
    var rightIndex := |s| - |t|;
    var from := fromIndex;
    if from > rightIndex {
      from := rightIndex;
    }
    var last := |t| - 1;
    var min := |t| - 1;
    var i := min + from;

    label search:
    while true
      invariant i < |s|
      invariant i <= min + from
      invariant forall k :: i - last < k <= fromIndex ==> !MatchAt(s, t, k)
      decreases i
    {
      while i >= min && s[i] != t[last]
        invariant i < |s|
        invariant i <= min + from
        invariant forall k :: i - last < k <= fromIndex ==> !MatchAt(s, t, k)
        decreases i
      {
        LastCharacter(s, t, i);
        i := i - 1;
      }
      if i < min {
        return -1;
      }
      var j := i - 1;
      var start := j - (|t| - 1);
      var k := last - 1;
      while j > start
        invariant start <= j < i
        invariant k - j == last - i
        invariant forall n :: k < n <= last ==> s[n + (i - last)] == t[n]
        decreases j
      {
        var same := s[j] == t[k];
        j, k := j - 1, k - 1;
        if !same {
          Mismatch(s, t, i - last, k + 1);
          i := i - 1;
          continue search;
        }
      }
      FullMatch(s, t, start + 1);
      return start + 1;
    }
  }

  lemma TooFarRight(s: string, t: string)
    ensures forall k :: k > |s| - |t| || k < 0 ==> !MatchAt(s, t, k)
  {
  }

  lemma FullMatch(s: string, t: string, at: int)
    requires 0 <= at && at + |t| <= |s|
    requires forall n :: 0 <= n < |t| ==> s[n + at] == t[n]
    ensures MatchAt(s, t, at)
  {
    assert s[at..at + |t|] == t;
  }

  lemma LastCharacter(s: string, t: string, i: int)
    requires t != "" && |t| - 1 <= i < |s| && s[i] != t[|t| - 1]
    ensures !MatchAt(s, t, i - (|t| - 1))
  {
    var at := i - (|t| - 1);
    assert s[at..at + |t|][|t| - 1] == s[i];
  }

  lemma Mismatch(s: string, t: string, at: int, k: int)
    requires 0 <= at && at + |t| <= |s| && 0 <= k < |t| && s[at + k] != t[k]
    ensures !MatchAt(s, t, at)
  {
    assert s[at..at + |t|][k] == s[at + k];
  }

  method LastIndexOf(s: string, t: string, fromIndex: int) returns (r: int)
    ensures s != "" && t != "" && fromIndex >= 0 ==> IsLastMatch(s, t, LastStart(s, fromIndex), r)
    ensures s == "" || t == "" || fromIndex < 0 ==> r == -1
  {
    if s == "" || t == "" || fromIndex < 0 {
      return -1;
    }
    r := LastIndexOfInternal(s, t, LastStart(s, fromIndex));
  }

  function SubstringFrom(s: string, begin: int): string {
    if begin < 0 || begin >= |s| then "" else s[begin..]
  }

  function Substring(s: string, begin: int, end: int): string {
    if begin < 0 || end > |s| || begin > end then "" else s[begin..end]
  }

  // Leftmost, non-overlapping replacement.
  function Replaced(s: string, target: string, with: string): string
    requires target != ""
  {
    if s == "" then ""
    else if MatchAt(s, target, 0) then with + Replaced(s[|target|..], target, with)
    else [s[0]] + Replaced(s[1..], target, with)
  }

  method Replace(s: string, target: string, with: string) returns (r: string)
    ensures target == "" ==> r == s
    ensures target != "" ==> r == Replaced(s, target, with)
  {
    hide Replaced, MatchAt, FirstMatch, IsFirstMatch, Substring, SubstringFrom;
    if target == "" {
      return s;
    }
    var index := IndexOf(s, target, 0);
    if index == -1 {
      NothingLeft(s, target, with, "", 0);
      return s;
    }
    var sb, begin, step := "", 0, |target|;
    assert s[0..] == s;
    while index != -1
      invariant 0 <= begin <= |s|
      invariant index == -1 || begin <= index <= |s| - step
      invariant IsFirstMatch(s, target, begin, index)
      invariant sb + Replaced(s[begin..], target, with) == Replaced(s, target, with)
      decreases |s| - begin
    {
      ReplaceOne(s, target, with, sb, begin, index);
      sb := sb + Substring(s, begin, index);
      sb := sb + with;
      begin := index + step;
      index := IndexOf(s, target, begin);
    }
    NothingLeft(s, target, with, sb, begin);
    r := sb + SubstringFrom(s, begin);
  }

  lemma ReplaceOne(s: string, target: string, with: string, sb: string, begin: nat, index: nat)
    requires target != "" && begin <= index <= |s| - |target| && IsFirstMatch(s, target, begin, index)
    ensures sb + Replaced(s[begin..], target, with)
            == sb + Substring(s, begin, index) + with + Replaced(s[index + |target|..], target, with)
  {
    NextMatch(s, target, with, begin, index);
    hide Replaced, MatchAt, IsFirstMatch;
    var tail := Replaced(s[index + |target|..], target, with);
    assert sb + (s[begin..index] + with + tail) == sb + s[begin..index] + with + tail;
  }

  lemma NothingLeft(s: string, target: string, with: string, sb: string, begin: nat)
    requires target != "" && begin <= |s| && IsFirstMatch(s, target, begin, -1)
    ensures sb + Replaced(s[begin..], target, with) == sb + SubstringFrom(s, begin)
    ensures begin == 0 ==> Replaced(s, target, with) == s
  {
    NoMatchLeft(s, target, with, begin);
    assert s[0..] == s;
    assert begin == |s| ==> s[begin..] == "";
  }

  lemma {:induction false} NoMatchLeft(s: string, target: string, with: string, begin: nat)
    requires target != "" && begin <= |s|
    requires forall i :: begin <= i ==> !MatchAt(s, target, i)
    ensures Replaced(s[begin..], target, with) == s[begin..]
    decreases |s| - begin
  {
    var u := s[begin..];
    if u != "" {
      MatchInSuffix(s, target, begin, 0);
      assert !MatchAt(s, target, begin);
      NoMatchLeft(s, target, with, begin + 1);
      assert u[1..] == s[begin + 1..];
    }
  }

  lemma NoMatchHere(s: string, target: string, with: string, begin: nat)
    requires target != "" && begin < |s| && !MatchAt(s, target, begin)
    ensures Replaced(s[begin..], target, with) == [s[begin]] + Replaced(s[begin + 1..], target, with)
  {
    hide MatchAt;
    MatchInSuffix(s, target, begin, 0);
    assert s[begin..][1..] == s[begin + 1..];
  }

  lemma {:induction false} NextMatch(s: string, target: string, with: string, begin: nat, index: nat)
    requires target != "" && begin <= index && MatchAt(s, target, index)
    requires forall i :: begin <= i < index ==> !MatchAt(s, target, i)
    ensures Replaced(s[begin..], target, with) == s[begin..index] + with + Replaced(s[index + |target|..], target, with)
    decreases index - begin
  {
    var u := s[begin..];
    if begin == index {
      assert u[..|target|] == s[index..index + |target|];
      assert u[|target|..] == s[index + |target|..];
    } else {
      NoMatchHere(s, target, with, begin);
      NextMatch(s, target, with, begin + 1, index);
      assert s[begin..index] == [s[begin]] + s[begin + 1..index];
    }
  }

  // Writing a dotted name with "::" loses nothing: replacing back restores it.
  lemma {:induction false} ScopedNameRoundTrip(s: string)
    requires ':' !in s
    ensures Replaced(Replaced(s, ".", "::"), "::", ".") == s
  {
    if s != "" {
      ScopedNameRoundTrip(s[1..]);
      var tail := Replaced(s[1..], ".", "::");
      assert MatchAt(s, ".", 0) <==> s[0] == '.' by {
        assert s[0..1] == [s[0]];
      }
      if s[0] == '.' {
        var r := "::" + tail;
        assert r[0..2] == "::" && r[2..] == tail;
      } else {
        var r := [s[0]] + tail;
        assert r[0] != ':' && r[1..] == tail;
        assert |r| >= 2 ==> r[0..2][0] == r[0];
      }
    }
  }
}
