/** What the form registries keep: form records, host records and database
    entries, and the small list operations on them. */
module FormTypes {

  const MAX_TEMP_FORMS := 256
  const MAX_FORMS := 512
  const MAX_RECORD_PER_APP := 256
  const UID_CALLINGUID_TRANSFORM_DIVISOR := 200000
  const LOW_WORD := 0x1_0000_0000

  datatype FormRecord = FormRecord(
    formId: int, userId: int, bundleName: string, moduleName: string, abilityName: string, formName: string,
    formTempFlg: bool, formUserUids: seq<int>)

  datatype FormDBInfo = FormDBInfo(
    formId: int, userId: int, formName: string, bundleName: string, moduleName: string, abilityName: string,
    formUserUids: seq<int>)

  // A host application: its callback stub, its uid and the forms it shows.
  datatype FormHostRecord = FormHostRecord(clientStub: int, callerUid: int, forms: set<int>)

  // What is known of a form that is to be added.
  datatype FormItemInfo = FormItemInfo(
    formId: int, bundleName: string, moduleName: string, abilityName: string, formName: string, temporary: bool)

  // Forms of one ability are reported to their provider together.
  datatype FormIdKey = FormIdKey(bundleName: string, abilityName: string)

  type Records = map<int, FormRecord>

  function KeyOf(r: FormRecord): FormIdKey {
    FormIdKey(r.bundleName, r.abilityName)
  }

  function DBKeyOf(d: FormDBInfo): FormIdKey {
    FormIdKey(d.bundleName, d.abilityName)
  }

  function DBInfoOf(id: int, r: FormRecord): FormDBInfo {
    FormDBInfo(id, r.userId, r.formName, r.bundleName, r.moduleName, r.abilityName, r.formUserUids)
  }

  // Division truncates towards zero.
  function UserIdOf(callingUid: int): int {
    if callingUid >= 0 then callingUid / UID_CALLINGUID_TRANSFORM_DIVISOR
    else 0 - (0 - callingUid) / UID_CALLINGUID_TRANSFORM_DIVISOR
  }

  predicate NoDuplicates<T(==)>(s: seq<T>) {
    forall i, j :: 0 <= i < j < |s| ==> s[i] != s[j]
  }

  // std::find and erase: the first occurrence goes.
  function RemoveFirst<T(==)>(s: seq<T>, x: T): seq<T> {
    if s == [] then [] else if s[0] == x then s[1..] else [s[0]] + RemoveFirst(s[1..], x)
  }

  function AddIfMissing<T(==)>(s: seq<T>, x: T): seq<T> {
    if x in s then s else s + [x]
  }

  // The elements that are not in `drop`, in order.
  function Without<T(==)>(s: seq<T>, drop: set<T>): seq<T> {
    if s == [] then []
    else if s[|s| - 1] in drop then Without(s[..|s| - 1], drop)
    else Without(s[..|s| - 1], drop) + [s[|s| - 1]]
  }

  // `a` is `b` with some elements left out.
  predicate IsSublist<T(==)>(a: seq<T>, b: seq<T>) {
    if a == [] then true
    else b != [] && if a[0] == b[0] then IsSublist(a[1..], b[1..]) else IsSublist(a, b[1..])
  }

  lemma {:induction false} RemoveFirstIs<T>(s: seq<T>, x: T)
    requires NoDuplicates(s)
    ensures NoDuplicates(RemoveFirst(s, x)) && x !in RemoveFirst(s, x)
    ensures forall y :: y in RemoveFirst(s, x) <==> y in s && y != x
  {
    if s != [] && s[0] != x {
      RemoveFirstIs(s[1..], x);
      assert forall y :: y in s <==> y == s[0] || y in s[1..];
      forall i, j | 0 <= i < j < |RemoveFirst(s, x)| ensures RemoveFirst(s, x)[i] != RemoveFirst(s, x)[j] {
        if i == 0 {
          assert RemoveFirst(s, x)[j] in RemoveFirst(s[1..], x);
        }
      }
    } else if s != [] {
      assert forall y :: y in s <==> y == s[0] || y in s[1..];
    }
  }

  lemma {:induction false} RemoveFirstOnly<T>(s: seq<T>, x: T)
    ensures x !in s ==> RemoveFirst(s, x) == s
    ensures x in s ==> |RemoveFirst(s, x)| == |s| - 1
  {
    if s != [] && s[0] != x {
      RemoveFirstOnly(s[1..], x);
    }
  }

  lemma OneMoreDistinct<T>(s: seq<T>, x: T)
    requires NoDuplicates(s) && x !in s
    ensures NoDuplicates(s + [x])
  {
  }

  lemma {:induction false} WithoutIs<T>(s: seq<T>, drop: set<T>)
    ensures forall y :: y in Without(s, drop) <==> y in s && y !in drop
    ensures |Without(s, drop)| <= |s|
    ensures NoDuplicates(s) ==> NoDuplicates(Without(s, drop))
  {
    if s != [] {
      var init, last := s[..|s| - 1], s[|s| - 1];
      WithoutIs(init, drop);
      assert s == init + [last];
      if NoDuplicates(s) {
        assert last !in init;
        hide Without;
        OneMoreDistinct(Without(init, drop), last);
      }
    }
  }

  lemma {:induction false} WithoutNone<T>(s: seq<T>, drop: set<T>)
    requires forall y :: y in drop ==> y !in s
    ensures Without(s, drop) == s
  {
    if s != [] {
      WithoutNone(s[..|s| - 1], drop);
      assert s == s[..|s| - 1] + [s[|s| - 1]];
    }
  }

  // Erasing one element and erasing a one-element set are the same on a list
  // without duplicates.
  lemma {:induction false} RemoveOneIs<T>(s: seq<T>, x: T)
    requires NoDuplicates(s)
    ensures RemoveFirst(s, x) == Without(s, {x})
    decreases |s|
  {
    if s == [] {
    } else {
      RemoveLast(s, x);
      RemoveOneIs(s[..|s| - 1], x);
      RemoveFirstOnly(s[..|s| - 1], x);
    }
  }

  lemma {:induction false} RemoveLast<T>(s: seq<T>, x: T)
    requires s != []
    ensures RemoveFirst(s, x) == if x in s[..|s| - 1] then RemoveFirst(s[..|s| - 1], x) + [s[|s| - 1]]
                                 else if s[|s| - 1] == x then s[..|s| - 1] else s
  {
    var init, last := s[..|s| - 1], s[|s| - 1];
    assert s == init + [last];
    if |s| > 1 && s[0] != x {
      var rest := s[1..];
      assert rest == init[1..] + [last];
      RemoveLast(rest, x);
      assert x in init <==> x in init[1..];
    }
  }

  lemma {:induction false} SublistSelf<T>(s: seq<T>)
    ensures IsSublist(s, s)
  {
    if s != [] {
      SublistSelf(s[1..]);
    }
  }

  lemma {:induction false} SublistRemoved<T>(a: seq<T>, b: seq<T>, x: T)
    requires IsSublist(a, b)
    ensures IsSublist(RemoveFirst(a, x), b)
    decreases |b|
  {
    if a != [] {
      if a[0] == b[0] {
        if a[0] == x {
          SublistDrop(a[1..], b);
        } else {
          SublistRemoved(a[1..], b[1..], x);
        }
      } else {
        SublistRemoved(a, b[1..], x);
        SublistDrop(RemoveFirst(a, x), b);
      }
    }
  }

  // A sublist of the tail is a sublist.
  lemma {:induction false} SublistDrop<T>(a: seq<T>, b: seq<T>)
    requires b != [] && IsSublist(a, b[1..])
    ensures IsSublist(a, b)
    decreases |b|, 0
  {
    if a != [] && a[0] == b[0] {
      SublistTail(a, b[1..]);
    }
  }

  lemma {:induction false} SublistTail<T>(a: seq<T>, b: seq<T>)
    requires a != [] && IsSublist(a, b)
    ensures IsSublist(a[1..], b)
    decreases |b|, 1
  {
    if a[0] == b[0] {
      SublistDrop(a[1..], b);
    } else {
      SublistTail(a, b[1..]);
      SublistDrop(a[1..], b);
    }
  }

  lemma HasMember(s: set<int>)
    ensures s == {} || exists x :: x in s
  {
    if forall x :: x !in s {
      assert s == {};
    }
  }

  ghost predicate IsLeast(s: set<int>, k: int) {
    k in s && forall j :: j in s ==> k <= j
  }

  lemma {:induction false} HasLeast(s: set<int>)
    requires s != {}
    ensures exists k :: IsLeast(s, k)
  {
    HasMember(s);
    var x :| x in s;
    var rest := s - {x};
    if rest == {} {
      assert s == {x};
      assert IsLeast(s, x);
    } else {
      HasLeast(rest);
      var k :| IsLeast(rest, k);
      LeastOfTwo(s, x, k);
    }
  }

  lemma LeastOfTwo(s: set<int>, x: int, k: int)
    requires x in s && IsLeast(s - {x}, k)
    ensures IsLeast(s, if x < k then x else k)
  {
    assert forall j :: j in s ==> j == x || j in s - {x};
  }
}
