/** Runs of the manager of all bundles' form information, where the object of a
    bundle is made when it is needed, dropped when it is empty or not kept, and
    made again. */
module FormInfoMgrRuns {
  import opened FormInfoMgr
  import opened FormInfoRuns

  // The bundles in memory, and the store.
  datatype Mgr = Mgr(contents: map<string, Storages>, stored: map<string, Storages>)

  // A call for a bundle. `allowed` says that the bundle manager knew the bundle,
  // and for a reload that its configuration was loaded.
  datatype MgrEvent = MgrEvent(bundleName: string, call: Call, allowed: bool, storeOk: bool)

  function MgrNext(m: Mgr, e: MgrEvent): Mgr {
    var b := e.bundleName;
    var known, before := b in m.contents, Held(m.contents, b);
    match e.call
    case Reload(userId, loaded) =>
      if b == "" || !e.allowed then m
      else
        var after := Reloaded(before, userId, loaded);
        Mgr(if known || (e.storeOk && after != []) then m.contents[b := after] else m.contents,
            Written(m.stored, b, after, e.storeOk))
    case Remove(userId) =>
      if b == "" || !known then m
      else
        var after := Others(before, userId);
        Mgr(if after == [] then m.contents - {b} else m.contents[b := after], Written(m.stored, b, after, e.storeOk))
    case Add(info, userId) =>
      if !e.allowed || Exists(before, info, userId) then m
      else
        var after := Added(before, info, userId);
        Mgr(if known then m.contents[b := after] else m.contents, Written(m.stored, b, after, e.storeOk))
    case RemoveDynamic(moduleName, name, userId) =>
      if !known || !Removable(before, moduleName, name, userId) then m
      else
        var after := RemovedOne(before, moduleName, name, userId);
        Mgr(m.contents[b := after], Written(m.stored, b, after, e.storeOk))
    case RemoveAllDynamic(userId) =>
      if !known then m else m.(contents := m.contents[b := Cleared(before, userId)])
  }

  // What a call answers.
  function MgrCode(m: Mgr, e: MgrEvent): ErrCode {
    var b := e.bundleName;
    var known, before, stored := b in m.contents, Held(m.contents, b), if e.storeOk then Ok else StoreFailed;
    match e.call
    case Reload(_, _) => if b == "" then InvalidParam else if !e.allowed then LoadFailed else stored
    case Remove(_) => if b == "" then InvalidParam else if !known then Ok else stored
    case Add(info, userId) => if !e.allowed || Exists(before, info, userId) then InvalidParam else stored
    case RemoveDynamic(moduleName, name, userId) =>
      if !known || !Removable(before, moduleName, name, userId) then InvalidParam else stored
    case RemoveAllDynamic(_) => if known then Ok else InvalidParam
  }

  // Each step of a run is what the manager's methods do.
  method PerformFor(mgr: FormInfoMgr, e: MgrEvent) returns (code: ErrCode)
    requires mgr.Valid()
    modifies mgr, mgr.bundleFormInfoMap.Values, mgr.store
    ensures mgr.Valid()
    ensures Mgr(mgr.Contents(), mgr.store.stored) == MgrNext(Mgr(old(mgr.Contents()), old(mgr.store.stored)), e)
    ensures code == MgrCode(Mgr(old(mgr.Contents()), old(mgr.store.stored)), e)
  {
    hide Reloaded, Others, Added, RemovedOne, Cleared, Exists, Removable, Written;
    match e.call
    case Reload(userId, loaded) => code := mgr.UpdateStaticFormInfos(e.bundleName, userId, e.allowed, loaded, e.storeOk);
    case Remove(userId) => code := mgr.Remove(e.bundleName, userId, e.storeOk);
    case Add(info, userId) => code := mgr.AddDynamicFormInfo(e.bundleName, info, userId, e.allowed, e.storeOk);
    case RemoveDynamic(moduleName, name, userId) =>
      code := mgr.RemoveDynamicFormInfo(e.bundleName, moduleName, name, userId, e.storeOk);
    case RemoveAllDynamic(userId) => code := mgr.RemoveAllDynamicFormsInfo(e.bundleName, userId);
  }

  ghost predicate MgrRun(states: seq<Mgr>, log: seq<MgrEvent>) {
    && |states| == |log| + 1
    && forall i :: 0 <= i < |log| ==> WellTyped(log[i].call) && states[i + 1] == MgrNext(states[i], log[i])
  }

  // Whether a call changes the dynamic forms of its bundle: only what is in
  // memory can change, and only if the call is accepted.
  predicate Takes(m: Mgr, e: MgrEvent) {
    && e.bundleName in m.contents && Accepted(Bundle(m.contents[e.bundleName], []), e.call)
    && match e.call
       case Reload(_, _) => e.bundleName != "" && e.allowed
       case Remove(_) => e.bundleName != ""
       case Add(_, _) => e.allowed
       case _ => true
  }

  // The reference: the dynamic forms of a user in a bundle, from the calls that
  // took effect.
  function MgrExpected(states: seq<Mgr>, log: seq<MgrEvent>, bundleName: string, userId: int): seq<FormInfo>
    requires |log| <= |states|
    decreases |log|
  {
    if log == [] then []
    else
      var n, e := |log| - 1, log[|log| - 1];
      var before := MgrExpected(states, log[..n], bundleName, userId);
      if e.bundleName == bundleName && e.call.userId == userId && Takes(states[n], e) then ExpectedAfter(before, e.call)
      else before
  }

  ghost predicate MgrConserved(m: Mgr, expected: seq<FormInfo>, bundleName: string, userId: int) {
    && OnePerUser(Held(m.contents, bundleName))
    && Dynamic(Infos(Held(m.contents, bundleName), userId)) == expected && NamedOnce(expected)
  }

  // What a call does to the storages of its bundle in memory.
  lemma BundleStep(m: Mgr, e: MgrEvent)
    requires WellTyped(e.call)
    ensures var s, t := Held(m.contents, e.bundleName), Held(MgrNext(m, e).contents, e.bundleName);
            if Takes(m, e) then OwnUpdate(s, e.call, t)
            else t == s || (e.bundleName !in m.contents && e.call.Reload? && t == Reloaded([], e.call.userId, e.call.loaded))
    ensures forall b :: b != e.bundleName ==> Held(MgrNext(m, e).contents, b) == Held(m.contents, b)
  {
    hide Reloaded, Others, Added, RemovedOne, Cleared, Exists, Removable, Written;
  }

  lemma NoneHeld(userId: int)
    ensures Infos([], userId) == [] && OnePerUser([]) && Dynamic([]) == []
  {
  }

  // A reload of a bundle that is not in memory brings no dynamic forms.
  lemma FirstReload(userId: int, loaded: seq<FormInfo>, v: int)
    requires forall f :: f in loaded ==> f.isStatic
    ensures var t := Reloaded([], userId, loaded); OnePerUser(t) && Dynamic(Infos(t, v)) == []
  {
    hide Reloaded, Infos, Dynamic, OnePerUser;
    NoneHeld(userId);
    NoneHeld(v);
    ReloadSeen([], userId, loaded);
    StaticsHaveNoDynamic(loaded);
    DynamicJoin(loaded, []);
    assert loaded + [] == loaded;
  }

  // A call for one user does not concern the others.
  lemma OtherUsers(s: Storages, call: Call, t: Storages)
    requires OwnUpdate(s, call, t) && OnePerUser(s)
    ensures OnePerUser(t) && forall v :: v != call.userId ==> Infos(t, v) == Infos(s, v)
  {
    hide Infos, Others, Reloaded, Added, RemovedOne, Cleared, OnePerUser, Exists, Removable, Find;
    match call
    case Reload(userId, loaded) => ReloadSeen(s, userId, loaded);
    case Remove(userId) => OthersSeen(s, userId);
    case Add(info, userId) => AddSeen(s, info, userId);
    case RemoveDynamic(moduleName, name, userId) => RemoveSeen(s, moduleName, name, userId);
    case RemoveAllDynamic(userId) => ClearSeen(s, userId);
  }

  lemma LoadedStatic(call: Call)
    requires WellTyped(call) && call.Reload?
    ensures forall f :: f in call.loaded ==> f.isStatic
  {
  }

  lemma MgrStepConserves(m: Mgr, e: MgrEvent, before: seq<FormInfo>, bundleName: string, userId: int)
    requires WellTyped(e.call) && MgrConserved(m, before, bundleName, userId)
    ensures var own := e.bundleName == bundleName && e.call.userId == userId && Takes(m, e);
            MgrConserved(MgrNext(m, e), if own then ExpectedAfter(before, e.call) else before, bundleName, userId)
  {
    hide *;
    var after := if e.bundleName == bundleName && e.call.userId == userId && Takes(m, e) then ExpectedAfter(before, e.call) else before;
    MgrConservedIs(m, before, bundleName, userId);
    MgrConservedIs(MgrNext(m, e), after, bundleName, userId);
    BundleStep(m, e);
    if e.bundleName == bundleName {
      var s, t := Held(m.contents, bundleName), Held(MgrNext(m, e).contents, bundleName);
      if Takes(m, e) {
        OtherUsers(s, e.call, t);
        if e.call.userId == userId {
          OwnStep(s, t, e.call, before);
        }
      } else if t != s {
        LoadedStatic(e.call);
        FirstReload(e.call.userId, e.call.loaded, userId);
        NotHeld(m.contents, bundleName);
        NoneHeld(userId);
      }
    }
  }

  lemma NotHeld(contents: map<string, Storages>, bundleName: string)
    requires bundleName !in contents
    ensures Held(contents, bundleName) == []
  {
  }

  lemma MgrConservedIs(m: Mgr, expected: seq<FormInfo>, bundleName: string, userId: int)
    ensures MgrConserved(m, expected, bundleName, userId) <==>
              && OnePerUser(Held(m.contents, bundleName))
              && Dynamic(Infos(Held(m.contents, bundleName), userId)) == expected && NamedOnce(expected)
  {
    hide Held, OnePerUser, Dynamic, Infos, NamedOnce;
  }

  // Over every run from an empty memory, whatever is in the store: in every
  // bundle each user has at most one storage, and its dynamic forms, in order,
  // are those the calls that took effect added and did not remove since.
  lemma {:induction false} MgrRunConserves(states: seq<Mgr>, log: seq<MgrEvent>)
    requires MgrRun(states, log) && states[0].contents == map[]
    ensures forall b, u :: MgrConserved(states[|log|], MgrExpected(states, log, b, u), b, u)
    decreases |log|
  {
    hide MgrConserved, MgrNext, Takes, ExpectedAfter;
    if |log| == 0 {
      forall b, u ensures MgrConserved(states[0], [], b, u) {
        NothingHeld(states[0], b, u);
      }
    } else {
      var n := |log| - 1;
      assert MgrRun(states[..n + 1], log[..n]);
      MgrRunConserves(states[..n + 1], log[..n]);
      assert states[..n + 1][n] == states[n];
      forall b, u ensures MgrConserved(states[|log|], MgrExpected(states, log, b, u), b, u) {
        FewerStates(states, n + 1, log[..n], b, u);
        MgrStepConserves(states[n], log[n], MgrExpected(states, log[..n], b, u), b, u);
      }
    }
  }

  lemma NothingHeld(m: Mgr, b: string, u: int)
    requires m.contents == map[]
    ensures MgrConserved(m, [], b, u)
  {
  }

  // The reference looks at the states in front of each call only.
  lemma {:induction false} FewerStates(states: seq<Mgr>, k: nat, log: seq<MgrEvent>, b: string, u: int)
    requires |log| <= k <= |states|
    ensures MgrExpected(states[..k], log, b, u) == MgrExpected(states, log, b, u)
    decreases |log|
  {
    hide Takes, ExpectedAfter;
    if log != [] {
      FewerStates(states, k, log[..|log| - 1], b, u);
    }
  }

  // A form that was added to a bundle that is not in memory is never found
  // there, though the call succeeded.
  lemma AddedUnseen(m: Mgr, e: MgrEvent)
    requires e.call.Add? && e.bundleName !in m.contents
    ensures MgrNext(m, e).contents == m.contents
    ensures e.allowed ==> MgrCode(m, e) == if e.storeOk then Ok else StoreFailed
    ensures e.allowed && e.storeOk ==>
              MgrNext(m, e).stored == m.stored[e.bundleName := [FormInfoStorage(e.call.userId, [e.call.info])]]
  {
  }
}
