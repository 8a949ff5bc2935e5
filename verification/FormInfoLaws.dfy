/** What each call on the manager of form information means to the forms a user
    has, in memory and in the store, and when it is refused. */
module FormInfoLaws {
  import opened FormInfoMgr
  import opened FormInfoRuns
  import opened FormInfoMgrRuns

  // The user's forms: those of the user's storage, none without one.
  ghost predicate Seen(storages: Storages, userId: int, infos: seq<FormInfo>) {
    && (forall i :: 0 <= i < |storages| && storages[i].userId == userId ==> storages[i].formInfos == infos)
    && ((forall i :: 0 <= i < |storages| ==> storages[i].userId != userId) ==> infos == [])
  }

  lemma InfosAreSeen(storages: Storages, userId: int)
    requires OnePerUser(storages)
    ensures Seen(storages, userId, Infos(storages, userId))
  {
    hide Infos;
    HasStorage(storages, userId);
    var i: nat :| StorageAt(storages, i, userId);
    InfosAt(storages, i, userId);
  }

  // Static and Dynamic split a list, in its order.
  lemma SplitsByFlag(f: FormInfo, rest: seq<FormInfo>)
    ensures Static([]) == [] && Dynamic([]) == []
    ensures Static([f] + rest) == (if f.isStatic then [f] else []) + Static(rest)
    ensures Dynamic([f] + rest) == (if f.isStatic then [] else [f]) + Dynamic(rest)
  {
    assert ([f] + rest)[1..] == rest;
  }

  // What the user has in the bundle of the call, before or after it.
  function Forms(m: Mgr, e: MgrEvent): seq<FormInfo> {
    Infos(Held(m.contents, e.bundleName), e.call.userId)
  }

  // The user has these forms in the bundle now, the other users what they had.
  ghost predicate Leaves(m: Mgr, e: MgrEvent, n: Mgr, infos: seq<FormInfo>) {
    var s, t := Held(m.contents, e.bundleName), Held(n.contents, e.bundleName);
    && OnePerUser(t) && Infos(t, e.call.userId) == infos
    && forall v :: v != e.call.userId ==> Infos(t, v) == Infos(s, v)
  }

  // If storing succeeds, the store has of the bundle what memory has, and no
  // entry if that is nothing; otherwise it is as before.
  predicate Persisted(m: Mgr, e: MgrEvent, n: Mgr) {
    var b := e.bundleName;
    if !e.storeOk then n.stored == m.stored
    else if Held(n.contents, b) == [] then n.stored == m.stored - {b}
    else n.stored == m.stored[b := n.contents[b]]
  }

  lemma PersistedIs(m: Mgr, e: MgrEvent, n: Mgr)
    requires n.stored == Written(m.stored, e.bundleName, Held(n.contents, e.bundleName), e.storeOk)
    ensures Persisted(m, e, n)
  {
  }

  // A call is about one bundle.
  lemma OtherBundlesStay(m: Mgr, e: MgrEvent)
    ensures MgrNext(m, e).contents - {e.bundleName} == m.contents - {e.bundleName}
    ensures MgrNext(m, e).stored - {e.bundleName} == m.stored - {e.bundleName}
  {
    hide Reloaded, Others, Added, RemovedOne, Cleared, Exists, Removable;
  }

  // What is refused changes nothing: a bundle without a name or, for a removal,
  // one that is not in memory, a configuration that cannot be loaded, a bundle
  // the form does not fit.
  lemma RefusedLaw(m: Mgr, e: MgrEvent)
    requires match e.call
             case Reload(_, _) => e.bundleName == "" || !e.allowed
             case Remove(_) => e.bundleName == "" || e.bundleName !in m.contents
             case Add(_, _) => !e.allowed
             case _ => e.bundleName !in m.contents
    ensures MgrNext(m, e) == m
    ensures MgrCode(m, e) == if e.call.Remove? && e.bundleName != "" then Ok
                             else if e.call.Reload? && e.bundleName != "" then LoadFailed else InvalidParam
  {
  }

  // A form is added behind those of its user, unless the user has one of the
  // same name in the same module.
  lemma AddLaw(m: Mgr, e: MgrEvent)
    requires e.call.Add? && e.allowed && e.bundleName in m.contents && OnePerUser(m.contents[e.bundleName])
    ensures var info, before, n := e.call.info, Forms(m, e), MgrNext(m, e);
            if exists f :: f in before && f.name == info.name && f.moduleName == info.moduleName
            then n == m && MgrCode(m, e) == InvalidParam
            else
              && e.bundleName in n.contents && Leaves(m, e, n, before + [info]) && Persisted(m, e, n)
              && MgrCode(m, e) == if e.storeOk then Ok else StoreFailed
  {
    hide Infos, Find, Added, Exists, Written, Persisted;
    var info, before, n := e.call.info, Forms(m, e), MgrNext(m, e);
    AddSeen(m.contents[e.bundleName], info, e.call.userId);
    FindOthers(before, info.moduleName, info.name);
    FoundIs(before, info.moduleName, info.name);
    if !Exists(m.contents[e.bundleName], info, e.call.userId) {
      PersistedIs(m, e, n);
    }
  }

  // The place Find gives is that of the first form with both names.
  lemma FoundIs(infos: seq<FormInfo>, moduleName: string, name: string)
    ensures var i := Find(infos, moduleName, name);
            && (i < |infos| ==> infos[i] in infos && infos[i].name == name && infos[i].moduleName == moduleName)
            && forall j :: 0 <= j < i ==> !(infos[j].name == name && infos[j].moduleName == moduleName)
    ensures Find(infos, moduleName, name) == |infos| ==>
              forall f :: f in infos ==> !(f.name == name && f.moduleName == moduleName)
  {
    hide Find;
  }

  // i is the place of the first form with both names, or the end.
  predicate IsFirst(infos: seq<FormInfo>, moduleName: string, name: string, i: nat) {
    && i <= |infos| && (i < |infos| ==> infos[i].name == name && infos[i].moduleName == moduleName)
    && forall j :: 0 <= j < i ==> infos[j].name != name || infos[j].moduleName != moduleName
  }

  lemma FirstIsFound(infos: seq<FormInfo>, moduleName: string, name: string, i: nat)
    requires IsFirst(infos, moduleName, name, i)
    ensures Find(infos, moduleName, name) == i
  {
    hide Find;
    var k := Find(infos, moduleName, name);
    FoundIs(infos, moduleName, name);
    assert k < |infos| ==> infos[k].name == name && infos[k].moduleName == moduleName;
  }

  // The first form with the names, i, is taken out if it is dynamic.
  lemma RemoveDynamicLaw(m: Mgr, e: MgrEvent, i: nat)
    requires e.call.RemoveDynamic? && e.bundleName in m.contents && OnePerUser(m.contents[e.bundleName])
    requires IsFirst(Forms(m, e), e.call.moduleName, e.call.name, i)
    ensures var before, n := Forms(m, e), MgrNext(m, e);
            if i == |before| || before[i].isStatic then n == m && MgrCode(m, e) == InvalidParam
            else
              && e.bundleName in n.contents && Leaves(m, e, n, before[..i] + before[i + 1..]) && Persisted(m, e, n)
              && MgrCode(m, e) == if e.storeOk then Ok else StoreFailed
  {
    hide Infos, Find, RemovedOne, Removable, Written, Persisted;
    var before, n := Forms(m, e), MgrNext(m, e);
    RemoveSeen(m.contents[e.bundleName], e.call.moduleName, e.call.name, e.call.userId);
    FirstIsFound(before, e.call.moduleName, e.call.name, i);
    if i < |before| && !before[i].isStatic {
      PersistedIs(m, e, n);
    }
  }

  // The dynamic forms of the user go; the store is not written.
  lemma RemoveAllLaw(m: Mgr, e: MgrEvent)
    requires e.call.RemoveAllDynamic? && e.bundleName in m.contents && OnePerUser(m.contents[e.bundleName])
    ensures var n := MgrNext(m, e);
            && e.bundleName in n.contents && Leaves(m, e, n, Static(Forms(m, e))) && n.stored == m.stored && MgrCode(m, e) == Ok
  {
    hide Infos, Static, Cleared;
    ClearSeen(m.contents[e.bundleName], e.call.userId);
  }

  // All forms of the user go, and the bundle with its last user.
  lemma RemoveLaw(m: Mgr, e: MgrEvent)
    requires e.call.Remove? && e.bundleName != "" && e.bundleName in m.contents && OnePerUser(m.contents[e.bundleName])
    ensures var n := MgrNext(m, e);
            && Leaves(m, e, n, []) && Persisted(m, e, n) && MgrCode(m, e) == (if e.storeOk then Ok else StoreFailed)
            && (e.bundleName in n.contents <==>
                  exists i :: 0 <= i < |m.contents[e.bundleName]| && m.contents[e.bundleName][i].userId != e.call.userId)
  {
    hide Infos, Others, Written, Persisted;
    var s := m.contents[e.bundleName];
    OthersSeen(s, e.call.userId);
    NoneHeld(e.call.userId);
    OthersLeft(s, e.call.userId);
    PersistedIs(m, e, MgrNext(m, e));
  }

  lemma {:induction false} OthersLeft(storages: Storages, userId: int)
    ensures Others(storages, userId) != [] <==> exists i :: 0 <= i < |storages| && storages[i].userId != userId
  {
    if storages != [] {
      OthersLeft(storages[1..], userId);
      if i :| 0 <= i < |storages[1..]| && storages[1..][i].userId != userId {
        assert storages[i + 1].userId != userId;
      }
      if i :| 0 <= i < |storages| && storages[i].userId != userId && i > 0 {
        assert storages[1..][i - 1].userId != userId;
      }
    }
  }

  // A reload gives the user the forms of the configuration and, behind them,
  // the dynamic ones it had. A bundle enters memory by a stored reload that finds forms.
  lemma ReloadLaw(m: Mgr, e: MgrEvent)
    requires e.call.Reload? && e.bundleName != "" && e.allowed && OnePerUser(Held(m.contents, e.bundleName))
    ensures var b, loaded, n := e.bundleName, e.call.loaded, MgrNext(m, e);
            && MgrCode(m, e) == (if e.storeOk then Ok else StoreFailed)
            && (b in m.contents || (e.storeOk && loaded != []) ==>
                  b in n.contents && Leaves(m, e, n, loaded + Dynamic(Forms(m, e))) && Persisted(m, e, n))
            && (b !in m.contents && (!e.storeOk || loaded == []) ==>
                  && n.contents == m.contents
                  && (if e.storeOk then n.stored == m.stored - {b} else n.stored == m.stored))
  {
    hide Infos, Others, Dynamic, Reloaded, Written, Persisted;
    var b, loaded, n := e.bundleName, e.call.loaded, MgrNext(m, e);
    var s := Held(m.contents, b);
    ReloadSeen(s, e.call.userId, loaded);
    if b in m.contents || (e.storeOk && loaded != []) {
      FirstReloadIs(e.call.userId, loaded);
      PersistedIs(m, e, n);
    } else {
      FirstReloadIs(e.call.userId, loaded);
      NothingWritten(m.stored, b, Reloaded(s, e.call.userId, loaded), e.storeOk);
    }
  }

  lemma FirstReloadIs(userId: int, loaded: seq<FormInfo>)
    ensures Reloaded([], userId, loaded) == [] <==> loaded == []
  {
  }

  lemma NothingWritten(stored: map<string, Storages>, b: string, storages: Storages, storeOk: bool)
    ensures storages == [] && storeOk ==> Written(stored, b, storages, storeOk) == stored - {b}
    ensures !storeOk ==> Written(stored, b, storages, storeOk) == stored
  {
  }

  // Over every run the store has no empty entry, if it had none.
  ghost predicate NoEmptyEntry(m: Mgr) {
    forall b :: b in m.stored ==> m.stored[b] != []
  }

  lemma {:induction false} RunHasNoEmptyEntry(states: seq<Mgr>, log: seq<MgrEvent>)
    requires MgrRun(states, log) && NoEmptyEntry(states[0])
    ensures NoEmptyEntry(states[|log|])
    decreases |log|
  {
    hide MgrNext, NoEmptyEntry, WellTyped;
    if |log| > 0 {
      var n := |log| - 1;
      assert MgrRun(states[..n + 1], log[..n]);
      RunHasNoEmptyEntry(states[..n + 1], log[..n]);
      EntryWritten(states[n], log[n]);
    }
  }

  lemma EntryWritten(m: Mgr, e: MgrEvent)
    requires NoEmptyEntry(m)
    ensures NoEmptyEntry(MgrNext(m, e))
  {
    hide Reloaded, Others, Added, RemovedOne, Cleared, Exists, Removable;
  }
}
