/** The form information of bundles: for each user a storage of static forms,
    loaded from the bundle's configuration, and dynamic forms, added and removed
    by calls. Each bundle's storages are also kept in a store. */
module FormInfoMgr {

  datatype FormInfo = FormInfo(name: string, moduleName: string, isStatic: bool, description: string)

  datatype FormInfoStorage = FormInfoStorage(userId: int, formInfos: seq<FormInfo>)

  type Storages = seq<FormInfoStorage>

  datatype ErrCode = Ok | InvalidParam | LoadFailed | StoreFailed

  predicate Named(f: FormInfo, moduleName: string, name: string) {
    f.name == name && f.moduleName == moduleName
  }

  // The first form with the name, or the length of the list.
  function Find(infos: seq<FormInfo>, moduleName: string, name: string): (i: nat)
    ensures i <= |infos| && (i < |infos| ==> Named(infos[i], moduleName, name))
    ensures forall j :: 0 <= j < i ==> !Named(infos[j], moduleName, name)
  {
    if infos == [] then 0 else if Named(infos[0], moduleName, name) then 0 else 1 + Find(infos[1..], moduleName, name)
  }

  function Dynamic(infos: seq<FormInfo>): seq<FormInfo> {
    if infos == [] then [] else (if infos[0].isStatic then [] else [infos[0]]) + Dynamic(infos[1..])
  }

  function Static(infos: seq<FormInfo>): seq<FormInfo> {
    if infos == [] then [] else (if infos[0].isStatic then [infos[0]] else []) + Static(infos[1..])
  }

  // The forms a user has, over all storages of the user.
  function Infos(storages: Storages, userId: int): seq<FormInfo> {
    if storages == [] then []
    else (if storages[0].userId == userId then storages[0].formInfos else []) + Infos(storages[1..], userId)
  }

  function Others(storages: Storages, userId: int): Storages {
    if storages == [] then []
    else (if storages[0].userId == userId then [] else [storages[0]]) + Others(storages[1..], userId)
  }

  predicate OnePerUser(storages: Storages) {
    forall i, j :: 0 <= i < j < |storages| ==> storages[i].userId != storages[j].userId
  }

  // ----- what the operations do -----

  function Reloaded(storages: Storages, userId: int, loaded: seq<FormInfo>): Storages {
    var infos := loaded + Dynamic(Infos(storages, userId));
    Others(storages, userId) + if infos == [] then [] else [FormInfoStorage(userId, infos)]
  }

  predicate Exists(storages: Storages, info: FormInfo, userId: int) {
    storages != []
    && if storages[0].userId == userId
       then Find(storages[0].formInfos, info.moduleName, info.name) < |storages[0].formInfos|
       else Exists(storages[1..], info, userId)
  }

  function Added(storages: Storages, info: FormInfo, userId: int): Storages {
    if storages == [] then [FormInfoStorage(userId, [info])]
    else if storages[0].userId == userId then [storages[0].(formInfos := storages[0].formInfos + [info])] + storages[1..]
    else [storages[0]] + Added(storages[1..], info, userId)
  }

  function WithoutAt(infos: seq<FormInfo>, i: nat): seq<FormInfo>
    requires i < |infos|
  {
    infos[..i] + infos[i + 1..]
  }

  // The first form of the user with the name can be removed if it is dynamic.
  predicate Removable(storages: Storages, moduleName: string, name: string, userId: int) {
    storages != []
    && var infos := storages[0].formInfos;
       var i := Find(infos, moduleName, name);
       if storages[0].userId == userId && i < |infos| then !infos[i].isStatic
       else Removable(storages[1..], moduleName, name, userId)
  }

  function RemovedOne(storages: Storages, moduleName: string, name: string, userId: int): Storages {
    if storages == [] then []
    else
      var infos := storages[0].formInfos;
      var i := Find(infos, moduleName, name);
      if storages[0].userId == userId && i < |infos|
      then [storages[0].(formInfos := WithoutAt(infos, i))] + storages[1..]
      else [storages[0]] + RemovedOne(storages[1..], moduleName, name, userId)
  }

  // Only the first storage of the user is cleared.
  function Cleared(storages: Storages, userId: int): Storages {
    if storages == [] then []
    else if storages[0].userId == userId then [storages[0].(formInfos := Static(storages[0].formInfos))] + storages[1..]
    else [storages[0]] + Cleared(storages[1..], userId)
  }

  class FormInfoStorageMgr {
    var stored: map<string, Storages>

    constructor ()
      ensures stored == map[]
    {
      stored := map[];
    }

    method RemoveBundleFormInfos(bundleName: string, storeOk: bool) returns (code: ErrCode)
      modifies this
      ensures stored == (if storeOk then old(stored) - {bundleName} else old(stored))
      ensures code == if storeOk then Ok else StoreFailed
    {
      if !storeOk {
        return StoreFailed;
      }
      stored := stored - {bundleName};
      code := Ok;
    }

    method UpdateBundleFormInfos(bundleName: string, storages: Storages, storeOk: bool) returns (code: ErrCode)
      modifies this
      ensures stored == if storeOk then old(stored)[bundleName := storages] else old(stored)
      ensures code == if storeOk then Ok else StoreFailed
    {
      if !storeOk {
        return StoreFailed;
      }
      stored := stored[bundleName := storages];
      code := Ok;
    }
  }

  // The store after a bundle's storages were written to it.
  function Written(stored: map<string, Storages>, bundleName: string, storages: Storages, storeOk: bool): map<string, Storages> {
    if !storeOk then stored else if storages == [] then stored - {bundleName} else stored[bundleName := storages]
  }

  class BundleFormInfo {
    const bundleName: string
    const store: FormInfoStorageMgr
    var formInfoStorages: Storages

    constructor (bundleName: string, store: FormInfoStorageMgr)
      ensures this.bundleName == bundleName && this.store == store && formInfoStorages == []
    {
      this.bundleName, this.store, formInfoStorages := bundleName, store, [];
    }

    // `loaded` is what the bundle's configuration says, if it can be loaded.
    method UpdateStaticFormInfos(userId: int, loadOk: bool, loaded: seq<FormInfo>, storeOk: bool) returns (code: ErrCode)
      modifies this, store
      ensures !loadOk ==> code == LoadFailed && formInfoStorages == old(formInfoStorages) && store.stored == old(store.stored)
      ensures loadOk ==>
                && formInfoStorages == Reloaded(old(formInfoStorages), userId, loaded)
                && store.stored == Written(old(store.stored), bundleName, formInfoStorages, storeOk)
                && code == if storeOk then Ok else StoreFailed
    {
      hide *;
      if !loadOk {
        return LoadFailed;
      }
      ghost var before := formInfoStorages;
      var formInfos, kept, i := loaded, [], 0;
      assert before[0..] == before;
      while i < |formInfoStorages|
        invariant 0 <= i <= |before| && formInfoStorages == before && store.stored == old(store.stored)
        invariant Others(before, userId) == kept + Others(before[i..], userId)
        invariant loaded + Dynamic(Infos(before, userId)) == formInfos + Dynamic(Infos(before[i..], userId))
      {
        var item := formInfoStorages[i];
        InfosStep(before, i, userId);
        if item.userId != userId {
          kept := kept + [item];
          assert Infos(before[i..], userId) == Infos(before[i + 1..], userId);
        } else {
          DynamicJoin(item.formInfos, Infos(before[i + 1..], userId));
          formInfos := AppendDynamic(formInfos, item.formInfos);
        }
        i := i + 1;
      }
      NoInfos(before[i..], userId);
      formInfoStorages := kept;
      if formInfos != [] {
        formInfoStorages := formInfoStorages + [FormInfoStorage(userId, formInfos)];
      }
      ReloadedIs(before, userId, loaded, kept, formInfos);
      code := UpdateFormInfoStorageLocked(storeOk);
    }

    method AppendDynamic(formInfos: seq<FormInfo>, infos: seq<FormInfo>) returns (r: seq<FormInfo>)
      ensures r == formInfos + Dynamic(infos)
    {
      hide *;
      r := formInfos;
      assert infos[0..] == infos;
      for i := 0 to |infos|
        invariant formInfos + Dynamic(infos) == r + Dynamic(infos[i..])
      {
        SplitStep(infos, i);
        if !infos[i].isStatic {
          r := r + [infos[i]];
        }
      }
      NoSplit(infos[|infos|..]);
    }

    method Remove(userId: int, storeOk: bool) returns (code: ErrCode)
      modifies this, store
      ensures formInfoStorages == Others(old(formInfoStorages), userId)
      ensures store.stored == Written(old(store.stored), bundleName, formInfoStorages, storeOk)
      ensures code == if storeOk then Ok else StoreFailed
    {
      hide *;
      ghost var before := formInfoStorages;
      var kept, i := [], 0;
      assert before[0..] == before;
      while i < |formInfoStorages|
        invariant 0 <= i <= |before| && formInfoStorages == before && store.stored == old(store.stored)
        invariant Others(before, userId) == kept + Others(before[i..], userId)
      {
        InfosStep(before, i, userId);
        if formInfoStorages[i].userId != userId {
          kept := kept + [formInfoStorages[i]];
        }
        i := i + 1;
      }
      NoInfos(before[i..], userId);
      formInfoStorages := kept;
      code := UpdateFormInfoStorageLocked(storeOk);
    }

    method AddDynamicFormInfo(formInfo: FormInfo, userId: int, storeOk: bool) returns (code: ErrCode)
      modifies this, store
      ensures Exists(old(formInfoStorages), formInfo, userId) ==>
                code == InvalidParam && formInfoStorages == old(formInfoStorages) && store.stored == old(store.stored)
      ensures !Exists(old(formInfoStorages), formInfo, userId) ==>
                && formInfoStorages == Added(old(formInfoStorages), formInfo, userId)
                && store.stored == Written(old(store.stored), bundleName, formInfoStorages, storeOk)
                && code == if storeOk then Ok else StoreFailed
    {
      hide *;
      ghost var before := formInfoStorages;
      var i := 0;
      NotYet(before, 0, userId);
      while i < |formInfoStorages|
        invariant 0 <= i <= |before| && formInfoStorages == before && store.stored == old(store.stored)
        invariant NotBefore(before, i, userId)
      {
        NotYet(before, i, userId);
        if formInfoStorages[i].userId == userId {
          AddedAt(before, i, formInfo, userId);
          if Find(formInfoStorages[i].formInfos, formInfo.moduleName, formInfo.name) < |formInfoStorages[i].formInfos| {
            return InvalidParam;
          }
          var storage := formInfoStorages[i];
          formInfoStorages := formInfoStorages[i := storage.(formInfos := storage.formInfos + [formInfo])];
          code := UpdateFormInfoStorageLocked(storeOk);
          return;
        }
        i := i + 1;
      }
      AddedAt(before, i, formInfo, userId);
      formInfoStorages := formInfoStorages + [FormInfoStorage(userId, [formInfo])];
      code := UpdateFormInfoStorageLocked(storeOk);
    }

    method RemoveDynamicFormInfo(moduleName: string, formName: string, userId: int, storeOk: bool) returns (code: ErrCode)
      modifies this, store
      ensures !Removable(old(formInfoStorages), moduleName, formName, userId) ==>
                code == InvalidParam && formInfoStorages == old(formInfoStorages) && store.stored == old(store.stored)
      ensures Removable(old(formInfoStorages), moduleName, formName, userId) ==>
                && formInfoStorages == RemovedOne(old(formInfoStorages), moduleName, formName, userId)
                && store.stored == Written(old(store.stored), bundleName, formInfoStorages, storeOk)
                && code == if storeOk then Ok else StoreFailed
    {
      hide *;
      ghost var before := formInfoStorages;
      var i := 0;
      NoMatchYet(before, 0, moduleName, formName, userId);
      while i < |formInfoStorages|
        invariant 0 <= i <= |before| && formInfoStorages == before && store.stored == old(store.stored)
        invariant NoMatchBefore(before, i, moduleName, formName, userId)
      {
        NoMatchYet(before, i, moduleName, formName, userId);
        var storage := formInfoStorages[i];
        var at := Find(storage.formInfos, moduleName, formName);
        if storage.userId == userId && at < |storage.formInfos| {
          RemovedOneAt(before, i, moduleName, formName, userId);
          if storage.formInfos[at].isStatic {
            return InvalidParam;
          }
          formInfoStorages := formInfoStorages[i := storage.(formInfos := WithoutAt(storage.formInfos, at))];
          code := UpdateFormInfoStorageLocked(storeOk);
          return;
        }
        i := i + 1;
      }
      RemovedOneAt(before, i, moduleName, formName, userId);
      code := InvalidParam;
    }

    // The counter of removed forms stays zero, so the result is never stored.
    method RemoveAllDynamicFormsInfo(userId: int) returns (code: ErrCode)
      modifies this, store
      ensures code == Ok && formInfoStorages == Cleared(old(formInfoStorages), userId) && store.stored == old(store.stored)
    {
      hide *;
      ghost var before := formInfoStorages;
      var numRemoved, i := 0, 0;
      NotYet(before, 0, userId);
      while i < |formInfoStorages| && formInfoStorages[i].userId != userId
        invariant 0 <= i <= |before| && formInfoStorages == before && store.stored == old(store.stored)
        invariant NotBefore(before, i, userId)
      {
        NotYet(before, i, userId);
        i := i + 1;
      }
      NotYet(before, i, userId);
      ClearedAt(before, i, userId);
      if i < |formInfoStorages| {
        var storage := formInfoStorages[i];
        var statics := EraseDynamic(storage.formInfos);
        formInfoStorages := formInfoStorages[i := storage.(formInfos := statics)];
      }
      if numRemoved > 0 {
        assert false;
      }
      code := Ok;
    }

    method EraseDynamic(infos: seq<FormInfo>) returns (r: seq<FormInfo>)
      ensures r == Static(infos)
    {
      hide *;
      r := [];
      assert infos[0..] == infos;
      for i := 0 to |infos|
        invariant Static(infos) == r + Static(infos[i..])
      {
        SplitStep(infos, i);
        if infos[i].isStatic {
          r := r + [infos[i]];
        }
      }
      NoSplit(infos[|infos|..]);
    }

    method UpdateFormInfoStorageLocked(storeOk: bool) returns (code: ErrCode)
      modifies store
      ensures store.stored == Written(old(store.stored), bundleName, formInfoStorages, storeOk)
      ensures code == if storeOk then Ok else StoreFailed
    {
      if formInfoStorages == [] {
        code := store.RemoveBundleFormInfos(bundleName, storeOk);
      } else {
        code := store.UpdateBundleFormInfos(bundleName, formInfoStorages, storeOk);
      }
    }
  }

  class FormInfoMgr {
    const store: FormInfoStorageMgr
    var bundleFormInfoMap: map<string, BundleFormInfo>

    constructor (store: FormInfoStorageMgr)
      ensures this.store == store && bundleFormInfoMap == map[]
    {
      this.store, bundleFormInfoMap := store, map[];
    }

    ghost predicate Valid()
      reads this
    {
      forall b :: b in bundleFormInfoMap ==> bundleFormInfoMap[b].bundleName == b && bundleFormInfoMap[b].store == store
    }

    ghost function Contents(): map<string, Storages>
      reads this, bundleFormInfoMap.Values
    {
      map b | b in bundleFormInfoMap :: bundleFormInfoMap[b].formInfoStorages
    }

    // A bundle enters the map when a reload finds forms for it.
    method UpdateStaticFormInfos(bundleName: string, userId: int, loadOk: bool, loaded: seq<FormInfo>, storeOk: bool)
      returns (code: ErrCode)
      requires Valid()
      modifies this, bundleFormInfoMap.Values, store
      ensures Valid()
      ensures var before := if bundleName in old(Contents()) then old(Contents())[bundleName] else [];
              var after := Reloaded(before, userId, loaded);
              if bundleName == "" || !loadOk
              then code == (if bundleName == "" then InvalidParam else LoadFailed)
                   && Contents() == old(Contents()) && store.stored == old(store.stored)
              else
                && store.stored == Written(old(store.stored), bundleName, after, storeOk)
                && code == (if storeOk then Ok else StoreFailed)
                && Contents() == if bundleName in old(Contents()) || (storeOk && after != [])
                                 then old(Contents())[bundleName := after] else old(Contents())
    {
      hide Reloaded, Written, Infos, Others;
      if bundleName == "" {
        return InvalidParam;
      }
      var bundle;
      if bundleName in bundleFormInfoMap {
        bundle := bundleFormInfoMap[bundleName];
      } else {
        bundle := new BundleFormInfo(bundleName, store);
      }
      code := bundle.UpdateStaticFormInfos(userId, loadOk, loaded, storeOk);
      if code != Ok {
        return;
      }
      if bundle.formInfoStorages == [] {
        return;
      }
      bundleFormInfoMap := bundleFormInfoMap[bundleName := bundle];
    }

    method Remove(bundleName: string, userId: int, storeOk: bool) returns (code: ErrCode)
      requires Valid()
      modifies this, bundleFormInfoMap.Values, store
      ensures Valid()
      ensures if bundleName == "" || bundleName !in old(Contents())
              then code == (if bundleName == "" then InvalidParam else Ok)
                   && Contents() == old(Contents()) && store.stored == old(store.stored)
              else
                var after := Others(old(Contents())[bundleName], userId);
                && store.stored == Written(old(store.stored), bundleName, after, storeOk)
                && code == (if storeOk then Ok else StoreFailed)
                && Contents() == if after == [] then old(Contents()) - {bundleName} else old(Contents())[bundleName := after]
    {
      hide Others, Written;
      if bundleName == "" {
        return InvalidParam;
      }
      if bundleName !in bundleFormInfoMap {
        return Ok;
      }
      code := bundleFormInfoMap[bundleName].Remove(userId, storeOk);
      if bundleFormInfoMap[bundleName].formInfoStorages == [] {
        bundleFormInfoMap := bundleFormInfoMap - {bundleName};
      }
    }

    // A bundle that is not in the map gets a fresh object, which is dropped
    // again: the form is written to the store but not found in memory.
    method AddDynamicFormInfo(bundleName: string, formInfo: FormInfo, userId: int, bundleOk: bool, storeOk: bool)
      returns (code: ErrCode)
      requires Valid()
      modifies bundleFormInfoMap.Values, store
      ensures Valid()
      ensures var before := if bundleName in old(Contents()) then old(Contents())[bundleName] else [];
              if !bundleOk || Exists(before, formInfo, userId)
              then code == InvalidParam && Contents() == old(Contents()) && store.stored == old(store.stored)
              else
                && store.stored == Written(old(store.stored), bundleName, Added(before, formInfo, userId), storeOk)
                && code == (if storeOk then Ok else StoreFailed)
                && Contents() == if bundleName in old(Contents())
                                 then old(Contents())[bundleName := Added(before, formInfo, userId)] else old(Contents())
    {
      hide Exists, Added, Written;
      if !bundleOk {
        return InvalidParam;
      }
      var bundle;
      if bundleName in bundleFormInfoMap {
        bundle := bundleFormInfoMap[bundleName];
      } else {
        bundle := new BundleFormInfo(bundleName, store);
      }
      code := bundle.AddDynamicFormInfo(formInfo, userId, storeOk);
    }

    method RemoveDynamicFormInfo(bundleName: string, moduleName: string, formName: string, userId: int, storeOk: bool)
      returns (code: ErrCode)
      requires Valid()
      modifies bundleFormInfoMap.Values, store
      ensures Valid()
      ensures if bundleName in old(Contents()) && Removable(old(Contents())[bundleName], moduleName, formName, userId)
              then
                var after := RemovedOne(old(Contents())[bundleName], moduleName, formName, userId);
                && Contents() == old(Contents())[bundleName := after]
                && store.stored == Written(old(store.stored), bundleName, after, storeOk)
                && code == (if storeOk then Ok else StoreFailed)
              else code == InvalidParam && Contents() == old(Contents()) && store.stored == old(store.stored)
    {
      hide Removable, RemovedOne, Written;
      if bundleName !in bundleFormInfoMap {
        return InvalidParam;
      }
      code := bundleFormInfoMap[bundleName].RemoveDynamicFormInfo(moduleName, formName, userId, storeOk);
    }

    method RemoveAllDynamicFormsInfo(bundleName: string, userId: int) returns (code: ErrCode)
      requires Valid()
      modifies bundleFormInfoMap.Values, store
      ensures Valid() && store.stored == old(store.stored)
      ensures if bundleName in old(Contents())
              then code == Ok && Contents() == old(Contents())[bundleName := Cleared(old(Contents())[bundleName], userId)]
              else code == InvalidParam && Contents() == old(Contents())
    {
      hide Cleared;
      if bundleName !in bundleFormInfoMap {
        return InvalidParam;
      }
      code := bundleFormInfoMap[bundleName].RemoveAllDynamicFormsInfo(userId);
    }
  }

  // ----- walking the storages -----

  // None of the first i storages is the user's.
  predicate NotBefore(storages: Storages, i: nat, userId: int) {
    i <= |storages| && forall j :: 0 <= j < i ==> storages[j].userId != userId
  }

  lemma NotYet(storages: Storages, i: nat, userId: int)
    ensures NotBefore(storages, 0, userId)
    ensures NotBefore(storages, i, userId) && i < |storages| && storages[i].userId != userId ==> NotBefore(storages, i + 1, userId)
  {
  }

  lemma NotBeforeTail(storages: Storages, i: nat, userId: int)
    requires NotBefore(storages, i, userId) && 0 < i
    ensures NotBefore(storages[1..], i - 1, userId) && storages[0].userId != userId
  {
    assert forall j :: 0 <= j < i - 1 ==> storages[1..][j] == storages[j + 1];
  }

  lemma {:induction false} AddedAt(storages: Storages, i: nat, info: FormInfo, userId: int)
    requires NotBefore(storages, i, userId) && i <= |storages| && (i < |storages| ==> storages[i].userId == userId)
    ensures Exists(storages, info, userId)
            == (i < |storages| && Find(storages[i].formInfos, info.moduleName, info.name) < |storages[i].formInfos|)
    ensures Added(storages, info, userId)
            == if i < |storages| then storages[i := storages[i].(formInfos := storages[i].formInfos + [info])]
               else storages + [FormInfoStorage(userId, [info])]
    decreases i
  {
    hide Find;
    if i > 0 {
      NotBeforeTail(storages, i, userId);
      AddedAt(storages[1..], i - 1, info, userId);
    }
  }

  // None of the user's among the first i storages has a form with the name.
  predicate NoMatchBefore(storages: Storages, i: nat, moduleName: string, name: string, userId: int) {
    i <= |storages| && forall j :: 0 <= j < i ==> !Matched(storages[j], moduleName, name, userId)
  }

  predicate Matched(storage: FormInfoStorage, moduleName: string, name: string, userId: int) {
    storage.userId == userId && Find(storage.formInfos, moduleName, name) < |storage.formInfos|
  }

  lemma NoMatchYet(storages: Storages, i: nat, moduleName: string, name: string, userId: int)
    ensures NoMatchBefore(storages, 0, moduleName, name, userId)
    ensures NoMatchBefore(storages, i, moduleName, name, userId) && i < |storages|
            && !(storages[i].userId == userId && Find(storages[i].formInfos, moduleName, name) < |storages[i].formInfos|) ==>
              NoMatchBefore(storages, i + 1, moduleName, name, userId)
  {
    hide Find;
  }

  lemma {:induction false} RemovedOneAt(storages: Storages, i: nat, moduleName: string, name: string, userId: int)
    requires i <= |storages| && NoMatchBefore(storages, i, moduleName, name, userId)
    requires i < |storages| ==>
               storages[i].userId == userId && Find(storages[i].formInfos, moduleName, name) < |storages[i].formInfos|
    ensures i == |storages| ==> !Removable(storages, moduleName, name, userId) && RemovedOne(storages, moduleName, name, userId) == storages
    ensures i < |storages| ==>
              var at := Find(storages[i].formInfos, moduleName, name);
              && Removable(storages, moduleName, name, userId) == !storages[i].formInfos[at].isStatic
              && RemovedOne(storages, moduleName, name, userId)
                 == storages[i := storages[i].(formInfos := WithoutAt(storages[i].formInfos, at))]
    decreases i
  {
    hide Find, WithoutAt;
    if i > 0 {
      assert !Matched(storages[0], moduleName, name, userId);
      assert forall j :: 0 <= j < i - 1 ==> storages[1..][j] == storages[j + 1];
      RemovedOneAt(storages[1..], i - 1, moduleName, name, userId);
    }
  }

  lemma {:induction false} ClearedAt(storages: Storages, i: nat, userId: int)
    requires NotBefore(storages, i, userId) && i <= |storages| && (i < |storages| ==> storages[i].userId == userId)
    ensures Cleared(storages, userId)
            == if i < |storages| then storages[i := storages[i].(formInfos := Static(storages[i].formInfos))] else storages
    decreases i
  {
    hide Static;
    if i > 0 {
      NotBeforeTail(storages, i, userId);
      ClearedAt(storages[1..], i - 1, userId);
    }
  }

  lemma NoInfos(none: Storages, userId: int)
    ensures none == [] ==> Infos(none, userId) == [] && Others(none, userId) == [] && Dynamic(Infos(none, userId)) == []
  {
  }

  lemma ReloadedIs(storages: Storages, userId: int, loaded: seq<FormInfo>, kept: Storages, infos: seq<FormInfo>)
    requires kept == Others(storages, userId) && infos == loaded + Dynamic(Infos(storages, userId))
    ensures Reloaded(storages, userId, loaded) == if infos == [] then kept else kept + [FormInfoStorage(userId, infos)]
  {
    hide Others, Dynamic, Infos;
  }

  // ----- lists -----

  lemma SplitStep(infos: seq<FormInfo>, i: nat)
    requires i < |infos|
    ensures Dynamic(infos[i..]) == (if infos[i].isStatic then [] else [infos[i]]) + Dynamic(infos[i + 1..])
    ensures Static(infos[i..]) == (if infos[i].isStatic then [infos[i]] else []) + Static(infos[i + 1..])
  {
    assert infos[i..][0] == infos[i] && infos[i..][1..] == infos[i + 1..];
  }

  lemma NoSplit(none: seq<FormInfo>)
    ensures none == [] ==> Dynamic(none) == [] && Static(none) == []
  {
  }

  lemma InfosStep(storages: Storages, i: nat, userId: int)
    requires i < |storages|
    ensures Infos(storages[i..], userId)
            == (if storages[i].userId == userId then storages[i].formInfos else []) + Infos(storages[i + 1..], userId)
    ensures Others(storages[i..], userId)
            == (if storages[i].userId == userId then [] else [storages[i]]) + Others(storages[i + 1..], userId)
  {
    assert storages[i..][0] == storages[i] && storages[i..][1..] == storages[i + 1..];
  }

  lemma {:induction false} DynamicJoin(a: seq<FormInfo>, b: seq<FormInfo>)
    ensures Dynamic(a + b) == Dynamic(a) + Dynamic(b)
  {
    if a == [] {
      assert a + b == b;
    } else {
      assert (a + b)[0] == a[0] && (a + b)[1..] == a[1..] + b;
      DynamicJoin(a[1..], b);
    }
  }

  lemma {:induction false} InfosJoin(a: Storages, b: Storages, userId: int)
    ensures Infos(a + b, userId) == Infos(a, userId) + Infos(b, userId)
  {
    if a == [] {
      assert a + b == b;
    } else {
      assert (a + b)[0] == a[0] && (a + b)[1..] == a[1..] + b;
      InfosJoin(a[1..], b, userId);
    }
  }
}
