/** Dynamic forms are conserved: over any run of reloads, additions and removals
    a user has exactly the dynamic forms that were added and not removed since. */
module FormInfoRuns {
  import opened FormInfoMgr

  // A bundle's storages in memory and in the store, where none means removed.
  datatype Bundle = Bundle(storages: Storages, stored: Storages)

  datatype Call =
    | Reload(userId: int, loaded: seq<FormInfo>)
    | Remove(userId: int)
    | Add(info: FormInfo, userId: int)
    | RemoveDynamic(moduleName: string, name: string, userId: int)
    | RemoveAllDynamic(userId: int)

  // A call, whether it was accepted, and whether storing succeeds.
  datatype Event = Event(call: Call, accepted: bool, storeOk: bool)

  function Stored(b: Bundle, storages: Storages, storeOk: bool): Bundle {
    Bundle(storages, if storeOk then storages else b.stored)
  }

  predicate Accepted(b: Bundle, call: Call) {
    match call
    case Add(info, userId) => !Exists(b.storages, info, userId)
    case RemoveDynamic(moduleName, name, userId) => Removable(b.storages, moduleName, name, userId)
    case _ => true
  }

  function Next(b: Bundle, e: Event): Bundle {
    if !e.accepted then b
    else
      match e.call
      case Reload(userId, loaded) => Stored(b, Reloaded(b.storages, userId, loaded), e.storeOk)
      case Remove(userId) => Stored(b, Others(b.storages, userId), e.storeOk)
      case Add(info, userId) => Stored(b, Added(b.storages, info, userId), e.storeOk)
      case RemoveDynamic(moduleName, name, userId) => Stored(b, RemovedOne(b.storages, moduleName, name, userId), e.storeOk)
      case RemoveAllDynamic(userId) => b.(storages := Cleared(b.storages, userId))
  }

  // What configurations say is static, what calls add is dynamic.
  predicate WellTyped(call: Call) {
    match call
    case Reload(_, loaded) => forall f :: f in loaded ==> f.isStatic
    case Add(info, _) => !info.isStatic
    case _ => true
  }

  predicate Step(b: Bundle, e: Event, c: Bundle) {
    e.accepted == Accepted(b, e.call) && WellTyped(e.call) && c == Next(b, e)
  }

  // The storages of a bundle; without an entry there are none.
  function Held(m: map<string, Storages>, bundleName: string): Storages {
    if bundleName in m then m[bundleName] else []
  }

  ghost function BundleOf(b: BundleFormInfo): Bundle
    reads b, b.store
  {
    Bundle(b.formInfoStorages, Held(b.store.stored, b.bundleName))
  }

  // The calls of a bundle are the steps of a run, and leave what is stored for
  // other bundles alone.
  method Perform(b: BundleFormInfo, call: Call, storeOk: bool) returns (code: ErrCode, ghost e: Event)
    requires WellTyped(call)
    modifies b, b.store
    ensures e == Event(call, Accepted(old(BundleOf(b)), call), storeOk)
    ensures Step(old(BundleOf(b)), e, BundleOf(b))
    ensures code == Ok ==> e.accepted && (e.storeOk || call.RemoveAllDynamic?)
    ensures b.store.stored - {b.bundleName} == old(b.store.stored) - {b.bundleName}
  {
    hide Reloaded, Others, Added, RemovedOne, Cleared, Exists, Removable;
    e := Event(call, Accepted(BundleOf(b), call), storeOk);
    match call
    case Reload(userId, loaded) => code := b.UpdateStaticFormInfos(userId, true, loaded, storeOk);
    case Remove(userId) => code := b.Remove(userId, storeOk);
    case Add(info, userId) => code := b.AddDynamicFormInfo(info, userId, storeOk);
    case RemoveDynamic(moduleName, name, userId) => code := b.RemoveDynamicFormInfo(moduleName, name, userId, storeOk);
    case RemoveAllDynamic(userId) => code := b.RemoveAllDynamicFormsInfo(userId);
  }

  ghost predicate Run(bundles: seq<Bundle>, log: seq<Event>) {
    |bundles| == |log| + 1 && forall i :: 0 <= i < |log| ==> Step(bundles[i], log[i], bundles[i + 1])
  }

  // The reference: what the log alone says the user's dynamic forms are.
  function Expected(log: seq<Event>, userId: int): seq<FormInfo> {
    if log == [] then []
    else
      var before, e := Expected(log[..|log| - 1], userId), log[|log| - 1];
      if e.accepted && e.call.userId == userId then ExpectedAfter(before, e.call) else before
  }

  function ExpectedAfter(before: seq<FormInfo>, call: Call): seq<FormInfo> {
    match call
    case Reload(_, _) => before
    case Remove(_) => []
    case Add(info, _) => before + [info]
    case RemoveDynamic(moduleName, name, _) =>
      var i := Find(before, moduleName, name);
      if i < |before| then WithoutAt(before, i) else before
    case RemoveAllDynamic(_) => []
  }

  predicate NamedOnce(infos: seq<FormInfo>) {
    forall i, j :: 0 <= i < j < |infos| ==> !Named(infos[j], infos[i].moduleName, infos[i].name)
  }

  // ----- lists -----

  lemma {:induction false} DynamicHas(infos: seq<FormInfo>)
    ensures forall f :: f in Dynamic(infos) ==> f in infos && !f.isStatic
  {
    if infos != [] {
      DynamicHas(infos[1..]);
    }
  }

  lemma {:induction false} StaticsHaveNoDynamic(infos: seq<FormInfo>)
    requires forall f :: f in infos ==> f.isStatic
    ensures Dynamic(infos) == []
  {
    if infos != [] {
      StaticsHaveNoDynamic(infos[1..]);
    }
  }

  lemma {:induction false} StaticIsStatic(infos: seq<FormInfo>)
    ensures Dynamic(Static(infos)) == [] && (Dynamic(infos) == [] ==> Static(infos) == infos)
    ensures Dynamic(infos) != [] ==> |Static(infos)| < |infos|
    ensures |Static(infos)| <= |infos|
  {
    if infos != [] {
      StaticIsStatic(infos[1..]);
      DynamicHead(infos[0], Static(infos[1..]));
      assert [] + Static(infos[1..]) == Static(infos[1..]);
    }
  }

  lemma {:induction false} DynamicOfDynamic(infos: seq<FormInfo>)
    ensures Dynamic(Dynamic(infos)) == Dynamic(infos)
  {
    if infos != [] {
      DynamicOfDynamic(infos[1..]);
      DynamicHead(infos[0], Dynamic(infos[1..]));
      assert [] + Dynamic(infos[1..]) == Dynamic(infos[1..]);
    }
  }

  lemma DynamicHead(f: FormInfo, rest: seq<FormInfo>)
    ensures Dynamic([f] + rest) == (if f.isStatic then [] else [f]) + Dynamic(rest)
  {
    assert ([f] + rest)[1..] == rest;
  }

  lemma FindHead(f: FormInfo, rest: seq<FormInfo>, moduleName: string, name: string)
    ensures Find([f] + rest, moduleName, name) == if Named(f, moduleName, name) then 0 else 1 + Find(rest, moduleName, name)
  {
    assert ([f] + rest)[1..] == rest;
  }

  lemma WithoutHead(f: FormInfo, rest: seq<FormInfo>, i: nat)
    requires i <= |rest|
    ensures WithoutAt([f] + rest, i) == if i == 0 then rest else [f] + WithoutAt(rest, i - 1)
  {
  }

  lemma FindOthers(infos: seq<FormInfo>, moduleName: string, name: string)
    ensures Find(infos, moduleName, name) == |infos| ==> forall f :: f in infos ==> !Named(f, moduleName, name)
  {
  }

  // Removing the first form with the name, if it is dynamic, removes the
  // first dynamic form with the name.
  lemma {:induction false} RemoveIsDynamic(infos: seq<FormInfo>, moduleName: string, name: string)
    requires Find(infos, moduleName, name) < |infos| && !infos[Find(infos, moduleName, name)].isStatic
    ensures var i, d := Find(infos, moduleName, name), Dynamic(infos);
            Find(d, moduleName, name) < |d| && Dynamic(WithoutAt(infos, i)) == WithoutAt(d, Find(d, moduleName, name))
  {
    hide Find, Dynamic, WithoutAt;
    var f, rest := infos[0], infos[1..];
    assert infos == [f] + rest;
    var i, d := Find(rest, moduleName, name), Dynamic(rest);
    FindHead(f, rest, moduleName, name);
    DynamicHead(f, rest);
    if Named(f, moduleName, name) {
      WithoutHead(f, rest, 0);
      FindHead(f, d, moduleName, name);
      WithoutHead(f, d, 0);
    } else {
      RemoveIsDynamic(rest, moduleName, name);
      WithoutHead(f, rest, i + 1);
      DynamicHead(f, WithoutAt(rest, i));
      if f.isStatic {
        assert [] + d == d;
        assert [] + Dynamic(WithoutAt(rest, i)) == Dynamic(WithoutAt(rest, i));
      } else {
        FindHead(f, d, moduleName, name);
        WithoutHead(f, d, Find(d, moduleName, name) + 1);
      }
    }
  }

  lemma WithoutKeepsNames(infos: seq<FormInfo>, i: nat)
    requires NamedOnce(infos) && i < |infos|
    ensures NamedOnce(WithoutAt(infos, i))
  {
  }

  // ----- what each user sees -----

  lemma {:induction false} NoneOfUser(storages: Storages, userId: int)
    requires forall i :: 0 <= i < |storages| ==> storages[i].userId != userId
    ensures Infos(storages, userId) == [] && Others(storages, userId) == storages
  {
    if storages != [] {
      NoneOfUser(storages[1..], userId);
    }
  }

  lemma {:induction false} OthersAreOthers(storages: Storages, userId: int)
    ensures forall i :: 0 <= i < |Others(storages, userId)| ==>
              Others(storages, userId)[i].userId != userId && Others(storages, userId)[i] in storages
  {
    if storages != [] {
      OthersAreOthers(storages[1..], userId);
    }
  }

  lemma {:induction false} OthersOnce(storages: Storages, userId: int)
    requires OnePerUser(storages)
    ensures OnePerUser(Others(storages, userId))
  {
    if storages != [] {
      var rest := Others(storages[1..], userId);
      OthersOnce(storages[1..], userId);
      OthersAreOthers(storages[1..], userId);
      forall j | 0 <= j < |rest| ensures rest[j].userId != storages[0].userId {
        var k :| 0 <= k < |storages[1..]| && storages[1..][k] == rest[j];
        assert storages[k + 1] == rest[j];
      }
    }
  }

  lemma {:induction false} OthersInfos(storages: Storages, userId: int, v: int)
    ensures Infos(Others(storages, userId), v) == if v == userId then [] else Infos(storages, v)
  {
    if storages != [] {
      var rest := Others(storages[1..], userId);
      OthersInfos(storages[1..], userId, v);
      if storages[0].userId != userId {
        assert ([storages[0]] + rest)[1..] == rest;
      } else {
        assert [] + rest == rest && [] + Infos(storages[1..], v) == Infos(storages[1..], v);
      }
    }
  }

  lemma OthersSeen(storages: Storages, userId: int)
    ensures forall i :: 0 <= i < |Others(storages, userId)| ==> Others(storages, userId)[i].userId != userId
    ensures OnePerUser(storages) ==> OnePerUser(Others(storages, userId))
    ensures forall v :: Infos(Others(storages, userId), v) == if v == userId then [] else Infos(storages, v)
  {
    hide *;
    OthersAreOthers(storages, userId);
    if OnePerUser(storages) {
      OthersOnce(storages, userId);
    }
    forall v ensures Infos(Others(storages, userId), v) == if v == userId then [] else Infos(storages, v) {
      OthersInfos(storages, userId, v);
    }
  }

  lemma OneInfos(storage: FormInfoStorage, userId: int)
    ensures Infos([storage], userId) == if storage.userId == userId then storage.formInfos else []
    ensures Others([storage], userId) == if storage.userId == userId then [] else [storage]
  {
  }

  lemma ReloadSeen(storages: Storages, userId: int, loaded: seq<FormInfo>)
    ensures OnePerUser(storages) ==> OnePerUser(Reloaded(storages, userId, loaded))
    ensures Infos(Reloaded(storages, userId, loaded), userId) == loaded + Dynamic(Infos(storages, userId))
    ensures forall v :: v != userId ==> Infos(Reloaded(storages, userId, loaded), v) == Infos(storages, v)
    ensures Others(Reloaded(storages, userId, loaded), userId) == Others(storages, userId)
  {
    hide Infos, Others, Dynamic, OnePerUser;
    var infos := loaded + Dynamic(Infos(storages, userId));
    var kept, storage := Others(storages, userId), FormInfoStorage(userId, infos);
    OthersSeen(storages, userId);
    NoneOfUser(kept, userId);
    if infos != [] {
      OneMore(kept, storage);
      assert kept + [] == kept;
    } else {
      assert kept + [] == kept;
    }
  }

  lemma OneMore(kept: Storages, storage: FormInfoStorage)
    requires forall i :: 0 <= i < |kept| ==> kept[i].userId != storage.userId
    ensures OnePerUser(kept) ==> OnePerUser(kept + [storage])
    ensures Infos(kept + [storage], storage.userId) == storage.formInfos
    ensures forall v :: v != storage.userId ==> Infos(kept + [storage], v) == Infos(kept, v)
    ensures Others(kept + [storage], storage.userId) == kept
  {
    hide Infos, Others;
    NoneOfUser(kept, storage.userId);
    OthersJoin(kept, [storage], storage.userId);
    forall v ensures Infos(kept + [storage], v) == if v == storage.userId then storage.formInfos else Infos(kept, v) {
      InfosJoin(kept, [storage], v);
      OneInfos(storage, v);
      assert Infos(kept, v) + [] == Infos(kept, v) && [] + storage.formInfos == storage.formInfos;
    }
    OneInfos(storage, storage.userId);
    assert kept + [] == kept;
  }

  lemma {:induction false} OthersJoin(a: Storages, b: Storages, userId: int)
    ensures Others(a + b, userId) == Others(a, userId) + Others(b, userId)
  {
    if a == [] {
      assert a + b == b;
    } else {
      assert (a + b)[0] == a[0] && (a + b)[1..] == a[1..] + b;
      OthersJoin(a[1..], b, userId);
    }
  }

  // The user's storage is number i, or there is none and i is their number.
  ghost predicate StorageAt(storages: Storages, i: nat, userId: int) {
    && i <= |storages| && (i < |storages| ==> storages[i].userId == userId)
    && forall j :: 0 <= j < |storages| && j != i ==> storages[j].userId != userId
  }

  lemma HasStorage(storages: Storages, userId: int)
    requires OnePerUser(storages)
    ensures exists i: nat :: StorageAt(storages, i, userId)
  {
    if forall i :: 0 <= i < |storages| ==> storages[i].userId != userId {
      assert StorageAt(storages, |storages|, userId);
    } else {
      var i :| 0 <= i < |storages| && storages[i].userId == userId;
      assert StorageAt(storages, i, userId);
    }
  }

  lemma InfosAt(storages: Storages, i: nat, userId: int)
    requires StorageAt(storages, i, userId)
    ensures Infos(storages, userId) == if i < |storages| then storages[i].formInfos else []
  {
    if i < |storages| {
      NoneOfUser(storages[..i], userId);
      NoneOfUser(storages[i + 1..], userId);
      assert storages == storages[..i] + [storages[i]] + storages[i + 1..];
      InfosJoin(storages[..i], [storages[i]], userId);
      InfosJoin(storages[..i] + [storages[i]], storages[i + 1..], userId);
    } else {
      NoneOfUser(storages, userId);
    }
  }

  // Giving the user's storage other forms.
  lemma UpdateSeen(storages: Storages, i: nat, userId: int, infos: seq<FormInfo>)
    requires OnePerUser(storages) && StorageAt(storages, i, userId) && i < |storages|
    ensures var now := storages[i := storages[i].(formInfos := infos)];
            && OnePerUser(now) && Infos(now, userId) == infos && forall v :: v != userId ==> Infos(now, v) == Infos(storages, v)
  {
    var now := storages[i := storages[i].(formInfos := infos)];
    assert StorageAt(now, i, userId);
    InfosAt(now, i, userId);
    forall v | v != userId ensures Infos(now, v) == Infos(storages, v) {
      OtherUser(storages, i, infos, v);
    }
  }

  lemma {:induction false} OtherUser(storages: Storages, i: nat, infos: seq<FormInfo>, v: int)
    requires i < |storages| && storages[i].userId != v
    ensures Infos(storages[i := storages[i].(formInfos := infos)], v) == Infos(storages, v)
    decreases i
  {
    var now := storages[i := storages[i].(formInfos := infos)];
    if i == 0 {
      assert now[1..] == storages[1..];
    } else {
      assert now[1..] == storages[1..][i - 1 := storages[i].(formInfos := infos)];
      OtherUser(storages[1..], i - 1, infos, v);
    }
  }

  lemma AddSeen(storages: Storages, info: FormInfo, userId: int)
    requires OnePerUser(storages)
    ensures var now := Added(storages, info, userId);
            && OnePerUser(now) && Infos(now, userId) == Infos(storages, userId) + [info]
            && forall v :: v != userId ==> Infos(now, v) == Infos(storages, v)
    ensures Exists(storages, info, userId)
            <==> Find(Infos(storages, userId), info.moduleName, info.name) < |Infos(storages, userId)|
  {
    hide Find, Infos;
    HasStorage(storages, userId);
    var i: nat :| StorageAt(storages, i, userId);
    InfosAt(storages, i, userId);
    AddedAt(storages, i, info, userId);
    if i < |storages| {
      UpdateSeen(storages, i, userId, storages[i].formInfos + [info]);
    } else {
      AppendSeen(storages, userId, info);
    }
  }

  lemma AppendSeen(storages: Storages, userId: int, info: FormInfo)
    requires OnePerUser(storages) && StorageAt(storages, |storages|, userId)
    ensures var now := storages + [FormInfoStorage(userId, [info])];
            && OnePerUser(now) && Infos(now, userId) == [info]
            && forall v :: v != userId ==> Infos(now, v) == Infos(storages, v)
  {
    var now := storages + [FormInfoStorage(userId, [info])];
    assert StorageAt(now, |storages|, userId);
    InfosAt(now, |storages|, userId);
    forall v | v != userId ensures Infos(now, v) == Infos(storages, v) {
      InfosJoin(storages, [FormInfoStorage(userId, [info])], v);
    }
  }

  lemma RemoveSeen(storages: Storages, moduleName: string, name: string, userId: int)
    requires OnePerUser(storages)
    ensures var infos := Infos(storages, userId);
            var at := Find(infos, moduleName, name);
            && (Removable(storages, moduleName, name, userId) <==> at < |infos| && !infos[at].isStatic)
            && (at < |infos| ==>
                  var now := RemovedOne(storages, moduleName, name, userId);
                  && OnePerUser(now) && Infos(now, userId) == WithoutAt(infos, at)
                  && forall v :: v != userId ==> Infos(now, v) == Infos(storages, v))
  {
    hide Find, Infos, WithoutAt;
    HasStorage(storages, userId);
    var i: nat :| StorageAt(storages, i, userId);
    InfosAt(storages, i, userId);
    if i < |storages| && Find(storages[i].formInfos, moduleName, name) < |storages[i].formInfos| {
      assert NoMatchBefore(storages, i, moduleName, name, userId);
      RemovedOneAt(storages, i, moduleName, name, userId);
      UpdateSeen(storages, i, userId, WithoutAt(storages[i].formInfos, Find(storages[i].formInfos, moduleName, name)));
    } else {
      if i == |storages| {
        FindNone(moduleName, name);
      }
      assert NoMatchBefore(storages, |storages|, moduleName, name, userId);
      RemovedOneAt(storages, |storages|, moduleName, name, userId);
    }
  }

  lemma FindNone(moduleName: string, name: string)
    ensures Find([], moduleName, name) == 0
  {
  }

  lemma ClearSeen(storages: Storages, userId: int)
    requires OnePerUser(storages)
    ensures var now := Cleared(storages, userId);
            && OnePerUser(now) && Infos(now, userId) == Static(Infos(storages, userId))
            && forall v :: v != userId ==> Infos(now, v) == Infos(storages, v)
  {
    hide Infos, Static;
    HasStorage(storages, userId);
    var i: nat :| StorageAt(storages, i, userId);
    InfosAt(storages, i, userId);
    ClearedAt(storages, i, userId);
    if i < |storages| {
      UpdateSeen(storages, i, userId, Static(storages[i].formInfos));
    } else {
      NoSplit([]);
    }
  }

  // ----- over whole runs -----

  // The user has the dynamic forms the log says, each name once.
  ghost predicate Conserved(b: Bundle, log: seq<Event>, userId: int) {
    Dynamic(Infos(b.storages, userId)) == Expected(log, userId) && NamedOnce(Expected(log, userId))
  }

  lemma StepSeen(b: Bundle, e: Event, c: Bundle)
    requires Step(b, e, c) && OnePerUser(b.storages)
    ensures OnePerUser(c.storages)
    ensures !e.accepted ==> c.storages == b.storages
    ensures forall v :: v != e.call.userId ==> Infos(c.storages, v) == Infos(b.storages, v)
  {
    hide Infos, Others, Reloaded, Added, RemovedOne, Cleared, OnePerUser, Exists, Removable, Find;
    match e.call
    case Reload(userId, loaded) => ReloadSeen(b.storages, userId, loaded);
    case Remove(userId) => OthersSeen(b.storages, userId);
    case Add(info, userId) => AddSeen(b.storages, info, userId);
    case RemoveDynamic(moduleName, name, userId) => RemoveSeen(b.storages, moduleName, name, userId);
    case RemoveAllDynamic(userId) => ClearSeen(b.storages, userId);
  }

  // The last event of a log.
  lemma ExpectedStep(log: seq<Event>, e: Event, userId: int)
    ensures var before := Expected(log, userId);
            Expected(log + [e], userId)
            == if e.accepted && e.call.userId == userId then ExpectedAfter(before, e.call) else before
  {
    hide ExpectedAfter;
    assert (log + [e])[..|log|] == log;
  }

  lemma StepConserves(b: Bundle, log: seq<Event>, e: Event, c: Bundle, userId: int)
    requires Step(b, e, c) && OnePerUser(b.storages) && Conserved(b, log, userId)
    ensures Conserved(c, log + [e], userId)
  {
    hide *;
    ConservedIs(b, log, userId);
    ConservedIs(c, log + [e], userId);
    StepSeen(b, e, c);
    ExpectedStep(log, e, userId);
    if e.accepted && e.call.userId == userId {
      StepIs(b, e, c);
      OwnStep(b.storages, c.storages, e.call, Expected(log, userId));
    }
  }

  lemma ConservedIs(b: Bundle, log: seq<Event>, userId: int)
    ensures Conserved(b, log, userId) <==>
              Dynamic(Infos(b.storages, userId)) == Expected(log, userId) && NamedOnce(Expected(log, userId))
  {
    hide Dynamic, Infos, Expected, NamedOnce;
  }

  predicate OwnUpdate(s: Storages, call: Call, t: Storages) {
    WellTyped(call)
    && match call
       case Reload(userId, loaded) => t == Reloaded(s, userId, loaded)
       case Remove(userId) => t == Others(s, userId)
       case Add(info, userId) => t == Added(s, info, userId) && !Exists(s, info, userId)
       case RemoveDynamic(moduleName, name, userId) =>
         t == RemovedOne(s, moduleName, name, userId) && Removable(s, moduleName, name, userId)
       case RemoveAllDynamic(userId) => t == Cleared(s, userId)
  }

  lemma StepIs(b: Bundle, e: Event, c: Bundle)
    requires Step(b, e, c) && e.accepted
    ensures OwnUpdate(b.storages, e.call, c.storages)
  {
    hide Others, Reloaded, Added, RemovedOne, Cleared, Exists, Removable;
  }

  lemma OwnStep(s: Storages, t: Storages, call: Call, before: seq<FormInfo>)
    requires OwnUpdate(s, call, t) && OnePerUser(s) && NamedOnce(before) && before == Dynamic(Infos(s, call.userId))
    ensures var after := ExpectedAfter(before, call); Dynamic(Infos(t, call.userId)) == after && NamedOnce(after)
  {
    hide Infos, Others, Reloaded, Added, RemovedOne, Cleared, OnePerUser, Exists, Removable, Find, Dynamic, Static, WithoutAt,
         NamedOnce;
    var infos := Infos(s, call.userId);
    match call
    case Reload(userId, loaded) =>
      ReloadSeen(s, userId, loaded);
      StaticsHaveNoDynamic(loaded);
      DynamicJoin(loaded, Dynamic(infos));
      DynamicOfDynamic(infos);
    case Remove(userId) =>
      OthersSeen(s, userId);
      NothingDynamic();
    case Add(info, userId) =>
      AddSeen(s, info, userId);
      DynamicJoin(infos, [info]);
      OneDynamic(info);
      DynamicHas(infos);
      FindOthers(infos, info.moduleName, info.name);
      AppendKeepsNames(before, info);
    case RemoveDynamic(moduleName, name, userId) =>
      RemoveSeen(s, moduleName, name, userId);
      RemoveIsDynamic(infos, moduleName, name);
      WithoutKeepsNames(before, Find(before, moduleName, name));
    case RemoveAllDynamic(userId) =>
      ClearSeen(s, userId);
      StaticIsStatic(infos);
      NothingDynamic();
  }

  lemma NothingDynamic()
    ensures Dynamic([]) == [] && NamedOnce([]) && OnePerUser([])
  {
  }

  lemma OneDynamic(info: FormInfo)
    ensures !info.isStatic ==> Dynamic([info]) == [info]
  {
  }

  lemma AppendKeepsNames(infos: seq<FormInfo>, info: FormInfo)
    requires NamedOnce(infos) && forall f :: f in infos ==> !Named(f, info.moduleName, info.name)
    ensures NamedOnce(infos + [info])
  {
    var all := infos + [info];
    forall i, j | 0 <= i < j < |all| ensures !Named(all[j], all[i].moduleName, all[i].name) {
      assert all[i] in infos;
    }
  }

  // Over every run from an empty bundle each user has at most one storage, and
  // its dynamic forms, in order, are exactly those added and not removed since.
  lemma {:induction false} RunConserves(bundles: seq<Bundle>, log: seq<Event>)
    requires Run(bundles, log) && bundles[0].storages == []
    ensures OnePerUser(bundles[|log|].storages)
    ensures forall userId :: Conserved(bundles[|log|], log, userId)
    decreases |log|
  {
    hide Step, Conserved, OnePerUser;
    if |log| == 0 {
      EmptyConserves(bundles[0], log);
    } else {
      var n := |log| - 1;
      assert Run(bundles[..n + 1], log[..n]);
      RunConserves(bundles[..n + 1], log[..n]);
      assert bundles[..n + 1][n] == bundles[n] && log[..n] + [log[n]] == log;
      StepSeen(bundles[n], log[n], bundles[n + 1]);
      forall userId ensures Conserved(bundles[|log|], log, userId) {
        StepConserves(bundles[n], log[..n], log[n], bundles[n + 1], userId);
      }
    }
  }

  lemma EmptyConserves(b: Bundle, log: seq<Event>)
    requires b.storages == [] && log == []
    ensures OnePerUser(b.storages) && forall userId :: Conserved(b, log, userId)
  {
  }

  // ----- reloading -----

  // A reload leaves the other users' storages as they are and in order, and
  // reloading the same configuration once more changes nothing.
  lemma ReloadIsIdempotent(storages: Storages, userId: int, loaded: seq<FormInfo>)
    requires forall f :: f in loaded ==> f.isStatic
    ensures var once := Reloaded(storages, userId, loaded);
            Reloaded(once, userId, loaded) == once && Others(once, userId) == Others(storages, userId)
  {
    hide Infos, Others, Dynamic;
    ReloadSeen(storages, userId, loaded);
    StaticsHaveNoDynamic(loaded);
    DynamicJoin(loaded, Dynamic(Infos(storages, userId)));
    DynamicOfDynamic(Infos(storages, userId));
    assert [] + Dynamic(Infos(storages, userId)) == Dynamic(Infos(storages, userId));
  }

  // ----- what is stored -----

  // Removing all dynamic forms is never stored: memory and store agree
  // afterwards only if there was nothing to remove.
  lemma ClearingIsNotStored(b: Bundle, e: Event, c: Bundle)
    requires Step(b, e, c) && e.call.RemoveAllDynamic? && OnePerUser(b.storages) && b.stored == b.storages
    ensures c.stored == c.storages <==> Dynamic(Infos(b.storages, e.call.userId)) == []
  {
    hide Infos, Cleared, Dynamic, Static, OnePerUser;
    ClearSeen(b.storages, e.call.userId);
    StaticIsStatic(Infos(b.storages, e.call.userId));
    if Dynamic(Infos(b.storages, e.call.userId)) == [] {
      NothingToClear(b.storages, e.call.userId);
    }
  }

  lemma NothingToClear(storages: Storages, userId: int)
    requires OnePerUser(storages) && Dynamic(Infos(storages, userId)) == []
    ensures Cleared(storages, userId) == storages
  {
    hide Infos, Cleared, Dynamic, Static;
    HasStorage(storages, userId);
    var i: nat :| StorageAt(storages, i, userId);
    InfosAt(storages, i, userId);
    ClearedAt(storages, i, userId);
    StaticIsStatic(Infos(storages, userId));
  }

  // Whether the store is behind memory, by the log alone: all dynamic forms of
  // a user who had some were removed, and since then nothing was accepted that
  // is stored.
  predicate Behind(log: seq<Event>) {
    log != []
    && var before, e := log[..|log| - 1], log[|log| - 1];
       if !e.accepted then Behind(before)
       else e.call.RemoveAllDynamic? && (Behind(before) || Expected(before, e.call.userId) != [])
  }

  // While storing succeeds, memory and store agree at the end of a run exactly
  // when the log does not leave the store behind.
  lemma RunStores(bundles: seq<Bundle>, log: seq<Event>)
    requires Run(bundles, log) && bundles[0] == Bundle([], []) && forall i :: 0 <= i < |log| ==> log[i].storeOk
    ensures var b := bundles[|log|]; b.stored == b.storages <==> !Behind(log)
  {
    hide Run, Behind, Size;
    RunLags(bundles, log);
  }

  // A dynamic form is added, and then all of the user's are removed: storing
  // worked, and the store still has the form.
  lemma AddThenClear(info: FormInfo, userId: int) returns (bundles: seq<Bundle>, log: seq<Event>)
    requires !info.isStatic
    ensures log == [Event(Add(info, userId), true, true), Event(RemoveAllDynamic(userId), true, true)]
    ensures Run(bundles, log) && bundles[0] == Bundle([], []) && Behind(log)
    ensures bundles[2].stored == [FormInfoStorage(userId, [info])] && bundles[2].storages == [FormInfoStorage(userId, [])]
  {
    var one, none := [FormInfoStorage(userId, [info])], [FormInfoStorage(userId, [])];
    log := [Event(Add(info, userId), true, true), Event(RemoveAllDynamic(userId), true, true)];
    bundles := [Bundle([], []), Bundle(one, one), Bundle(none, one)];
    assert Cleared(one, userId) == none by {
      assert Static([info]) == [];
    }
    assert Step(bundles[0], log[0], bundles[1]) && Step(bundles[1], log[1], bundles[2]);
    RunStores(bundles, log);
  }

  function Size(storages: Storages): nat {
    if storages == [] then 0 else |storages[0].formInfos| + Size(storages[1..])
  }

  // What is behind has more forms.
  ghost predicate Lags(b: Bundle, behind: bool) {
    if behind then Size(b.storages) < Size(b.stored) else b.stored == b.storages
  }

  lemma {:induction false} RunLags(bundles: seq<Bundle>, log: seq<Event>)
    requires Run(bundles, log) && bundles[0] == Bundle([], []) && forall i :: 0 <= i < |log| ==> log[i].storeOk
    ensures Lags(bundles[|log|], Behind(log))
    decreases |log|
  {
    hide Step, Conserved, OnePerUser, Size, Expected;
    if |log| > 0 {
      var n := |log| - 1;
      assert Run(bundles[..n + 1], log[..n]);
      RunLags(bundles[..n + 1], log[..n]);
      RunConserves(bundles[..n + 1], log[..n]);
      assert bundles[..n + 1][n] == bundles[n];
      assert Conserved(bundles[n], log[..n], log[n].call.userId);
      StepLags(bundles[n], log[..n], log[n], bundles[n + 1], Behind(log[..n]));
    }
  }

  lemma StepLags(b: Bundle, log: seq<Event>, e: Event, c: Bundle, behind: bool)
    requires Step(b, e, c) && e.storeOk && OnePerUser(b.storages) && Conserved(b, log, e.call.userId) && Lags(b, behind)
    ensures Lags(c, if !e.accepted then behind
                    else e.call.RemoveAllDynamic? && (behind || Expected(log, e.call.userId) != []))
  {
    hide Infos, Others, Reloaded, Added, RemovedOne, Cleared, OnePerUser, Exists, Removable, Size, Expected, Dynamic, NamedOnce;
    if e.accepted && e.call.RemoveAllDynamic? {
      ClearedSize(b.storages, e.call.userId);
      ClearedSame(b.storages, e.call.userId);
    }
  }

  lemma {:induction false} ClearedSize(storages: Storages, userId: int)
    ensures Size(Cleared(storages, userId)) <= Size(storages)
    ensures Cleared(storages, userId) != storages ==> Size(Cleared(storages, userId)) < Size(storages)
  {
    hide Static;
    if storages != [] {
      StaticIsStatic(storages[0].formInfos);
      ClearedSize(storages[1..], userId);
    }
  }

  lemma ClearedSame(storages: Storages, userId: int)
    requires OnePerUser(storages)
    ensures Cleared(storages, userId) == storages <==> Dynamic(Infos(storages, userId)) == []
  {
    hide Infos, Cleared, Dynamic, Static, OnePerUser;
    ClearSeen(storages, userId);
    StaticIsStatic(Infos(storages, userId));
    if Dynamic(Infos(storages, userId)) == [] {
      NothingToClear(storages, userId);
    }
  }

  // Storages that adding a form for the user makes equal: an empty storage of
  // the user, at the end, counts for nothing.
  predicate Alike(a: Storages, b: Storages, userId: int) {
    a == b || a == b + [FormInfoStorage(userId, [])] || b == a + [FormInfoStorage(userId, [])]
  }

  lemma {:induction false} AddedAlike(a: Storages, b: Storages, info: FormInfo, userId: int)
    requires OnePerUser(a) && OnePerUser(b)
    ensures Added(a, info, userId) == Added(b, info, userId) <==> Alike(a, b, userId)
  {
    if a == [] {
      AddedToNone(b, info, userId);
    } else if b == [] {
      AddedToNone(a, info, userId);
    } else if a[0].userId == userId || b[0].userId == userId {
      AddedToFirst(a, b, info, userId);
    } else {
      assert Added(a, info, userId)[0] == a[0] && Added(a, info, userId)[1..] == Added(a[1..], info, userId);
      assert Added(b, info, userId)[0] == b[0] && Added(b, info, userId)[1..] == Added(b[1..], info, userId);
      AddedAlike(a[1..], b[1..], info, userId);
      AlikeTails(a, b, userId);
    }
  }

  lemma AddedToNone(storages: Storages, info: FormInfo, userId: int)
    ensures Added(storages, info, userId) == Added([], info, userId) <==> Alike(storages, [], userId)
  {
    var none: Storages := [];
    var now := Added(storages, info, userId);
    assert none + [FormInfoStorage(userId, [])] == [FormInfoStorage(userId, [])];
    assert Added(none, info, userId) == [FormInfoStorage(userId, [info])];
    if storages != [] {
      var infos := storages[0].formInfos;
      assert infos == [] ==> infos + [info] == [info];
      assert now[0].userId == storages[0].userId && storages == [storages[0]] + storages[1..];
      assert storages[0].userId == userId ==> now[0].formInfos == infos + [info] && now[1..] == storages[1..];
    }
  }

  lemma AddedToFirst(a: Storages, b: Storages, info: FormInfo, userId: int)
    requires OnePerUser(a) && OnePerUser(b) && a != [] && b != [] && (a[0].userId == userId || b[0].userId == userId)
    ensures Added(a, info, userId) == Added(b, info, userId) <==> Alike(a, b, userId)
  {
    var x, y := Added(a, info, userId), Added(b, info, userId);
    assert x[0].userId == a[0].userId && y[0].userId == b[0].userId;
    assert |a| > |b| ==> a[|b|].userId != userId || a[0] != b[0];
    assert |b| > |a| ==> b[|a|].userId != userId || a[0] != b[0];
    if x == y {
      assert a[0].formInfos == x[0].formInfos[..|a[0].formInfos|] && b[0].formInfos == y[0].formInfos[..|b[0].formInfos|];
      assert x[1..] == a[1..] && y[1..] == b[1..];
      assert a == [a[0]] + a[1..] && b == [b[0]] + b[1..];
    }
  }

  lemma AlikeTails(a: Storages, b: Storages, userId: int)
    requires a != [] && b != [] && a[0].userId != userId && b[0].userId != userId
    ensures Alike(a, b, userId) <==> a[0] == b[0] && Alike(a[1..], b[1..], userId)
  {
    var e := [FormInfoStorage(userId, [])];
    assert a == [a[0]] + a[1..] && b == [b[0]] + b[1..];
    assert [a[0]] + a[1..] + e == [a[0]] + (a[1..] + e) && [b[0]] + b[1..] + e == [b[0]] + (b[1..] + e);
    assert (b + e)[1..] == b[1..] + e && (a + e)[1..] == a[1..] + e;
  }

  // What adding the form to the stored storages would have left: nothing new
  // if the user has a form of that name there.
  function AddedOnce(storages: Storages, info: FormInfo, userId: int): Storages {
    if Exists(storages, info, userId) then storages else Added(storages, info, userId)
  }

  // A form added to a bundle is written over what was stored. It is what was
  // stored with the form appended exactly when memory and store were alike
  // before. For a bundle that is not in memory, the store has what adding to it
  // would have left exactly when it had no more than the user's storage, empty
  // or with just this form.
  lemma StoredAfterAdd(stored: map<string, Storages>, contents: map<string, Storages>, bundleName: string, info: FormInfo,
                       userId: int)
    requires OnePerUser(Held(stored, bundleName)) && OnePerUser(Held(contents, bundleName))
    ensures var was, before := Held(stored, bundleName), Held(contents, bundleName);
            var now := Held(Written(stored, bundleName, Added(before, info, userId), true), bundleName);
            && (now == Added(was, info, userId) <==> Alike(before, was, userId))
            && (bundleName !in contents ==>
                  && (now == Added(was, info, userId) <==> was == [] || was == [FormInfoStorage(userId, [])])
                  && (now == AddedOnce(was, info, userId)
                      <==> was == [] || was == [FormInfoStorage(userId, [])] || was == [FormInfoStorage(userId, [info])]))
  {
    hide Added, OnePerUser;
    FirstAdded(info, userId);
    var was, before := Held(stored, bundleName), Held(contents, bundleName);
    AddedSome(before, info, userId);
    WrittenSome(stored, bundleName, Added(before, info, userId));
    AddedAlike(before, was, info, userId);
  }

  // Two forms added to a bundle that is in neither memory nor store, for two
  // users: storing works, and the first one is lost.
  method AddTwice(f: FormInfo, g: FormInfo, userId: int, other: int)
    returns (first: ErrCode, second: ErrCode, once: Storages, twice: Storages)
    requires userId != other
    ensures first == second == Ok
    ensures Infos(once, userId) == [f] && Infos(once, other) == [] && OnePerUser(once)
    ensures Infos(twice, userId) == [] && Infos(twice, other) == [g]
  {
    var store := new FormInfoStorageMgr();
    var mgr := new FormInfoMgr(store);
    first := mgr.AddDynamicFormInfo("bundle", f, userId, true, true);
    once := store.stored["bundle"];
    second := mgr.AddDynamicFormInfo("bundle", g, other, true, true);
    twice := store.stored["bundle"];
  }

  lemma FirstAdded(info: FormInfo, userId: int)
    ensures Added([], info, userId) == [FormInfoStorage(userId, [info])]
    ensures !Exists([], info, userId) && !Exists([FormInfoStorage(userId, [])], info, userId)
    ensures Exists([FormInfoStorage(userId, [info])], info, userId)
  {
  }

  lemma WrittenSome(stored: map<string, Storages>, bundleName: string, storages: Storages)
    requires storages != []
    ensures Written(stored, bundleName, storages, true) == stored[bundleName := storages]
  {
  }

  lemma AddedSome(storages: Storages, info: FormInfo, userId: int)
    ensures Added(storages, info, userId) != []
  {
  }
}
