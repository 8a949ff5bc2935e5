/** Whole runs of the form manager: every public call is one step, and what
    holds of the registries after any number of steps. */
module FormRuns {
  import opened FormTypes
  import opened FormDataMgr
  import opened FormDbCache
  import opened FormSysEvents
  import opened FormMgrAdapter
  import opened FormInvariants

  datatype Op =
    | Add(info: FormItemInfo, token: int, uid: int, out: Outside)
    | Delete(formId: int, token: int, uid: int, out: Outside)
    | Release(formId: int, token: int, uid: int, delCache: bool, out: Outside)
    | Cast(formId: int, token: int, uid: int, out: Outside)
    | DeleteInvalid(formIds: seq<int>, token: int, uid: int, failing: set<int>)
    | HostDied(token: int)
    | UserRemoved(userId: int, failing: set<int>)
    | BundleRemoved(bundleName: string, userId: int, failing: set<int>)
    | DataCleared(uid: int, refusedDB: set<FormIdKey>, refusedTemp: set<FormIdKey>, failing: set<int>)

  // ----- one step -----

  function AfterHostDied(s: State, token: int): State {
    var forms := HostForms(s.hosts, token);
    s.(hosts := HostGone(s.hosts, token), temp := Without(s.temp, forms), records := s.records - Among(s.temp, forms))
  }

  function Among(temp: seq<int>, forms: set<int>): set<int> {
    set id | id in temp && id in forms
  }

  function AfterUserRemoved(s: State, userId: int, failing: set<int>): State {
    var gone, entries := UserForms(s.records, userId), UserEntries(s.cache, userId) - failing;
    s.(records := s.records - gone, temp := Without(s.temp, TempAmong(s.records, gone)),
       cache := CacheWithout(s.cache, entries), store := s.store - entries)
  }

  function AfterBundleRemoved(s: State, bundleName: string, userId: int, failing: set<int>): State {
    var entries := BundleEntries(s.cache, bundleName, userId) - failing;
    var temps := BundleTempForms(s.records - entries, bundleName, userId);
    State(s.records - entries - temps, Without(s.temp, temps), HostsCleaned(s.hosts, entries + temps),
          CacheWithout(s.cache, entries), s.store - entries)
  }

  // Clearing uid's data goes through the database entries first; `entries`
  // lost their last user, and of them `back` could not be deleted.
  function ClearedRecords(s: State, uid: int, refusedDB: set<FormIdKey>): Records {
    var hits := EntriesListing(s.cache, uid);
    var last := LastUserOfEntry(s.cache, hits, uid);
    UnlistAll(s.records, hits - last, uid) - (last - Refused(last, EntryKeys(s.cache), refusedDB))
  }

  ghost predicate DBCleared(s: State, uid: int, refusedDB: set<FormIdKey>, failing: set<int>, t: State) {
    var hits := EntriesListing(s.cache, uid);
    var last := LastUserOfEntry(s.cache, hits, uid);
    var back := Refused(last, EntryKeys(s.cache), refusedDB);
    && t.cache == CacheAfter(CacheSwept(s.cache, hits, uid), back, last - back, uid)
    && StoreAfter(CacheSwept(s.cache, hits, uid), s.store, t.store, back, last - back, uid, failing)
  }

  ghost predicate TempsCleared(records: Records, temp: seq<int>, uid: int, refusedTemp: set<FormIdKey>, t: State) {
    var temps := TempFormsListing(records, uid);
    var last := LastUserOf(records, temps, uid);
    var back := Refused(last, KeysOf(records), refusedTemp);
    && t.records == Relisted(UnlistAll(records, temps, uid), back, uid) - (last - back)
    && t.temp == Without(temp, last - back)
  }

  ghost predicate DataClearedTo(s: State, uid: int, refusedDB: set<FormIdKey>, refusedTemp: set<FormIdKey>,
                                failing: set<int>, t: State) {
    && DBCleared(s, uid, refusedDB, failing, t)
    && TempsCleared(ClearedRecords(s, uid, refusedDB), s.temp, uid, refusedTemp, t)
    && t.hosts == HostsOfOthers(s.hosts, uid)
  }

  // A generated id is new.
  predicate FreshId(s: State, id: int) {
    id < 0 || (id !in s.records && id !in Ids(s.cache))
  }

  ghost predicate Step(s: State, op: Op, t: State, udidHash: int) {
    match op
    case Add(info, token, uid, out) =>
      (info.formId == 0 ==> FreshId(s, out.newFormId)) && t == AfterAdd(s, info, token, uid, udidHash, out).state
    case Delete(formId, token, uid, out) => t == AfterDelete(s, formId, MatchedId(s.records, formId), token, uid, out).state
    case Release(formId, token, uid, delCache, out) =>
      t == AfterRelease(s, formId, MatchedId(s.records, formId), token, uid, delCache, out).state
    case Cast(formId, token, uid, out) => t == AfterCast(s, formId, MatchedId(s.records, formId), token, uid, out).state
    case DeleteInvalid(formIds, token, uid, failing) =>
      if token == NO_TOKEN then t == s
      else exists matched :: AllMatched(s.records, formIds, matched) && t == AfterDeleteInvalid(s, uid, matched, failing)
    case HostDied(token) => t == AfterHostDied(s, token)
    case UserRemoved(userId, failing) => t == AfterUserRemoved(s, userId, failing)
    case BundleRemoved(bundleName, userId, failing) => t == AfterBundleRemoved(s, bundleName, userId, failing)
    case DataCleared(uid, refusedDB, refusedTemp, failing) => DataClearedTo(s, uid, refusedDB, refusedTemp, failing, t)
  }

  // A step with what the caller is answered; nobody is answered on an event.
  ghost predicate Answered(s: State, op: Op, t: State, code: ErrCode, udidHash: int) {
    match op
    case Add(info, token, uid, out) =>
      (info.formId == 0 ==> FreshId(s, out.newFormId)) && Outcome(t, code) == AfterAdd(s, info, token, uid, udidHash, out)
    case Delete(formId, token, uid, out) =>
      Outcome(t, code) == AfterDelete(s, formId, MatchedId(s.records, formId), token, uid, out)
    case Release(formId, token, uid, delCache, out) =>
      Outcome(t, code) == AfterRelease(s, formId, MatchedId(s.records, formId), token, uid, delCache, out)
    case Cast(formId, token, uid, out) =>
      Outcome(t, code) == AfterCast(s, formId, MatchedId(s.records, formId), token, uid, out)
    case DeleteInvalid(_, token, _, _) => Step(s, op, t, udidHash) && code == if token == NO_TOKEN then InvalidParam else Ok
    case _ => Step(s, op, t, udidHash) && code == Ok
  }

  ghost predicate Run(states: seq<State>, ops: seq<Op>, udidHash: int) {
    && |states| == |ops| + 1
    && forall i :: 0 <= i < |ops| ==> Step(states[i], ops[i], states[i + 1], udidHash)
  }

  // ----- the service: each step is what the methods do -----

  class FormMgrService {
    const adapter: FormMgrAdapter
    const events: FormSysEventReceiver

    constructor (adapter: FormMgrAdapter, events: FormSysEventReceiver)
      requires adapter.data == events.data && adapter.db == events.db
      ensures Valid() && this.adapter == adapter && this.events == events
    {
      this.adapter, this.events := adapter, events;
    }

    ghost predicate Valid() {
      adapter.data == events.data && adapter.db == events.db
    }

    method Perform(op: Op) returns (code: ErrCode)
      requires Valid() && Consistent(adapter.Now())
      requires op.Add? && op.info.formId == 0 ==> FreshId(adapter.Now(), op.out.newFormId)
      modifies adapter.data, adapter.db
      ensures Step(old(adapter.Now()), op, adapter.Now(), adapter.udidHash)
      ensures Answered(old(adapter.Now()), op, adapter.Now(), code, adapter.udidHash)
    {
      hide AfterAdd, AfterDelete, AfterRelease, AfterCast, MatchedId, AllMatched, AfterDeleteInvalid, NoDuplicates, DistinctIds,
           Apart, ListedOnce, EntriesListedOnce;
      hide UserForms, UserEntries, CacheWithout, Without, TempAmong, BundleEntries, BundleTempForms, HostsCleaned, HostForms,
           HostGone, Among, FreshId;
      hide EntriesListing, LastUserOfEntry, Refused, EntryKeys, KeysOf, UnlistAll, CacheSwept, CacheAfter, StoreAfter,
           TempFormsListing, LastUserOf, Relisted, HostsOfOthers;
      code := Ok;
      match op
      case Add(info, token, uid, out) => code := adapter.AddForm(info, token, uid, out);
      case Delete(formId, token, uid, out) => code := adapter.DeleteForm(formId, token, uid, out);
      case Release(formId, token, uid, delCache, out) => code := adapter.ReleaseForm(formId, token, uid, delCache, out);
      case Cast(formId, token, uid, out) => code := adapter.CastTempForm(formId, token, uid, out);
      case DeleteInvalid(formIds, token, uid, failing) =>
        var answer, _, matched := adapter.DeleteInvalidForms(formIds, token, uid, failing);
        code := answer;
      case HostDied(token) => HostDied(token);
      case UserRemoved(userId, failing) => events.HandleUserIdRemoved(userId, failing);
      case BundleRemoved(bundleName, userId, failing) => events.HandleProviderRemoved(bundleName, userId, failing);
      case DataCleared(uid, refusedDB, refusedTemp, failing) =>
        events.HandleFormHostDataCleared(uid, refusedDB, refusedTemp, failing);
    }

    method HostDied(token: int)
      modifies adapter.data
      ensures adapter.Now() == AfterHostDied(old(adapter.Now()), token)
    {
      hide Without, HostForms, HostGone;
      ghost var forms := HostForms(adapter.data.clientRecords, token);
      assert Among(adapter.data.tempForms, forms) == set id | id in adapter.data.tempForms && id in forms;
      adapter.data.HandleHostDied(token);
    }
  }

  // ----- consistency -----

  ghost predicate Consistent(s: State) {
    && TempForms(s.records, s.temp) && Apart(s.temp, s.cache) && DistinctIds(s.cache)
    && ListedOnce(s.records) && EntriesListedOnce(s.cache)
  }

  lemma EmptyIsConsistent(hosts: seq<FormHostRecord>)
    ensures Consistent(State(map[], [], hosts, [], map[])) && Synced([], map[])
  {
  }

  // Saving a form that is not temporary.
  lemma SavedKeeps(s: State, id: int, r: FormRecord, failing: set<int>)
    requires Consistent(s) && id !in s.temp && NoDuplicates(r.formUserUids)
    ensures Consistent(Saved(s, id, r, failing))
  {
    hide SavedCache, SavedStore, DistinctIds, TempForms, ListedOnce, EntriesListedOnce, NoDuplicates;
    SavedHas(s.cache, DBInfoOf(id, r));
    SavedIds(s.cache, DBInfoOf(id, r));
    SavedListsKeep(s.cache, DBInfoOf(id, r));
  }

  lemma AllottedKeeps(s: State, info: FormItemInfo, token: int, uid: int)
    requires Consistent(s)
    requires if info.temporary then FreshId(s, info.formId) && info.formId >= 0 && |s.temp| < MAX_TEMP_FORMS
             else info.formId !in s.temp
    ensures Consistent(AllottedState(s, info, token, uid))
    ensures var t := AllottedState(s, info, token, uid);
            info.formId in t.records && NoDuplicates(t.records[info.formId].formUserUids)
            && t.cache == s.cache && (!info.temporary ==> t.temp == s.temp)
  {
    hide HostAllotted, TempForms, DistinctIds, EntriesListedOnce, Ids;
    AllotKeeps(s.records, s.temp, info, uid, UserIdOf(uid)) by {
      assert info.temporary || info.formId !in s.temp;
    }
  }

  lemma AddNewKeeps(s: State, info: FormItemInfo, token: int, uid: int, out: Outside)
    requires Consistent(s)
    requires if info.temporary then FreshId(s, info.formId) && info.formId >= 0 && |s.temp| < MAX_TEMP_FORMS
             else info.formId !in s.temp
    ensures Consistent(AfterAddNew(s, info, token, uid, out).state)
  {
    hide Consistent, AllottedState, Saved, NoDuplicates, FreshId;
    var t := AllottedState(s, info, token, uid);
    AllottedKeeps(s, info, token, uid);
    if !info.temporary {
      SavedKeeps(t, info.formId, t.records[info.formId], out.failing);
    }
  }

  lemma WithUidKeeps(s: State, id: int, uid: int)
    requires Consistent(s)
    ensures Consistent(s.(records := WithUid(s.records, id, uid))) && Consistent(s.(records := WithoutUid(s.records, id, uid)))
  {
    hide WithUid, WithoutUid, TempForms, Apart, DistinctIds, ListedOnce, EntriesListedOnce, SameForms;
    ListUpdatesAreSame(s.records, id, uid, {});
    SameFormsKeep(s.records, WithUid(s.records, id, uid), s.temp);
    SameFormsKeep(s.records, WithoutUid(s.records, id, uid), s.temp);
    RecordListsKeep(s.records, id, uid, {});
  }

  lemma HostsDoNotMatter(s: State, hosts: seq<FormHostRecord>)
    ensures Consistent(s.(hosts := hosts)) <==> Consistent(s)
  {
    hide TempForms, Apart, DistinctIds, ListedOnce, EntriesListedOnce;
  }

  lemma ListIs(records: Records, id: int, uid: int)
    requires ListedOnce(records) && id in records
    ensures NoDuplicates(AddIfMissing(records[id].formUserUids, uid))
  {
    UidListsKeep(records[id].formUserUids, uid);
  }

  lemma AddExistKeeps(s: State, id: int, token: int, uid: int, out: Outside)
    requires Consistent(s) && id in s.records && id !in s.temp
    ensures Consistent(AfterAddExist(s, id, token, uid, out).state)
  {
    hide WithUid, HostAllotted, AddIfMissing, Saved, NoDuplicates, TempForms, Apart, DistinctIds, ListedOnce, EntriesListedOnce;
    var t := HostAdded(s, token, uid, id);
    var r := s.records[id].(formUserUids := AddIfMissing(s.records[id].formUserUids, uid));
    ListIs(s.records, id, uid);
    WithUidKeeps(t, id, uid);
    SavedKeeps(t.(records := WithUid(s.records, id, uid)), id, r, out.failing);
  }

  lemma NotTemp(s: State, id: int)
    requires Consistent(s)
    ensures IndexOf(s.cache, id) != -1 ==> id !in s.temp
    ensures id in s.records && !s.records[id].formTempFlg ==> id !in s.temp
    ensures id in s.temp ==> id in s.records && s.records[id].formTempFlg
    ensures FreshId(s, id) && id >= 0 ==> id !in s.temp
  {
    hide IndexOf;
    if IndexOf(s.cache, id) != -1 {
      assert s.cache[IndexOf(s.cache, id)] in s.cache;
      assert id in Ids(s.cache);
    }
  }

  lemma AddKeeps(s: State, info: FormItemInfo, token: int, uid: int, udidHash: int, out: Outside)
    requires Consistent(s) && (info.formId == 0 ==> FreshId(s, out.newFormId))
    ensures Consistent(AfterAdd(s, info, token, uid, udidHash, out).state)
  {
    hide Consistent, AfterAddNew, AfterAddExist, FormLimit, UserIdOf, IndexOf, FreshId;
    var id := PaddingUDIDHash(info.formId, udidHash);
    NotTemp(s, id);
    NotTemp(s, out.newFormId);
    if info.formId > 0 && !info.temporary {
      if id in s.records && !s.records[id].formTempFlg {
        AddExistKeeps(s, id, token, uid, out);
      }
      if id !in s.temp {
        AddNewKeeps(s, info.(formId := id), token, uid, out);
      }
    } else if info.formId == 0 && out.newFormId >= 0 && (info.temporary ==> |s.temp| < MAX_TEMP_FORMS) {
      assert FreshId(s, out.newFormId);
      AddNewKeeps(s, info.(formId := out.newFormId), token, uid, out);
    }
  }

  lemma DroppedRecordKeeps(s: State, id: int)
    requires Consistent(s) && id !in s.temp
    ensures Consistent(s.(records := s.records - {id}))
  {
    hide TempForms, Apart, DistinctIds, ListedOnce, EntriesListedOnce;
    DropOthersKeeps(s.records, s.temp, {id});
    RecordListsKeep(s.records, id, 0, {id});
  }

  lemma DroppedTempKeeps(s: State, id: int)
    requires Consistent(s)
    ensures Consistent(s.(temp := RemoveFirst(s.temp, id), records := s.records - {id}))
  {
    hide TempForms, DistinctIds, ListedOnce, EntriesListedOnce, RemoveFirst, Ids;
    DropTempKeeps(s.records, s.temp, id);
    RecordListsKeep(s.records, id, 0, {id});
    TempIsUnique(s);
    RemoveFirstIs(s.temp, id);
  }

  lemma TempIsUnique(s: State)
    requires Consistent(s)
    ensures NoDuplicates(s.temp)
  {
  }

  lemma DeleteTempKeeps(s: State, id: int, token: int, uid: int, out: Outside)
    requires Consistent(s)
    ensures Consistent(AfterDeleteTemp(s, id, token, uid, out).state)
  {
    hide Consistent, WithUid, RemoveFirst, UserIdOf, HostReleased;
    if id in s.records {
      var less := s.(records := WithoutUid(s.records, id, uid));
      WithUidKeeps(s, id, uid);
      WithUidKeeps(less, id, uid);
      DroppedTempKeeps(less, id);
      var gone := less.(temp := RemoveFirst(s.temp, id), records := less.records - {id});
      HostsDoNotMatter(less, HostReleased(s.hosts, token, id));
      HostsDoNotMatter(gone, HostReleased(s.hosts, token, id));
    }
  }

  lemma CacheWithoutKeeps(s: State, ids: set<int>, store: Store)
    requires Consistent(s)
    ensures Consistent(s.(cache := CacheWithout(s.cache, ids), store := store))
  {
    hide TempForms, DistinctIds, ListedOnce, CacheWithout, NoDuplicates;
    WithoutHas(s.cache, ids);
    WithoutIds(s.cache, ids);
  }

  lemma DroppedEntryKeeps(s: State, id: int, store: Store)
    requires Consistent(s)
    ensures Consistent(s.(cache := DroppedCache(s.cache, id), store := store))
  {
    hide DroppedCache, CacheWithout, TempForms, Apart, DistinctIds, ListedOnce, EntriesListedOnce;
    CacheWithoutKeeps(s, {id}, store);
    DropIsWithout(s.cache, id);
  }

  lemma OwnEntryIs(s: State, id: int, uid: int)
    requires Consistent(s) && OwnEntry(s.cache, id, uid)
    ensures id !in s.temp
    ensures var d := UnlistDB(s.cache[IndexOf(s.cache, id)], uid);
            NoDuplicates(d.formUserUids)
            && DBInfoOf(id, FormRecord(id, d.userId, d.bundleName, d.moduleName, d.abilityName, d.formName, false, d.formUserUids)) == d
  {
    hide NoDuplicates, IndexOf, RemoveFirst;
    NotTemp(s, id);
    var d := s.cache[IndexOf(s.cache, id)];
    assert d in s.cache;
    UidListsKeep(d.formUserUids, uid);
  }

  lemma DeleteCacheKeeps(s: State, id: int, uid: int, out: Outside)
    requires Consistent(s) && OwnEntry(s.cache, id, uid)
    ensures Consistent(AfterDeleteCache(s, id, uid, out).state)
  {
    hide Consistent, IndexOf, SavedCache, SavedStore, WithoutUid, DroppedCache, DroppedStore, RemoveFirst, NoDuplicates;
    OwnEntryIs(s, id, uid);
    var d := UnlistDB(s.cache[IndexOf(s.cache, id)], uid);
    var r := FormRecord(id, d.userId, d.bundleName, d.moduleName, d.abilityName, d.formName, false, d.formUserUids);
    SavedKeeps(s, id, r, out.failing);
    WithUidKeeps(Saved(s, id, r, out.failing), id, uid);
    DroppedRecordKeeps(s, id);
    DroppedEntryKeeps(s.(records := s.records - {id}), id, DroppedStore(s.store, {id}, out.failing));
  }

  lemma DeleteKeeps(s: State, formId: int, id: int, token: int, uid: int, out: Outside)
    requires Consistent(s)
    ensures Consistent(AfterDelete(s, formId, id, token, uid, out).state)
  {
    hide Consistent, AfterDeleteTemp, AfterDeleteCache, HostReleased, IndexOf;
    DeleteTempKeeps(s, id, token, uid, out);
    if OwnEntry(s.cache, id, uid) {
      DeleteCacheKeeps(s, id, uid, out);
      var t := AfterDeleteCache(s, id, uid, out).state;
      HostsDoNotMatter(t, HostReleased(t.hosts, token, id));
    }
  }

  lemma ReleaseKeeps(s: State, formId: int, id: int, token: int, uid: int, delCache: bool, out: Outside)
    requires Consistent(s)
    ensures Consistent(AfterRelease(s, formId, id, token, uid, delCache, out).state)
  {
    hide Consistent, AfterDeleteTemp, HostReleased, IndexOf, WithoutUid, HostForms, OwnEntry;
    DeleteTempKeeps(s, id, token, uid, out);
    if id !in s.temp {
      var less := s.(records := WithoutUid(s.records, id, uid));
      var gone := less.(records := less.records - {id});
      WithUidKeeps(s, id, uid);
      DroppedRecordKeeps(less, id);
      HostsDoNotMatter(s, HostReleased(s.hosts, token, id));
      HostsDoNotMatter(less, HostReleased(s.hosts, token, id));
      HostsDoNotMatter(gone, HostReleased(s.hosts, token, id));
      if id in s.records {
        WithoutUidHas(s.records, id, uid);
      }
    }
  }

  lemma WithoutUidHas(records: Records, id: int, uid: int)
    requires id in records
    ensures id in WithoutUid(records, id, uid)
  {
  }

  lemma CastStateKeeps(s: State, id: int, r: FormRecord)
    requires Consistent(s) && id in s.records && r.formId == id && !r.formTempFlg && NoDuplicates(r.formUserUids)
    ensures Consistent(s.(temp := RemoveFirst(s.temp, id), records := s.records[id := r])) && id !in RemoveFirst(s.temp, id)
  {
    hide TempForms, DistinctIds, EntriesListedOnce, RemoveFirst, Ids, NoDuplicates;
    CastKeeps(s.records, s.temp, id, r);
  }

  lemma IdIsKey(s: State, id: int)
    requires Consistent(s) && id in s.records
    ensures s.records[id].formId == id && ListedOnce(s.records)
  {
  }

  lemma CastFormKeeps(s: State, formId: int, id: int, token: int, uid: int, out: Outside)
    requires Consistent(s)
    ensures Consistent(AfterCast(s, formId, id, token, uid, out).state)
  {
    hide Consistent, RemoveFirst, AddIfMissing, Saved, HostForms, FormLimit, NoDuplicates, ListedOnce, SaveSucceeds;
    if id in s.records {
      IdIsKey(s, id);
      ListIs(s.records, id, uid);
      var r := s.records[id].(formTempFlg := false, formUserUids := AddIfMissing(s.records[id].formUserUids, uid));
      CastStateKeeps(s, id, r);
      SavedKeeps(s.(temp := RemoveFirst(s.temp, id), records := s.records[id := r]), id, r, out.failing);
    }
  }

  // ----- the sweeps keep it -----

  lemma SetDropKeeps(s: State, ids: set<int>, listed: set<int>)
    requires Consistent(s) && forall k :: k in s.temp ==> (k in ids <==> k in listed)
    ensures Consistent(s.(temp := Without(s.temp, listed), records := s.records - ids))
  {
    hide TempForms, DistinctIds, ListedOnce, EntriesListedOnce, Without, Ids;
    DropKeeps(s.records, s.temp, ids, listed);
    RecordListsKeep(s.records, 0, 0, ids);
    WithoutIs(s.temp, listed);
  }

  lemma HostDiedKeeps(s: State, token: int)
    requires Consistent(s)
    ensures Consistent(AfterHostDied(s, token))
  {
    hide Consistent, Without, HostForms, HostGone;
    var forms := HostForms(s.hosts, token);
    SetDropKeeps(s, Among(s.temp, forms), forms);
    HostsDoNotMatter(s.(temp := Without(s.temp, forms), records := s.records - Among(s.temp, forms)), HostGone(s.hosts, token));
  }

  lemma TempAmongIs(s: State, ids: set<int>)
    requires Consistent(s)
    ensures forall k :: k in s.temp ==> (k in ids <==> k in TempAmong(s.records, ids))
  {
  }

  lemma UserRemovedKeeps(s: State, userId: int, failing: set<int>)
    requires Consistent(s)
    ensures Consistent(AfterUserRemoved(s, userId, failing))
  {
    hide Consistent, Without, UserForms, TempAmong, CacheWithout, UserEntries;
    var gone, entries := UserForms(s.records, userId), UserEntries(s.cache, userId) - failing;
    TempAmongIs(s, gone);
    SetDropKeeps(s, gone, TempAmong(s.records, gone));
    CacheWithoutKeeps(s.(temp := Without(s.temp, TempAmong(s.records, gone)), records := s.records - gone), entries,
                      s.store - entries);
  }

  lemma EntriesAreNotTemp(s: State, ids: set<int>)
    requires Consistent(s) && ids <= Ids(s.cache)
    ensures forall k :: k in s.temp ==> k !in ids
  {
  }

  lemma BundleRemovedKeeps(s: State, bundleName: string, userId: int, failing: set<int>)
    requires Consistent(s)
    ensures Consistent(AfterBundleRemoved(s, bundleName, userId, failing))
  {
    hide Consistent, Without, BundleTempForms, CacheWithout, BundleEntries, HostsCleaned;
    var entries := BundleEntries(s.cache, bundleName, userId) - failing;
    EntriesWithin(s.cache, bundleName, userId);
    EntriesAreNotTemp(s, entries);
    SetDropKeeps(s, entries, {});
    WithoutNone(s.temp, {});
    var less := s.(records := s.records - entries);
    var temps := BundleTempForms(less.records, bundleName, userId);
    SetDropKeeps(less, temps, temps);
    var least := less.(temp := Without(s.temp, temps), records := less.records - temps);
    CacheWithoutKeeps(least, entries, s.store - entries);
    HostsDoNotMatter(least.(cache := CacheWithout(s.cache, entries), store := s.store - entries),
                     HostsCleaned(s.hosts, entries + temps));
  }

  // A sweep takes uid off some records and drops others that are no temporary forms.
  lemma UnlistedKeeps(s: State, hits: set<int>, uid: int)
    requires Consistent(s)
    ensures Consistent(s.(records := UnlistAll(s.records, hits, uid))) && Consistent(s.(records := Relisted(s.records, hits, uid)))
  {
    hide UnlistAll, Relisted, TempForms, Apart, DistinctIds, ListedOnce, EntriesListedOnce, SameForms;
    ListUpdatesAreSame(s.records, 0, uid, hits);
    SameFormsKeep(s.records, UnlistAll(s.records, hits, uid), s.temp);
    SameFormsKeep(s.records, Relisted(s.records, hits, uid), s.temp);
    RecordListsKeep(s.records, 0, uid, hits);
  }

  lemma DropEntriesKeeps(s: State, ids: set<int>)
    requires Consistent(s) && ids <= Ids(s.cache)
    ensures Consistent(s.(records := s.records - ids))
  {
    hide Consistent, Without, Ids;
    EntriesAreNotTemp(s, ids);
    SetDropKeeps(s, ids, {});
    WithoutNone(s.temp, {});
  }

  lemma CacheSweptKeeps(s: State, hits: set<int>, uid: int)
    requires Consistent(s)
    ensures Consistent(s.(cache := CacheSwept(s.cache, hits, uid)))
  {
    hide TempForms, DistinctIds, ListedOnce, EntriesListedOnce, CacheSwept, Ids;
    SweptIds(s.cache, hits, uid);
    SweptListsKeep(s.cache, hits, uid);
  }

  lemma InvalidSets(s: State, uid: int, matched: set<int>)
    ensures LastDBForms(s, uid, matched) <= InvalidDBForms(s, uid, matched) <= Ids(s.cache)
  {
    hide InvalidEntries, LastUserOfEntry, Ids;
    HitsWithin(s.cache, UserIdOf(uid), uid, matched);
  }

  lemma DeleteInvalidKeeps(s: State, uid: int, matched: set<int>, failing: set<int>)
    requires Consistent(s)
    ensures Consistent(AfterDeleteInvalid(s, uid, matched, failing))
  {
    hide Consistent, Without, UnlistAll, CacheWithout, CacheSwept, DroppedStore, InvalidDBForms, LastDBForms, InvalidTemps,
         LastTemps, HostsWithoutForms, Ids;
    var hits, last := InvalidDBForms(s, uid, matched), LastDBForms(s, uid, matched);
    var temps, lastTemps := InvalidTemps(s, uid, matched), LastTemps(s, uid, matched);
    InvalidSets(s, uid, matched);
    UnlistedKeeps(s, hits - last, uid);
    var s1 := s.(records := UnlistAll(s.records, hits - last, uid));
    DropEntriesKeeps(s1, last);
    var s2 := s1.(records := s1.records - last);
    UnlistedKeeps(s2, temps, uid);
    var s3 := s2.(records := UnlistAll(s2.records, temps, uid));
    SetDropKeeps(s3, lastTemps, lastTemps);
    var s4 := s3.(temp := Without(s.temp, lastTemps), records := s3.records - lastTemps);
    CacheSweptKeeps(s4, hits, uid);
    var s5 := s4.(cache := CacheSwept(s.cache, hits, uid));
    CacheWithoutKeeps(s5, last, DroppedStore(s.store, last, failing));
    HostsDoNotMatter(s5.(cache := CacheWithout(s5.cache, last), store := DroppedStore(s.store, last, failing)),
                     if hits + temps == {} then s.hosts else HostsWithoutForms(s.hosts, uid, hits + temps));
  }

  lemma CacheAfterKeeps(s: State, back: set<int>, gone: set<int>, uid: int, store: Store)
    requires Consistent(s) && forall d :: d in s.cache && d.formId in back ==> d.formUserUids == []
    ensures Consistent(s.(cache := CacheAfter(s.cache, back, gone, uid), store := store))
  {
    hide TempForms, DistinctIds, ListedOnce, EntriesListedOnce, CacheAfter, Ids;
    AfterDistinct(s.cache, back, gone, uid);
    AfterIds(s.cache, back, gone, uid);
    AfterListsKeep(s.cache, back, gone, uid);
  }

  // Hits and last users of the entries that list uid.
  lemma EntrySets(s: State, uid: int, refused: set<FormIdKey>)
    ensures var hits := EntriesListing(s.cache, uid);
            var last := LastUserOfEntry(s.cache, hits, uid);
            var back := Refused(last, EntryKeys(s.cache), refused);
            hits <= Ids(s.cache) && last <= hits && back <= last
  {
    hide EntryKeys, LastUserOfEntry, Ids, EntriesListing;
    HitsWithin(s.cache, 0, uid, {});
  }

  lemma DistinctOf(s: State)
    requires Consistent(s)
    ensures DistinctIds(s.cache)
  {
  }

  lemma DBClearedKeeps(s: State, uid: int, refusedDB: set<FormIdKey>, failing: set<int>, t: State)
    requires Consistent(s) && DBCleared(s, uid, refusedDB, failing, t)
    ensures Consistent(s.(records := ClearedRecords(s, uid, refusedDB), cache := t.cache, store := t.store))
  {
    hide Consistent, EntriesListing, LastUserOfEntry, Refused, EntryKeys, UnlistAll, CacheSwept, CacheAfter, StoreAfter, Ids,
         DistinctIds;
    var hits := EntriesListing(s.cache, uid);
    var last := LastUserOfEntry(s.cache, hits, uid);
    var back := Refused(last, EntryKeys(s.cache), refusedDB);
    EntrySets(s, uid, refusedDB);
    UnlistedKeeps(s, hits - last, uid);
    var s1 := s.(records := UnlistAll(s.records, hits - last, uid));
    DropEntriesKeeps(s1, last - back);
    var s2 := s1.(records := s1.records - (last - back));
    CacheSweptKeeps(s2, hits, uid);
    var s3 := s2.(cache := CacheSwept(s.cache, hits, uid));
    DistinctOf(s);
    LastAreEmpty(s.cache, hits, uid);
    CacheAfterKeeps(s3, back, last - back, uid, t.store);
  }

  lemma TempsClearedKeep(s: State, uid: int, refusedTemp: set<FormIdKey>, t: State)
    requires Consistent(s) && TempsCleared(s.records, s.temp, uid, refusedTemp, t)
    ensures Consistent(s.(records := t.records, temp := t.temp))
  {
    hide Consistent, TempFormsListing, LastUserOf, Refused, KeysOf, UnlistAll, Relisted, Without;
    var temps := TempFormsListing(s.records, uid);
    var last := LastUserOf(s.records, temps, uid);
    var back := Refused(last, KeysOf(s.records), refusedTemp);
    UnlistedKeeps(s, temps, uid);
    var s1 := s.(records := UnlistAll(s.records, temps, uid));
    UnlistedKeeps(s1, back, uid);
    var s2 := s1.(records := Relisted(s1.records, back, uid));
    SetDropKeeps(s2, last - back, last - back);
  }

  lemma DataClearedKeeps(s: State, uid: int, refusedDB: set<FormIdKey>, refusedTemp: set<FormIdKey>, failing: set<int>, t: State)
    requires Consistent(s) && DataClearedTo(s, uid, refusedDB, refusedTemp, failing, t)
    ensures Consistent(t)
  {
    hide Consistent, DBCleared, TempsCleared, ClearedRecords, HostsOfOthers;
    DBClearedKeeps(s, uid, refusedDB, failing, t);
    var s1 := s.(records := ClearedRecords(s, uid, refusedDB), cache := t.cache, store := t.store);
    TempsClearedKeep(s1, uid, refusedTemp, t);
    HostsDoNotMatter(s1.(records := t.records, temp := t.temp), t.hosts);
    assert t == s1.(records := t.records, temp := t.temp).(hosts := t.hosts);
  }

  // ----- over whole runs -----

  lemma StepKeeps(s: State, op: Op, t: State, udidHash: int)
    requires Consistent(s) && Step(s, op, t, udidHash)
    ensures Consistent(t)
  {
    hide Consistent, AfterAdd, AfterDelete, AfterRelease, AfterCast, AfterDeleteInvalid, AfterHostDied, AfterUserRemoved,
         AfterBundleRemoved, DataClearedTo, AllMatched, MatchedId, FreshId;
    match op
    case Add(info, token, uid, out) => AddKeeps(s, info, token, uid, udidHash, out);
    case Delete(formId, token, uid, out) => DeleteKeeps(s, formId, MatchedId(s.records, formId), token, uid, out);
    case Release(formId, token, uid, delCache, out) =>
      ReleaseKeeps(s, formId, MatchedId(s.records, formId), token, uid, delCache, out);
    case Cast(formId, token, uid, out) => CastFormKeeps(s, formId, MatchedId(s.records, formId), token, uid, out);
    case DeleteInvalid(formIds, token, uid, failing) =>
      if token != NO_TOKEN {
        var matched :| AllMatched(s.records, formIds, matched) && t == AfterDeleteInvalid(s, uid, matched, failing);
        DeleteInvalidKeeps(s, uid, matched, failing);
      }
    case HostDied(token) => HostDiedKeeps(s, token);
    case UserRemoved(userId, failing) => UserRemovedKeeps(s, userId, failing);
    case BundleRemoved(bundleName, userId, failing) => BundleRemovedKeeps(s, bundleName, userId, failing);
    case DataCleared(uid, refusedDB, refusedTemp, failing) => DataClearedKeeps(s, uid, refusedDB, refusedTemp, failing, t);
  }

  // Over every run the list of temporary forms has no duplicates and no more
  // than 256 entries, it is exactly the records flagged temporary, none of
  // them is in the database, and every record is kept under its own id.
  lemma {:induction false} RunStaysConsistent(states: seq<State>, ops: seq<Op>, udidHash: int)
    requires Run(states, ops, udidHash) && Consistent(states[0])
    ensures forall i :: 0 <= i < |states| ==> Consistent(states[i])
    decreases |ops|
  {
    hide Step, Consistent;
    if |ops| > 0 {
      var n := |ops| - 1;
      assert Run(states[..n + 1], ops[..n], udidHash);
      RunStaysConsistent(states[..n + 1], ops[..n], udidHash);
      StepKeeps(states[n], ops[n], states[n + 1], udidHash);
      forall i | 0 <= i < |states| ensures Consistent(states[i]) {
        if i <= n {
          assert states[..n + 1][i] == states[i];
        }
      }
    }
  }
}
