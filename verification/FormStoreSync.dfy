/** The database cache against the key-value store behind it, over whole runs
    in which the storage calls succeed. */
module FormStoreSync {
  import opened FormTypes
  import opened FormDataMgr
  import opened FormDbCache
  import opened FormSysEvents
  import opened FormMgrAdapter
  import opened FormInvariants
  import opened FormRuns

  predicate Reliable(op: Op) {
    match op
    case Add(_, _, _, out) => out.failing == {}
    case Delete(_, _, _, out) => out.failing == {}
    case Release(_, _, _, _, out) => out.failing == {}
    case Cast(_, _, _, out) => out.failing == {}
    case DeleteInvalid(_, _, _, failing) => failing == {}
    case HostDied(_) => true
    case UserRemoved(_, failing) => failing == {}
    case BundleRemoved(_, _, failing) => failing == {}
    case DataCleared(_, _, _, failing) => failing == {}
  }

  // The two sweeps that take one uid off many entries.
  predicate ClearsUids(op: Op) {
    op.DeleteInvalid? || op.DataCleared?
  }

  // Whatever cache and store have in common, they still have.
  ghost predicate StaysTogether(s: State, t: State) {
    && (Covered(s.cache, s.store) ==> Covered(t.cache, t.store))
    && (Synced(s.cache, s.store) ==> Synced(t.cache, t.store))
  }

  lemma SavedTogether(s: State, id: int, r: FormRecord)
    ensures StaysTogether(s, Saved(s, id, r, {}))
  {
    hide Covered, Synced, SavedCache, SavedStore;
    SaveCovers(s.cache, s.store, DBInfoOf(id, r));
  }

  lemma AddNewTogether(s: State, info: FormItemInfo, token: int, uid: int, out: Outside)
    requires out.failing == {}
    ensures StaysTogether(s, AfterAddNew(s, info, token, uid, out).state)
  {
    hide Covered, Synced, Saved, Allotted, HostAllotted, AddIfMissing, SaveSucceeds;
    var t := AllottedState(s, info, token, uid);
    AllottedHas(s, info, token, uid);
    SavedTogether(t, info.formId, t.records[info.formId]);
  }

  lemma AllottedHas(s: State, info: FormItemInfo, token: int, uid: int)
    ensures info.formId in AllottedState(s, info, token, uid).records
  {
  }

  lemma AddExistTogether(s: State, id: int, token: int, uid: int, out: Outside)
    requires id in s.records && out.failing == {}
    ensures StaysTogether(s, AfterAddExist(s, id, token, uid, out).state)
  {
    hide Covered, Synced, Saved, WithUid, HostAllotted, AddIfMissing;
    var listed := HostAdded(s, token, uid, id).(records := WithUid(s.records, id, uid));
    SavedTogether(listed, id, s.records[id].(formUserUids := AddIfMissing(s.records[id].formUserUids, uid)));
  }

  lemma AddTogether(s: State, info: FormItemInfo, token: int, uid: int, udidHash: int, out: Outside)
    requires out.failing == {}
    ensures StaysTogether(s, AfterAdd(s, info, token, uid, udidHash, out).state)
  {
    hide Covered, Synced, AfterAddNew, AfterAddExist, FormLimit, IndexOf;
    var id := PaddingUDIDHash(info.formId, udidHash);
    AddNewTogether(s, info.(formId := id), token, uid, out);
    AddNewTogether(s, info.(formId := out.newFormId), token, uid, out);
    if id in s.records {
      AddExistTogether(s, id, token, uid, out);
    }
  }

  lemma DroppedTogether(cache: Cache, store: Store, id: int)
    ensures Covered(cache, store) ==> Covered(DroppedCache(cache, id), DroppedStore(store, {id}, {}))
    ensures Synced(cache, store) ==> Synced(DroppedCache(cache, id), DroppedStore(store, {id}, {}))
  {
    hide CacheWithout, DroppedCache;
    assert {id} - {} == {id};
    DropCovers(cache, store, {id});
    if DistinctIds(cache) {
      DropIsWithout(cache, id);
    }
  }

  lemma DeleteTogether(s: State, formId: int, id: int, token: int, uid: int, out: Outside)
    requires out.failing == {}
    ensures StaysTogether(s, AfterDelete(s, formId, id, token, uid, out).state)
  {
    hide Covered, Synced, SavedCache, SavedStore, WithoutUid, DroppedCache, DroppedStore, RemoveFirst, HostReleased, IndexOf;
    if OwnEntry(s.cache, id, uid) {
      SaveCovers(s.cache, s.store, UnlistDB(s.cache[IndexOf(s.cache, id)], uid));
      DroppedTogether(s.cache, s.store, id);
    }
  }

  lemma CastTogether(s: State, formId: int, id: int, token: int, uid: int, out: Outside)
    requires out.failing == {}
    ensures StaysTogether(s, AfterCast(s, formId, id, token, uid, out).state)
  {
    hide Covered, Synced, Saved, RemoveFirst, AddIfMissing, HostForms, FormLimit, SaveSucceeds;
    if id in s.records {
      var r := s.records[id].(formTempFlg := false, formUserUids := AddIfMissing(s.records[id].formUserUids, uid));
      SavedTogether(s.(temp := RemoveFirst(s.temp, id), records := s.records[id := r]), id, r);
    }
  }

  lemma WithoutTogether(s: State, t: State, ids: set<int>)
    requires t.cache == CacheWithout(s.cache, ids - {}) && t.store == s.store - (ids - {})
    ensures StaysTogether(s, t)
  {
    hide Covered, Synced, CacheWithout;
    DropCovers(s.cache, s.store, ids - {});
  }

  // Apart from the two sweeps every call keeps cache and store the same.
  lemma CallsKeepTogether(s: State, op: Op, t: State, udidHash: int)
    requires Step(s, op, t, udidHash) && Reliable(op) && !ClearsUids(op)
    ensures StaysTogether(s, t)
  {
    hide StaysTogether, AfterAdd, AfterDelete, AfterCast, MatchedId, FreshId, Without, UserForms, CacheWithout, UserEntries,
         TempAmong, BundleEntries, BundleTempForms, HostsCleaned, HostForms, HostGone, Among, AfterDeleteTemp, AfterReleaseRecord,
         IndexOf, HostReleased, OwnEntry;
    SameTogether(s);
    match op
    case Add(info, token, uid, out) => AddTogether(s, info, token, uid, udidHash, out);
    case Delete(formId, token, uid, out) => DeleteTogether(s, formId, MatchedId(s.records, formId), token, uid, out);
    case Release(formId, token, uid, delCache, out) =>
      ReleaseTogether(s, formId, MatchedId(s.records, formId), token, uid, delCache, out);
    case Cast(formId, token, uid, out) => CastTogether(s, formId, MatchedId(s.records, formId), token, uid, out);
    case HostDied(token) => SameDatabase(s, t);
    case UserRemoved(userId, failing) => WithoutTogether(s, t, UserEntries(s.cache, userId));
    case BundleRemoved(bundleName, userId, failing) => WithoutTogether(s, t, BundleEntries(s.cache, bundleName, userId));
  }

  lemma SameTogether(s: State)
    ensures StaysTogether(s, s)
  {
  }

  lemma SameDatabase(s: State, t: State)
    requires t.cache == s.cache && t.store == s.store
    ensures StaysTogether(s, t)
  {
  }

  lemma ReleaseTogether(s: State, formId: int, id: int, token: int, uid: int, delCache: bool, out: Outside)
    ensures StaysTogether(s, AfterRelease(s, formId, id, token, uid, delCache, out).state)
  {
    hide StaysTogether, WithUid, WithoutUid, RemoveFirst, HostReleased, HostForms, IndexOf, OwnEntry;
    SameDatabase(s, AfterRelease(s, formId, id, token, uid, delCache, out).state);
  }

  lemma InvalidCovers(s: State, uid: int, matched: set<int>)
    requires Covered(s.cache, s.store)
    ensures var t := AfterDeleteInvalid(s, uid, matched, {}); Covered(t.cache, t.store)
  {
    hide Covered, CacheWithout, CacheSwept, InvalidDBForms, LastDBForms, InvalidTemps, LastTemps, RecordsBetween;
    var hits, last := InvalidDBForms(s, uid, matched), LastDBForms(s, uid, matched);
    SweepCovers(s.cache, s.store, hits, uid);
    DropCovers(CacheSwept(s.cache, hits, uid), s.store, last - {});
    assert last - {} == last;
  }

  lemma ClearedCovers(s: State, uid: int, refusedDB: set<FormIdKey>, t: State)
    requires DBCleared(s, uid, refusedDB, {}, t) && Covered(s.cache, s.store)
    ensures Covered(t.cache, t.store)
  {
    hide Covered, EntriesListing, LastUserOfEntry, Refused, EntryKeys, CacheSwept, CacheAfter, StoreAfter, Ids, DistinctIds;
    var hits := EntriesListing(s.cache, uid);
    var last := LastUserOfEntry(s.cache, hits, uid);
    var back := Refused(last, EntryKeys(s.cache), refusedDB);
    EntrySets(s, uid, refusedDB);
    SweepCovers(s.cache, s.store, hits, uid);
    CoveredIs(s.cache, s.store);
    SweptIds(s.cache, hits, uid);
    AfterCovers(CacheSwept(s.cache, hits, uid), s.store, t.store, back, last - back, uid);
  }

  lemma StepCovers(s: State, op: Op, t: State, udidHash: int)
    requires Step(s, op, t, udidHash) && Reliable(op) && Covered(s.cache, s.store)
    ensures Covered(t.cache, t.store)
  {
    hide Covered, DBCleared, TempsCleared, AllMatched, AfterDeleteInvalid, Synced;
    if !ClearsUids(op) {
      hide Step;
      CallsKeepTogether(s, op, t, udidHash);
    } else if op.DeleteInvalid? {
      if op.token != NO_TOKEN {
        var matched :| AllMatched(s.records, op.formIds, matched) && t == AfterDeleteInvalid(s, op.uid, matched, op.failing);
        InvalidCovers(s, op.uid, matched);
      }
    } else {
      ClearedCovers(s, op.uid, op.refusedDB, t);
    }
  }

  // ----- over whole runs -----

  // Cache and store hold the same forms with the same fields, and every user
  // in the cache is in the store.
  lemma {:induction false} RunCovers(states: seq<State>, ops: seq<Op>, udidHash: int)
    requires Run(states, ops, udidHash) && (forall i :: 0 <= i < |ops| ==> Reliable(ops[i]))
    requires Covered(states[0].cache, states[0].store)
    ensures forall i :: 0 <= i < |states| ==> Covered(states[i].cache, states[i].store)
    decreases |ops|
  {
    hide Step, Covered, Reliable;
    if |ops| > 0 {
      var n := |ops| - 1;
      assert Run(states[..n + 1], ops[..n], udidHash);
      RunCovers(states[..n + 1], ops[..n], udidHash);
      assert states[..n + 1][n] == states[n];
      StepCovers(states[n], ops[n], states[n + 1], udidHash);
      forall i | 0 <= i < |states| ensures Covered(states[i].cache, states[i].store) {
        if i <= n {
          assert states[..n + 1][i] == states[i];
        }
      }
    }
  }

  // On runs without the two sweeps they stay the same.
  lemma {:induction false} RunSyncs(states: seq<State>, ops: seq<Op>, udidHash: int)
    requires Run(states, ops, udidHash)
    requires forall i :: 0 <= i < |ops| ==> Reliable(ops[i]) && !ClearsUids(ops[i])
    requires Synced(states[0].cache, states[0].store)
    ensures forall i :: 0 <= i < |states| ==> Synced(states[i].cache, states[i].store)
    decreases |ops|
  {
    hide Step, Synced, Reliable, ClearsUids;
    if |ops| > 0 {
      var n := |ops| - 1;
      assert Run(states[..n + 1], ops[..n], udidHash);
      RunSyncs(states[..n + 1], ops[..n], udidHash);
      assert states[..n + 1][n] == states[n];
      CallsKeepTogether(states[n], ops[n], states[n + 1], udidHash);
      forall i | 0 <= i < |states| ensures Synced(states[i].cache, states[i].store) {
        if i <= n {
          assert states[..n + 1][i] == states[i];
        }
      }
    }
  }

  // From the start of the service: temporary forms and records fit together
  // whatever the outside answers, and as long as storing succeeds the store
  // covers the cache, and is the same without the two sweeps.
  lemma RunFromStart(states: seq<State>, ops: seq<Op>, udidHash: int)
    requires Run(states, ops, udidHash) && states[0] == State(map[], [], [], [], map[])
    ensures forall i :: 0 <= i < |states| ==> Consistent(states[i])
    ensures (forall i :: 0 <= i < |ops| ==> Reliable(ops[i])) ==>
              forall i :: 0 <= i < |states| ==> Covered(states[i].cache, states[i].store)
    ensures (forall i :: 0 <= i < |ops| ==> Reliable(ops[i]) && !ClearsUids(ops[i])) ==>
              forall i :: 0 <= i < |states| ==> Synced(states[i].cache, states[i].store)
  {
    hide Step, Synced, Covered, Consistent, Reliable, ClearsUids;
    EmptyIsConsistent([]);
    SyncedIsCovered([], map[]);
    RunStaysConsistent(states, ops, udidHash);
    if forall i :: 0 <= i < |ops| ==> Reliable(ops[i]) {
      RunCovers(states, ops, udidHash);
    }
    if forall i :: 0 <= i < |ops| ==> Reliable(ops[i]) && !ClearsUids(ops[i]) {
      RunSyncs(states, ops, udidHash);
    }
  }

  // ----- exactly when a sweep drives them apart -----

  // The sweep edits the cached entry in place and then finds nothing to save:
  // the store keeps uid, unless the form goes altogether or is written again.
  lemma InvalidSyncsIff(s: State, uid: int, matched: set<int>)
    requires Synced(s.cache, s.store)
    ensures var t := AfterDeleteInvalid(s, uid, matched, {});
            Synced(t.cache, t.store) <==> InvalidDBForms(s, uid, matched) <= LastDBForms(s, uid, matched)
  {
    hide CacheSwept, CacheWithout, InvalidDBForms, LastDBForms, InvalidTemps, LastTemps, RecordsBetween, DistinctIds, Ids;
    var t := AfterDeleteInvalid(s, uid, matched, {});
    var hits, last := InvalidDBForms(s, uid, matched), LastDBForms(s, uid, matched);
    var swept := CacheSwept(s.cache, hits, uid);
    SweptHas(s.cache, hits, uid);
    SweptIds(s.cache, hits, uid);
    WithoutHas(swept, last);
    WithoutIds(swept, last);
    assert last - {} == last;
    if hits <= last {
      forall e | e in t.cache ensures e.formId in t.store && t.store[e.formId] == e {
        var d :| d in s.cache && e == if d.formId in hits then UnlistDB(d, uid) else d;
      }
    } else {
      NotWithin(hits, last);
      var id :| id in hits && id !in last;
      InvalidIs(s, uid, matched, id);
      var d :| d in s.cache && d.formId == id && uid in d.formUserUids;
      assert UnlistDB(d, uid) in swept;
      RemoveFirstOnly(d.formUserUids, uid);
      assert t.store[id] == d != UnlistDB(d, uid);
    }
  }

  lemma NotWithin(a: set<int>, b: set<int>)
    ensures a <= b || exists x :: x in a && x !in b
  {
    if forall x :: x in a ==> x in b {
      assert a <= b;
    }
  }

  lemma InvalidIs(s: State, uid: int, matched: set<int>, id: int)
    requires id in InvalidDBForms(s, uid, matched)
    ensures exists d :: d in s.cache && d.formId == id && uid in d.formUserUids
  {
  }

  lemma ClearedSyncsIff(s: State, uid: int, refusedDB: set<FormIdKey>, t: State)
    requires Synced(s.cache, s.store) && DBCleared(s, uid, refusedDB, {}, t)
    ensures Synced(t.cache, t.store)
            <==> EntriesListing(s.cache, uid) <= LastUserOfEntry(s.cache, EntriesListing(s.cache, uid), uid)
  {
    hide *;
    var hits := EntriesListing(s.cache, uid);
    var last := LastUserOfEntry(s.cache, hits, uid);
    var back := Refused(last, EntryKeys(s.cache), refusedDB);
    var swept := CacheSwept(s.cache, hits, uid);
    ClearedIs(s, uid, refusedDB, t);
    SyncedIs(s.cache, s.store);
    SyncedIs(t.cache, t.store);
    EntrySets(s, uid, refusedDB);
    SweptHas(s.cache, hits, uid);
    SweptIds(s.cache, hits, uid);
    AfterDistinct(swept, back, last - back, uid);
    AfterHas(swept, back, last - back, uid);
    AfterIds(swept, back, last - back, uid);
    forall id ensures id in t.store <==> id in Ids(t.cache) {
      StoreAfterKeys(swept, s.store, t.store, back, last - back, uid, id);
    }
    if hits <= last {
      forall e | e in t.cache ensures Agrees(e, t.store) {
        var c :| c in swept && Kept(c, e, back, last - back, uid);
        var d :| d in s.cache && c == if d.formId in hits then UnlistDB(d, uid) else d;
        KeptAgrees(s.store, t.store, swept, hits, last, back, uid, d, c, e);
      }
    } else {
      NotWithin(hits, last);
      var id :| id in hits && id !in last;
      ListingIs(s.cache, uid, id);
      var d :| d in s.cache && d.formId == id && uid in d.formUserUids;
      LeftBehind(s, t, hits, last, back, uid, d);
    }
  }

  lemma ClearedIs(s: State, uid: int, refusedDB: set<FormIdKey>, t: State)
    requires DBCleared(s, uid, refusedDB, {}, t)
    ensures var hits := EntriesListing(s.cache, uid);
            var last := LastUserOfEntry(s.cache, hits, uid);
            var back := Refused(last, EntryKeys(s.cache), refusedDB);
            && t.cache == CacheAfter(CacheSwept(s.cache, hits, uid), back, last - back, uid)
            && StoreAfter(CacheSwept(s.cache, hits, uid), s.store, t.store, back, last - back, uid, {})
  {
    hide EntriesListing, LastUserOfEntry, Refused, EntryKeys, CacheSwept, CacheAfter, StoreAfter;
  }

  lemma ListingIs(cache: Cache, uid: int, id: int)
    requires id in EntriesListing(cache, uid)
    ensures exists d :: d in cache && d.formId == id && uid in d.formUserUids
  {
  }

  lemma KeptAgrees(store: Store, now: Store, swept: Cache, hits: set<int>, last: set<int>, back: set<int>, uid: int,
                   d: FormDBInfo, c: FormDBInfo, e: FormDBInfo)
    requires DistinctIds(swept) && StoreAfter(swept, store, now, back, last - back, uid, {}) && c in swept
    requires Kept(c, e, back, last - back, uid) && c == (if d.formId in hits then UnlistDB(d, uid) else d) && Agrees(d, store)
    requires hits <= last && back <= last
    ensures Agrees(e, now)
  {
    hide StoreAfter, DistinctIds, RemoveFirst;
    StoreAfterIs(swept, store, now, back, last - back, uid, c);
  }

  // A form uid shared with others: the cache lost uid, the store did not.
  lemma LeftBehind(s: State, t: State, hits: set<int>, last: set<int>, back: set<int>, uid: int, d: FormDBInfo)
    requires Synced(s.cache, s.store) && d in s.cache && d.formId in hits && d.formId !in last && uid in d.formUserUids
    requires back <= last && t.cache == CacheAfter(CacheSwept(s.cache, hits, uid), back, last - back, uid)
    requires StoreAfter(CacheSwept(s.cache, hits, uid), s.store, t.store, back, last - back, uid, {})
    ensures !Synced(t.cache, t.store)
  {
    hide CacheAfter, CacheSwept, StoreAfter, DistinctIds, Ids;
    var swept := CacheSwept(s.cache, hits, uid);
    SweptHas(s.cache, hits, uid);
    SweptIds(s.cache, hits, uid);
    AfterHas(swept, back, last - back, uid);
    RemoveFirstOnly(d.formUserUids, uid);
    var c := UnlistDB(d, uid);
    assert c in swept;
    StoreAfterIs(swept, s.store, t.store, back, last - back, uid, c);
    assert c in t.cache && t.store[c.formId] == d != c;
  }

  // ----- runs on which they part -----

  const SHARED_FORM := 0x5_0000_0001

  function AllWell(): Outside {
    Outside(true, true, true, false, true, true, true, SHARED_FORM, {})
  }

  function FormInfo(formId: int): FormItemInfo {
    FormItemInfo(formId, "bundle", "module", "ability", "form", false)
  }

  // Caller 1 adds a normal form, and caller 2 adds it by its id.
  function SharingOps(): seq<Op> {
    [Add(FormInfo(0), 11, 1, AllWell()), Add(FormInfo(SHARED_FORM), 12, 2, AllWell())]
  }

  function SharedRecord(uids: seq<int>): FormRecord {
    FormRecord(SHARED_FORM, 0, "bundle", "module", "ability", "form", false, uids)
  }

  function SharedState(uids: seq<int>, hosts: seq<FormHostRecord>): State {
    var d := DBInfoOf(SHARED_FORM, SharedRecord(uids));
    State(map[SHARED_FORM := SharedRecord(uids)], [], hosts, [d], map[SHARED_FORM := d])
  }

  function SharingStates(): seq<State> {
    [State(map[], [], [], [], map[]), SharedState([1], [FormHostRecord(11, 1, {SHARED_FORM})]),
     SharedState([1, 2], [FormHostRecord(11, 1, {SHARED_FORM}), FormHostRecord(12, 2, {SHARED_FORM})])]
  }

  lemma NoForms(records: Records)
    requires records == map[]
    ensures FormLimit(records, 0, 1) == NoLimit
  {
    assert NormalForms(records, 0) == {} && NormalFormsOf(records, 0, 1) == {};
  }

  lemma FirstAdded()
    ensures Step(SharingStates()[0], SharingOps()[0], SharingStates()[1], 0)
  {
    hide FormLimit;
    NoForms(map[]);
  }

  lemma SecondAdded()
    ensures Step(SharingStates()[1], SharingOps()[1], SharingStates()[2], 0)
  {
    hide FormLimit;
    var s, t, out := SharingStates()[1], SharingStates()[2], AllWell();
    var d, e := s.cache[0], t.cache[0];
    assert HostAdded(s, 12, 2, SHARED_FORM) == s.(hosts := t.hosts) by {
      assert s.hosts[1..] == [] && HostAllotted([], 12, 2, SHARED_FORM) == [FormHostRecord(12, 2, {SHARED_FORM})];
    }
    assert AddIfMissing([1], 2) == [1, 2] && WithUid(s.records, SHARED_FORM, 2) == t.records;
    assert IndexOf(s.cache, SHARED_FORM) == 0 && SavedCache(s.cache, e) == [e];
    assert SavedStore(s.cache, s.store, e, {}) == t.store;
    assert AfterAddExist(s, SHARED_FORM, 12, 2, out).state == t;
  }

  lemma Sharing()
    ensures Run(SharingStates(), SharingOps(), 0)
    ensures var s := SharingStates()[2];
            && Synced(s.cache, s.store) && s.cache == [DBInfoOf(SHARED_FORM, SharedRecord([1, 2]))]
  {
    hide Step;
    FirstAdded();
    SecondAdded();
  }

  lemma OneMoreStep(states: seq<State>, ops: seq<Op>, op: Op, t: State, udidHash: int)
    requires Run(states, ops, udidHash) && Step(states[|ops|], op, t, udidHash)
    ensures Run(states + [t], ops + [op], udidHash)
  {
    hide Step;
    var all, log := states + [t], ops + [op];
    forall i | 0 <= i < |log| ensures Step(all[i], log[i], all[i + 1], udidHash) {
      if i < |ops| {
        assert Step(states[i], ops[i], states[i + 1], udidHash);
      }
    }
  }

  lemma SharedIsHit()
    ensures var s := SharingStates()[2];
            && SHARED_FORM in InvalidDBForms(s, 1, {}) && SHARED_FORM !in LastDBForms(s, 1, {})
            && SHARED_FORM in EntriesListing(s.cache, 1)
            && SHARED_FORM !in LastUserOfEntry(s.cache, EntriesListing(s.cache, 1), 1)
  {
    var s := SharingStates()[2];
    var d := s.cache[0];
    assert d in s.cache && 1 in d.formUserUids && d.userId == UserIdOf(1);
    assert RemoveFirst([1, 2], 1) == [2];
    assert UnlistDB(d, 1).formUserUids == [2];
  }

  // Then caller 1 has its invalid forms deleted: on this run storing always
  // succeeds, and in the end the store lists caller 1 where the cache does not.
  lemma InvalidParts() returns (states: seq<State>, ops: seq<Op>)
    ensures Run(states, ops, 0) && states[0] == State(map[], [], [], [], map[])
    ensures ops == SharingOps() + [DeleteInvalid([], 11, 1, {})] && forall i :: 0 <= i < |ops| ==> Reliable(ops[i])
    ensures Synced(states[2].cache, states[2].store) && !Synced(states[3].cache, states[3].store)
  {
    hide *;
    SharingShape();
    var s := SharingStates()[2];
    var t := AfterDeleteInvalid(s, 1, {}, {});
    ops, states := SharingOps() + [DeleteInvalid([], 11, 1, {})], SharingStates() + [t];
    Sharing();
    InvalidStep(s, t);
    OneMoreStep(SharingStates(), SharingOps(), DeleteInvalid([], 11, 1, {}), t, 0);
    SharedIsHit();
    InvalidSyncsIff(s, 1, {});
    assert forall i :: 0 <= i < |ops| ==> Reliable(ops[i]) by {
      SharingReliable();
    }
  }

  lemma SharingShape()
    ensures |SharingStates()| == 3 && |SharingOps()| == 2 && SharingStates()[0] == State(map[], [], [], [], map[])
  {
  }

  lemma SharingReliable()
    ensures Reliable(SharingOps()[0]) && Reliable(SharingOps()[1])
    ensures Reliable(DeleteInvalid([], 11, 1, {})) && Reliable(DataCleared(1, {}, {}, {}))
  {
  }

  lemma InvalidStep(s: State, t: State)
    requires t == AfterDeleteInvalid(s, 1, {}, {})
    ensures Step(s, DeleteInvalid([], 11, 1, {}), t, 0)
  {
    hide AfterDeleteInvalid, Matches;
    assert AllMatched(s.records, [], {});
  }

  // The same when the data of caller 1 is cleared.
  lemma ClearingParts() returns (states: seq<State>, ops: seq<Op>)
    ensures Run(states, ops, 0) && states[0] == State(map[], [], [], [], map[])
    ensures ops == SharingOps() + [DataCleared(1, {}, {}, {})] && forall i :: 0 <= i < |ops| ==> Reliable(ops[i])
    ensures Synced(states[2].cache, states[2].store) && !Synced(states[3].cache, states[3].store)
  {
    hide *;
    SharingShape();
    var s := SharingStates()[2];
    var t := ClearedState(s);
    ops, states := SharingOps() + [DataCleared(1, {}, {}, {})], SharingStates() + [t];
    Sharing();
    ClearingStep(s);
    OneMoreStep(SharingStates(), SharingOps(), DataCleared(1, {}, {}, {}), t, 0);
    SharedIsHit();
    ClearedSyncsIff(s, 1, {}, t);
    assert forall i :: 0 <= i < |ops| ==> Reliable(ops[i]) by {
      SharingReliable();
    }
  }

  // What clearing the data of caller 1 leaves, when all providers agree.
  ghost function ClearedState(s: State): State {
    var hits := EntriesListing(s.cache, 1);
    var last := LastUserOfEntry(s.cache, hits, 1);
    var records := ClearedRecords(s, 1, {});
    var gone := LastUserOf(records, TempFormsListing(records, 1), 1);
    State(UnlistAll(records, TempFormsListing(records, 1), 1) - gone, Without(s.temp, gone), HostsOfOthers(s.hosts, 1),
          CacheAfter(CacheSwept(s.cache, hits, 1), {}, last, 1), s.store - last)
  }

  lemma NothingRefused(last: set<int>, keys: map<int, FormIdKey>)
    ensures Refused(last, keys, {}) == {} && last - {} == last
  {
  }

  lemma NothingRelisted(records: Records, uid: int)
    ensures Relisted(records, {}, uid) == records
  {
  }

  lemma ClearingStep(s: State)
    ensures Step(s, DataCleared(1, {}, {}, {}), ClearedState(s), 0) && DBCleared(s, 1, {}, {}, ClearedState(s))
  {
    hide EntriesListing, LastUserOfEntry, ClearedRecords, TempFormsListing, LastUserOf, UnlistAll, Relisted, Refused, EntryKeys,
         KeysOf, CacheAfter, CacheSwept, Without, HostsOfOthers;
    var hits := EntriesListing(s.cache, 1);
    var last := LastUserOfEntry(s.cache, hits, 1);
    var records := ClearedRecords(s, 1, {});
    var temps := TempFormsListing(records, 1);
    NothingRefused(last, EntryKeys(s.cache));
    NothingRefused(LastUserOf(records, temps, 1), KeysOf(records));
    NothingRelisted(UnlistAll(records, temps, 1), 1);
  }
}
