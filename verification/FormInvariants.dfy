/** What the registries promise about their contents, and how the updates the
    public calls are made of keep it. */
module FormInvariants {
  import opened FormTypes
  import opened FormDataMgr
  import opened FormDbCache
  import opened FormSysEvents

  // The list of temporary forms is exactly the records flagged temporary.
  ghost predicate TempForms(records: Records, temp: seq<int>) {
    && NoDuplicates(temp) && |temp| <= MAX_TEMP_FORMS
    && (forall k :: k in temp <==> k in records && records[k].formTempFlg)
    && forall k :: k in records ==> records[k].formId == k
  }

  // No temporary form is in the database.
  ghost predicate Apart(temp: seq<int>, cache: Cache) {
    forall k :: k in temp ==> k !in Ids(cache)
  }

  // Nobody is listed twice.
  ghost predicate ListedOnce(records: Records) {
    forall k :: k in records ==> NoDuplicates(records[k].formUserUids)
  }

  ghost predicate EntriesListedOnce(cache: Cache) {
    forall d :: d in cache ==> NoDuplicates(d.formUserUids)
  }

  // ----- temporary forms -----

  // Same records up to the lists of users.
  ghost predicate SameForms(a: Records, b: Records) {
    a.Keys == b.Keys && forall k :: k in a ==> a[k].(formUserUids := []) == b[k].(formUserUids := [])
  }

  lemma SameFormsKeep(a: Records, b: Records, temp: seq<int>)
    requires TempForms(a, temp) && SameForms(a, b)
    ensures TempForms(b, temp)
  {
    forall k | k in b ensures b[k].formId == k && b[k].formTempFlg == a[k].formTempFlg {
      assert a[k].(formUserUids := []).formId == b[k].(formUserUids := []).formId;
      assert a[k].(formUserUids := []).formTempFlg == b[k].(formUserUids := []).formTempFlg;
    }
  }

  lemma ListUpdatesAreSame(records: Records, id: int, uid: int, ids: set<int>)
    ensures SameForms(records, WithUid(records, id, uid)) && SameForms(records, WithoutUid(records, id, uid))
    ensures SameForms(records, UnlistAll(records, ids, uid)) && SameForms(records, Relisted(records, ids, uid))
  {
    hide AddIfMissing, RemoveFirst;
  }

  // Records go, and with them their entries in the list.
  lemma DropKeeps(records: Records, temp: seq<int>, ids: set<int>, listed: set<int>)
    requires TempForms(records, temp) && forall k :: k in temp ==> (k in ids <==> k in listed)
    ensures TempForms(records - ids, Without(temp, listed))
  {
    WithoutIs(temp, listed);
  }

  lemma DropOthersKeeps(records: Records, temp: seq<int>, ids: set<int>)
    requires TempForms(records, temp) && forall k :: k in ids ==> k !in temp
    ensures TempForms(records - ids, temp)
  {
    hide Without;
    WithoutNone(temp, {});
    DropKeeps(records, temp, ids, {});
  }

  lemma DropTempKeeps(records: Records, temp: seq<int>, id: int)
    requires TempForms(records, temp)
    ensures TempForms(records - {id}, RemoveFirst(temp, id))
  {
    hide Without, RemoveFirst;
    RemoveOneIs(temp, id);
    DropKeeps(records, temp, {id}, {id});
  }

  lemma AllotKeeps(records: Records, temp: seq<int>, info: FormItemInfo, uid: int, userId: int)
    requires TempForms(records, temp)
    requires if info.temporary then info.formId !in records && |temp| < MAX_TEMP_FORMS else info.formId !in temp
    ensures TempForms(Allotted(records, info, uid, userId), if info.temporary then AddIfMissing(temp, info.formId) else temp)
  {
  }

  lemma CastKeeps(records: Records, temp: seq<int>, id: int, r: FormRecord)
    requires TempForms(records, temp) && id in records
    requires r.formId == id && !r.formTempFlg
    ensures TempForms(records[id := r], RemoveFirst(temp, id)) && id !in RemoveFirst(temp, id)
    ensures forall k :: k in RemoveFirst(temp, id) ==> k in temp
  {
    hide RemoveFirst;
    RemoveFirstIs(temp, id);
    RemoveFirstOnly(temp, id);
  }

  // ----- lists of users -----

  lemma UidListsKeep(uids: seq<int>, uid: int)
    requires NoDuplicates(uids)
    ensures NoDuplicates(AddIfMissing(uids, uid)) && NoDuplicates(RemoveFirst(uids, uid)) && uid !in RemoveFirst(uids, uid)
    ensures forall u :: u != uid ==> (u in RemoveFirst(uids, uid) <==> u in uids)
  {
    hide RemoveFirst;
    RemoveFirstIs(uids, uid);
  }

  lemma RecordListsKeep(records: Records, id: int, uid: int, ids: set<int>)
    requires ListedOnce(records)
    ensures ListedOnce(WithUid(records, id, uid)) && ListedOnce(WithoutUid(records, id, uid))
    ensures ListedOnce(UnlistAll(records, ids, uid)) && ListedOnce(Relisted(records, ids, uid))
    ensures ListedOnce(records - ids)
  {
    hide AddIfMissing, RemoveFirst, NoDuplicates;
    forall k | k in records
      ensures NoDuplicates(AddIfMissing(records[k].formUserUids, uid)) && NoDuplicates(RemoveFirst(records[k].formUserUids, uid))
    {
      UidListsKeep(records[k].formUserUids, uid);
    }
  }

  // ----- the cache -----

  lemma SavedHas(cache: Cache, info: FormDBInfo)
    requires DistinctIds(cache)
    ensures DistinctIds(SavedCache(cache, info))
    ensures forall e :: e in SavedCache(cache, info) <==> e == info || (e in cache && e.formId != info.formId)
  {
    hide IndexOf;
    var i, now := IndexOf(cache, info.formId), SavedCache(cache, info);
    if i == -1 {
      assert forall e :: e in now <==> e in cache || e == info;
      assert forall e :: e in cache ==> e.formId != info.formId;
    } else {
      assert now[i] in now;
      forall e | e in cache && e.formId != info.formId ensures e in now {
        var j :| 0 <= j < |cache| && cache[j] == e;
        assert now[j] == e;
      }
    }
  }

  lemma SavedIds(cache: Cache, info: FormDBInfo)
    requires DistinctIds(cache)
    ensures Ids(SavedCache(cache, info)) == Ids(cache) + {info.formId}
  {
    hide SavedCache;
    SavedHas(cache, info);
    var now := SavedCache(cache, info);
    forall id ensures id in Ids(now) <==> id in Ids(cache) || id == info.formId {
      if id in Ids(cache) && id != info.formId {
        var d :| d in cache && d.formId == id;
        assert d in now;
      }
      assert info in now;
    }
  }

  lemma WithoutIds(cache: Cache, ids: set<int>)
    ensures Ids(CacheWithout(cache, ids)) == Ids(cache) - ids
  {
    hide CacheWithout;
    WithoutHas(cache, ids);
  }

  lemma SweptHas(cache: Cache, hits: set<int>, uid: int)
    ensures forall e :: e in CacheSwept(cache, hits, uid) ==>
              exists d :: d in cache && e == if d.formId in hits then UnlistDB(d, uid) else d
    ensures forall d :: d in cache ==> (if d.formId in hits then UnlistDB(d, uid) else d) in CacheSwept(cache, hits, uid)
  {
    hide UnlistDB;
    var now := CacheSwept(cache, hits, uid);
    forall e | e in now ensures exists d :: d in cache && e == if d.formId in hits then UnlistDB(d, uid) else d {
      var i :| 0 <= i < |now| && now[i] == e;
      assert cache[i] in cache;
    }
    forall d | d in cache ensures (if d.formId in hits then UnlistDB(d, uid) else d) in now {
      var i :| 0 <= i < |cache| && cache[i] == d;
      assert now[i] in now;
    }
  }

  lemma AfterIds(cache: Cache, back: set<int>, gone: set<int>, uid: int)
    ensures Ids(CacheAfter(cache, back, gone, uid)) == Ids(cache) - gone
  {
    hide CacheAfter;
    var now := CacheAfter(cache, back, gone, uid);
    AfterHas(cache, back, gone, uid);
    forall id ensures id in Ids(now) <==> id in Ids(cache) && id !in gone {
      if id in Ids(now) {
        var e :| e in now && e.formId == id;
        var d :| d in cache && Kept(d, e, back, gone, uid);
      }
      if id in Ids(cache) && id !in gone {
        var d :| d in cache && d.formId == id;
        assert (if d.formId in back then Relist(d, uid) else d) in now;
      }
    }
  }

  lemma SavedListsKeep(cache: Cache, info: FormDBInfo)
    requires DistinctIds(cache) && EntriesListedOnce(cache) && NoDuplicates(info.formUserUids)
    ensures EntriesListedOnce(SavedCache(cache, info))
  {
    hide SavedCache;
    SavedHas(cache, info);
  }

  lemma SweptListsKeep(cache: Cache, hits: set<int>, uid: int)
    requires EntriesListedOnce(cache)
    ensures EntriesListedOnce(CacheSwept(cache, hits, uid))
  {
    hide CacheSwept, RemoveFirst, NoDuplicates;
    SweptHas(cache, hits, uid);
    forall e | e in CacheSwept(cache, hits, uid) ensures NoDuplicates(e.formUserUids) {
      var d :| d in cache && e == if d.formId in hits then UnlistDB(d, uid) else d;
      UidListsKeep(d.formUserUids, uid);
    }
  }

  // Entries that lost their last user have an empty list.
  lemma LastAreEmpty(cache: Cache, hits: set<int>, uid: int)
    requires DistinctIds(cache)
    ensures forall e :: e in CacheSwept(cache, hits, uid) && e.formId in LastUserOfEntry(cache, hits, uid) ==>
              e.formUserUids == []
  {
    hide CacheSwept, RemoveFirst;
    SweptHas(cache, hits, uid);
    forall e | e in CacheSwept(cache, hits, uid) && e.formId in LastUserOfEntry(cache, hits, uid) ensures e.formUserUids == [] {
      var d :| d in cache && e == if d.formId in hits then UnlistDB(d, uid) else d;
      var c :| c in cache && c.formId in hits && UnlistDB(c, uid).formUserUids == [] && c.formId == e.formId;
      SameEntry(cache, c, d);
    }
  }

  lemma SameEntry(cache: Cache, c: FormDBInfo, d: FormDBInfo)
    requires DistinctIds(cache) && c in cache && d in cache && c.formId == d.formId
    ensures c == d
  {
    var i :| 0 <= i < |cache| && cache[i] == c;
    var j :| 0 <= j < |cache| && cache[j] == d;
  }

  lemma AfterListsKeep(cache: Cache, back: set<int>, gone: set<int>, uid: int)
    requires EntriesListedOnce(cache) && forall d :: d in cache && d.formId in back ==> d.formUserUids == []
    ensures EntriesListedOnce(CacheAfter(cache, back, gone, uid))
  {
    hide CacheAfter;
    AfterHas(cache, back, gone, uid);
    forall e | e in CacheAfter(cache, back, gone, uid) ensures NoDuplicates(e.formUserUids) {
      var d :| d in cache && Kept(d, e, back, gone, uid);
    }
  }

  // ----- cache and store -----

  predicate SameButUids(d: FormDBInfo, e: FormDBInfo) {
    d.(formUserUids := []) == e.(formUserUids := [])
  }

  // Cache and store hold the same forms; of their users the cache may have
  // lost some.
  ghost predicate Covered(cache: Cache, store: Store) {
    && DistinctIds(cache) && store.Keys == Ids(cache)
    && forall d :: d in cache ==> Covers(d, store)
  }

  predicate Covers(d: FormDBInfo, store: Store) {
    d.formId in store && SameButUids(d, store[d.formId]) && IsSublist(d.formUserUids, store[d.formId].formUserUids)
  }

  // Cache and store are the same.
  ghost predicate Synced(cache: Cache, store: Store) {
    && DistinctIds(cache) && store.Keys == Ids(cache)
    && forall d :: d in cache ==> d.formId in store && store[d.formId] == d
  }

  lemma SyncedIsCovered(cache: Cache, store: Store)
    requires Synced(cache, store)
    ensures Covered(cache, store)
  {
    forall d | d in cache ensures Covers(d, store) {
      SublistSelf(d.formUserUids);
    }
  }

  lemma SaveCovers(cache: Cache, store: Store, info: FormDBInfo)
    ensures Covered(cache, store) ==> Covered(SavedCache(cache, info), SavedStore(cache, store, info, {}))
    ensures Synced(cache, store) ==> Synced(SavedCache(cache, info), SavedStore(cache, store, info, {}))
  {
    hide *;
    CoveredIs(cache, store);
    SyncedIs(cache, store);
    CoveredIs(SavedCache(cache, info), SavedStore(cache, store, info, {}));
    SyncedIs(SavedCache(cache, info), SavedStore(cache, store, info, {}));
    if DistinctIds(cache) {
      SavedHas(cache, info);
      SavedIds(cache, info);
      SaveNothing(cache, info);
      SavedStoreIs(cache, store, info);
      SelfCovers(info, store);
      forall d: FormDBInfo | d.formId != info.formId
        ensures Covers(d, store[info.formId := info]) == Covers(d, store) && Agrees(d, store[info.formId := info]) == Agrees(d, store)
      {
        OthersUnchanged(d, store, info);
      }
    }
  }

  predicate Agrees(d: FormDBInfo, store: Store) {
    d.formId in store && store[d.formId] == d
  }

  lemma SyncedIs(cache: Cache, store: Store)
    ensures Synced(cache, store) <==>
              DistinctIds(cache) && store.Keys == Ids(cache) && forall d :: d in cache ==> Agrees(d, store)
  {
    hide DistinctIds, Ids;
  }

  lemma SelfCovers(info: FormDBInfo, store: Store)
    ensures Covers(info, store[info.formId := info]) && Agrees(info, store[info.formId := info])
  {
    SublistSelf(info.formUserUids);
  }

  lemma OthersUnchanged(d: FormDBInfo, store: Store, info: FormDBInfo)
    requires d.formId != info.formId
    ensures Covers(d, store[info.formId := info]) == Covers(d, store) && Agrees(d, store[info.formId := info]) == Agrees(d, store)
  {
    hide SameButUids, IsSublist;
  }

  // Unless the entry is there already it is written.
  lemma SavedStoreIs(cache: Cache, store: Store, info: FormDBInfo)
    ensures SavedStore(cache, store, info, {})
            == if IndexOf(cache, info.formId) != -1 && cache[IndexOf(cache, info.formId)] == info then store
               else store[info.formId := info]
  {
    hide IndexOf;
  }

  // Saving an entry that is there already changes nothing.
  lemma SaveNothing(cache: Cache, info: FormDBInfo)
    ensures IndexOf(cache, info.formId) != -1 && cache[IndexOf(cache, info.formId)] == info ==>
              SavedCache(cache, info) == cache && info in cache && info.formId in Ids(cache)
  {
    hide IndexOf;
    var i := IndexOf(cache, info.formId);
    if i != -1 && cache[i] == info {
      assert cache[i] in cache;
    }
  }

  lemma DropCovers(cache: Cache, store: Store, ids: set<int>)
    ensures Covered(cache, store) ==> Covered(CacheWithout(cache, ids), store - ids)
    ensures Synced(cache, store) ==> Synced(CacheWithout(cache, ids), store - ids)
  {
    hide CacheWithout, IsSublist;
    WithoutHas(cache, ids);
    WithoutIds(cache, ids);
  }

  lemma CoveredIs(cache: Cache, store: Store)
    ensures Covered(cache, store) <==>
              DistinctIds(cache) && store.Keys == Ids(cache) && forall d :: d in cache ==> Covers(d, store)
  {
  }

  lemma UnlistCovers(d: FormDBInfo, store: Store, uid: int)
    requires Covers(d, store)
    ensures Covers(UnlistDB(d, uid), store)
  {
    hide IsSublist, RemoveFirst;
    SublistRemoved(d.formUserUids, store[d.formId].formUserUids, uid);
  }

  lemma SweepCovers(cache: Cache, store: Store, hits: set<int>, uid: int)
    requires Covered(cache, store)
    ensures Covered(CacheSwept(cache, hits, uid), store)
  {
    hide *;
    var now := CacheSwept(cache, hits, uid);
    CoveredIs(cache, store);
    CoveredIs(now, store);
    SweptIds(cache, hits, uid);
    SweptHas(cache, hits, uid);
    forall e | e in now ensures Covers(e, store) {
      var d :| d in cache && e == if d.formId in hits then UnlistDB(d, uid) else d;
      UnlistCovers(d, store, uid);
    }
  }

  lemma AfterCovers(cache: Cache, store: Store, now: Store, back: set<int>, gone: set<int>, uid: int)
    requires Covered(cache, store) && StoreAfter(cache, store, now, back, gone, uid, {}) && back !! gone && back <= Ids(cache)
    ensures Covered(CacheAfter(cache, back, gone, uid), now)
  {
    hide *;
    var left := CacheAfter(cache, back, gone, uid);
    CoveredIs(cache, store);
    CoveredIs(left, now);
    AfterDistinct(cache, back, gone, uid);
    AfterHas(cache, back, gone, uid);
    AfterIds(cache, back, gone, uid);
    forall e | e in left ensures Covers(e, now) {
      var d :| d in cache && Kept(d, e, back, gone, uid);
      KeptCovers(cache, store, now, back, gone, uid, d, e);
    }
    forall id ensures id in now <==> id in Ids(left) {
      StoreAfterKeys(cache, store, now, back, gone, uid, id);
    }
  }

  lemma KeptCovers(cache: Cache, store: Store, now: Store, back: set<int>, gone: set<int>, uid: int, d: FormDBInfo, e: FormDBInfo)
    requires DistinctIds(cache) && StoreAfter(cache, store, now, back, gone, uid, {}) && d in cache
    requires Covers(d, store) && Kept(d, e, back, gone, uid)
    ensures Covers(e, now)
  {
    hide StoreAfter, DistinctIds, IsSublist;
    StoreAfterIs(cache, store, now, back, gone, uid, d);
    SublistSelf(e.formUserUids);
  }

  lemma StoreAfterIs(cache: Cache, store: Store, now: Store, back: set<int>, gone: set<int>, uid: int, d: FormDBInfo)
    requires DistinctIds(cache) && StoreAfter(cache, store, now, back, gone, uid, {}) && d in cache && d.formId !in gone
    requires d.formId in store
    ensures d.formId in now && now[d.formId] == if d.formId in back then Relist(d, uid) else store[d.formId]
  {
    hide IndexOf;
    assert d.formId in Ids(cache);
    if d.formId in back {
      var i := IndexOf(cache, d.formId);
      assert cache[i] in cache;
      SameEntry(cache, cache[i], d);
    }
  }

  lemma StoreAfterKeys(cache: Cache, store: Store, now: Store, back: set<int>, gone: set<int>, uid: int, id: int)
    requires StoreAfter(cache, store, now, back, gone, uid, {}) && back !! gone && back <= Ids(cache) && store.Keys == Ids(cache)
    ensures id in now <==> id in Ids(cache) && id !in gone
  {
    hide IndexOf;
  }
}
