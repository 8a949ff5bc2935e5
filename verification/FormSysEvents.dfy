/** What the service does on system events: a host's data is cleared, a bundle
    or a user is removed. */
module FormSysEvents {
  import opened FormTypes
  import opened FormDataMgr
  import opened FormDbCache

  // Of the forms without a user, those whose provider refused to be told.
  function Refused(last: set<int>, keys: map<int, FormIdKey>, refused: set<FormIdKey>): set<int> {
    set i | i in last && i in keys && keys[i] in refused
  }

  function Relist(d: FormDBInfo, uid: int): FormDBInfo {
    d.(formUserUids := d.formUserUids + [uid])
  }

  // The cache when the entries in `gone` are deleted and those in `back` list uid again.
  function CacheAfter(cache: Cache, back: set<int>, gone: set<int>, uid: int): Cache {
    if cache == [] then []
    else
      var d := cache[|cache| - 1];
      CacheAfter(cache[..|cache| - 1], back, gone, uid)
      + if d.formId in gone then [] else if d.formId in back then [Relist(d, uid)] else [d]
  }

  // ... and the store, where the entries in `back` are written anew.
  ghost predicate StoreAfter(cache: Cache, store: Store, now: Store, back: set<int>, gone: set<int>, uid: int,
                             failing: set<int>) {
    && (forall id :: id in back && id in Ids(cache) && id !in failing ==>
          id in now && IndexOf(cache, id) != -1 && now[id] == Relist(cache[IndexOf(cache, id)], uid))
    && (forall id :: id in gone && id !in failing ==> id !in now)
    && (forall id :: (id in failing || (id !in back && id !in gone)) ==>
          (id in now <==> id in store) && (id in now ==> now[id] == store[id]))
  }

  class FormSysEventReceiver {
    const data: FormDataMgr
    const db: FormDbCache

    constructor (data: FormDataMgr, db: FormDbCache)
      ensures this.data == data && this.db == db
    {
      this.data, this.db := data, db;
    }

    method HandleUserIdRemoved(userId: int, failing: set<int>)
      requires DistinctIds(db.formDBInfos) && forall k :: k in data.formRecords ==> data.formRecords[k].formId == k
      modifies data, db
      ensures var gone := UserForms(old(data.formRecords), userId);
              && data.formRecords == old(data.formRecords) - gone
              && data.tempForms == Without(old(data.tempForms), TempAmong(old(data.formRecords), gone))
              && data.clientRecords == old(data.clientRecords)
      ensures var gone := UserEntries(old(db.formDBInfos), userId) - failing;
              && db.formDBInfos == CacheWithout(old(db.formDBInfos), gone)
              && db.dataStorage == old(db.dataStorage) - gone
    {
      var _ := data.DeleteFormsByUserId(userId);
      db.DeleteDBFormsByUserId(userId, failing);
    }

    method HandleProviderRemoved(bundleName: string, userId: int, failing: set<int>)
      requires DistinctIds(db.formDBInfos) && forall k :: k in data.formRecords ==> data.formRecords[k].formId == k
      modifies data, db
      ensures var gone := BundleEntries(old(db.formDBInfos), bundleName, userId) - failing;
              var temps := BundleTempForms(old(data.formRecords) - gone, bundleName, userId);
              && data.formRecords == old(data.formRecords) - gone - temps
              && data.tempForms == Without(old(data.tempForms), temps)
              && data.clientRecords == HostsCleaned(old(data.clientRecords), gone + temps)
              && db.formDBInfos == CacheWithout(old(db.formDBInfos), gone)
              && db.dataStorage == old(db.dataStorage) - gone
    {
      hide BundleEntries, BundleTempForms, CacheWithout, Without, HostsCleaned;
      var removedForms := db.DeleteFormInfoByBundleName(bundleName, userId, failing);
      data.CleanRemovedFormRecords(removedForms);
      removedForms := data.CleanRemovedTempFormRecords(bundleName, userId, removedForms);
      data.CleanHostRemovedForms(removedForms);
    }

    // Told that its last user is gone, a provider may refuse: then the user
    // is put back.
    method BatchDeleteNoHostTempForms(uid: int, noHost: Groups, refused: set<FormIdKey>, ghost last: set<int>,
                                      ghost keys: map<int, FormIdKey>)
      requires GroupsOf(noHost, last, keys) && NoDuplicates(data.tempForms)
      modifies data`formRecords, data`tempForms
      ensures var back := Refused(last, keys, refused);
              && data.formRecords == Relisted(old(data.formRecords), back, uid) - (last - back)
              && data.tempForms == Without(old(data.tempForms), last - back)
    {
      hide *;
      ghost var records, temp := data.formRecords, data.tempForms;
      ghost var done := {};
      var groups := noHost.Keys;
      TempStart(records, temp, last, noHost, keys, refused, uid);
      while groups != {}
        invariant groups <= noHost.Keys && Pending(done, last, keys, groups, {})
        invariant TempDone(records, data.formRecords, temp, data.tempForms, done, keys, refused, uid)
        decreases |groups|
      {
        var key :| key in groups;
        var ids := noHost[key];
        OpenGroup(done, last, keys, noHost, groups, key);
        groups := groups - {key};
        while ids != {}
          invariant ids <= noHost[key] && key !in groups && Pending(done, last, keys, groups, ids)
          invariant TempDone(records, data.formRecords, temp, data.tempForms, done, keys, refused, uid)
          decreases |ids|
        {
          HasMember(ids);
          var formId :| formId in ids;
          ghost var r0, t0 := data.formRecords, data.tempForms;
          GroupKey(noHost, last, keys, key, formId);
          TakeId(done, last, keys, noHost, groups, key, ids, formId);
          if key in refused {
            data.AddFormUserUid(formId, uid);
          } else {
            data.DeleteFormRecord(formId);
            var _ := data.DeleteTempForm(formId);
          }
          TempStep(records, r0, data.formRecords, temp, t0, data.tempForms, done, keys, refused, uid, formId);
          done := done + {formId};
          ids := ids - {formId};
        }
      }
      TempEnd(records, data.formRecords, temp, data.tempForms, done, last, keys, refused, uid);
    }

    method ClearTempFormRecordData(uid: int, refused: set<FormIdKey>)
      requires NoDuplicates(data.tempForms)
      modifies data`formRecords, data`tempForms
      ensures var records := old(data.formRecords);
              var hits := TempFormsListing(records, uid);
              var last := LastUserOf(records, hits, uid);
              var back := Refused(last, KeysOf(records), refused);
              && data.formRecords == Relisted(UnlistAll(records, hits, uid), back, uid) - (last - back)
              && data.tempForms == Without(old(data.tempForms), last - back)
    {
      hide *;
      ghost var records := data.formRecords;
      var noHost, _ := data.GetNoHostTempForms(uid);
      BatchDeleteNoHostTempForms(uid, noHost, refused, LastUserOf(records, TempFormsListing(records, uid), uid), KeysOf(records));
    }

    method BatchDeleteNoHostDBForms(uid: int, noHost: Groups, refused: set<FormIdKey>, failing: set<int>,
                                    ghost last: set<int>, ghost keys: map<int, FormIdKey>)
      requires GroupsOf(noHost, last, keys) && DistinctIds(db.formDBInfos) && last <= Ids(db.formDBInfos)
      modifies db, data`formRecords
      ensures var back := Refused(last, keys, refused);
              && db.formDBInfos == CacheAfter(old(db.formDBInfos), back, last - back, uid)
              && StoreAfter(old(db.formDBInfos), old(db.dataStorage), db.dataStorage, back, last - back, uid, failing)
              && data.formRecords == old(data.formRecords) - (last - back)
    {
      hide *;
      ghost var cache, store, records := db.formDBInfos, db.dataStorage, data.formRecords;
      ghost var done := {};
      var groups := noHost.Keys;
      DBStart(cache, store, records, last, noHost, keys, refused, uid, failing);
      while groups != {}
        invariant groups <= noHost.Keys && Pending(done, last, keys, groups, {})
        invariant DBDone(cache, db.formDBInfos, store, db.dataStorage, records, data.formRecords, done, keys, refused, uid, failing)
        decreases |groups|
      {
        var key :| key in groups;
        var ids := noHost[key];
        OpenGroup(done, last, keys, noHost, groups, key);
        groups := groups - {key};
        while ids != {}
          invariant ids <= noHost[key] && key !in groups && Pending(done, last, keys, groups, ids)
          invariant DBDone(cache, db.formDBInfos, store, db.dataStorage, records, data.formRecords, done, keys, refused, uid, failing)
          decreases |ids|
        {
          HasMember(ids);
          var formId :| formId in ids;
          ghost var c0, s0, r0 := db.formDBInfos, db.dataStorage, data.formRecords;
          GroupKey(noHost, last, keys, key, formId);
          TakeId(done, last, keys, noHost, groups, key, ids, formId);
          Untouched(cache, c0, store, s0, records, r0, done, keys, refused, uid, failing, formId);
          var known, dbInfo := db.GetDBRecord(formId);
          if key in refused {
            if known {
              dbInfo := Relist(dbInfo, uid);
              var _ := db.SaveFormInfo(dbInfo, failing);
              DBBack(cache, c0, db.formDBInfos, store, s0, db.dataStorage, records, r0, done, keys, refused, uid, failing, formId);
            }
          } else {
            if known {
              var _ := db.DeleteFormInfo(formId, failing);
            }
            data.DeleteFormRecord(formId);
            DBGone(cache, c0, db.formDBInfos, store, s0, db.dataStorage, records, r0, data.formRecords, done, keys, refused, uid,
                   failing, formId);
          }
          done := done + {formId};
          ids := ids - {formId};
        }
      }
      DBEnd(cache, db.formDBInfos, store, db.dataStorage, records, data.formRecords, done, last, keys, refused, uid, failing);
    }

    // uid's data was cleared: it is taken off every database entry.
    method ClearFormDBRecordData(uid: int, refused: set<FormIdKey>, failing: set<int>)
      requires DistinctIds(db.formDBInfos)
      modifies db, data`formRecords
      ensures var cache := old(db.formDBInfos);
              var hits := EntriesListing(cache, uid);
              var last := LastUserOfEntry(cache, hits, uid);
              var back := Refused(last, EntryKeys(cache), refused);
              && db.formDBInfos == CacheAfter(CacheSwept(cache, hits, uid), back, last - back, uid)
              && StoreAfter(CacheSwept(cache, hits, uid), old(db.dataStorage), db.dataStorage, back, last - back, uid, failing)
              && data.formRecords == UnlistAll(old(data.formRecords), hits - last, uid) - (last - back)
    {
      hide *;
      ghost var cache := db.formDBInfos;
      ghost var hits := EntriesListing(cache, uid);
      ghost var last := LastUserOfEntry(cache, hits, uid);
      HitsWithin(cache, 0, uid, {});
      SweptIds(cache, hits, uid);
      var noHost, found := db.GetNoHostDBForms(uid, failing);
      db.DeleteUserUids(data, found, uid);
      BatchDeleteNoHostDBForms(uid, noHost, refused, failing, last, EntryKeys(cache));
    }

    method HandleFormHostDataCleared(uid: int, refusedDB: set<FormIdKey>, refusedTemp: set<FormIdKey>, failing: set<int>)
      requires DistinctIds(db.formDBInfos) && NoDuplicates(data.tempForms)
      modifies db, data
      ensures var cache := old(db.formDBInfos);
              var hits := EntriesListing(cache, uid);
              var last := LastUserOfEntry(cache, hits, uid);
              var back := Refused(last, EntryKeys(cache), refusedDB);
              var records := UnlistAll(old(data.formRecords), hits - last, uid) - (last - back);
              var temps := TempFormsListing(records, uid);
              var lastTemps := LastUserOf(records, temps, uid);
              var backTemps := Refused(lastTemps, KeysOf(records), refusedTemp);
              && db.formDBInfos == CacheAfter(CacheSwept(cache, hits, uid), back, last - back, uid)
              && StoreAfter(CacheSwept(cache, hits, uid), old(db.dataStorage), db.dataStorage, back, last - back, uid, failing)
              && data.formRecords == Relisted(UnlistAll(records, temps, uid), backTemps, uid) - (lastTemps - backTemps)
              && data.tempForms == Without(old(data.tempForms), lastTemps - backTemps)
              && data.clientRecords == HostsOfOthers(old(data.clientRecords), uid)
    {
      hide *;
      ClearFormDBRecordData(uid, refusedDB, failing);
      ClearTempFormRecordData(uid, refusedTemp);
      data.ClearHostDataByUId(uid);
    }
  }

  // ----- temporary forms, group by group -----

  ghost predicate TempDone(records: Records, now: Records, temp: seq<int>, tempNow: seq<int>, done: set<int>,
                           keys: map<int, FormIdKey>, refused: set<FormIdKey>, uid: int) {
    var back := Refused(done, keys, refused);
    && now == Relisted(records, back, uid) - (done - back) && tempNow == Without(temp, done - back) && NoDuplicates(tempNow)
    && forall i :: i in done ==> i in keys
  }

  lemma RelistNone(records: Records, uid: int)
    ensures Relisted(records, {}, uid) == records && records - {} == records
  {
  }

  lemma TempStart(records: Records, temp: seq<int>, last: set<int>, noHost: Groups, keys: map<int, FormIdKey>,
                  refused: set<FormIdKey>, uid: int)
    requires GroupsOf(noHost, last, keys) && NoDuplicates(temp)
    ensures Pending({}, last, keys, noHost.Keys, {})
    ensures TempDone(records, records, temp, temp, {}, keys, refused, uid)
  {
    WithoutNone(temp, {});
    RelistNone(records, uid);
    var none: set<int> := {};
    assert Refused(none, keys, refused) == none && none - none == none;
  }

  lemma GroupKey(noHost: Groups, last: set<int>, keys: map<int, FormIdKey>, key: FormIdKey, id: int)
    requires GroupsOf(noHost, last, keys) && key in noHost && id in noHost[key]
    ensures id in keys && keys[id] == key
  {
  }

  lemma TempStep(records: Records, now: Records, now': Records, temp: seq<int>, tempNow: seq<int>, tempNow': seq<int>,
                 done: set<int>, keys: map<int, FormIdKey>, refused: set<FormIdKey>, uid: int, id: int)
    requires TempDone(records, now, temp, tempNow, done, keys, refused, uid) && id !in done && id in keys
    requires if keys[id] in refused then now' == WithUid(now, id, uid) && tempNow' == tempNow
             else now' == now - {id} && tempNow' == RemoveFirst(tempNow, id)
    ensures TempDone(records, now', temp, tempNow', done + {id}, keys, refused, uid)
  {
    hide Without, RemoveFirst, AddIfMissing;
    var back, more := Refused(done, keys, refused), Refused(done + {id}, keys, refused);
    if keys[id] in refused {
      assert more == back + {id} && (done + {id}) - more == done - back;
      assert now' == Relisted(records, more, uid) - (done - back);
    } else {
      assert more == back && (done + {id}) - more == done - back + {id};
      RemoveOneIs(tempNow, id);
      RemoveFirstIs(tempNow, id);
      WithoutTwice(temp, done - back, {id});
      assert now' == Relisted(records, more, uid) - (done - back + {id});
    }
  }

  lemma TempEnd(records: Records, now: Records, temp: seq<int>, tempNow: seq<int>, done: set<int>, last: set<int>,
                keys: map<int, FormIdKey>, refused: set<FormIdKey>, uid: int)
    requires TempDone(records, now, temp, tempNow, done, keys, refused, uid) && Pending(done, last, keys, {}, {})
    ensures var back := Refused(last, keys, refused);
            now == Relisted(records, back, uid) - (last - back) && tempNow == Without(temp, last - back)
  {
    assert forall i :: i in last ==> i in done;
    assert done == last;
  }

  // ----- entries, group by group -----

  ghost predicate DBDone(cache: Cache, now: Cache, store: Store, storeNow: Store, records: Records, recordsNow: Records,
                         done: set<int>, keys: map<int, FormIdKey>, refused: set<FormIdKey>, uid: int, failing: set<int>) {
    var back := Refused(done, keys, refused);
    && DistinctIds(cache) && now == CacheAfter(cache, back, done - back, uid)
    && StoreAfter(cache, store, storeNow, back, done - back, uid, failing)
    && recordsNow == records - (done - back) && forall i :: i in done ==> i in keys
  }

  lemma DBStart(cache: Cache, store: Store, records: Records, last: set<int>, noHost: Groups, keys: map<int, FormIdKey>,
                refused: set<FormIdKey>, uid: int, failing: set<int>)
    requires GroupsOf(noHost, last, keys) && DistinctIds(cache)
    ensures Pending({}, last, keys, noHost.Keys, {})
    ensures DBDone(cache, cache, store, store, records, records, {}, keys, refused, uid, failing)
  {
    var none: set<int> := {};
    assert Refused(none, keys, refused) == none && none - none == none && records - none == records;
    AfterNothing(cache, uid);
  }

  lemma {:induction false} AfterNothing(cache: Cache, uid: int)
    ensures CacheAfter(cache, {}, {}, uid) == cache
  {
    if cache != [] {
      AfterNothing(cache[..|cache| - 1], uid);
    }
  }

  // What is left of the cache: the entries that are not gone, in their order.
  lemma {:induction false} AfterHas(cache: Cache, back: set<int>, gone: set<int>, uid: int)
    ensures forall e :: e in CacheAfter(cache, back, gone, uid) ==> exists d :: d in cache && Kept(d, e, back, gone, uid)
    ensures forall d :: d in cache && d.formId !in gone ==>
              (if d.formId in back then Relist(d, uid) else d) in CacheAfter(cache, back, gone, uid)
  {
    if cache != [] {
      var init, last := cache[..|cache| - 1], cache[|cache| - 1];
      AfterHas(init, back, gone, uid);
      assert cache == init + [last];
      var before, now := CacheAfter(init, back, gone, uid), CacheAfter(cache, back, gone, uid);
      forall e | e in now ensures exists d :: d in cache && Kept(d, e, back, gone, uid) {
        if e in before {
          var d :| d in init && Kept(d, e, back, gone, uid);
          assert d in cache;
        } else {
          assert Kept(last, e, back, gone, uid);
        }
      }
    }
  }

  predicate Kept(d: FormDBInfo, e: FormDBInfo, back: set<int>, gone: set<int>, uid: int) {
    d.formId !in gone && e == if d.formId in back then Relist(d, uid) else d
  }

  lemma {:induction false} AfterDistinct(cache: Cache, back: set<int>, gone: set<int>, uid: int)
    requires DistinctIds(cache)
    ensures DistinctIds(CacheAfter(cache, back, gone, uid))
  {
    if cache != [] {
      var init, last := cache[..|cache| - 1], cache[|cache| - 1];
      AfterDistinct(init, back, gone, uid);
      AfterHas(init, back, gone, uid);
      forall e | e in CacheAfter(init, back, gone, uid) ensures e.formId != last.formId {
        var d :| d in init && Kept(d, e, back, gone, uid);
        var i :| 0 <= i < |init| && init[i] == d;
      }
    }
  }

  // An entry that is neither deleted nor relisted is still there, as it was.
  lemma AfterOther(cache: Cache, back: set<int>, gone: set<int>, uid: int, id: int)
    requires DistinctIds(cache) && id !in back && id !in gone
    ensures var now := CacheAfter(cache, back, gone, uid);
            && (id in Ids(cache) ==> IndexOf(cache, id) != -1 && IndexOf(now, id) != -1)
            && (IndexOf(now, id) != -1 ==> IndexOf(cache, id) != -1 && now[IndexOf(now, id)] == cache[IndexOf(cache, id)])
  {
    hide CacheAfter, IndexOf;
    var now := CacheAfter(cache, back, gone, uid);
    AfterHas(cache, back, gone, uid);
    if id in Ids(cache) {
      var d :| d in cache && d.formId == id;
      assert d in now;
    }
    if IndexOf(now, id) != -1 {
      var e := now[IndexOf(now, id)];
      assert e in now;
      var d :| d in cache && Kept(d, e, back, gone, uid);
      var i :| 0 <= i < |cache| && cache[i] == d;
      IndexIs(cache, i);
    }
  }

  lemma Untouched(cache: Cache, now: Cache, store: Store, storeNow: Store, records: Records, recordsNow: Records,
                  done: set<int>, keys: map<int, FormIdKey>, refused: set<FormIdKey>, uid: int, failing: set<int>, id: int)
    requires DBDone(cache, now, store, storeNow, records, recordsNow, done, keys, refused, uid, failing) && id !in done
    ensures DistinctIds(now) && (id in Ids(cache) ==> IndexOf(cache, id) != -1 && IndexOf(now, id) != -1)
    ensures IndexOf(now, id) != -1 ==> IndexOf(cache, id) != -1 && now[IndexOf(now, id)] == cache[IndexOf(cache, id)]
  {
    hide CacheAfter, StoreAfter, IndexOf, DistinctIds, Ids;
    var back := Refused(done, keys, refused);
    AfterDistinct(cache, back, done - back, uid);
    AfterOther(cache, back, done - back, uid, id);
  }

  // Entry `id`, wherever it is, lists uid again.
  function RelistOne(cache: Cache, id: int, uid: int): Cache {
    if cache == [] then []
    else
      var d := cache[|cache| - 1];
      RelistOne(cache[..|cache| - 1], id, uid) + if d.formId == id then [Relist(d, uid)] else [d]
  }

  lemma {:induction false} RelistOneAt(cache: Cache, id: int, uid: int)
    ensures |RelistOne(cache, id, uid)| == |cache|
    ensures forall i :: 0 <= i < |cache| ==>
              RelistOne(cache, id, uid)[i] == if cache[i].formId == id then Relist(cache[i], uid) else cache[i]
  {
    if cache != [] {
      RelistOneAt(cache[..|cache| - 1], id, uid);
    }
  }

  lemma {:induction false} AfterOneBack(cache: Cache, back: set<int>, gone: set<int>, uid: int, id: int)
    requires id !in back && id !in gone
    ensures CacheAfter(cache, back + {id}, gone, uid) == RelistOne(CacheAfter(cache, back, gone, uid), id, uid)
  {
    if cache != [] {
      var init, last := cache[..|cache| - 1], cache[|cache| - 1];
      AfterOneBack(init, back, gone, uid, id);
      var before := CacheAfter(init, back, gone, uid);
      if last.formId !in gone {
        var e := if last.formId in back then Relist(last, uid) else last;
        assert (before + [e])[..|before|] == before;
      } else {
        assert before + [] == before;
      }
    }
  }

  lemma {:induction false} AfterOneGone(cache: Cache, back: set<int>, gone: set<int>, uid: int, id: int)
    requires id !in back && id !in gone
    ensures CacheAfter(cache, back, gone + {id}, uid) == CacheWithout(CacheAfter(cache, back, gone, uid), {id})
  {
    if cache != [] {
      var init, last := cache[..|cache| - 1], cache[|cache| - 1];
      AfterOneGone(init, back, gone, uid, id);
      var before := CacheAfter(init, back, gone, uid);
      if last.formId !in gone {
        var e := if last.formId in back then Relist(last, uid) else last;
        assert (before + [e])[..|before|] == before;
        assert CacheWithout(before, {id}) + [] == CacheWithout(before, {id});
      } else {
        assert before + [] == before && CacheWithout(before, {id}) + [] == CacheWithout(before, {id});
      }
    }
  }

  // Saving an entry that lists uid once more.
  lemma SavedRelisted(cache: Cache, store: Store, id: int, uid: int, failing: set<int>)
    requires DistinctIds(cache) && IndexOf(cache, id) != -1
    ensures var d := Relist(cache[IndexOf(cache, id)], uid);
            && SavedCache(cache, d) == RelistOne(cache, id, uid)
            && SavedStore(cache, store, d, failing) == if id in failing then store else store[id := d]
  {
    hide RelistOne;
    var i := IndexOf(cache, id);
    var d := Relist(cache[i], uid);
    RelistOneAt(cache, id, uid);
    assert |d.formUserUids| == |cache[i].formUserUids| + 1;
    assert cache[i := d] == RelistOne(cache, id, uid);
  }

  lemma DBBack(cache: Cache, now: Cache, now': Cache, store: Store, storeNow: Store, storeNow': Store, records: Records,
               recordsNow: Records, done: set<int>, keys: map<int, FormIdKey>, refused: set<FormIdKey>, uid: int,
               failing: set<int>, id: int)
    requires DBDone(cache, now, store, storeNow, records, recordsNow, done, keys, refused, uid, failing) && id !in done
    requires id in keys && keys[id] in refused && IndexOf(now, id) != -1
    requires var d := Relist(now[IndexOf(now, id)], uid);
             now' == SavedCache(now, d) && storeNow' == SavedStore(now, storeNow, d, failing)
    ensures DBDone(cache, now', store, storeNow', records, recordsNow, done + {id}, keys, refused, uid, failing)
  {
    hide CacheAfter, RelistOne, SavedCache, SavedStore;
    var back := Refused(done, keys, refused);
    Untouched(cache, now, store, storeNow, records, recordsNow, done, keys, refused, uid, failing, id);
    SavedRelisted(now, storeNow, id, uid, failing);
    AfterOneBack(cache, back, done - back, uid, id);
    assert Refused(done + {id}, keys, refused) == back + {id} && (done + {id}) - (back + {id}) == done - back;
  }

  lemma DBGone(cache: Cache, now: Cache, now': Cache, store: Store, storeNow: Store, storeNow': Store, records: Records,
               recordsNow: Records, recordsNow': Records, done: set<int>, keys: map<int, FormIdKey>,
               refused: set<FormIdKey>, uid: int, failing: set<int>, id: int)
    requires DBDone(cache, now, store, storeNow, records, recordsNow, done, keys, refused, uid, failing) && id !in done
    requires id in keys && keys[id] !in refused
    requires now' == DroppedCache(now, id) && storeNow' == DroppedStore(storeNow, {id}, failing)
    requires recordsNow' == recordsNow - {id}
    ensures DBDone(cache, now', store, storeNow', records, recordsNow', done + {id}, keys, refused, uid, failing)
  {
    hide CacheAfter, DroppedCache, CacheWithout;
    var back := Refused(done, keys, refused);
    Untouched(cache, now, store, storeNow, records, recordsNow, done, keys, refused, uid, failing, id);
    DropIsWithout(now, id);
    AfterOneGone(cache, back, done - back, uid, id);
    assert Refused(done + {id}, keys, refused) == back && (done + {id}) - back == done - back + {id};
    assert recordsNow' == records - (done - back + {id});
  }

  lemma DBEnd(cache: Cache, now: Cache, store: Store, storeNow: Store, records: Records, recordsNow: Records, done: set<int>,
              last: set<int>, keys: map<int, FormIdKey>, refused: set<FormIdKey>, uid: int, failing: set<int>)
    requires DBDone(cache, now, store, storeNow, records, recordsNow, done, keys, refused, uid, failing)
    requires Pending(done, last, keys, {}, {})
    ensures var back := Refused(last, keys, refused);
            && now == CacheAfter(cache, back, last - back, uid)
            && StoreAfter(cache, store, storeNow, back, last - back, uid, failing)
            && recordsNow == records - (last - back)
  {
    assert forall i :: i in last ==> i in done;
    assert done == last;
  }
}
