/** The database cache: the entries of all normal forms, kept in memory beside a
    key-value store. Storage calls may fail for the ids in `failing`. */
module FormDbCache {
  import opened FormTypes
  import opened FormDataMgr

  type Cache = seq<FormDBInfo>

  type Store = map<int, FormDBInfo>

  predicate DistinctIds(cache: Cache) {
    forall i, j :: 0 <= i < j < |cache| ==> cache[i].formId != cache[j].formId
  }

  function Ids(cache: Cache): set<int> {
    set d | d in cache :: d.formId
  }

  // operator== compares ids only: the first entry with the id is the one.
  function IndexOf(cache: Cache, id: int): (i: int)
    ensures -1 <= i < |cache|
    ensures i == -1 ==> forall d :: d in cache ==> d.formId != id
    ensures i != -1 ==> cache[i].formId == id && forall j :: 0 <= j < i ==> cache[j].formId != id
  {
    if cache == [] then -1
    else if cache[0].formId == id then 0
    else
      var rest := IndexOf(cache[1..], id);
      if rest == -1 then -1 else rest + 1
  }

  lemma IndexIs(cache: Cache, i: nat)
    requires DistinctIds(cache) && i < |cache|
    ensures IndexOf(cache, cache[i].formId) == i
  {
    assert cache[i] in cache;
  }

  // The cache and the store after an entry was saved.
  function SavedCache(cache: Cache, info: FormDBInfo): Cache {
    var i := IndexOf(cache, info.formId);
    if i == -1 then cache + [info] else cache[i := info]
  }

  function SavedStore(cache: Cache, store: Store, info: FormDBInfo, failing: set<int>): Store {
    var i := IndexOf(cache, info.formId);
    if (i != -1 && cache[i] == info) || info.formId in failing then store else store[info.formId := info]
  }

  // Nothing is stored when the entry is there already.
  predicate SaveSucceeds(cache: Cache, info: FormDBInfo, failing: set<int>) {
    (IndexOf(cache, info.formId) != -1 && cache[IndexOf(cache, info.formId)] == info) || info.formId !in failing
  }

  function DroppedCache(cache: Cache, id: int): Cache {
    var i := IndexOf(cache, id);
    if i == -1 then cache else cache[..i] + cache[i + 1..]
  }

  function DroppedStore(store: Store, ids: set<int>, failing: set<int>): Store {
    store - (ids - failing)
  }

  // The entries whose ids are not in `ids`, in order.
  function CacheWithout(cache: Cache, ids: set<int>): Cache {
    if cache == [] then []
    else CacheWithout(cache[..|cache| - 1], ids) + if cache[|cache| - 1].formId in ids then [] else [cache[|cache| - 1]]
  }

  function UnlistDB(d: FormDBInfo, uid: int): FormDBInfo {
    d.(formUserUids := RemoveFirst(d.formUserUids, uid))
  }

  // The entries with ids in `hits` lose uid.
  function CacheSwept(cache: Cache, hits: set<int>, uid: int): (r: Cache)
    ensures |r| == |cache|
    ensures forall i :: 0 <= i < |cache| ==> r[i] == if cache[i].formId in hits then UnlistDB(cache[i], uid) else cache[i]
  {
    seq(|cache|, i requires 0 <= i < |cache| => if cache[i].formId in hits then UnlistDB(cache[i], uid) else cache[i])
  }

  function BundleEntries(cache: Cache, bundleName: string, userId: int): set<int> {
    set d | d in cache && d.bundleName == bundleName && d.userId == userId :: d.formId
  }

  function UserEntries(cache: Cache, userId: int): set<int> {
    set d | d in cache && d.userId == userId :: d.formId
  }

  function InvalidEntries(cache: Cache, userId: int, uid: int, matched: set<int>): set<int> {
    set d | d in cache && d.userId == userId && uid in d.formUserUids && d.formId !in matched :: d.formId
  }

  function EntriesListing(cache: Cache, uid: int): set<int> {
    set d | d in cache && uid in d.formUserUids :: d.formId
  }

  function LastUserOfEntry(cache: Cache, hits: set<int>, uid: int): set<int> {
    set d | d in cache && d.formId in hits && UnlistDB(d, uid).formUserUids == [] :: d.formId
  }

  function EntryKeys(cache: Cache): map<int, FormIdKey> {
    map id | id in Ids(cache) :: if IndexOf(cache, id) == -1 then FormIdKey("", "") else DBKeyOf(cache[IndexOf(cache, id)])
  }

  class FormDbCache {
    var formDBInfos: Cache
    var dataStorage: Store

    constructor ()
      ensures formDBInfos == [] && dataStorage == map[]
    {
      formDBInfos, dataStorage := [], map[];
    }

    method StoragePut(info: FormDBInfo, failing: set<int>) returns (ok: bool)
      modifies this`dataStorage
      ensures ok <==> info.formId !in failing
      ensures dataStorage == if ok then old(dataStorage)[info.formId := info] else old(dataStorage)
    {
      ok := info.formId !in failing;
      if ok {
        dataStorage := dataStorage[info.formId := info];
      }
    }

    method StorageDelete(id: int, failing: set<int>) returns (ok: bool)
      modifies this`dataStorage
      ensures ok <==> id !in failing
      ensures dataStorage == DroppedStore(old(dataStorage), {id}, failing)
    {
      ok := id !in failing;
      if ok {
        assert {id} - failing == {id};
        dataStorage := dataStorage - {id};
      } else {
        assert {id} - failing == {};
        assert dataStorage - {} == dataStorage;
      }
    }

    method SaveFormInfoNolock(formDBInfo: FormDBInfo, failing: set<int>) returns (ok: bool)
      modifies this
      ensures formDBInfos == SavedCache(old(formDBInfos), formDBInfo)
      ensures dataStorage == SavedStore(old(formDBInfos), old(dataStorage), formDBInfo, failing)
      ensures ok <==> SaveSucceeds(old(formDBInfos), formDBInfo, failing)
    {
      var i := IndexOf(formDBInfos, formDBInfo.formId);
      if i != -1 {
        if formDBInfos[i] != formDBInfo {
          formDBInfos := formDBInfos[i := formDBInfo];
          ok := StoragePut(formDBInfo, failing);
        } else {
          assert formDBInfos[i := formDBInfo] == formDBInfos;
          ok := true;
        }
      } else {
        formDBInfos := formDBInfos + [formDBInfo];
        ok := StoragePut(formDBInfo, failing);
      }
    }

    method SaveFormInfo(formDBInfo: FormDBInfo, failing: set<int>) returns (ok: bool)
      modifies this
      ensures formDBInfos == SavedCache(old(formDBInfos), formDBInfo)
      ensures dataStorage == SavedStore(old(formDBInfos), old(dataStorage), formDBInfo, failing)
      ensures ok <==> SaveSucceeds(old(formDBInfos), formDBInfo, failing)
    {
      ok := SaveFormInfoNolock(formDBInfo, failing);
    }

    method UpdateDBRecord(formId: int, record: FormRecord, failing: set<int>) returns (ok: bool)
      modifies this
      ensures formDBInfos == SavedCache(old(formDBInfos), DBInfoOf(formId, record))
      ensures dataStorage == SavedStore(old(formDBInfos), old(dataStorage), DBInfoOf(formId, record), failing)
      ensures ok <==> SaveSucceeds(old(formDBInfos), DBInfoOf(formId, record), failing)
    {
      ok := SaveFormInfo(DBInfoOf(formId, record), failing);
    }

    method DeleteFormInfo(formId: int, failing: set<int>) returns (ok: bool)
      modifies this
      ensures formDBInfos == DroppedCache(old(formDBInfos), formId)
      ensures dataStorage == DroppedStore(old(dataStorage), {formId}, failing)
      ensures ok <==> formId !in failing
    {
      var i := IndexOf(formDBInfos, formId);
      if i != -1 {
        formDBInfos := formDBInfos[..i] + formDBInfos[i + 1..];
      }
      ok := StorageDelete(formId, failing);
    }

    method GetDBRecord(formId: int) returns (found: bool, record: FormDBInfo)
      ensures found <==> IndexOf(formDBInfos, formId) != -1
      ensures found ==> record == formDBInfos[IndexOf(formDBInfos, formId)]
    {
      record := FormDBInfo(-1, 0, "", "", "", "", []);
      var i := 0;
      assert formDBInfos[0..] == formDBInfos;
      while i < |formDBInfos|
        invariant 0 <= i <= |formDBInfos|
        invariant IndexOf(formDBInfos, formId)
                  == if IndexOf(formDBInfos[i..], formId) == -1 then -1 else IndexOf(formDBInfos[i..], formId) + i
      {
        if formDBInfos[i].formId == formId {
          return true, formDBInfos[i];
        }
        assert formDBInfos[i..][1..] == formDBInfos[i + 1..];
        i := i + 1;
      }
      found := false;
    }

    method DeleteFormInfoByBundleName(bundleName: string, userId: int, failing: set<int>) returns (removedDBForms: set<int>)
      requires DistinctIds(formDBInfos)
      modifies this
      ensures removedDBForms == BundleEntries(old(formDBInfos), bundleName, userId) - failing
      ensures formDBInfos == CacheWithout(old(formDBInfos), removedDBForms)
      ensures dataStorage == old(dataStorage) - removedDBForms
    {
      hide *;
      ghost var cache, store := formDBInfos, dataStorage;
      ghost var gone := BundleEntries(cache, bundleName, userId) - failing;
      removedDBForms := {};
      var i, kept := 0, [];
      EraseStart(cache, store, gone);
      while i < |formDBInfos|
        invariant 0 <= i <= |cache| && formDBInfos == cache
        invariant ErasedTo(cache, store, dataStorage, gone, i, removedDBForms, kept)
        decreases |cache| - i
      {
        var d := formDBInfos[i];
        ghost var store0, gone0, kept0 := dataStorage, removedDBForms, kept;
        IsBundleEntry(cache, bundleName, userId, i);
        var deleted := false;
        if bundleName == d.bundleName && userId == d.userId {
          deleted := StorageDelete(d.formId, failing);
          DroppedOne(store0, d.formId, failing);
        }
        if deleted {
          removedDBForms := removedDBForms + {d.formId};
        } else {
          kept := kept + [d];
        }
        EraseStep(cache, store, store0, dataStorage, gone, i, gone0, removedDBForms, kept0, kept);
        i := i + 1;
      }
      EntriesWithin(cache, bundleName, userId);
      EraseEnd(cache, store, dataStorage, gone, removedDBForms, kept);
      formDBInfos := kept;
    }

    method DeleteDBFormsByUserId(userId: int, failing: set<int>)
      requires DistinctIds(formDBInfos)
      modifies this
      ensures var gone := UserEntries(old(formDBInfos), userId) - failing;
              formDBInfos == CacheWithout(old(formDBInfos), gone) && dataStorage == old(dataStorage) - gone
    {
      hide *;
      ghost var cache, store := formDBInfos, dataStorage;
      ghost var gone, removed := UserEntries(cache, userId) - failing, {};
      var i, kept := 0, [];
      EraseStart(cache, store, gone);
      while i < |formDBInfos|
        invariant 0 <= i <= |cache| && formDBInfos == cache
        invariant ErasedTo(cache, store, dataStorage, gone, i, removed, kept)
        decreases |cache| - i
      {
        var d := formDBInfos[i];
        ghost var store0, gone0, kept0 := dataStorage, removed, kept;
        IsUserEntry(cache, userId, i);
        var deleted := false;
        if userId == d.userId {
          deleted := StorageDelete(d.formId, failing);
          DroppedOne(store0, d.formId, failing);
        }
        if deleted {
          removed := removed + {d.formId};
        } else {
          kept := kept + [d];
        }
        EraseStep(cache, store, store0, dataStorage, gone, i, gone0, removed, kept0, kept);
        i := i + 1;
      }
      EntriesWithin(cache, "", userId);
      EraseEnd(cache, store, dataStorage, gone, removed, kept);
      formDBInfos := kept;
    }

    // Takes uid off the entries of the user that are invalid. The entry is
    // edited in place before it is saved, so saving finds nothing to store.
    method GetNoHostInvalidDBForms(userId: int, callingUid: int, matchedFormIds: set<int>, failing: set<int>)
      returns (noHost: Groups, found: set<int>)
      requires DistinctIds(formDBInfos)
      modifies this
      ensures var hits := InvalidEntries(old(formDBInfos), userId, callingUid, matchedFormIds);
              var last := LastUserOfEntry(old(formDBInfos), hits, callingUid);
              && formDBInfos == CacheSwept(old(formDBInfos), hits, callingUid)
              && GroupsOf(noHost, last, EntryKeys(old(formDBInfos))) && found == hits - last
      ensures dataStorage == old(dataStorage)
    {
      hide *;
      ghost var cache := formDBInfos;
      ghost var hits := InvalidEntries(cache, userId, callingUid, matchedFormIds);
      ghost var last := LastUserOfEntry(cache, hits, callingUid);
      noHost, found := map[], {};
      var i := 0;
      DBSweepStart(cache, hits, last, callingUid);
      while i < |formDBInfos|
        invariant 0 <= i <= |cache| == |formDBInfos| && dataStorage == old(dataStorage)
        invariant DBSwept(cache, formDBInfos, noHost, found, hits, last, callingUid, i)
        decreases |cache| - i
      {
        ghost var now, g, f := formDBInfos, noHost, found;
        DBSweptEntry(cache, now, g, f, hits, last, callingUid, i);
        IsInvalidEntry(cache, userId, callingUid, matchedFormIds, i);
        var d := formDBInfos[i];
        if userId == d.userId && callingUid in d.formUserUids && d.formId !in matchedFormIds {
          d := UnlistDB(d, callingUid);
          formDBInfos := formDBInfos[i := d];
          UnlistedIs(cache[i], callingUid);
          if d.formUserUids == [] {
            noHost := AddToGroup(noHost, FormIdKey(d.bundleName, d.abilityName), d.formId);
          } else {
            found := found + {d.formId};
            SavedSelf(cache, now, formDBInfos, dataStorage, g, f, hits, last, callingUid, i, failing);
            var _ := SaveFormInfoNolock(formDBInfos[i], failing);
          }
        }
        DBSweepStep(cache, now, formDBInfos, g, noHost, f, found, hits, last, callingUid, i);
        i := i + 1;
      }
      HitsWithin(cache, userId, callingUid, matchedFormIds);
      DBSweepEnd(cache, formDBInfos, noHost, found, hits, last, callingUid);
    }

    // The same for all entries that list uid.
    method GetNoHostDBForms(uid: int, failing: set<int>) returns (noHost: Groups, found: set<int>)
      requires DistinctIds(formDBInfos)
      modifies this
      ensures var hits := EntriesListing(old(formDBInfos), uid);
              var last := LastUserOfEntry(old(formDBInfos), hits, uid);
              && formDBInfos == CacheSwept(old(formDBInfos), hits, uid)
              && GroupsOf(noHost, last, EntryKeys(old(formDBInfos))) && found == hits - last
      ensures dataStorage == old(dataStorage)
    {
      hide *;
      ghost var cache := formDBInfos;
      ghost var hits := EntriesListing(cache, uid);
      ghost var last := LastUserOfEntry(cache, hits, uid);
      noHost, found := map[], {};
      var i := 0;
      DBSweepStart(cache, hits, last, uid);
      while i < |formDBInfos|
        invariant 0 <= i <= |cache| == |formDBInfos| && dataStorage == old(dataStorage)
        invariant DBSwept(cache, formDBInfos, noHost, found, hits, last, uid, i)
        decreases |cache| - i
      {
        ghost var now, g, f := formDBInfos, noHost, found;
        DBSweptEntry(cache, now, g, f, hits, last, uid, i);
        IsEntryListing(cache, uid, i);
        var d := formDBInfos[i];
        if uid in d.formUserUids {
          d := UnlistDB(d, uid);
          formDBInfos := formDBInfos[i := d];
          UnlistedIs(cache[i], uid);
          if d.formUserUids == [] {
            noHost := AddToGroup(noHost, FormIdKey(d.bundleName, d.abilityName), d.formId);
          } else {
            found := found + {d.formId};
            SavedSelf(cache, now, formDBInfos, dataStorage, g, f, hits, last, uid, i, failing);
            var _ := SaveFormInfoNolock(formDBInfos[i], failing);
          }
        }
        DBSweepStep(cache, now, formDBInfos, g, noHost, f, found, hits, last, uid, i);
        i := i + 1;
      }
      HitsWithin(cache, 0, uid, {});
      DBSweepEnd(cache, formDBInfos, noHost, found, hits, last, uid);
    }

    // The forms without a user are deleted group by group, records and all.
    method BatchDeleteNoHostDBForms(data: FormDataMgr, noHost: Groups, found: set<int>, failing: set<int>,
                                    ghost last: set<int>, ghost keys: map<int, FormIdKey>) returns (removed: set<int>)
      requires DistinctIds(formDBInfos) && GroupsOf(noHost, last, keys) && last <= Ids(formDBInfos)
      modifies this, data`formRecords
      ensures formDBInfos == CacheWithout(old(formDBInfos), last)
      ensures dataStorage == DroppedStore(old(dataStorage), last, failing)
      ensures data.formRecords == old(data.formRecords) - last
      ensures removed == found + last
    {
      hide *;
      ghost var cache, store, records := formDBInfos, dataStorage, data.formRecords;
      ghost var done := {};
      removed := found;
      var groups := noHost.Keys;
      DBBatchStart(cache, store, records, found, last, noHost, keys, failing);
      while groups != {}
        invariant groups <= noHost.Keys && Pending(done, last, keys, groups, {})
        invariant DBBatchDone(cache, formDBInfos, store, dataStorage, records, data.formRecords, found, removed, done, failing)
        decreases |groups|
      {
        var key :| key in groups;
        var ids := noHost[key];
        OpenGroup(done, last, keys, noHost, groups, key);
        groups := groups - {key};
        while ids != {}
          invariant ids <= noHost[key] && key !in groups && Pending(done, last, keys, groups, ids)
          invariant DBBatchDone(cache, formDBInfos, store, dataStorage, records, data.formRecords, found, removed, done, failing)
          decreases |ids|
        {
          HasMember(ids);
          var formId :| formId in ids;
          ghost var c0, s0, r0, m0 := formDBInfos, dataStorage, data.formRecords, removed;
          removed := removed + {formId};
          var known, _ := GetDBRecord(formId);
          TakeId(done, last, keys, noHost, groups, key, ids, formId);
          StillThere(cache, c0, store, s0, records, r0, found, m0, done, failing, formId);
          if known {
            var _ := DeleteFormInfo(formId, failing);
          }
          data.DeleteFormRecord(formId);
          DBBatchStep(cache, c0, formDBInfos, store, s0, dataStorage, records, r0, data.formRecords, found, m0, removed, done,
                      failing, formId);
          done := done + {formId};
          ids := ids - {formId};
        }
      }
      DBBatchEnd(cache, formDBInfos, store, dataStorage, records, data.formRecords, found, removed, done, last, keys, failing);
    }

    // The records of the forms in `found` lose uid.
    method DeleteUserUids(data: FormDataMgr, found: set<int>, uid: int)
      modifies data`formRecords
      ensures data.formRecords == UnlistAll(old(data.formRecords), found, uid)
    {
      hide *;
      ghost var records := data.formRecords;
      var todo := found;
      UnlistNone(records, uid, found);
      while todo != {}
        invariant todo <= found
        invariant data.formRecords == UnlistAll(records, found - todo, uid)
        decreases |todo|
      {
        HasMember(todo);
        var id :| id in todo;
        UnlistOneMore(records, found, todo, uid, id);
        data.DeleteFormUserUid(id, uid);
        todo := todo - {id};
      }
      UnlistNone(records, uid, found);
    }

    method DeleteInvalidDBForms(data: FormDataMgr, userId: int, callingUid: int, matchedFormIds: set<int>,
                                removedForms: set<int>, failing: set<int>) returns (removed: set<int>)
      requires DistinctIds(formDBInfos)
      modifies this, data`formRecords
      ensures var hits := InvalidEntries(old(formDBInfos), userId, callingUid, matchedFormIds);
              var last := LastUserOfEntry(old(formDBInfos), hits, callingUid);
              && formDBInfos == CacheWithout(CacheSwept(old(formDBInfos), hits, callingUid), last)
              && dataStorage == DroppedStore(old(dataStorage), last, failing)
              && data.formRecords == UnlistAll(old(data.formRecords), hits - last, callingUid) - last
              && removed == removedForms + hits
    {
      hide *;
      ghost var cache := formDBInfos;
      ghost var hits := InvalidEntries(cache, userId, callingUid, matchedFormIds);
      ghost var last := LastUserOfEntry(cache, hits, callingUid);
      HitsWithin(cache, userId, callingUid, matchedFormIds);
      SweptIds(cache, hits, callingUid);
      var noHost, found := GetNoHostInvalidDBForms(userId, callingUid, matchedFormIds, failing);
      DeleteUserUids(data, found, callingUid);
      found := BatchDeleteNoHostDBForms(data, noHost, found, failing, last, EntryKeys(cache));
      assert hits - last + last == hits;
      removed := removedForms + found;
    }
  }

  // ----- erasing while iterating -----

  ghost predicate ErasedTo(cache: Cache, store: Store, now: Store, gone: set<int>, i: nat, removed: set<int>, kept: Cache) {
    && i <= |cache| && kept == CacheWithout(cache[..i], gone) && now == store - removed
    && forall id :: id in removed <==> id in gone && exists j :: 0 <= j < i && cache[j].formId == id
  }

  lemma EraseStart(cache: Cache, store: Store, gone: set<int>)
    ensures ErasedTo(cache, store, store, gone, 0, {}, [])
  {
    assert store - {} == store;
  }

  lemma IsBundleEntry(cache: Cache, bundleName: string, userId: int, i: nat)
    requires DistinctIds(cache) && i < |cache|
    ensures cache[i].formId in BundleEntries(cache, bundleName, userId) <==>
              cache[i].bundleName == bundleName && cache[i].userId == userId
  {
    assert cache[i] in cache;
  }

  lemma IsUserEntry(cache: Cache, userId: int, i: nat)
    requires DistinctIds(cache) && i < |cache|
    ensures cache[i].formId in UserEntries(cache, userId) <==> cache[i].userId == userId
  {
    assert cache[i] in cache;
  }

  lemma EntriesWithin(cache: Cache, bundleName: string, userId: int)
    ensures BundleEntries(cache, bundleName, userId) <= Ids(cache) && UserEntries(cache, userId) <= Ids(cache)
  {
  }

  lemma DroppedOne(store: Store, id: int, failing: set<int>)
    ensures DroppedStore(store, {id}, failing) == if id in failing then store else store - {id}
  {
    if id in failing {
      assert {id} - failing == {};
      assert store - {} == store;
    } else {
      assert {id} - failing == {id};
    }
  }

  lemma EraseStep(cache: Cache, store: Store, now: Store, now': Store, gone: set<int>, i: nat, removed: set<int>,
                  removed': set<int>, kept: Cache, kept': Cache)
    requires DistinctIds(cache) && ErasedTo(cache, store, now, gone, i, removed, kept) && i < |cache|
    requires var id := cache[i].formId;
             if id in gone then now' == now - {id} && removed' == removed + {id} && kept' == kept
             else now' == now && removed' == removed && kept' == kept + [cache[i]]
    ensures ErasedTo(cache, store, now', gone, i + 1, removed', kept')
  {
    var upto := cache[..i + 1];
    assert upto[..i] == cache[..i] && upto[i] == cache[i];
    assert now' == store - removed';
    forall id ensures id in removed' <==> id in gone && exists j :: 0 <= j < i + 1 && cache[j].formId == id {
      if id == cache[i].formId {
      } else if exists j :: 0 <= j < i + 1 && cache[j].formId == id {
        var j :| 0 <= j < i + 1 && cache[j].formId == id;
        assert j < i;
      }
    }
  }

  lemma EraseEnd(cache: Cache, store: Store, now: Store, gone: set<int>, removed: set<int>, kept: Cache)
    requires ErasedTo(cache, store, now, gone, |cache|, removed, kept)
    ensures kept == CacheWithout(cache, gone)
    ensures gone <= Ids(cache) ==> removed == gone && now == store - gone
  {
    assert cache[..|cache|] == cache;
    if gone <= Ids(cache) {
      forall id ensures id in removed <==> id in gone {
        if id in gone {
          assert id in Ids(cache);
          var d :| d in cache && d.formId == id;
          var j :| 0 <= j < |cache| && cache[j] == d;
        }
      }
    }
  }

  // ----- sweeping the cache -----

  // The first i entries have been swept.
  ghost predicate DBSwept(cache: Cache, now: Cache, noHost: Groups, found: set<int>, hits: set<int>, last: set<int>, uid: int,
                          i: nat) {
    && DistinctIds(cache) && SweptEntries(cache, now, hits, uid, i)
    && GroupsOf(noHost, last * IdsTo(cache, i), EntryKeys(cache)) && found == (hits - last) * IdsTo(cache, i)
  }

  predicate SweptEntries(cache: Cache, now: Cache, hits: set<int>, uid: int, i: nat)
    ensures SweptEntries(cache, now, hits, uid, i) ==> i <= |cache| == |now|
  {
    && i <= |cache| == |now|
    && forall j :: 0 <= j < |cache| ==>
         now[j] == if j < i && cache[j].formId in hits then UnlistDB(cache[j], uid) else cache[j]
  }

  lemma EntriesStep(cache: Cache, now: Cache, hits: set<int>, uid: int, i: nat)
    requires SweptEntries(cache, now, hits, uid, i) && i < |cache|
    ensures SweptEntries(cache, if cache[i].formId in hits then now[i := UnlistDB(cache[i], uid)] else now, hits, uid, i + 1)
  {
    hide UnlistDB;
  }

  lemma SetsStep(hits: set<int>, last: set<int>, ids: set<int>, id: int)
    requires last <= hits
    ensures last * (ids + {id}) == if id in last then last * ids + {id} else last * ids
    ensures (hits - last) * (ids + {id}) == if id in hits && id !in last then (hits - last) * ids + {id} else (hits - last) * ids
  {
  }

  function IdsTo(cache: Cache, i: nat): set<int>
    requires i <= |cache|
  {
    Ids(cache[..i])
  }

  lemma IdsStep(cache: Cache, i: nat)
    requires i < |cache|
    ensures IdsTo(cache, 0) == {} && IdsTo(cache, |cache|) == Ids(cache)
    ensures IdsTo(cache, i + 1) == IdsTo(cache, i) + {cache[i].formId}
  {
    assert cache[..i + 1] == cache[..i] + [cache[i]] && cache[..|cache|] == cache;
  }

  lemma DBSweepStart(cache: Cache, hits: set<int>, last: set<int>, uid: int)
    requires DistinctIds(cache)
    ensures DBSwept(cache, cache, map[], {}, hits, last, uid, 0)
  {
    assert IdsTo(cache, 0) == {};
    assert last * {} == {};
  }

  lemma DBSweptEntry(cache: Cache, now: Cache, noHost: Groups, found: set<int>, hits: set<int>, last: set<int>, uid: int,
                     i: nat)
    requires DBSwept(cache, now, noHost, found, hits, last, uid, i) && i < |cache|
    ensures now[i] == cache[i] && DistinctIds(cache)
  {
  }

  lemma IsInvalidEntry(cache: Cache, userId: int, uid: int, matched: set<int>, i: nat)
    requires DistinctIds(cache) && i < |cache|
    ensures cache[i].formId in InvalidEntries(cache, userId, uid, matched) <==>
              cache[i].userId == userId && uid in cache[i].formUserUids && cache[i].formId !in matched
  {
    assert cache[i] in cache;
  }

  lemma IsEntryListing(cache: Cache, uid: int, i: nat)
    requires DistinctIds(cache) && i < |cache|
    ensures cache[i].formId in EntriesListing(cache, uid) <==> uid in cache[i].formUserUids
  {
    assert cache[i] in cache;
  }

  lemma UnlistedIs(d: FormDBInfo, uid: int)
    ensures UnlistDB(d, uid) == d.(formUserUids := RemoveFirst(d.formUserUids, uid))
    ensures DBKeyOf(UnlistDB(d, uid)) == DBKeyOf(d) && UnlistDB(d, uid).formId == d.formId
  {
  }

  // Saving the entry that has just been edited in place changes nothing.
  lemma SavedSelf(cache: Cache, now: Cache, next: Cache, store: Store, noHost: Groups, found: set<int>, hits: set<int>,
                  last: set<int>, uid: int, i: nat, failing: set<int>)
    requires DBSwept(cache, now, noHost, found, hits, last, uid, i) && i < |cache|
    requires next == now[i := UnlistDB(cache[i], uid)]
    ensures SavedCache(next, next[i]) == next && SavedStore(next, store, next[i], failing) == store
  {
    hide GroupsOf, EntryKeys, IdsTo;
    assert DistinctIds(next);
    IndexIs(next, i);
  }

  lemma EntryKeyIs(cache: Cache, i: nat)
    requires DistinctIds(cache) && i < |cache|
    ensures cache[i].formId in EntryKeys(cache) && EntryKeys(cache)[cache[i].formId] == DBKeyOf(cache[i])
  {
    IndexIs(cache, i);
    assert cache[i] in cache;
  }

  lemma LastIs(cache: Cache, hits: set<int>, uid: int, i: nat)
    requires DistinctIds(cache) && i < |cache|
    ensures cache[i].formId in LastUserOfEntry(cache, hits, uid) <==>
              cache[i].formId in hits && UnlistDB(cache[i], uid).formUserUids == []
  {
    assert cache[i] in cache;
  }

  lemma DBSweepStep(cache: Cache, now: Cache, next: Cache, noHost: Groups, noHost': Groups, found: set<int>,
                    found': set<int>, hits: set<int>, last: set<int>, uid: int, i: nat)
    requires DBSwept(cache, now, noHost, found, hits, last, uid, i) && i < |cache| && last == LastUserOfEntry(cache, hits, uid)
    requires var id, d := cache[i].formId, UnlistDB(cache[i], uid);
             if id !in hits then next == now && noHost' == noHost && found' == found
             else if d.formUserUids == []
             then next == now[i := d] && noHost' == AddToGroup(noHost, FormIdKey(d.bundleName, d.abilityName), id) && found' == found
             else next == now[i := d] && noHost' == noHost && found' == found + {id}
    ensures DBSwept(cache, next, noHost', found', hits, last, uid, i + 1)
  {
    hide *;
    var id := cache[i].formId;
    SweptParts(cache, now, noHost, found, hits, last, uid, i);
    IdsStep(cache, i);
    EntryKeyIs(cache, i);
    LastIs(cache, hits, uid, i);
    LastWithin(cache, hits, uid);
    UnlistedIs(cache[i], uid);
    KeyIs(cache[i], uid);
    EntriesStep(cache, now, hits, uid, i);
    SetsStep(hits, last, IdsTo(cache, i), id);
    if id in last {
      GroupGrows(noHost, last * IdsTo(cache, i), EntryKeys(cache), id, DBKeyOf(cache[i]));
    }
    SweptParts(cache, next, noHost', found', hits, last, uid, i + 1);
  }

  lemma KeyIs(d: FormDBInfo, uid: int)
    ensures DBKeyOf(d) == FormIdKey(UnlistDB(d, uid).bundleName, UnlistDB(d, uid).abilityName)
  {
  }

  lemma LastWithin(cache: Cache, hits: set<int>, uid: int)
    ensures LastUserOfEntry(cache, hits, uid) <= hits
  {
  }

  lemma SweptParts(cache: Cache, now: Cache, noHost: Groups, found: set<int>, hits: set<int>, last: set<int>, uid: int, i: nat)
    ensures DBSwept(cache, now, noHost, found, hits, last, uid, i) <==>
              && i <= |cache| && DistinctIds(cache) && SweptEntries(cache, now, hits, uid, i)
              && GroupsOf(noHost, last * IdsTo(cache, i), EntryKeys(cache)) && found == (hits - last) * IdsTo(cache, i)
  {
    hide GroupsOf, EntryKeys, IdsTo, DistinctIds, SweptEntries;
  }

  lemma DBSweepEnd(cache: Cache, now: Cache, noHost: Groups, found: set<int>, hits: set<int>, last: set<int>, uid: int)
    requires DBSwept(cache, now, noHost, found, hits, last, uid, |cache|)
    ensures hits <= Ids(cache) && last <= hits ==>
              now == CacheSwept(cache, hits, uid) && GroupsOf(noHost, last, EntryKeys(cache)) && found == hits - last
  {
    hide GroupsOf, EntryKeys;
    assert cache[..|cache|] == cache;
    if hits <= Ids(cache) && last <= hits {
      assert last * Ids(cache) == last && (hits - last) * Ids(cache) == hits - last;
    }
  }

  lemma HitsWithin(cache: Cache, userId: int, uid: int, matched: set<int>)
    ensures var hits := InvalidEntries(cache, userId, uid, matched);
            hits <= Ids(cache) && LastUserOfEntry(cache, hits, uid) <= hits
    ensures var hits := EntriesListing(cache, uid);
            hits <= Ids(cache) && LastUserOfEntry(cache, hits, uid) <= hits
  {
  }

  lemma SweptIds(cache: Cache, hits: set<int>, uid: int)
    requires DistinctIds(cache)
    ensures DistinctIds(CacheSwept(cache, hits, uid)) && Ids(CacheSwept(cache, hits, uid)) == Ids(cache)
  {
    var r := CacheSwept(cache, hits, uid);
    forall id ensures id in Ids(r) <==> id in Ids(cache) {
      if id in Ids(cache) {
        var d :| d in cache && d.formId == id;
        var i :| 0 <= i < |cache| && cache[i] == d;
        assert r[i] in r;
      }
      if id in Ids(r) {
        var d :| d in r && d.formId == id;
        var i :| 0 <= i < |r| && r[i] == d;
        assert cache[i] in cache;
      }
    }
  }

  lemma UnlistNone(records: Records, uid: int, found: set<int>)
    ensures UnlistAll(records, found - found, uid) == records && found - {} == found
  {
    assert found - found == {};
  }

  lemma UnlistOneMore(records: Records, found: set<int>, todo: set<int>, uid: int, id: int)
    requires id in todo && todo <= found
    ensures UnlistAll(records, found - (todo - {id}), uid) == WithoutUid(UnlistAll(records, found - todo, uid), id, uid)
  {
    hide RemoveFirst;
    assert found - (todo - {id}) == found - todo + {id};
  }

  // ----- deleting in batches -----

  ghost predicate DBBatchDone(cache: Cache, now: Cache, store: Store, storeNow: Store, records: Records, recordsNow: Records,
                              found: set<int>, removed: set<int>, done: set<int>, failing: set<int>) {
    && DistinctIds(cache) && now == CacheWithout(cache, done) && storeNow == DroppedStore(store, done, failing)
    && recordsNow == records - done && removed == found + done
  }

  lemma DBBatchStart(cache: Cache, store: Store, records: Records, found: set<int>, last: set<int>, noHost: Groups,
                     keys: map<int, FormIdKey>, failing: set<int>)
    requires DistinctIds(cache) && GroupsOf(noHost, last, keys)
    ensures Pending({}, last, keys, noHost.Keys, {})
    ensures DBBatchDone(cache, cache, store, store, records, records, found, found, {}, failing)
  {
    KeepAll(cache, {});
    assert records - {} == records && {} - failing == {} && store - {} == store && found + {} == found;
  }

  lemma {:induction false} KeepAll(cache: Cache, ids: set<int>)
    requires forall d :: d in cache ==> d.formId !in ids
    ensures CacheWithout(cache, ids) == cache
  {
    if cache != [] {
      KeepAll(cache[..|cache| - 1], ids);
    }
  }

  lemma {:induction false} WithoutHas(cache: Cache, ids: set<int>)
    ensures forall d :: d in CacheWithout(cache, ids) <==> d in cache && d.formId !in ids
    ensures DistinctIds(cache) ==> DistinctIds(CacheWithout(cache, ids))
  {
    if cache != [] {
      var init := cache[..|cache| - 1];
      WithoutHas(init, ids);
      assert cache == init + [cache[|cache| - 1]];
    }
  }

  lemma {:induction false} CacheWithoutTwice(cache: Cache, a: set<int>, b: set<int>)
    ensures CacheWithout(CacheWithout(cache, a), b) == CacheWithout(cache, a + b)
  {
    if cache != [] {
      CacheWithoutTwice(cache[..|cache| - 1], a, b);
      var kept, last := CacheWithout(cache[..|cache| - 1], a), cache[|cache| - 1];
      if last.formId !in a {
        assert (kept + [last])[..|kept|] == kept;
      } else {
        var both := CacheWithout(cache[..|cache| - 1], a + b);
        assert kept + [] == kept && both + [] == both;
      }
    }
  }

  lemma DropIsWithout(cache: Cache, id: int)
    requires DistinctIds(cache)
    ensures DroppedCache(cache, id) == CacheWithout(cache, {id})
  {
    hide CacheWithout, IndexOf;
    var i := IndexOf(cache, id);
    if i == -1 {
      KeepAll(cache, {id});
    } else {
      assert cache == cache[..i] + [cache[i]] + cache[i + 1..];
      forall d | d in cache[i + 1..] ensures d.formId != id {
        var j :| i + 1 <= j < |cache| && cache[j] == d;
      }
      CutOut(cache[..i], cache[i], cache[i + 1..], id);
    }
  }

  lemma CutOut(a: Cache, d: FormDBInfo, b: Cache, id: int)
    requires d.formId == id && (forall e :: e in a ==> e.formId != id) && (forall e :: e in b ==> e.formId != id)
    ensures CacheWithout(a + [d] + b, {id}) == a + b
  {
    hide *;
    WithoutJoin(a + [d], b, {id});
    WithoutJoin(a, [d], {id});
    KeepAll(a, {id});
    KeepAll(b, {id});
    OneGone(d);
    assert a + [] == a;
  }

  lemma OneGone(d: FormDBInfo)
    ensures CacheWithout([d], {d.formId}) == []
  {
    assert [d][..0] == [];
  }

  lemma {:induction false} WithoutJoin(a: Cache, b: Cache, ids: set<int>)
    ensures CacheWithout(a + b, ids) == CacheWithout(a, ids) + CacheWithout(b, ids)
    decreases |b|
  {
    if b == [] {
      assert a + b == a;
    } else {
      assert (a + b)[..|a + b| - 1] == a + b[..|b| - 1];
      WithoutJoin(a, b[..|b| - 1], ids);
    }
  }

  lemma StillThere(cache: Cache, now: Cache, store: Store, storeNow: Store, records: Records, recordsNow: Records,
                   found: set<int>, removed: set<int>, done: set<int>, failing: set<int>, id: int)
    requires DBBatchDone(cache, now, store, storeNow, records, recordsNow, found, removed, done, failing)
    ensures id in Ids(cache) && id !in done ==> IndexOf(now, id) != -1
  {
    WithoutHas(cache, done);
    if id in Ids(cache) && id !in done {
      var d :| d in cache && d.formId == id;
      assert d in now;
    }
  }

  lemma DBBatchStep(cache: Cache, now: Cache, now': Cache, store: Store, storeNow: Store, storeNow': Store, records: Records,
                    recordsNow: Records, recordsNow': Records, found: set<int>, removed: set<int>, removed': set<int>,
                    done: set<int>, failing: set<int>, id: int)
    requires DBBatchDone(cache, now, store, storeNow, records, recordsNow, found, removed, done, failing)
    requires now' == DroppedCache(now, id) && storeNow' == DroppedStore(storeNow, {id}, failing)
    requires recordsNow' == recordsNow - {id} && removed' == removed + {id}
    ensures DBBatchDone(cache, now', store, storeNow', records, recordsNow', found, removed', done + {id}, failing)
  {
    hide CacheWithout, DroppedCache, DistinctIds;
    WithoutHas(cache, done);
    DropIsWithout(now, id);
    CacheWithoutTwice(cache, done, {id});
    assert (done + {id}) - failing == (done - failing) + ({id} - failing);
    assert recordsNow' == records - (done + {id});
    assert storeNow' == store - ((done + {id}) - failing);
  }

  lemma DBBatchEnd(cache: Cache, now: Cache, store: Store, storeNow: Store, records: Records, recordsNow: Records,
                   found: set<int>, removed: set<int>, done: set<int>, last: set<int>, keys: map<int, FormIdKey>,
                   failing: set<int>)
    requires DBBatchDone(cache, now, store, storeNow, records, recordsNow, found, removed, done, failing)
    requires Pending(done, last, keys, {}, {})
    ensures now == CacheWithout(cache, last) && storeNow == DroppedStore(store, last, failing)
    ensures recordsNow == records - last && removed == found + last
  {
    assert forall i :: i in last ==> i in done;
    assert done == last;
  }
}
