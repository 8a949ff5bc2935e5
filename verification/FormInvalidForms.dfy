/** Deleting all invalid forms is exact: the caller is taken off precisely the
    forms of its user that are not valid, and the count says how many. */
module FormInvalidForms {
  import opened FormTypes
  import opened FormDataMgr
  import opened FormDbCache
  import opened FormMgrAdapter
  import opened FormInvariants
  import opened FormRuns

  // The forms that list uid: database entries and temporary forms.
  function Listing(s: State, uid: int): set<int> {
    EntriesListing(s.cache, uid) + TempFormsListing(s.records, uid)
  }

  // A database entry or a temporary form the caller is to be taken off.
  predicate Invalid(id: int, userId: int, uids: seq<int>, uid: int, matched: set<int>) {
    userId == UserIdOf(uid) && uid in uids && id !in matched
  }

  // What the sweep may do to the list of users of a form.
  function UidsAfter(id: int, userId: int, uids: seq<int>, uid: int, matched: set<int>): seq<int> {
    if Invalid(id, userId, uids, uid, matched) then RemoveFirst(uids, uid) else uids
  }

  predicate Goes(id: int, userId: int, uids: seq<int>, uid: int, matched: set<int>) {
    Invalid(id, userId, uids, uid, matched) && uids == [uid]
  }

  // ----- the sets -----

  lemma EntryIsHit(s: State, uid: int, matched: set<int>, d: FormDBInfo)
    requires Consistent(s) && d in s.cache
    ensures d.formId in InvalidDBForms(s, uid, matched) <==> Invalid(d.formId, d.userId, d.formUserUids, uid, matched)
    ensures d.formId in LastDBForms(s, uid, matched) <==> Goes(d.formId, d.userId, d.formUserUids, uid, matched)
  {
    hide TempForms, Apart, ListedOnce, EntriesListedOnce, NoDuplicates, RemoveFirst, DistinctIds, UserIdOf;
    forall c | c in s.cache && c.formId == d.formId ensures c == d {
      SameEntry(s.cache, c, d);
    }
    EntryUids(s, d);
    OneLeft(d.formUserUids, uid);
  }

  lemma EntryUids(s: State, d: FormDBInfo)
    requires Consistent(s) && d in s.cache
    ensures NoDuplicates(d.formUserUids)
  {
  }

  // Only the last user leaves an empty list.
  lemma OneLeft(uids: seq<int>, uid: int)
    requires NoDuplicates(uids)
    ensures uid in uids ==> (RemoveFirst(uids, uid) == [] <==> uids == [uid])
    ensures uid !in RemoveFirst(uids, uid)
  {
    RemoveFirstOnly(uids, uid);
    RemoveFirstIs(uids, uid);
  }

  lemma RecordIsHit(s: State, uid: int, matched: set<int>, k: int)
    requires Consistent(s) && k in s.temp
    ensures k in s.records && k in RecordsBetween(s, uid, matched) && RecordsBetween(s, uid, matched)[k] == s.records[k]
    ensures var r := s.records[k];
            && (k in InvalidTemps(s, uid, matched) <==> Invalid(k, r.userId, r.formUserUids, uid, matched))
            && (k in LastTemps(s, uid, matched) <==> Goes(k, r.userId, r.formUserUids, uid, matched))
  {
    hide Apart, EntriesListedOnce, NoDuplicates, RemoveFirst, DistinctIds, UserIdOf, InvalidDBForms, LastDBForms, Ids;
    InvalidSets(s, uid, matched);
    TempIsNoEntry(s, k);
    OneLeft(s.records[k].formUserUids, uid);
  }

  lemma TempIsNoEntry(s: State, k: int)
    requires Consistent(s) && k in s.temp
    ensures k !in Ids(s.cache)
  {
  }

  lemma HitsAreTemp(s: State, uid: int, matched: set<int>)
    requires Consistent(s)
    ensures LastTemps(s, uid, matched) <= InvalidTemps(s, uid, matched)
    ensures forall k :: k in InvalidTemps(s, uid, matched) ==> k in s.temp
  {
    hide Apart, EntriesListedOnce, NoDuplicates, RemoveFirst, DistinctIds, UserIdOf, InvalidDBForms, LastDBForms;
  }

  // ----- what is left -----

  lemma EntryAfter(s: State, uid: int, matched: set<int>, failing: set<int>, d: FormDBInfo)
    requires Consistent(s) && d in s.cache
    ensures var t := AfterDeleteInvalid(s, uid, matched, failing);
            if Goes(d.formId, d.userId, d.formUserUids, uid, matched)
            then d.formId !in Ids(t.cache) && d.formId !in t.records && d.formId !in t.temp && (d.formId !in failing ==> d.formId !in t.store)
            else d.(formUserUids := UidsAfter(d.formId, d.userId, d.formUserUids, uid, matched)) in t.cache
  {
    hide *;
    var hits, last := InvalidDBForms(s, uid, matched), LastDBForms(s, uid, matched);
    EntryIsHit(s, uid, matched, d);
    SweptHas(s.cache, hits, uid);
    SweptIds(s.cache, hits, uid) by {
      DistinctOf(s);
    }
    WithoutHas(CacheSwept(s.cache, hits, uid), last);
    WithoutIds(CacheSwept(s.cache, hits, uid), last);
    AfterIs(s, uid, matched, failing);
    DroppedHas(s.store, last, failing, d.formId);
    UidsAfterIs(d, uid, matched);
    RecordsAfter(s, uid, matched, d.formId);
    GoneFromList(s, uid, matched, d);
  }

  lemma DroppedHas(store: Store, ids: set<int>, failing: set<int>, id: int)
    ensures id in DroppedStore(store, ids, failing) <==> id in store && !(id in ids && id !in failing)
  {
  }

  lemma UidsAfterIs(d: FormDBInfo, uid: int, matched: set<int>)
    ensures d.(formUserUids := UidsAfter(d.formId, d.userId, d.formUserUids, uid, matched))
            == if Invalid(d.formId, d.userId, d.formUserUids, uid, matched) then UnlistDB(d, uid) else d
  {
    hide RemoveFirst, Invalid;
  }

  lemma AfterIs(s: State, uid: int, matched: set<int>, failing: set<int>)
    ensures var t := AfterDeleteInvalid(s, uid, matched, failing);
            && t.cache == CacheWithout(CacheSwept(s.cache, InvalidDBForms(s, uid, matched), uid), LastDBForms(s, uid, matched))
            && t.store == DroppedStore(s.store, LastDBForms(s, uid, matched), failing)
            && t.temp == Without(s.temp, LastTemps(s, uid, matched))
            && t.records == UnlistAll(RecordsBetween(s, uid, matched), InvalidTemps(s, uid, matched), uid) - LastTemps(s, uid, matched)
  {
    hide CacheWithout, CacheSwept, InvalidDBForms, LastDBForms, DroppedStore, Without, LastTemps, UnlistAll, RecordsBetween,
         InvalidTemps, HostsWithoutForms;
  }

  lemma RecordsAfter(s: State, uid: int, matched: set<int>, id: int)
    ensures id in UnlistAll(RecordsBetween(s, uid, matched), InvalidTemps(s, uid, matched), uid) - LastTemps(s, uid, matched)
            <==> id in s.records && id !in LastDBForms(s, uid, matched) && id !in LastTemps(s, uid, matched)
  {
    hide InvalidDBForms, LastDBForms, LastTemps, InvalidTemps, RemoveFirst;
  }

  lemma GoneFromList(s: State, uid: int, matched: set<int>, d: FormDBInfo)
    requires Consistent(s) && d in s.cache
    ensures d.formId !in Without(s.temp, LastTemps(s, uid, matched))
  {
    hide Without, LastTemps, DistinctIds, ListedOnce, EntriesListedOnce;
    WithoutIs(s.temp, LastTemps(s, uid, matched));
    assert d.formId in Ids(s.cache);
  }

  lemma TempAfter(s: State, uid: int, matched: set<int>, failing: set<int>, k: int)
    requires Consistent(s) && k in s.temp
    ensures k in s.records
    ensures var t, r := AfterDeleteInvalid(s, uid, matched, failing), s.records[k];
            if Goes(k, r.userId, r.formUserUids, uid, matched) then k !in t.records && k !in t.temp
            else k in t.temp && k in t.records
                 && t.records[k] == r.(formUserUids := UidsAfter(k, r.userId, r.formUserUids, uid, matched))
  {
    hide *;
    RecordIsHit(s, uid, matched, k);
    AfterIs(s, uid, matched, failing);
    WithoutIs(s.temp, LastTemps(s, uid, matched));
    RecordLeft(s, uid, matched, k);
  }

  lemma RecordLeft(s: State, uid: int, matched: set<int>, k: int)
    requires k in s.records && k in RecordsBetween(s, uid, matched) && RecordsBetween(s, uid, matched)[k] == s.records[k]
    requires k in InvalidTemps(s, uid, matched)
             <==> Invalid(k, s.records[k].userId, s.records[k].formUserUids, uid, matched)
    ensures var now := UnlistAll(RecordsBetween(s, uid, matched), InvalidTemps(s, uid, matched), uid) - LastTemps(s, uid, matched);
            var r := s.records[k];
            if k in LastTemps(s, uid, matched) then k !in now
            else k in now && now[k] == r.(formUserUids := UidsAfter(k, r.userId, r.formUserUids, uid, matched))
  {
    hide RecordsBetween, LastTemps, InvalidTemps, RemoveFirst, Invalid;
  }

  // Nothing is added.
  lemma NothingNew(s: State, uid: int, matched: set<int>, failing: set<int>)
    requires Consistent(s)
    ensures var t := AfterDeleteInvalid(s, uid, matched, failing);
            && (forall e :: e in t.cache ==> exists d :: d in s.cache && Was(d, e, uid, matched))
            && (forall k :: k in t.temp ==> k in s.temp)
  {
    hide *;
    var t := AfterDeleteInvalid(s, uid, matched, failing);
    var hits, last := InvalidDBForms(s, uid, matched), LastDBForms(s, uid, matched);
    AfterIs(s, uid, matched, failing);
    SweptHas(s.cache, hits, uid);
    WithoutHas(CacheSwept(s.cache, hits, uid), last);
    WithoutIs(s.temp, LastTemps(s, uid, matched));
    forall e | e in t.cache ensures exists d :: d in s.cache && Was(d, e, uid, matched) {
      var d :| d in s.cache && e == if d.formId in hits then UnlistDB(d, uid) else d;
      EntryIsHit(s, uid, matched, d);
      UidsAfterIs(d, uid, matched);
      WasIs(d, e, uid, matched);
    }
  }

  predicate Was(d: FormDBInfo, e: FormDBInfo, uid: int, matched: set<int>) {
    e == d.(formUserUids := UidsAfter(d.formId, d.userId, d.formUserUids, uid, matched))
    && !Goes(d.formId, d.userId, d.formUserUids, uid, matched)
  }

  lemma WasIs(d: FormDBInfo, e: FormDBInfo, uid: int, matched: set<int>)
    ensures Was(d, e, uid, matched)
            <==> e == d.(formUserUids := UidsAfter(d.formId, d.userId, d.formUserUids, uid, matched))
                 && !Goes(d.formId, d.userId, d.formUserUids, uid, matched)
    ensures UnlistDB(d, uid).formId == d.formId
  {
    hide UidsAfter, Goes;
  }

  // ----- main results -----

  // No invalid form of the caller's user lists the caller any more; a form
  // that lost its last user is gone everywhere; every other entry and every
  // other temporary form is as it was.
  lemma DeleteInvalidIsExact(s: State, uid: int, matched: set<int>, failing: set<int>)
    requires Consistent(s)
    ensures var t := AfterDeleteInvalid(s, uid, matched, failing);
      && (forall d :: d in t.cache && d.userId == UserIdOf(uid) && d.formId !in matched ==> uid !in d.formUserUids)
      && (forall k :: k in t.temp && k in t.records && t.records[k].userId == UserIdOf(uid) && k !in matched ==>
                        uid !in t.records[k].formUserUids)
      && (forall d :: d in s.cache && Goes(d.formId, d.userId, d.formUserUids, uid, matched) ==>
            d.formId !in Ids(t.cache) && d.formId !in t.records && d.formId !in t.temp
            && (d.formId !in failing ==> d.formId !in t.store))
      && (forall k :: k in s.temp && k in s.records && Goes(k, s.records[k].userId, s.records[k].formUserUids, uid, matched) ==>
                        k !in t.records && k !in t.temp)
      && (forall d :: d in s.cache && !Invalid(d.formId, d.userId, d.formUserUids, uid, matched) ==> d in t.cache)
      && (forall k :: k in s.temp && k in s.records
                      && !Invalid(k, s.records[k].userId, s.records[k].formUserUids, uid, matched) ==>
                        k in t.temp && k in t.records && t.records[k] == s.records[k])
  {
    hide *;
    var t := AfterDeleteInvalid(s, uid, matched, failing);
    NothingNew(s, uid, matched, failing);
    forall e | e in t.cache && e.userId == UserIdOf(uid) && e.formId !in matched ensures uid !in e.formUserUids {
      var d :| d in s.cache && Was(d, e, uid, matched);
      EntryUids(s, d);
      WasNotListed(d, e, uid, matched);
    }
    forall k | k in s.temp
      ensures k in s.records
      ensures var r := s.records[k];
              && (Goes(k, r.userId, r.formUserUids, uid, matched) ==> k !in t.records && k !in t.temp)
              && (!Invalid(k, r.userId, r.formUserUids, uid, matched) ==> k in t.temp && k in t.records && t.records[k] == r)
              && (k in t.temp && k in t.records && t.records[k].userId == UserIdOf(uid) && k !in matched ==>
                    uid !in t.records[k].formUserUids)
    {
      TempAfter(s, uid, matched, failing, k);
      RecordUids(s, k);
      TempNotListed(k, s.records[k], uid, matched);
    }
    forall d | d in s.cache
      ensures Goes(d.formId, d.userId, d.formUserUids, uid, matched) ==>
                d.formId !in Ids(t.cache) && d.formId !in t.records && d.formId !in t.temp && (d.formId !in failing ==> d.formId !in t.store)
      ensures !Invalid(d.formId, d.userId, d.formUserUids, uid, matched) ==> d in t.cache
    {
      EntryAfter(s, uid, matched, failing, d);
      EntryStays(d, uid, matched);
    }
  }

  lemma RecordUids(s: State, k: int)
    requires Consistent(s) && k in s.records
    ensures NoDuplicates(s.records[k].formUserUids)
  {
  }

  lemma EntryStays(d: FormDBInfo, uid: int, matched: set<int>)
    ensures !Invalid(d.formId, d.userId, d.formUserUids, uid, matched) ==>
              && !Goes(d.formId, d.userId, d.formUserUids, uid, matched)
              && d.(formUserUids := UidsAfter(d.formId, d.userId, d.formUserUids, uid, matched)) == d
  {
  }

  lemma WasNotListed(d: FormDBInfo, e: FormDBInfo, uid: int, matched: set<int>)
    requires Was(d, e, uid, matched) && NoDuplicates(d.formUserUids)
    ensures e.userId == UserIdOf(uid) && e.formId !in matched ==> uid !in e.formUserUids
  {
    hide RemoveFirst, NoDuplicates, UserIdOf;
    OneLeft(d.formUserUids, uid);
  }

  lemma TempNotListed(k: int, r: FormRecord, uid: int, matched: set<int>)
    requires NoDuplicates(r.formUserUids)
    ensures r.userId == UserIdOf(uid) && k !in matched ==> uid !in UidsAfter(k, r.userId, r.formUserUids, uid, matched)
    ensures !Invalid(k, r.userId, r.formUserUids, uid, matched) ==>
              && !Goes(k, r.userId, r.formUserUids, uid, matched)
              && r.(formUserUids := UidsAfter(k, r.userId, r.formUserUids, uid, matched)) == r
  {
    hide RemoveFirst, NoDuplicates, UserIdOf;
    OneLeft(r.formUserUids, uid);
  }

  // numFormsDeleted is the number of forms that listed the caller before and
  // do not any more.
  lemma CountIsExact(s: State, uid: int, matched: set<int>, failing: set<int>)
    requires Consistent(s)
    ensures var t := AfterDeleteInvalid(s, uid, matched, failing);
            InvalidDBForms(s, uid, matched) + InvalidTemps(s, uid, matched) == Listing(s, uid) - Listing(t, uid)
  {
    hide *;
    var t := AfterDeleteInvalid(s, uid, matched, failing);
    DeleteInvalidKeeps(s, uid, matched, failing);
    forall id ensures id in InvalidDBForms(s, uid, matched) + InvalidTemps(s, uid, matched)
                      <==> id in Listing(s, uid) && id !in Listing(t, uid)
    {
      ListingHas(s, uid, id);
      ListingHas(t, uid, id);
      TempListingIs(s, uid, id);
      CountedEntry(s, uid, matched, failing, id);
      CountedTemp(s, uid, matched, failing, id);
    }
  }

  ghost predicate EntryListing(cache: Cache, uid: int, id: int) {
    exists d :: d in cache && d.formId == id && uid in d.formUserUids
  }

  predicate TempListing(s: State, uid: int, id: int) {
    id in s.temp && id in s.records && uid in s.records[id].formUserUids
  }

  lemma ListingHas(s: State, uid: int, id: int)
    requires Consistent(s)
    ensures id in Listing(s, uid) <==> EntryListing(s.cache, uid, id) || TempListing(s, uid, id)
    ensures !(EntryListing(s.cache, uid, id) && id in s.temp)
  {
    hide DistinctIds, ListedOnce, EntriesListedOnce;
    if EntryListing(s.cache, uid, id) {
      var d :| d in s.cache && d.formId == id && uid in d.formUserUids;
      assert id in Ids(s.cache);
    }
  }

  lemma CountedEntry(s: State, uid: int, matched: set<int>, failing: set<int>, id: int)
    requires Consistent(s)
    ensures var t := AfterDeleteInvalid(s, uid, matched, failing);
            && (id in InvalidDBForms(s, uid, matched) <==> EntryListing(s.cache, uid, id) && !EntryListing(t.cache, uid, id))
            && (EntryListing(t.cache, uid, id) ==> EntryListing(s.cache, uid, id))
  {
    hide *;
    var t := AfterDeleteInvalid(s, uid, matched, failing);
    NothingNew(s, uid, matched, failing);
    if EntryListing(s.cache, uid, id) {
      var d := EntryOf(s.cache, uid, id);
      EntryIsHit(s, uid, matched, d);
      EntryAfter(s, uid, matched, failing, d);
      EntryStays(d, uid, matched);
      if d in t.cache {
        EntryIs(t.cache, uid, d);
      }
    }
    if EntryListing(t.cache, uid, id) {
      var e := EntryOf(t.cache, uid, id);
      var d :| d in s.cache && Was(d, e, uid, matched);
      EntryUids(s, d);
      WasListed(d, e, uid, matched);
      EntryIs(s.cache, uid, d);
      EntryIsHit(s, uid, matched, d);
    }
    if id in InvalidDBForms(s, uid, matched) {
      HitIsListed(s, uid, matched, id);
    }
  }

  lemma EntryOf(cache: Cache, uid: int, id: int) returns (d: FormDBInfo)
    requires EntryListing(cache, uid, id)
    ensures d in cache && d.formId == id && uid in d.formUserUids
  {
    d :| d in cache && d.formId == id && uid in d.formUserUids;
  }

  lemma EntryIs(cache: Cache, uid: int, d: FormDBInfo)
    requires d in cache && uid in d.formUserUids
    ensures EntryListing(cache, uid, d.formId)
  {
  }

  lemma HitIsListed(s: State, uid: int, matched: set<int>, id: int)
    requires id in InvalidDBForms(s, uid, matched)
    ensures EntryListing(s.cache, uid, id)
  {
  }

  lemma WasListed(d: FormDBInfo, e: FormDBInfo, uid: int, matched: set<int>)
    requires Was(d, e, uid, matched) && NoDuplicates(d.formUserUids) && uid in e.formUserUids
    ensures d.formId == e.formId && uid in d.formUserUids && !Invalid(d.formId, d.userId, d.formUserUids, uid, matched)
  {
    hide RemoveFirst, NoDuplicates, UserIdOf;
    OneLeft(d.formUserUids, uid);
  }

  lemma CountedTemp(s: State, uid: int, matched: set<int>, failing: set<int>, id: int)
    requires Consistent(s)
    ensures var t := AfterDeleteInvalid(s, uid, matched, failing);
            && (id in InvalidTemps(s, uid, matched) <==> TempListing(s, uid, id) && !TempListing(t, uid, id))
            && (TempListing(t, uid, id) ==> TempListing(s, uid, id))
  {
    hide *;
    var t := AfterDeleteInvalid(s, uid, matched, failing);
    NothingNew(s, uid, matched, failing);
    HitsAreTemp(s, uid, matched);
    TempListingIs(s, uid, id);
    TempListingIs(t, uid, id);
    if id in s.temp {
      TempAfter(s, uid, matched, failing, id);
      RecordIsHit(s, uid, matched, id);
      RecordUids(s, id);
      TempUids(id, s.records[id], uid, matched);
    }
  }

  lemma TempListingIs(s: State, uid: int, id: int)
    ensures TempListing(s, uid, id) <==> id in s.temp && id in s.records && uid in s.records[id].formUserUids
  {
  }

  lemma TempUids(k: int, r: FormRecord, uid: int, matched: set<int>)
    requires NoDuplicates(r.formUserUids)
    ensures uid in UidsAfter(k, r.userId, r.formUserUids, uid, matched)
            <==> uid in r.formUserUids && !Invalid(k, r.userId, r.formUserUids, uid, matched)
    ensures Goes(k, r.userId, r.formUserUids, uid, matched) ==> Invalid(k, r.userId, r.formUserUids, uid, matched)
    ensures Invalid(k, r.userId, r.formUserUids, uid, matched) ==> uid in r.formUserUids
  {
    hide RemoveFirst, NoDuplicates, UserIdOf;
    OneLeft(r.formUserUids, uid);
  }
}
