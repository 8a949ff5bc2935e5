/** The form manager's public calls: adding, deleting, releasing and casting
    forms, and the deletion of all invalid forms. What the provider, the data
    cache, the timers and the storage answer comes in as a parameter. */
module FormMgrAdapter {
  import opened FormTypes
  import opened FormDataMgr
  import opened FormDbCache

  const NO_TOKEN := 0

  datatype ErrCode = Ok | InvalidParam | LimitReached(limit: Limit) | GetInfoFailed | CommonCode | CfgNotMatchId | NotExistId | NotSelf
                   | BindProviderFailed | StorageFailed

  // The answers of the outside world during one call.
  datatype Outside = Outside(configOk: bool, hashOk: bool, matches: bool, mustAcquire: bool, providerOk: bool, dataOk: bool,
                             timerOk: bool, newFormId: int, failing: set<int>)

  datatype State = State(records: Records, temp: seq<int>, hosts: seq<FormHostRecord>, cache: Cache, store: Store)

  datatype Outcome = Outcome(state: State, code: ErrCode)

  ghost function FormLimit(records: Records, userId: int, uid: int): Limit {
    LimitOf(NormalForms(records, userId), NormalFormsOf(records, userId, uid))
  }

  // A 32-bit id is completed with the device's hash, a multiple of 2^32.
  function PaddingUDIDHash(id: int, udidHash: int): int {
    if 0 <= id < LOW_WORD then udidHash + id else id
  }

  function Saved(s: State, id: int, r: FormRecord, failing: set<int>): State {
    s.(cache := SavedCache(s.cache, DBInfoOf(id, r)), store := SavedStore(s.cache, s.store, DBInfoOf(id, r), failing))
  }

  function HostAdded(s: State, token: int, uid: int, id: int): State {
    s.(hosts := HostAllotted(s.hosts, token, uid, id))
  }

  function HostDropped(s: State, token: int, id: int): State {
    s.(hosts := HostReleased(s.hosts, token, id))
  }

  // ----- what the calls do -----

  function AllottedState(s: State, info: FormItemInfo, token: int, uid: int): State {
    HostAdded(s, token, uid, info.formId)
    .(temp := if info.temporary then AddIfMissing(s.temp, info.formId) else s.temp,
      records := Allotted(s.records, info, uid, UserIdOf(uid)))
  }

  function AfterAddNew(s: State, info: FormItemInfo, token: int, uid: int, out: Outside): Outcome {
    var t := AllottedState(s, info, token, uid);
    if info.formId <= 0 then Outcome(t, InvalidParam)
    else if !out.providerOk then Outcome(t, BindProviderFailed)
    else
      var r := t.records[info.formId];
      var kept := if info.temporary then t else Saved(t, info.formId, r, out.failing);
      if !info.temporary && !SaveSucceeds(t.cache, DBInfoOf(info.formId, r), out.failing) then Outcome(kept, StorageFailed)
      else Outcome(kept, if r.formTempFlg || out.timerOk then Ok else CommonCode)
  }

  function AfterAddExist(s: State, id: int, token: int, uid: int, out: Outside): Outcome
    requires id in s.records
  {
    var t := HostAdded(s, token, uid, id);
    if out.mustAcquire && id <= 0 then Outcome(t, InvalidParam)
    else if out.mustAcquire && !out.providerOk then Outcome(t, BindProviderFailed)
    else
      var listed := t.(records := WithUid(s.records, id, uid));
      var r := s.records[id].(formUserUids := AddIfMissing(s.records[id].formUserUids, uid));
      if r.formTempFlg then Outcome(listed, Ok)
      else if !out.timerOk then Outcome(listed, CommonCode)
      else Outcome(Saved(listed, id, r, out.failing),
                   if SaveSucceeds(s.cache, DBInfoOf(id, r), out.failing) then Ok else StorageFailed)
  }

  // `info` carries the id the host asked for; it is completed first.
  function AfterAllotById(s: State, info: FormItemInfo, token: int, uid: int, udidHash: int, out: Outside): Outcome {
    var id := PaddingUDIDHash(info.formId, udidHash);
    if id in s.records && s.records[id].formTempFlg then Outcome(s, CommonCode)
    else if id in s.records && (s.records[id].userId == UserIdOf(uid) || uid in s.records[id].formUserUids) then
      if out.matches then AfterAddExist(s, id, token, uid, out) else Outcome(s, CfgNotMatchId)
    else
      var i := IndexOf(s.cache, id);
      if i != -1 && (s.cache[i].userId == UserIdOf(uid) || uid in s.cache[i].formUserUids)
      then AfterAddNew(s, info.(formId := id), token, uid, out)
      else Outcome(s, NotExistId)
  }

  ghost function AfterAdd(s: State, info: FormItemInfo, token: int, uid: int, udidHash: int, out: Outside): Outcome {
    if info.formId < 0 || token == NO_TOKEN then Outcome(s, InvalidParam)
    else if info.temporary && info.formId > 0 then Outcome(s, InvalidParam)
    else if info.temporary && |s.temp| >= MAX_TEMP_FORMS then Outcome(s, LimitReached(MaxSystemTempForms))
    else if !info.temporary && info.formId == 0 && FormLimit(s.records, UserIdOf(uid), uid) != NoLimit
    then Outcome(s, LimitReached(FormLimit(s.records, UserIdOf(uid), uid)))
    else if !out.configOk then Outcome(s, GetInfoFailed)
    else if !out.hashOk then Outcome(s, CommonCode)
    else if info.formId > 0 then AfterAllotById(s, info, token, uid, udidHash, out)
    else if out.newFormId < 0 then Outcome(s, CommonCode)
    else AfterAddNew(s, info.(formId := out.newFormId), token, uid, out)
  }

  function AfterDeleteTemp(s: State, id: int, token: int, uid: int, out: Outside): Outcome {
    if id !in s.records || !s.records[id].formTempFlg || s.records[id].userId != UserIdOf(uid)
       || uid !in s.records[id].formUserUids then Outcome(s, NotSelf)
    else
      var less := s.(records := WithoutUid(s.records, id, uid));
      if less.records[id].formUserUids != [] then Outcome(HostDropped(less, token, id), Ok)
      else if !out.providerOk then Outcome(less.(records := WithUid(less.records, id, uid)), BindProviderFailed)
      else
        var gone := less.(temp := RemoveFirst(s.temp, id), records := less.records - {id});
        if out.dataOk then Outcome(HostDropped(gone, token, id), Ok) else Outcome(gone, CommonCode)
  }

  predicate OwnEntry(cache: Cache, id: int, uid: int) {
    var i := IndexOf(cache, id);
    i != -1 && cache[i].userId == UserIdOf(uid) && uid in cache[i].formUserUids
  }

  function AfterDeleteCache(s: State, id: int, uid: int, out: Outside): Outcome
    requires OwnEntry(s.cache, id, uid)
  {
    var d := UnlistDB(s.cache[IndexOf(s.cache, id)], uid);
    if d.formUserUids == [] then
      if !out.providerOk then Outcome(s, BindProviderFailed)
      else
        var gone := s.(records := s.records - {id}, cache := DroppedCache(s.cache, id),
                       store := DroppedStore(s.store, {id}, out.failing));
        Outcome(gone, if id in out.failing then StorageFailed else if out.dataOk && out.timerOk then Ok else CommonCode)
    else
      var saved := s.(cache := SavedCache(s.cache, d), store := SavedStore(s.cache, s.store, d, out.failing));
      if !SaveSucceeds(s.cache, d, out.failing) then Outcome(saved, StorageFailed)
      else Outcome(saved.(records := WithoutUid(s.records, id, uid)), Ok)
  }

  function AfterDeleteNormal(s: State, id: int, token: int, uid: int, out: Outside): Outcome {
    if IndexOf(s.cache, id) == -1 then Outcome(s, NotExistId)
    else if !OwnEntry(s.cache, id, uid) then Outcome(s, NotSelf)
    else
      var t := AfterDeleteCache(s, id, uid, out);
      if t.code == Ok then Outcome(HostDropped(t.state, token, id), Ok) else t
  }

  function AfterDelete(s: State, formId: int, id: int, token: int, uid: int, out: Outside): Outcome {
    if formId <= 0 || token == NO_TOKEN then Outcome(s, InvalidParam)
    else if id in s.temp then AfterDeleteTemp(s, id, token, uid, out)
    else AfterDeleteNormal(s, id, token, uid, out)
  }

  function AfterReleaseRecord(s: State, id: int, token: int, uid: int, out: Outside): Outcome {
    if id !in s.records then Outcome(s, NotExistId)
    else if id !in HostForms(s.hosts, token) then Outcome(s, NotSelf)
    else
      var less := s.(records := WithoutUid(s.records, id, uid));
      if less.records[id].formUserUids != [] then Outcome(less, Ok)
      else Outcome(less.(records := less.records - {id}), if out.timerOk then Ok else CommonCode)
  }

  function AfterRelease(s: State, formId: int, id: int, token: int, uid: int, delCache: bool, out: Outside): Outcome {
    if formId <= 0 || token == NO_TOKEN then Outcome(s, InvalidParam)
    else if id in s.temp then AfterDeleteTemp(s, id, token, uid, out)
    else if IndexOf(s.cache, id) == -1 then Outcome(s, NotExistId)
    else if !OwnEntry(s.cache, id, uid) then Outcome(s, NotSelf)
    else
      var t := if delCache then AfterReleaseRecord(s, id, token, uid, out) else Outcome(s, Ok);
      if t.code != Ok then t else Outcome(HostDropped(t.state, token, id), if out.timerOk then Ok else CommonCode)
  }

  ghost function AfterCast(s: State, formId: int, id: int, token: int, uid: int, out: Outside): Outcome {
    if formId <= 0 || token == NO_TOKEN then Outcome(s, InvalidParam)
    else if id !in s.records || id !in s.temp then Outcome(s, NotExistId)
    else if id !in HostForms(s.hosts, token) then Outcome(s, NotSelf)
    else if FormLimit(s.records, UserIdOf(uid), uid) != NoLimit
    then Outcome(s, LimitReached(FormLimit(s.records, UserIdOf(uid), uid)))
    else if !out.providerOk then Outcome(s, BindProviderFailed)
    else
      var r := s.records[id].(formTempFlg := false, formUserUids := AddIfMissing(s.records[id].formUserUids, uid));
      var cast := s.(temp := RemoveFirst(s.temp, id), records := s.records[id := r]);
      Outcome(Saved(cast, id, r, out.failing),
              if !SaveSucceeds(s.cache, DBInfoOf(id, r), out.failing) then StorageFailed
              else if out.timerOk then Ok else CommonCode)
  }

  // The forms DeleteInvalidForms takes the caller off: database entries first,
  // then, among the records that are left, temporary forms.
  function InvalidDBForms(s: State, uid: int, matched: set<int>): set<int> {
    InvalidEntries(s.cache, UserIdOf(uid), uid, matched)
  }

  function LastDBForms(s: State, uid: int, matched: set<int>): set<int> {
    LastUserOfEntry(s.cache, InvalidDBForms(s, uid, matched), uid)
  }

  function RecordsBetween(s: State, uid: int, matched: set<int>): Records {
    UnlistAll(s.records, InvalidDBForms(s, uid, matched) - LastDBForms(s, uid, matched), uid) - LastDBForms(s, uid, matched)
  }

  function InvalidTemps(s: State, uid: int, matched: set<int>): set<int> {
    InvalidTempForms(RecordsBetween(s, uid, matched), UserIdOf(uid), uid, matched)
  }

  function LastTemps(s: State, uid: int, matched: set<int>): set<int> {
    LastUserOf(RecordsBetween(s, uid, matched), InvalidTemps(s, uid, matched), uid)
  }

  function AfterDeleteInvalid(s: State, uid: int, matched: set<int>, failing: set<int>): State {
    var hits, last := InvalidDBForms(s, uid, matched), LastDBForms(s, uid, matched);
    var temps, lastTemps := InvalidTemps(s, uid, matched), LastTemps(s, uid, matched);
    State(UnlistAll(RecordsBetween(s, uid, matched), temps, uid) - lastTemps,
          Without(s.temp, lastTemps),
          if hits + temps == {} then s.hosts else HostsWithoutForms(s.hosts, uid, hits + temps),
          CacheWithout(CacheSwept(s.cache, hits, uid), last),
          DroppedStore(s.store, last, failing))
  }

  // ----- matching ids -----

  lemma MatchExists(records: Records, id: int)
    ensures exists r :: Matches(records, id, r)
  {
    if 0 <= id < LOW_WORD && exists k :: k in records && SameLowWord(k, id) {
      var same := set k | k in records && SameLowWord(k, id);
      var k :| k in records && SameLowWord(k, id);
      assert k in same;
      HasLeast(same);
      var r :| IsLeast(same, r);
      forall k | k in records && SameLowWord(k, id) ensures r <= k {
        assert k in same;
      }
      assert Matches(records, id, r);
    } else {
      assert Matches(records, id, id);
    }
  }

  lemma MatchUnique(records: Records, id: int, a: int, b: int)
    requires Matches(records, id, a) && Matches(records, id, b)
    ensures a == b
  {
  }

  ghost function MatchedId(records: Records, id: int): (r: int)
    ensures Matches(records, id, r)
  {
    MatchExists(records, id);
    var r :| Matches(records, id, r);
    r
  }

  ghost predicate AllMatched(records: Records, formIds: seq<int>, matched: set<int>) {
    forall r :: r in matched <==> exists i :: 0 <= i < |formIds| && Matches(records, formIds[i], r)
  }

  class FormMgrAdapter {
    const data: FormDataMgr
    const db: FormDbCache
    const udidHash: int

    constructor (data: FormDataMgr, db: FormDbCache, udidHash: int)
      ensures this.data == data && this.db == db && this.udidHash == udidHash
    {
      this.data, this.db, this.udidHash := data, db, udidHash;
    }

    ghost function Now(): State
      reads data, db
    {
      State(data.formRecords, data.tempForms, data.clientRecords, db.formDBInfos, db.dataStorage)
    }

    method AddForm(info: FormItemInfo, callerToken: int, callingUid: int, out: Outside) returns (code: ErrCode)
      modifies data, db
      ensures Outcome(Now(), code) == AfterAdd(old(Now()), info, callerToken, callingUid, udidHash, out)
    {
      hide AfterAllotById, AfterAddNew, NormalForms, NormalFormsOf, LimitOf;
      if info.formId < 0 || callerToken == NO_TOKEN {
        return InvalidParam;
      }
      var limit := NoLimit;
      if info.temporary {
        if info.formId > 0 {
          return InvalidParam;
        }
        limit := data.CheckTempEnoughForm();
      } else if info.formId == 0 {
        limit := data.CheckEnoughForm(callingUid, UserIdOf(callingUid));
      }
      if limit != NoLimit {
        return LimitReached(limit);
      }
      if !out.configOk {
        return GetInfoFailed;
      }
      if !out.hashOk {
        return CommonCode;
      }
      if info.formId > 0 {
        code := AllotFormById(info, callerToken, callingUid, out);
      } else {
        code := AllotFormByInfo(info, callerToken, callingUid, out);
      }
    }

    method AllotFormById(info: FormItemInfo, callerToken: int, callingUid: int, out: Outside) returns (code: ErrCode)
      modifies data, db
      ensures Outcome(Now(), code) == AfterAllotById(old(Now()), info, callerToken, callingUid, udidHash, out)
    {
      hide AfterAddExist, AfterAddNew, UserIdOf;
      var formId := PaddingUDIDHash(info.formId, udidHash);
      var hasRecord := formId in data.formRecords;
      if hasRecord && data.formRecords[formId].formTempFlg {
        return CommonCode;
      }
      if hasRecord
         && (data.formRecords[formId].userId == UserIdOf(callingUid) || callingUid in data.formRecords[formId].formUserUids) {
        if !out.matches {
          return CfgNotMatchId;
        }
        code := AddExistFormRecord(formId, callerToken, callingUid, out);
        return;
      }
      var known, dbRecord := db.GetDBRecord(formId);
      if known && (dbRecord.userId == UserIdOf(callingUid) || callingUid in dbRecord.formUserUids) {
        code := AddNewFormRecord(info, formId, callerToken, callingUid, out);
        return;
      }
      code := NotExistId;
    }

    method AllotFormByInfo(info: FormItemInfo, callerToken: int, callingUid: int, out: Outside) returns (code: ErrCode)
      modifies data, db
      ensures Outcome(Now(), code)
              == if out.newFormId < 0 then Outcome(old(Now()), CommonCode)
                 else AfterAddNew(old(Now()), info.(formId := out.newFormId), callerToken, callingUid, out)
    {
      hide AfterAddNew;
      if out.newFormId < 0 {
        return CommonCode;
      }
      code := AddNewFormRecord(info, out.newFormId, callerToken, callingUid, out);
    }

    method AddExistFormRecord(formId: int, callerToken: int, callingUid: int, out: Outside) returns (code: ErrCode)
      requires formId in data.formRecords
      modifies data, db
      ensures Outcome(Now(), code) == AfterAddExist(old(Now()), formId, callerToken, callingUid, out)
    {
      hide SavedCache, SavedStore, SaveSucceeds, HostAllotted, WithUid, AddIfMissing;
      data.AllotFormHostRecord(callerToken, formId, callingUid);
      var newRecord := data.formRecords[formId];
      if out.mustAcquire {
        code := AcquireProviderFormInfoAsync(formId, out);
        if code != Ok {
          return;
        }
      }
      data.AddFormUserUid(formId, callingUid);
      newRecord := newRecord.(formUserUids := AddIfMissing(newRecord.formUserUids, callingUid));
      if !newRecord.formTempFlg && !out.timerOk {
        return CommonCode;
      }
      if !newRecord.formTempFlg {
        var ok := db.UpdateDBRecord(formId, newRecord, out.failing);
        return if ok then Ok else StorageFailed;
      }
      code := Ok;
    }

    method AddNewFormRecord(info: FormItemInfo, formId: int, callerToken: int, callingUid: int, out: Outside)
      returns (code: ErrCode)
      modifies data, db
      ensures Outcome(Now(), code) == AfterAddNew(old(Now()), info.(formId := formId), callerToken, callingUid, out)
    {
      hide SavedCache, SavedStore, SaveSucceeds, HostAllotted, AddIfMissing, Allotted;
      var newInfo := info.(formId := formId);
      data.AllotFormHostRecord(callerToken, formId, callingUid);
      var formRecord := data.AllotFormRecord(newInfo, callingUid, UserIdOf(callingUid));
      code := AcquireProviderFormInfoAsync(formId, out);
      if code != Ok {
        return;
      }
      if !newInfo.temporary {
        var ok := db.UpdateDBRecord(formId, formRecord, out.failing);
        if !ok {
          return StorageFailed;
        }
      }
      code := if formRecord.formTempFlg || out.timerOk then Ok else CommonCode;
    }

    method AcquireProviderFormInfoAsync(formId: int, out: Outside) returns (code: ErrCode)
      ensures code == if formId <= 0 then InvalidParam else if out.providerOk then Ok else BindProviderFailed
    {
      if formId <= 0 {
        return InvalidParam;
      }
      code := if out.providerOk then Ok else BindProviderFailed;
    }

    method DeleteForm(formId: int, callerToken: int, callingUid: int, out: Outside) returns (code: ErrCode)
      modifies data, db
      ensures Outcome(Now(), code)
              == AfterDelete(old(Now()), formId, MatchedId(old(data.formRecords), formId), callerToken, callingUid, out)
    {
      hide AfterDeleteTemp, AfterDeleteNormal, Matches, MatchedId;
      if formId <= 0 || callerToken == NO_TOKEN {
        return InvalidParam;
      }
      var matchedFormId := data.FindMatchedFormId(formId);
      MatchUnique(data.formRecords, formId, matchedFormId, MatchedId(data.formRecords, formId));
      if matchedFormId in data.tempForms {
        code := HandleDeleteTempForm(matchedFormId, callerToken, callingUid, out);
      } else {
        code := HandleDeleteForm(matchedFormId, callerToken, callingUid, out);
      }
    }

    method ReleaseForm(formId: int, callerToken: int, callingUid: int, delCache: bool, out: Outside) returns (code: ErrCode)
      modifies data, db
      ensures Outcome(Now(), code)
              == AfterRelease(old(Now()), formId, MatchedId(old(data.formRecords), formId), callerToken, callingUid, delCache, out)
    {
      hide AfterDeleteTemp, AfterReleaseRecord, Matches, MatchedId, HostReleased, UserIdOf;
      if formId <= 0 || callerToken == NO_TOKEN {
        return InvalidParam;
      }
      var matchedFormId := data.FindMatchedFormId(formId);
      MatchUnique(data.formRecords, formId, matchedFormId, MatchedId(data.formRecords, formId));
      if matchedFormId in data.tempForms {
        code := HandleDeleteTempForm(matchedFormId, callerToken, callingUid, out);
        return;
      }
      var known, dbRecord := db.GetDBRecord(matchedFormId);
      if !known {
        return NotExistId;
      }
      if !(UserIdOf(callingUid) == dbRecord.userId && callingUid in dbRecord.formUserUids) {
        return NotSelf;
      }
      if delCache {
        code := HandleReleaseForm(matchedFormId, callerToken, callingUid, out);
        if code != Ok {
          return;
        }
      }
      data.DeleteHostRecord(callerToken, matchedFormId);
      code := if out.timerOk then Ok else CommonCode;
    }

    method HandleReleaseForm(formId: int, callerToken: int, callingUid: int, out: Outside) returns (code: ErrCode)
      modifies data
      ensures Outcome(Now(), code) == AfterReleaseRecord(old(Now()), formId, callerToken, callingUid, out)
    {
      hide HostForms;
      if formId !in data.formRecords {
        return NotExistId;
      }
      if formId !in HostForms(data.clientRecords, callerToken) {
        return NotSelf;
      }
      data.DeleteFormUserUid(formId, callingUid);
      if data.formRecords[formId].formUserUids == [] {
        data.DeleteFormRecord(formId);
        if !out.timerOk {
          return CommonCode;
        }
      }
      code := Ok;
    }

    method HandleDeleteForm(formId: int, callerToken: int, callingUid: int, out: Outside) returns (code: ErrCode)
      modifies data, db
      ensures Outcome(Now(), code) == AfterDeleteNormal(old(Now()), formId, callerToken, callingUid, out)
    {
      hide AfterDeleteCache, HostReleased, UserIdOf;
      var known, dbInfo := db.GetDBRecord(formId);
      if !known {
        return NotExistId;
      }
      if !(UserIdOf(callingUid) == dbInfo.userId && callingUid in dbInfo.formUserUids) {
        return NotSelf;
      }
      var dbRecord := FormRecord(formId, dbInfo.userId, dbInfo.bundleName, dbInfo.moduleName, dbInfo.abilityName,
                                 dbInfo.formName, false, dbInfo.formUserUids);
      code := HandleDeleteFormCache(dbRecord, callingUid, formId, out);
      if code != Ok {
        return;
      }
      data.DeleteHostRecord(callerToken, formId);
    }

    method HandleDeleteFormCache(dbRecord: FormRecord, uid: int, formId: int, out: Outside) returns (code: ErrCode)
      requires OwnEntry(db.formDBInfos, formId, uid)
      requires DBInfoOf(formId, dbRecord) == db.formDBInfos[IndexOf(db.formDBInfos, formId)]
      modifies data, db
      ensures Outcome(Now(), code) == AfterDeleteCache(old(Now()), formId, uid, out)
    {
      hide SavedCache, SavedStore, SaveSucceeds, WithoutUid, DroppedCache, DroppedStore, RemoveFirst, IndexOf;
      var left := dbRecord.(formUserUids := RemoveFirst(dbRecord.formUserUids, uid));
      if left.formUserUids == [] {
        if !out.providerOk {
          return BindProviderFailed;
        }
        data.DeleteFormRecord(formId);
        var deleted := db.DeleteFormInfo(formId, out.failing);
        if !deleted {
          return StorageFailed;
        }
        return if out.dataOk && out.timerOk then Ok else CommonCode;
      }
      var saved := db.UpdateDBRecord(formId, left, out.failing);
      if !saved {
        return StorageFailed;
      }
      data.DeleteFormUserUid(formId, uid);
      code := Ok;
    }

    method HandleDeleteTempForm(formId: int, callerToken: int, uid: int, out: Outside) returns (code: ErrCode)
      modifies data
      ensures Outcome(Now(), code) == AfterDeleteTemp(old(Now()), formId, callerToken, uid, out)
    {
      hide HostReleased, UserIdOf;
      var isSelfTempFormId := false;
      if formId in data.formRecords && data.formRecords[formId].formTempFlg {
        var record := data.formRecords[formId];
        isSelfTempFormId := UserIdOf(uid) == record.userId && uid in record.formUserUids;
      }
      if !isSelfTempFormId {
        return NotSelf;
      }
      data.DeleteFormUserUid(formId, uid);
      if data.formRecords[formId].formUserUids == [] {
        if !out.providerOk {
          data.AddFormUserUid(formId, uid);
          return BindProviderFailed;
        }
        var _ := data.DeleteTempForm(formId);
        data.DeleteFormRecord(formId);
        if !out.dataOk {
          return CommonCode;
        }
      }
      data.DeleteHostRecord(callerToken, formId);
      code := Ok;
    }

    method CastTempForm(formId: int, callerToken: int, callingUid: int, out: Outside) returns (code: ErrCode)
      modifies data, db
      ensures Outcome(Now(), code)
              == AfterCast(old(Now()), formId, MatchedId(old(data.formRecords), formId), callerToken, callingUid, out)
    {
      hide Matches, MatchedId, HostForms, NormalForms, NormalFormsOf, LimitOf, SavedCache, SavedStore, SaveSucceeds, RemoveFirst, UserIdOf;
      if formId <= 0 || callerToken == NO_TOKEN {
        return InvalidParam;
      }
      var matchedFormId := data.FindMatchedFormId(formId);
      MatchUnique(data.formRecords, formId, matchedFormId, MatchedId(data.formRecords, formId));
      if matchedFormId !in data.formRecords || matchedFormId !in data.tempForms {
        return NotExistId;
      }
      if matchedFormId !in HostForms(data.clientRecords, callerToken) {
        return NotSelf;
      }
      var limit := data.CheckEnoughForm(callingUid, UserIdOf(callingUid));
      if limit != NoLimit {
        return LimitReached(limit);
      }
      if !out.providerOk {
        return BindProviderFailed;
      }
      var _ := data.DeleteTempForm(matchedFormId);
      var _ := data.ModifyFormTempFlg(matchedFormId, false);
      data.AddFormUserUid(matchedFormId, callingUid);
      var formRecord := data.formRecords[matchedFormId];
      var saved := db.UpdateDBRecord(matchedFormId, formRecord, out.failing);
      if !saved {
        return StorageFailed;
      }
      code := if out.timerOk then Ok else CommonCode;
    }

    method FindMatchedFormIds(formIds: seq<int>) returns (matched: set<int>)
      ensures AllMatched(data.formRecords, formIds, matched)
    {
      hide Matches;
      matched := {};
      for i := 0 to |formIds|
        invariant forall r :: r in matched <==> exists j :: 0 <= j < i && Matches(data.formRecords, formIds[j], r)
      {
        var id := data.FindMatchedFormId(formIds[i]);
        forall r ensures Matches(data.formRecords, formIds[i], r) <==> r == id {
          if Matches(data.formRecords, formIds[i], r) {
            MatchUnique(data.formRecords, formIds[i], r, id);
          }
        }
        matched := matched + {id};
      }
    }

    method DeleteInvalidForms(formIds: seq<int>, callerToken: int, callingUid: int, failing: set<int>)
      returns (code: ErrCode, numFormsDeleted: nat, ghost matched: set<int>)
      requires DistinctIds(db.formDBInfos) && NoDuplicates(data.tempForms)
      modifies data, db
      ensures callerToken == NO_TOKEN ==> code == InvalidParam && Now() == old(Now()) && numFormsDeleted == 0
      ensures callerToken != NO_TOKEN ==>
                && AllMatched(old(data.formRecords), formIds, matched)
                && code == Ok && Now() == AfterDeleteInvalid(old(Now()), callingUid, matched, failing)
                && numFormsDeleted == |InvalidDBForms(old(Now()), callingUid, matched) + InvalidTemps(old(Now()), callingUid, matched)|
    {
      hide AllMatched, InvalidEntries, LastUserOfEntry, InvalidTempForms, LastUserOf, UnlistAll, Without, HostsWithoutForms,
           CacheWithout, CacheSwept, DroppedStore, DistinctIds, NoDuplicates, UserIdOf;
      if callerToken == NO_TOKEN {
        return InvalidParam, 0, {};
      }
      ghost var s := Now();
      var matchedFormIds := FindMatchedFormIds(formIds);
      matched := matchedFormIds;
      var userId := UserIdOf(callingUid);
      var removedDB := db.DeleteInvalidDBForms(data, userId, callingUid, matchedFormIds, {}, failing);
      assert {} + InvalidDBForms(s, callingUid, matched) == InvalidDBForms(s, callingUid, matched);
      var removedForms := map id | id in removedDB :: true;
      assert removedForms.Keys == removedDB;
      var removed := data.DeleteInvalidTempForms(userId, callingUid, matchedFormIds, removedForms);
      assert removed.Keys == InvalidDBForms(s, callingUid, matched) + InvalidTemps(s, callingUid, matched);
      if removed.Keys != {} {
        data.ClearHostDataByInvalidForms(callingUid, removed.Keys);
      }
      code, numFormsDeleted := Ok, |removed.Keys|;
    }
  }
}
