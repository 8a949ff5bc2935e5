/** The form data manager: the records of running forms, the list of temporary
    forms and the host applications. */
module FormDataMgr {
  import opened FormTypes

  // ----- form records -----

  function NewRecord(info: FormItemInfo, callingUid: int, userId: int): FormRecord {
    FormRecord(info.formId, userId, info.bundleName, info.moduleName, info.abilityName, info.formName, info.temporary,
               [callingUid])
  }

  function Allotted(records: Records, info: FormItemInfo, callingUid: int, userId: int): Records {
    if info.formId in records then records else records[info.formId := NewRecord(info, callingUid, userId)]
  }

  function WithUid(records: Records, id: int, uid: int): Records {
    if id in records
    then records[id := records[id].(formUserUids := AddIfMissing(records[id].formUserUids, uid))] else records
  }

  function WithoutUid(records: Records, id: int, uid: int): Records {
    if id in records
    then records[id := records[id].(formUserUids := RemoveFirst(records[id].formUserUids, uid))] else records
  }

  function SameLowWord(a: int, b: int): bool {
    a % LOW_WORD == b % LOW_WORD
  }

  // A full id stands for itself; a 32-bit id for the record with that low word.
  predicate Matches(records: Records, id: int, r: int) {
    if 0 <= id < LOW_WORD && exists k :: k in records && SameLowWord(k, id)
    then r in records && SameLowWord(r, id) && forall k :: k in records && SameLowWord(k, id) ==> r <= k
    else r == id
  }

  // ----- hosts -----

  function HostAllotted(hosts: seq<FormHostRecord>, stub: int, uid: int, id: int): seq<FormHostRecord> {
    if hosts == [] then [FormHostRecord(stub, uid, {id})]
    else if hosts[0].clientStub == stub then [hosts[0].(forms := hosts[0].forms + {id})] + hosts[1..]
    else [hosts[0]] + HostAllotted(hosts[1..], stub, uid, id)
  }

  function HostReleased(hosts: seq<FormHostRecord>, stub: int, id: int): seq<FormHostRecord> {
    if hosts == [] then []
    else if hosts[0].clientStub == stub then
      (if hosts[0].forms - {id} == {} then hosts[1..] else [hosts[0].(forms := hosts[0].forms - {id})] + hosts[1..])
    else [hosts[0]] + HostReleased(hosts[1..], stub, id)
  }

  // The forms of the first host with this stub, and the hosts without it.
  function HostForms(hosts: seq<FormHostRecord>, stub: int): set<int> {
    if hosts == [] then {} else if hosts[0].clientStub == stub then hosts[0].forms else HostForms(hosts[1..], stub)
  }

  function HostGone(hosts: seq<FormHostRecord>, stub: int): seq<FormHostRecord> {
    if hosts == [] then [] else if hosts[0].clientStub == stub then hosts[1..] else [hosts[0]] + HostGone(hosts[1..], stub)
  }

  function HostsCleaned(hosts: seq<FormHostRecord>, removed: set<int>): seq<FormHostRecord> {
    if hosts == [] then []
    else HostsCleaned(hosts[..|hosts| - 1], removed)
         + [hosts[|hosts| - 1].(forms := hosts[|hosts| - 1].forms - removed)]
  }

  function HostsOfOthers(hosts: seq<FormHostRecord>, uid: int): seq<FormHostRecord> {
    if hosts == [] then []
    else HostsOfOthers(hosts[..|hosts| - 1], uid)
         + if hosts[|hosts| - 1].callerUid == uid then [] else [hosts[|hosts| - 1]]
  }

  function HostsWithoutForms(hosts: seq<FormHostRecord>, uid: int, removed: set<int>): seq<FormHostRecord> {
    if hosts == [] then []
    else
      var h := hosts[|hosts| - 1];
      HostsWithoutForms(hosts[..|hosts| - 1], uid, removed)
      + if h.callerUid != uid then [h]
        else if h.forms - removed == {} then [] else [h.(forms := h.forms - removed)]
  }

  // ----- sweeps -----

  // The record loses its first entry of uid.
  function Unlisted(r: FormRecord, uid: int): FormRecord {
    r.(formUserUids := RemoveFirst(r.formUserUids, uid))
  }

  function UnlistAll(records: Records, hits: set<int>, uid: int): Records {
    map k | k in records :: if k in hits then Unlisted(records[k], uid) else records[k]
  }

  // The records whose last user uid is.
  function LastUserOf(records: Records, hits: set<int>, uid: int): set<int> {
    set k | k in records && k in hits && Unlisted(records[k], uid).formUserUids == []
  }

  // The temporary forms of the user, outside the valid set, that list uid.
  function InvalidTempForms(records: Records, userId: int, uid: int, matched: set<int>): set<int> {
    set k | k in records && records[k].formTempFlg && records[k].userId == userId && uid in records[k].formUserUids
            && k !in matched
  }

  // The temporary forms that list uid, whoever's they are.
  function TempFormsListing(records: Records, uid: int): set<int> {
    set k | k in records && records[k].formTempFlg && uid in records[k].formUserUids
  }

  // The records in `back` list uid again.
  function Relisted(records: Records, back: set<int>, uid: int): Records {
    map k | k in records :: if k in back then records[k].(formUserUids := AddIfMissing(records[k].formUserUids, uid))
                            else records[k]
  }

  // The temporary forms of a bundle under a user.
  function BundleTempForms(records: Records, bundleName: string, userId: int): set<int> {
    set k | k in records && records[k].formTempFlg && records[k].bundleName == bundleName && records[k].userId == userId
  }

  function UserForms(records: Records, userId: int): set<int> {
    set k | k in records && records[k].userId == userId
  }

  function TempAmong(records: Records, ids: set<int>): set<int> {
    set k | k in ids && k in records && records[k].formTempFlg
  }

  // Ids grouped by the key of their record.
  type Groups = map<FormIdKey, set<int>>

  function AddToGroup(g: Groups, key: FormIdKey, id: int): Groups {
    if key in g then g[key := g[key] + {id}] else g[key := {id}]
  }

  ghost predicate GroupsOf(g: Groups, ids: set<int>, keys: map<int, FormIdKey>) {
    && (forall i :: i in ids ==> i in keys && keys[i] in g && i in g[keys[i]])
    && (forall k, i :: k in g && i in g[k] ==> i in ids && i in keys && keys[i] == k)
  }

  function KeysOf(records: Records): map<int, FormIdKey> {
    map k | k in records :: KeyOf(records[k])
  }

  datatype Limit = NoLimit | MaxSystemTempForms | MaxSystemForms | MaxFormsPerClient

  function Upto(s: set<int>, k: int): set<int> {
    set j | j in s && j <= k
  }

  // The caller's share is used up at one of the caller's forms, before the
  // system's is.
  ghost predicate ShareFirst(all: set<int>, own: set<int>) {
    exists k :: k in own && |Upto(own, k)| >= MAX_RECORD_PER_APP && |Upto(all, k)| < MAX_FORMS
  }

  // The limit that is met first among the normal forms of a user, and among
  // those the caller uses, in the order of their ids.
  ghost function LimitOf(all: set<int>, own: set<int>): Limit
  {
    if |all| < MAX_FORMS && |own| < MAX_RECORD_PER_APP then NoLimit
    else if ShareFirst(all, own) then MaxFormsPerClient else MaxSystemForms
  }

  // The non-temporary forms of a user, and those of them that list uid.
  function NormalForms(records: Records, userId: int): set<int> {
    set k | k in records && records[k].userId == userId && !records[k].formTempFlg
  }

  function NormalFormsOf(records: Records, userId: int, uid: int): set<int> {
    set k | k in records && records[k].userId == userId && !records[k].formTempFlg && uid in records[k].formUserUids
  }

  class FormDataMgr {
    var formRecords: Records
    var tempForms: seq<int>
    var clientRecords: seq<FormHostRecord>

    constructor ()
      ensures formRecords == map[] && tempForms == [] && clientRecords == []
    {
      formRecords, tempForms, clientRecords := map[], [], [];
    }

    method AllotFormRecord(info: FormItemInfo, callingUid: int, userId: int) returns (record: FormRecord)
      modifies this`formRecords, this`tempForms
      ensures tempForms == if info.temporary then AddIfMissing(old(tempForms), info.formId) else old(tempForms)
      ensures formRecords == Allotted(old(formRecords), info, callingUid, userId)
      ensures info.formId in formRecords && record == formRecords[info.formId]
    {
      if info.temporary && info.formId !in tempForms {
        tempForms := tempForms + [info.formId];
      }
      if info.formId !in formRecords {
        record := NewRecord(info, callingUid, userId);
        formRecords := formRecords[info.formId := record];
      } else {
        record := formRecords[info.formId];
      }
    }

    method DeleteFormRecord(formId: int)
      modifies this`formRecords
      ensures formRecords == old(formRecords) - {formId}
    {
      if formId !in formRecords {
        assert formRecords - {formId} == formRecords;
        return;
      }
      formRecords := formRecords - {formId};
    }

    method AllotFormHostRecord(callerToken: int, formId: int, callingUid: int)
      modifies this`clientRecords
      ensures clientRecords == HostAllotted(old(clientRecords), callerToken, callingUid, formId)
    {
      hide *;
      ghost var hosts := clientRecords;
      var i := 0;
      while i < |clientRecords|
        invariant 0 <= i <= |hosts| && clientRecords == hosts
        invariant forall j :: 0 <= j < i ==> hosts[j].clientStub != callerToken
      {
        if clientRecords[i].clientStub == callerToken {
          AllottedAt(hosts, i, callerToken, callingUid, formId);
          clientRecords := clientRecords[i := clientRecords[i].(forms := clientRecords[i].forms + {formId})];
          return;
        }
        i := i + 1;
      }
      AllottedAt(hosts, i, callerToken, callingUid, formId);
      clientRecords := clientRecords + [FormHostRecord(callerToken, callingUid, {formId})];
    }

    method CheckTempEnoughForm() returns (limit: Limit)
      ensures limit == if |tempForms| >= MAX_TEMP_FORMS then MaxSystemTempForms else NoLimit
    {
      limit := if |tempForms| >= MAX_TEMP_FORMS then MaxSystemTempForms else NoLimit;
    }

    // Walks the records in the order of their ids and stops as soon as one of
    // the two limits is reached.
    method CheckEnoughForm(callingUid: int, currentUserId: int) returns (limit: Limit)
      ensures limit == LimitOf(NormalForms(formRecords, currentUserId), NormalFormsOf(formRecords, currentUserId, callingUid))
    {
      hide NormalForms, NormalFormsOf, LimitOf, Ahead, Upto;
      AllAhead(formRecords.Keys);
      var todo, formsInSystem, callingUidFormCounts := formRecords.Keys, 0, 0;
      ghost var all, own := NormalForms(formRecords, currentUserId), NormalFormsOf(formRecords, currentUserId, callingUid);
      NothingCounted(formRecords, currentUserId, callingUid);
      while todo != {}
        invariant todo <= formRecords.Keys && Ahead(formRecords.Keys, todo)
        invariant formsInSystem == |all - todo| < MAX_FORMS
        invariant callingUidFormCounts == |own - todo| < MAX_RECORD_PER_APP
        decreases |todo|
      {
        HasLeast(todo);
        ghost var least :| IsLeast(todo, least);
        var k :| k in todo && forall j :: j in todo ==> k <= j;
        CountStep(all, todo, k);
        CountStep(own, todo, k);
        CountedForm(formRecords, currentUserId, callingUid, k);
        WalkedUpto(formRecords, currentUserId, callingUid, todo, k);
        ghost var before := own - todo;
        todo := todo - {k};
        if formRecords[k].userId == currentUserId && !formRecords[k].formTempFlg {
          formsInSystem := formsInSystem + 1;
          if formsInSystem >= MAX_FORMS {
            SystemFirst(all, own, before, k);
            return MaxSystemForms;
          }
          if callingUid in formRecords[k].formUserUids {
            callingUidFormCounts := callingUidFormCounts + 1;
            if callingUidFormCounts >= MAX_RECORD_PER_APP {
              ClientFirst(all, own, k);
              return MaxFormsPerClient;
            }
          }
        }
      }
      AllCounted(all, own);
      BelowLimits(all, own);
      limit := NoLimit;
    }

    method DeleteTempForm(formId: int) returns (ok: bool)
      modifies this`tempForms
      ensures ok <==> formId in old(tempForms)
      ensures tempForms == RemoveFirst(old(tempForms), formId)
    {
      ok := formId in tempForms;
      RemoveFirstOnly(tempForms, formId);
      if ok {
        tempForms := RemoveFirst(tempForms, formId);
      }
    }

    method ModifyFormTempFlg(formId: int, formTempFlg: bool) returns (ok: bool)
      modifies this`formRecords
      ensures ok <==> formId in old(formRecords)
      ensures formRecords == if ok then old(formRecords)[formId := old(formRecords)[formId].(formTempFlg := formTempFlg)]
                             else old(formRecords)
    {
      ok := formId in formRecords;
      if ok {
        formRecords := formRecords[formId := formRecords[formId].(formTempFlg := formTempFlg)];
      }
    }

    method AddFormUserUid(formId: int, formUserUid: int)
      modifies this`formRecords
      ensures formRecords == WithUid(old(formRecords), formId, formUserUid)
    {
      if formId !in formRecords {
        return;
      }
      var r := formRecords[formId];
      if formUserUid !in r.formUserUids {
        formRecords := formRecords[formId := r.(formUserUids := r.formUserUids + [formUserUid])];
      } else {
        assert formRecords[formId := r] == formRecords;
      }
    }

    method DeleteFormUserUid(formId: int, uid: int)
      modifies this`formRecords
      ensures formRecords == WithoutUid(old(formRecords), formId, uid)
    {
      if formId in formRecords {
        var r := formRecords[formId];
        formRecords := formRecords[formId := r.(formUserUids := RemoveFirst(r.formUserUids, uid))];
      }
    }

    method DeleteHostRecord(callerToken: int, formId: int)
      modifies this`clientRecords
      ensures clientRecords == HostReleased(old(clientRecords), callerToken, formId)
    {
      hide *;
      ghost var hosts := clientRecords;
      var i := 0;
      while i < |clientRecords|
        invariant 0 <= i <= |hosts| && clientRecords == hosts
        invariant forall j :: 0 <= j < i ==> hosts[j].clientStub != callerToken
      {
        if clientRecords[i].clientStub == callerToken {
          ReleasedAt(hosts, i, callerToken, formId);
          var forms := clientRecords[i].forms - {formId};
          if forms == {} {
            clientRecords := clientRecords[..i] + clientRecords[i + 1..];
          } else {
            clientRecords := clientRecords[i := clientRecords[i].(forms := forms)];
          }
          return;
        }
        i := i + 1;
      }
      ReleasedAt(hosts, i, callerToken, formId);
    }

    method CleanHostRemovedForms(removedFormIds: set<int>)
      modifies this`clientRecords
      ensures clientRecords == HostsCleaned(old(clientRecords), removedFormIds)
    {
      ghost var hosts := clientRecords;
      var i := 0;
      CleanedStart(hosts, removedFormIds);
      while i < |clientRecords|
        invariant 0 <= i <= |hosts| == |clientRecords|
        invariant clientRecords == CleanedTo(hosts, i, removedFormIds)
      {
        CleanedStep(hosts, i, removedFormIds);
        clientRecords := clientRecords[i := clientRecords[i].(forms := clientRecords[i].forms - removedFormIds)];
        i := i + 1;
      }
    }

    // The temporary forms of a host that died are dropped from the list.
    method HandleHostDiedForTempForms(forms: set<int>) returns (recordTempForms: set<int>)
      modifies this`tempForms
      ensures tempForms == Without(old(tempForms), forms)
      ensures recordTempForms == set id | id in old(tempForms) && id in forms
    {
      ghost var temp := tempForms;
      var i, kept := 0, [];
      recordTempForms := {};
      while i < |tempForms|
        invariant 0 <= i <= |temp| && tempForms == temp && kept == Without(temp[..i], forms)
        invariant recordTempForms == set id | id in temp[..i] && id in forms
      {
        assert temp[..i + 1][..i] == temp[..i] && temp[..i + 1] == temp[..i] + [temp[i]];
        if tempForms[i] in forms {
          recordTempForms := recordTempForms + {tempForms[i]};
        } else {
          kept := kept + [tempForms[i]];
        }
        i := i + 1;
      }
      assert temp[..i] == temp;
      tempForms := kept;
    }

    method HandleHostDied(remoteHost: int)
      modifies this
      ensures var forms := HostForms(old(clientRecords), remoteHost);
              && clientRecords == HostGone(old(clientRecords), remoteHost)
              && tempForms == Without(old(tempForms), forms)
              && formRecords == old(formRecords) - set id | id in old(tempForms) && id in forms
    {
      hide *;
      ghost var hosts, temp := clientRecords, tempForms;
      var i, recordTempForms := 0, {};
      while i < |clientRecords| && clientRecords[i].clientStub != remoteHost
        invariant 0 <= i <= |hosts| && clientRecords == hosts && tempForms == temp && formRecords == old(formRecords)
        invariant forall j :: 0 <= j < i ==> hosts[j].clientStub != remoteHost
      {
        i := i + 1;
      }
      GoneAt(hosts, i, remoteHost);
      if i < |clientRecords| {
        recordTempForms := HandleHostDiedForTempForms(clientRecords[i].forms);
        clientRecords := clientRecords[..i] + clientRecords[i + 1..];
      } else {
        WithoutNone(tempForms, {});
      }
      CleanRemovedFormRecords(recordTempForms);
    }

    method FindMatchedFormId(formId: int) returns (r: int)
      ensures Matches(formRecords, formId, r)
    {
      if !(0 <= formId < LOW_WORD) {
        return formId;
      }
      var todo := formRecords.Keys;
      while todo != {}
        invariant todo <= formRecords.Keys
        invariant forall k :: k in formRecords && k !in todo ==> !SameLowWord(k, formId)
        invariant forall k, j :: k in formRecords && k !in todo && j in todo ==> k <= j
        decreases |todo|
      {
        HasLeast(todo);
        ghost var least :| IsLeast(todo, least);
        assert least in todo && forall j :: j in todo ==> least <= j;
        var k :| k in todo && forall j :: j in todo ==> k <= j;
        if SameLowWord(k, formId) {
          return k;
        }
        todo := todo - {k};
      }
      r := formId;
    }

    method ClearHostDataByUId(uId: int)
      modifies this`clientRecords
      ensures clientRecords == HostsOfOthers(old(clientRecords), uId)
    {
      ghost var hosts := clientRecords;
      var i, kept := 0, [];
      while i < |clientRecords|
        invariant 0 <= i <= |hosts| && clientRecords == hosts && kept == HostsOfOthers(hosts[..i], uId)
      {
        assert hosts[..i + 1][..i] == hosts[..i];
        if clientRecords[i].callerUid != uId {
          kept := kept + [clientRecords[i]];
        }
        i := i + 1;
      }
      assert hosts[..i] == hosts;
      clientRecords := kept;
    }

    method CleanRemovedFormRecords(removedForms: set<int>)
      modifies this`formRecords
      ensures formRecords == old(formRecords) - removedForms
    {
      ghost var records := formRecords;
      var todo := formRecords.Keys;
      MinusStart(records, removedForms);
      while todo != {}
        invariant todo <= records.Keys
        invariant formRecords == records - (removedForms - todo)
        decreases |todo|
      {
        HasMember(todo);
        var k :| k in todo;
        if k in removedForms {
          formRecords := formRecords - {k};
        }
        MinusStep(records, removedForms, todo, k);
        todo := todo - {k};
      }
      MinusEnd(records, removedForms);
    }

    method CleanRemovedTempFormRecords(bundleName: string, userId: int, removedForms: set<int>) returns (removed: set<int>)
      requires forall k :: k in formRecords ==> formRecords[k].formId == k
      modifies this`formRecords, this`tempForms
      ensures var gone := BundleTempForms(old(formRecords), bundleName, userId);
              && formRecords == old(formRecords) - gone && tempForms == Without(old(tempForms), gone)
              && removed == removedForms + gone
    {
      hide *;
      ghost var records, gone := formRecords, BundleTempForms(formRecords, bundleName, userId);
      var todo, removedTempForms := formRecords.Keys, {};
      BundleSweepStart(records, bundleName, userId);
      while todo != {}
        invariant todo <= records.Keys && tempForms == old(tempForms)
        invariant BundleSwept(records, formRecords, gone, removedTempForms, todo)
        decreases |todo|
      {
        HasMember(todo);
        var k :| k in todo;
        ghost var now, ids := formRecords, removedTempForms;
        BundleSweptRecord(records, now, bundleName, userId, ids, todo, k);
        if formRecords[k].formTempFlg && bundleName == formRecords[k].bundleName && userId == formRecords[k].userId {
          removedTempForms := removedTempForms + {formRecords[k].formId};
          formRecords := formRecords - {k};
        }
        BundleSweepStep(records, now, formRecords, gone, ids, removedTempForms, todo, k);
        todo := todo - {k};
      }
      BundleSweepEnd(records, formRecords, bundleName, userId, removedTempForms);
      if removedTempForms != {} {
        DropTempForms(removedTempForms);
      } else {
        WithoutNone(tempForms, gone);
      }
      removed := removedForms + removedTempForms;
    }

    // The loop over tempForms_ the sweeps share.
    method DropTempForms(removedTempForms: set<int>)
      modifies this`tempForms
      ensures tempForms == Without(old(tempForms), removedTempForms)
    {
      ghost var temp := tempForms;
      var i, kept := 0, [];
      while i < |tempForms|
        invariant 0 <= i <= |temp| && tempForms == temp && kept == Without(temp[..i], removedTempForms)
      {
        assert temp[..i + 1][..i] == temp[..i];
        if tempForms[i] !in removedTempForms {
          kept := kept + [tempForms[i]];
        }
        i := i + 1;
      }
      assert temp[..i] == temp;
      tempForms := kept;
    }

    method DeleteFormsByUserId(userId: int) returns (removedFormIds: set<int>)
      requires forall k :: k in formRecords ==> formRecords[k].formId == k
      modifies this`formRecords, this`tempForms
      ensures removedFormIds == UserForms(old(formRecords), userId)
      ensures formRecords == old(formRecords) - removedFormIds
      ensures tempForms == Without(old(tempForms), TempAmong(old(formRecords), removedFormIds))
    {
      hide *;
      ghost var records := formRecords;
      ghost var gone := UserForms(records, userId);
      removedFormIds := {};
      var todo, removedTempForms := formRecords.Keys, {};
      UserSweepStart(records, userId);
      while todo != {}
        invariant todo <= records.Keys && tempForms == old(tempForms)
        invariant UserSwept(records, formRecords, userId, removedFormIds, removedTempForms, todo)
        decreases |todo|
      {
        HasMember(todo);
        var k :| k in todo;
        ghost var now, ids, temps := formRecords, removedFormIds, removedTempForms;
        UserSweptRecord(records, now, userId, ids, temps, todo, k);
        if userId == formRecords[k].userId {
          if formRecords[k].formTempFlg {
            removedTempForms := removedTempForms + {formRecords[k].formId};
          }
          removedFormIds := removedFormIds + {formRecords[k].formId};
          formRecords := formRecords - {k};
        }
        UserSweepStep(records, now, formRecords, userId, ids, removedFormIds, temps, removedTempForms, todo, k);
        todo := todo - {k};
      }
      UserSweepEnd(records, formRecords, userId, removedFormIds, removedTempForms);
      if removedTempForms != {} {
        DropTempForms(removedTempForms);
      } else {
        WithoutNone(tempForms, removedTempForms);
      }
    }

    // Takes uid off the temporary forms that are invalid, and sorts them into
    // those that lost their last user and those that did not.
    method GetNoHostInvalidTempForms(userId: int, callingUid: int, matchedFormIds: set<int>)
      returns (noHost: Groups, found: map<int, bool>)
      modifies this`formRecords
      ensures var hits := InvalidTempForms(old(formRecords), userId, callingUid, matchedFormIds);
              var last := LastUserOf(old(formRecords), hits, callingUid);
              && formRecords == UnlistAll(old(formRecords), hits, callingUid)
              && GroupsOf(noHost, last, KeysOf(old(formRecords)))
              && found.Keys == hits - last && forall k :: k in found ==> !found[k]
    {
      ghost var records := formRecords;
      ghost var hits := InvalidTempForms(records, userId, callingUid, matchedFormIds);
      ghost var last := LastUserOf(records, hits, callingUid);
      ghost var keys := KeysOf(records);
      hide InvalidTempForms, LastUserOf, KeysOf, GroupsOf;
      var todo := formRecords.Keys;
      noHost, found := map[], map[];
      SweepSets(records, userId, callingUid, matchedFormIds);
      SweepStart(records, hits, last, keys, callingUid);
      while todo != {}
        invariant todo <= records.Keys
        invariant SweptTo(records, formRecords, noHost, found, hits, last, keys, callingUid, todo)
        decreases |todo|
      {
        HasMember(todo);
        var k :| k in todo;
        ghost var before, g, f := formRecords, noHost, found;
        SweptRecord(records, before, g, f, hits, last, keys, callingUid, todo, k);
        IsInvalidTempForm(records, userId, callingUid, matchedFormIds, k);
        var r := formRecords[k];
        if userId == r.userId && r.formTempFlg && callingUid in r.formUserUids && k !in matchedFormIds {
          r := r.(formUserUids := RemoveFirst(r.formUserUids, callingUid));
          formRecords := formRecords[k := r];
          if r.formUserUids == [] {
            noHost := AddToGroup(noHost, FormIdKey(r.bundleName, r.abilityName), k);
          } else {
            found := found[k := false];
          }
        }
        SweepStep(records, before, g, f, formRecords, noHost, found, hits, last, keys, callingUid, todo, k);
        todo := todo - {k};
      }
      SweepEnd(records, formRecords, noHost, found, hits, last, keys, callingUid);
    }

    // The forms without a user are deleted group by group.
    method BatchDeleteNoHostTempForms(noHost: Groups, found: map<int, bool>, ghost last: set<int>,
                                      ghost keys: map<int, FormIdKey>) returns (removed: map<int, bool>)
      requires GroupsOf(noHost, last, keys) && found.Keys !! last && NoDuplicates(tempForms)
      modifies this`formRecords, this`tempForms
      ensures formRecords == old(formRecords) - last && tempForms == Without(old(tempForms), last)
      ensures removed.Keys == found.Keys + last
      ensures forall k :: k in last ==> removed[k]
    {
      hide *;
      ghost var records, temp := formRecords, tempForms;
      ghost var done := {};
      removed := found;
      var groups := noHost.Keys;
      BatchStart(records, temp, found, last, noHost, keys);
      while groups != {}
        invariant groups <= noHost.Keys && Pending(done, last, keys, groups, {})
        invariant BatchDone(records, formRecords, temp, tempForms, found, removed, done)
        decreases |groups|
      {
        var key :| key in groups;
        var ids := noHost[key];
        OpenGroup(done, last, keys, noHost, groups, key);
        groups := groups - {key};
        while ids != {}
          invariant ids <= noHost[key] && key !in groups && Pending(done, last, keys, groups, ids)
          invariant BatchDone(records, formRecords, temp, tempForms, found, removed, done)
          decreases |ids|
        {
          HasMember(ids);
          var formId :| formId in ids;
          ghost var r0, t0, m0 := formRecords, tempForms, removed;
          removed := if formId in removed then removed else removed[formId := true];
          DeleteFormRecord(formId);
          var _ := DeleteTempForm(formId);
          TakeId(done, last, keys, noHost, groups, key, ids, formId);
          BatchStep(records, r0, formRecords, temp, t0, tempForms, found, m0, removed, done, formId);
          done := done + {formId};
          ids := ids - {formId};
        }
      }
      BatchEnd(records, formRecords, temp, tempForms, found, removed, done, last, keys);
    }

    // Takes uid off all temporary forms that list it; the map is of those that
    // do not.
    method GetNoHostTempForms(uid: int) returns (noHost: Groups, foundForms: map<int, bool>)
      modifies this`formRecords
      ensures var hits := TempFormsListing(old(formRecords), uid);
              && formRecords == UnlistAll(old(formRecords), hits, uid)
              && GroupsOf(noHost, LastUserOf(old(formRecords), hits, uid), KeysOf(old(formRecords)))
              && foundForms == OtherTempForms(old(formRecords), uid)
    {
      hide *;
      ghost var records := formRecords;
      ghost var hits := TempFormsListing(records, uid);
      ghost var last, keys := LastUserOf(records, hits, uid), KeysOf(records);
      ghost var found: map<int, bool> := map[];
      var todo := formRecords.Keys;
      noHost, foundForms := map[], map[];
      OthersStart(records, uid);
      ListingSets(records, uid);
      SweepStart(records, hits, last, keys, uid);
      while todo != {}
        invariant todo <= records.Keys
        invariant SweptTo(records, formRecords, noHost, found, hits, last, keys, uid, todo)
        invariant OthersTo(records, uid, todo, foundForms)
        decreases |todo|
      {
        HasMember(todo);
        var k :| k in todo;
        ghost var before, g, f := formRecords, noHost, found;
        SweptRecord(records, before, g, f, hits, last, keys, uid, todo, k);
        IsListing(records, uid, k);
        OthersStep(records, uid, todo, foundForms, k);
        var r := formRecords[k];
        if r.formTempFlg {
          if uid in r.formUserUids {
            r := r.(formUserUids := RemoveFirst(r.formUserUids, uid));
            formRecords := formRecords[k := r];
            if r.formUserUids == [] {
              noHost := AddToGroup(noHost, FormIdKey(r.bundleName, r.abilityName), k);
            } else {
              found := found[k := false];
            }
          } else {
            foundForms := foundForms[k := false];
          }
        }
        SweepStep(records, before, g, f, formRecords, noHost, found, hits, last, keys, uid, todo, k);
        todo := todo - {k};
      }
      SweepEnd(records, formRecords, noHost, found, hits, last, keys, uid);
      OthersEnd(records, uid, foundForms);
    }

    method DeleteInvalidTempForms(userId: int, callingUid: int, matchedFormIds: set<int>, removedForms: map<int, bool>)
      returns (removed: map<int, bool>)
      requires NoDuplicates(tempForms)
      modifies this`formRecords, this`tempForms
      ensures var hits := InvalidTempForms(old(formRecords), userId, callingUid, matchedFormIds);
              var last := LastUserOf(old(formRecords), hits, callingUid);
              && formRecords == UnlistAll(old(formRecords), hits, callingUid) - last
              && tempForms == Without(old(tempForms), last)
              && removed.Keys == removedForms.Keys + hits
    {
      hide InvalidTempForms, Without, GroupsOf, KeysOf, UnlistAll;
      ghost var records := formRecords;
      ghost var hits := InvalidTempForms(records, userId, callingUid, matchedFormIds);
      ghost var last := LastUserOf(records, hits, callingUid);
      var noHost, found := GetNoHostInvalidTempForms(userId, callingUid, matchedFormIds);
      found := BatchDeleteNoHostTempForms(noHost, found, last, KeysOf(records));
      assert found.Keys == hits by {
        assert last <= hits;
      }
      removed := found + removedForms;
    }

    method ClearHostDataByInvalidForms(callingUid: int, removedForms: set<int>)
      modifies this`clientRecords
      ensures clientRecords == HostsWithoutForms(old(clientRecords), callingUid, removedForms)
    {
      ghost var hosts := clientRecords;
      var i, kept := 0, [];
      while i < |clientRecords|
        invariant 0 <= i <= |hosts| && clientRecords == hosts && kept == HostsWithoutForms(hosts[..i], callingUid, removedForms)
      {
        assert hosts[..i + 1][..i] == hosts[..i];
        var h := clientRecords[i];
        if h.callerUid != callingUid {
          kept := kept + [h];
        } else {
          h := h.(forms := h.forms - removedForms);
          if h.forms != {} {
            kept := kept + [h];
          }
        }
        i := i + 1;
      }
      assert hosts[..i] == hosts;
      clientRecords := kept;
    }
  }

  // ----- sweeps -----

  // The temporary forms that do not list uid.
  function OtherTempForms(records: Records, uid: int): map<int, bool> {
    map k | k in records && records[k].formTempFlg && uid !in records[k].formUserUids :: false
  }

  ghost predicate OthersTo(records: Records, uid: int, todo: set<int>, found: map<int, bool>) {
    found == map k | k in OtherTempForms(records, uid) && k !in todo :: false
  }

  lemma OthersStart(records: Records, uid: int)
    ensures OthersTo(records, uid, records.Keys, map[])
  {
  }

  lemma OthersStep(records: Records, uid: int, todo: set<int>, found: map<int, bool>, k: int)
    requires OthersTo(records, uid, todo, found) && k in todo && k in records
    ensures var other := records[k].formTempFlg && uid !in records[k].formUserUids;
            OthersTo(records, uid, todo - {k}, if other then found[k := false] else found)
  {
  }

  lemma OthersEnd(records: Records, uid: int, found: map<int, bool>)
    requires OthersTo(records, uid, {}, found)
    ensures found == OtherTempForms(records, uid)
  {
  }

  // A sweep has handled the records outside `todo`.
  ghost predicate SweptTo(records: Records, now: Records, noHost: Groups, found: map<int, bool>, hits: set<int>,
                          last: set<int>, keys: map<int, FormIdKey>, uid: int, todo: set<int>) {
    && now == UnlistAll(records, hits - todo, uid) && GroupsOf(noHost, last - todo, keys)
    && found.Keys == hits - last - todo && forall k :: k in found ==> !found[k]
  }

  lemma SweepStart(records: Records, hits: set<int>, last: set<int>, keys: map<int, FormIdKey>, uid: int)
    requires hits <= records.Keys && last <= hits
    ensures SweptTo(records, records, map[], map[], hits, last, keys, uid, records.Keys)
  {
    assert hits - records.Keys == {} && last - records.Keys == {};
    assert UnlistAll(records, {}, uid) == records;
  }

  lemma SweptRecord(records: Records, now: Records, noHost: Groups, found: map<int, bool>, hits: set<int>, last: set<int>,
                    keys: map<int, FormIdKey>, uid: int, todo: set<int>, k: int)
    requires SweptTo(records, now, noHost, found, hits, last, keys, uid, todo) && k in todo && k in records
    ensures k in now && now[k] == records[k]
  {
  }

  lemma IsInvalidTempForm(records: Records, userId: int, uid: int, matched: set<int>, k: int)
    requires k in records
    ensures k in InvalidTempForms(records, userId, uid, matched) <==>
              records[k].userId == userId && records[k].formTempFlg && uid in records[k].formUserUids && k !in matched
    ensures var hits := InvalidTempForms(records, userId, uid, matched);
            k in LastUserOf(records, hits, uid) <==> k in hits && RemoveFirst(records[k].formUserUids, uid) == []
    ensures k in KeysOf(records) && KeysOf(records)[k] == KeyOf(records[k])
  {
  }

  lemma GroupGrows(g: Groups, ids: set<int>, keys: map<int, FormIdKey>, id: int, key: FormIdKey)
    requires GroupsOf(g, ids, keys) && id in keys && keys[id] == key
    ensures GroupsOf(AddToGroup(g, key, id), ids + {id}, keys)
  {
  }

  lemma SweepStep(records: Records, now: Records, noHost: Groups, found: map<int, bool>, now': Records, noHost': Groups,
                  found': map<int, bool>, hits: set<int>, last: set<int>, keys: map<int, FormIdKey>, uid: int, todo: set<int>,
                  k: int)
    requires SweptTo(records, now, noHost, found, hits, last, keys, uid, todo) && k in todo && k in records
    requires last <= hits && k in keys && keys[k] == KeyOf(records[k])
    requires k in last <==> k in hits && RemoveFirst(records[k].formUserUids, uid) == []
    requires now' == (if k in hits then now[k := Unlisted(records[k], uid)] else now)
    requires noHost' == if k in last then AddToGroup(noHost, keys[k], k) else noHost
    requires found' == if k in hits && k !in last then found[k := false] else found
    ensures SweptTo(records, now', noHost', found', hits, last, keys, uid, todo - {k})
  {
    hide GroupsOf, AddToGroup;
    if k in last {
      GroupGrows(noHost, last - todo, keys, k, keys[k]);
      assert last - (todo - {k}) == last - todo + {k};
    } else {
      assert last - (todo - {k}) == last - todo;
    }
    assert now' == UnlistAll(records, hits - (todo - {k}), uid);
  }

  lemma SweepEnd(records: Records, now: Records, noHost: Groups, found: map<int, bool>, hits: set<int>, last: set<int>,
                 keys: map<int, FormIdKey>, uid: int)
    requires SweptTo(records, now, noHost, found, hits, last, keys, uid, {})
    ensures now == UnlistAll(records, hits, uid) && GroupsOf(noHost, last, keys)
    ensures found.Keys == hits - last && forall k :: k in found ==> !found[k]
  {
    hide GroupsOf, UnlistAll;
    assert hits - {} == hits && last - {} == last;
  }

  lemma MinusStart(records: Records, removed: set<int>)
    ensures records - (removed - records.Keys) == records
  {
  }

  lemma MinusStep(records: Records, removed: set<int>, todo: set<int>, k: int)
    requires k in todo
    ensures records - (removed - (todo - {k}))
            == if k in removed then records - (removed - todo) - {k} else records - (removed - todo)
  {
  }

  lemma MinusEnd(records: Records, removed: set<int>)
    ensures records - (removed - {}) == records - removed
  {
    assert removed - {} == removed;
  }

  ghost predicate BundleSwept(records: Records, now: Records, gone: set<int>, ids: set<int>, todo: set<int>) {
    (forall k :: k in ids <==> k in gone && k !in todo) && now == records - ids
  }

  lemma BundleSweepStart(records: Records, bundleName: string, userId: int)
    ensures BundleSwept(records, records, BundleTempForms(records, bundleName, userId), {}, records.Keys)
  {
    assert records - {} == records;
  }

  lemma BundleSweptRecord(records: Records, now: Records, bundleName: string, userId: int, ids: set<int>, todo: set<int>,
                          k: int)
    requires BundleSwept(records, now, BundleTempForms(records, bundleName, userId), ids, todo) && k in todo && k in records
    ensures k in now && now[k] == records[k]
    ensures k in BundleTempForms(records, bundleName, userId) <==>
              records[k].formTempFlg && records[k].bundleName == bundleName && records[k].userId == userId
  {
  }

  lemma BundleSweepStep(records: Records, now: Records, now': Records, gone: set<int>, ids: set<int>, ids': set<int>,
                        todo: set<int>, k: int)
    requires BundleSwept(records, now, gone, ids, todo) && k in todo
    requires ids' == (if k in gone then ids + {k} else ids) && now' == if k in gone then now - {k} else now
    ensures BundleSwept(records, now', gone, ids', todo - {k})
  {
    assert now' == records - ids';
  }

  lemma BundleSweepEnd(records: Records, now: Records, bundleName: string, userId: int, ids: set<int>)
    requires BundleSwept(records, now, BundleTempForms(records, bundleName, userId), ids, {})
    ensures ids == BundleTempForms(records, bundleName, userId) && now == records - ids
  {
    forall k ensures k in ids <==> k in BundleTempForms(records, bundleName, userId) {
    }
  }

  lemma ListingSets(records: Records, uid: int)
    ensures var hits := TempFormsListing(records, uid);
            hits <= records.Keys && LastUserOf(records, hits, uid) <= hits
  {
  }

  lemma IsListing(records: Records, uid: int, k: int)
    requires k in records
    ensures k in TempFormsListing(records, uid) <==> records[k].formTempFlg && uid in records[k].formUserUids
    ensures var hits := TempFormsListing(records, uid);
            k in LastUserOf(records, hits, uid) <==> k in hits && RemoveFirst(records[k].formUserUids, uid) == []
    ensures k in KeysOf(records) && KeysOf(records)[k] == FormIdKey(records[k].bundleName, records[k].abilityName)
    ensures KeyOf(records[k]) == FormIdKey(records[k].bundleName, records[k].abilityName)
    ensures Unlisted(records[k], uid) == records[k].(formUserUids := RemoveFirst(records[k].formUserUids, uid))
  {
  }

  lemma SweepSets(records: Records, userId: int, uid: int, matched: set<int>)
    ensures var hits := InvalidTempForms(records, userId, uid, matched);
            hits <= records.Keys && LastUserOf(records, hits, uid) <= hits
  {
  }

  ghost predicate UserSwept(records: Records, now: Records, userId: int, ids: set<int>, temps: set<int>, todo: set<int>) {
    && (forall k :: k in ids <==> k in records && k !in todo && records[k].userId == userId)
    && (forall k :: k in temps <==> k in ids && k in records && records[k].formTempFlg)
    && now == records - ids
  }

  lemma UserSweepStart(records: Records, userId: int)
    ensures UserSwept(records, records, userId, {}, {}, records.Keys)
  {
    assert records - {} == records;
  }

  lemma UserSweptRecord(records: Records, now: Records, userId: int, ids: set<int>, temps: set<int>, todo: set<int>, k: int)
    requires UserSwept(records, now, userId, ids, temps, todo) && k in todo && k in records
    ensures k in now && now[k] == records[k]
  {
  }

  lemma UserSweepStep(records: Records, now: Records, now': Records, userId: int, ids: set<int>, ids': set<int>,
                      temps: set<int>, temps': set<int>, todo: set<int>, k: int)
    requires UserSwept(records, now, userId, ids, temps, todo) && k in todo && k in records
    requires ids' == if records[k].userId == userId then ids + {k} else ids
    requires temps' == if records[k].userId == userId && records[k].formTempFlg then temps + {k} else temps
    requires now' == if records[k].userId == userId then now - {k} else now
    ensures UserSwept(records, now', userId, ids', temps', todo - {k})
  {
    assert now' == records - ids';
  }

  lemma UserSweepEnd(records: Records, now: Records, userId: int, ids: set<int>, temps: set<int>)
    requires UserSwept(records, now, userId, ids, temps, {})
    ensures ids == UserForms(records, userId) && now == records - ids
    ensures temps == TempAmong(records, ids)
  {
    forall k ensures k in temps <==> k in TempAmong(records, ids) {
    }
    assert forall k :: k in ids <==> k in records && records[k].userId == userId;
    assert forall k :: k in UserForms(records, userId) <==> k in records && records[k].userId == userId;
  }

  // Of `last`, exactly the ids in `ids` and in the groups left are not done.
  ghost predicate Pending(done: set<int>, last: set<int>, keys: map<int, FormIdKey>, groups: set<FormIdKey>, ids: set<int>) {
    && done <= last && (forall i :: i in last ==> i in keys)
    && forall i :: i in last ==> (i !in done <==> i in ids || keys[i] in groups)
  }

  lemma BatchStart(records: Records, temp: seq<int>, found: map<int, bool>, last: set<int>, noHost: Groups,
                   keys: map<int, FormIdKey>)
    requires GroupsOf(noHost, last, keys) && found.Keys !! last && NoDuplicates(temp)
    ensures Pending({}, last, keys, noHost.Keys, {})
    ensures BatchDone(records, records, temp, temp, found, found, {})
  {
    WithoutNone(temp, {});
    assert records - {} == records;
  }

  lemma OpenGroup(done: set<int>, last: set<int>, keys: map<int, FormIdKey>, noHost: Groups, groups: set<FormIdKey>,
                  key: FormIdKey)
    requires Pending(done, last, keys, groups, {}) && GroupsOf(noHost, last, keys) && key in noHost && key in groups
    ensures Pending(done, last, keys, groups - {key}, noHost[key])
  {
  }

  lemma TakeId(done: set<int>, last: set<int>, keys: map<int, FormIdKey>, noHost: Groups, groups: set<FormIdKey>,
               key: FormIdKey, ids: set<int>, id: int)
    requires Pending(done, last, keys, groups, ids) && GroupsOf(noHost, last, keys) && key in noHost && key !in groups
    requires ids <= noHost[key] && id in ids
    ensures id !in done && id in last && Pending(done + {id}, last, keys, groups, ids - {id})
  {
  }

  lemma BatchEnd(records: Records, now: Records, temp: seq<int>, tempNow: seq<int>, found: map<int, bool>,
                 removed: map<int, bool>, done: set<int>, last: set<int>, keys: map<int, FormIdKey>)
    requires BatchDone(records, now, temp, tempNow, found, removed, done) && Pending(done, last, keys, {}, {})
    ensures now == records - last && tempNow == Without(temp, last) && removed.Keys == found.Keys + last
    ensures forall k :: k in last ==> removed[k]
  {
    assert forall i :: i in last ==> i in done;
    assert done == last;
  }

  ghost predicate BatchDone(records: Records, now: Records, temp: seq<int>, tempNow: seq<int>, found: map<int, bool>,
                            removed: map<int, bool>, done: set<int>) {
    && now == records - done && tempNow == Without(temp, done) && NoDuplicates(tempNow)
    && removed.Keys == found.Keys + done && (forall k :: k in done ==> removed[k])
    && found.Keys !! done && forall k :: k in found ==> removed[k] == found[k]
  }

  lemma BatchStep(records: Records, now: Records, now': Records, temp: seq<int>, tempNow: seq<int>, tempNow': seq<int>,
                  found: map<int, bool>, removed: map<int, bool>, removed': map<int, bool>, done: set<int>, id: int)
    requires BatchDone(records, now, temp, tempNow, found, removed, done) && id !in done && id !in found.Keys
    requires now' == now - {id} && tempNow' == RemoveFirst(tempNow, id)
    requires removed' == if id in removed then removed else removed[id := true]
    ensures BatchDone(records, now', temp, tempNow', found, removed', done + {id})
  {
    hide Without, RemoveFirst;
    RemoveOneIs(tempNow, id);
    RemoveFirstIs(tempNow, id);
    WithoutTwice(temp, done, {id});
    assert now' == records - (done + {id});
  }

  lemma {:induction false} WithoutTwice(s: seq<int>, a: set<int>, b: set<int>)
    ensures Without(Without(s, a), b) == Without(s, a + b)
  {
    if s != [] {
      WithoutTwice(s[..|s| - 1], a, b);
      var kept := Without(s[..|s| - 1], a);
      if s[|s| - 1] !in a {
        assert (kept + [s[|s| - 1]])[..|kept|] == kept;
      }
    }
  }

  // ----- hosts -----

  // The first i hosts are cleaned.
  function CleanedTo(hosts: seq<FormHostRecord>, i: nat, removed: set<int>): seq<FormHostRecord>
    requires i <= |hosts|
  {
    HostsCleaned(hosts[..i], removed) + hosts[i..]
  }

  lemma {:induction false} CleanedLength(hosts: seq<FormHostRecord>, removed: set<int>)
    ensures |HostsCleaned(hosts, removed)| == |hosts|
  {
    if hosts != [] {
      CleanedLength(hosts[..|hosts| - 1], removed);
    }
  }

  lemma CleanedStart(hosts: seq<FormHostRecord>, removed: set<int>)
    ensures CleanedTo(hosts, 0, removed) == hosts && CleanedTo(hosts, |hosts|, removed) == HostsCleaned(hosts, removed)
  {
    assert hosts[..|hosts|] == hosts;
  }

  lemma CleanedStep(hosts: seq<FormHostRecord>, i: nat, removed: set<int>)
    requires i < |hosts|
    ensures |CleanedTo(hosts, i, removed)| == |hosts| && CleanedTo(hosts, i, removed)[i] == hosts[i]
    ensures CleanedTo(hosts, i, removed)[i := hosts[i].(forms := hosts[i].forms - removed)] == CleanedTo(hosts, i + 1, removed)
  {
    CleanedLength(hosts[..i], removed);
    var upto := hosts[..i + 1];
    assert upto[..i] == hosts[..i] && upto[i] == hosts[i];
    assert HostsCleaned(upto, removed) == HostsCleaned(hosts[..i], removed) + [hosts[i].(forms := hosts[i].forms - removed)];
  }

  // The host functions, once the first host with the stub is known: it is
  // number i, or there is none and i is the number of hosts.
  lemma {:induction false} AllottedAt(hosts: seq<FormHostRecord>, i: nat, stub: int, uid: int, id: int)
    requires i <= |hosts| && (forall j :: 0 <= j < i ==> hosts[j].clientStub != stub)
    requires i < |hosts| ==> hosts[i].clientStub == stub
    ensures HostAllotted(hosts, stub, uid, id)
            == if i < |hosts| then hosts[i := hosts[i].(forms := hosts[i].forms + {id})] else hosts + [FormHostRecord(stub, uid, {id})]
    decreases i
  {
    if i > 0 {
      AllottedAt(hosts[1..], i - 1, stub, uid, id);
      assert hosts == [hosts[0]] + hosts[1..];
    }
  }

  lemma {:induction false} ReleasedAt(hosts: seq<FormHostRecord>, i: nat, stub: int, id: int)
    requires i <= |hosts| && (forall j :: 0 <= j < i ==> hosts[j].clientStub != stub)
    requires i < |hosts| ==> hosts[i].clientStub == stub
    ensures HostReleased(hosts, stub, id)
            == if i == |hosts| then hosts
               else if hosts[i].forms - {id} == {} then hosts[..i] + hosts[i + 1..]
               else hosts[i := hosts[i].(forms := hosts[i].forms - {id})]
    decreases i
  {
    if i > 0 {
      ReleasedAt(hosts[1..], i - 1, stub, id);
      assert hosts == [hosts[0]] + hosts[1..];
      if i < |hosts| {
        assert hosts[..i] == [hosts[0]] + hosts[1..][..i - 1] && hosts[1..][i..] == hosts[i + 1..];
      }
    }
  }

  lemma {:induction false} GoneAt(hosts: seq<FormHostRecord>, i: nat, stub: int)
    requires i <= |hosts| && (forall j :: 0 <= j < i ==> hosts[j].clientStub != stub)
    requires i < |hosts| ==> hosts[i].clientStub == stub
    ensures HostGone(hosts, stub) == if i < |hosts| then hosts[..i] + hosts[i + 1..] else hosts
    ensures HostForms(hosts, stub) == if i < |hosts| then hosts[i].forms else {}
    decreases i
  {
    if i > 0 {
      GoneAt(hosts[1..], i - 1, stub);
      assert hosts == [hosts[0]] + hosts[1..];
      if i < |hosts| {
        assert hosts[..i] == [hosts[0]] + hosts[1..][..i - 1] && hosts[1..][i..] == hosts[i + 1..];
      }
    }
  }

  // ----- counting -----

  lemma CountedForm(records: Records, userId: int, uid: int, k: int)
    requires k in records
    ensures k in NormalForms(records, userId) <==> records[k].userId == userId && !records[k].formTempFlg
    ensures k in NormalFormsOf(records, userId, uid) <==>
              records[k].userId == userId && !records[k].formTempFlg && uid in records[k].formUserUids
  {
  }

  lemma AllCounted(all: set<int>, own: set<int>)
    ensures all - {} == all && own - {} == own
  {
  }

  lemma NothingCounted(records: Records, userId: int, uid: int)
    ensures NormalForms(records, userId) - records.Keys == {} && NormalFormsOf(records, userId, uid) - records.Keys == {}
  {
  }

  lemma CountStep(all: set<int>, todo: set<int>, k: int)
    requires k in todo
    ensures |all - (todo - {k})| == |all - todo| + if k in all then 1 else 0
  {
    if k in all {
      assert all - (todo - {k}) == all - todo + {k};
    } else {
      assert all - (todo - {k}) == all - todo;
    }
  }

  lemma Fewer(a: set<int>, b: set<int>)
    requires a <= b
    ensures |a| <= |b|
  {
    assert b == a + (b - a);
  }

  // The ids in `todo` come behind the others.
  predicate Ahead(ids: set<int>, todo: set<int>) {
    todo <= ids && forall j, k :: j in ids - todo && k in todo ==> j < k
  }

  lemma NextAhead(ids: set<int>, todo: set<int>, k: int)
    requires Ahead(ids, todo) && IsLeast(todo, k)
    ensures Ahead(ids, todo - {k})
  {
    forall j, l | j in ids - (todo - {k}) && l in todo - {k} ensures j < l {
      if j !in todo {
        assert j in ids - todo;
      }
    }
  }

  // What has been walked through is what has an id up to the last one.
  lemma WalkedOf(s: set<int>, ids: set<int>, todo: set<int>, k: int)
    requires s <= ids && Ahead(ids, todo) && IsLeast(todo, k)
    ensures s - (todo - {k}) == Upto(s, k)
    ensures forall j :: j in s && j < k ==> Upto(s, j) <= s - todo
  {
    forall j | j in s ensures j in s - (todo - {k}) <==> j in Upto(s, k) {
      if j !in todo {
        assert j in ids - todo && j < k;
      }
    }
  }

  lemma WalkedUpto(records: Records, userId: int, uid: int, todo: set<int>, k: int)
    requires Ahead(records.Keys, todo) && IsLeast(todo, k)
    ensures var all, own := NormalForms(records, userId), NormalFormsOf(records, userId, uid);
            && all - (todo - {k}) == Upto(all, k) && own - (todo - {k}) == Upto(own, k)
            && forall j :: j in own && j < k ==> Upto(own, j) <= own - todo
    ensures Ahead(records.Keys, todo - {k})
  {
    hide Ahead, IsLeast, Upto;
    WalkedOf(NormalForms(records, userId), records.Keys, todo, k);
    WalkedOf(NormalFormsOf(records, userId, uid), records.Keys, todo, k);
    NextAhead(records.Keys, todo, k);
  }

  lemma AllAhead(ids: set<int>)
    ensures Ahead(ids, ids)
  {
  }

  lemma SystemFirst(all: set<int>, own: set<int>, before: set<int>, k: int)
    requires |Upto(all, k)| >= MAX_FORMS && |before| < MAX_RECORD_PER_APP
    requires forall j :: j in own && j < k ==> Upto(own, j) <= before
    ensures LimitOf(all, own) == MaxSystemForms
  {
    hide Upto;
    UptoWithin(all, k, k);
    Fewer(Upto(all, k), all);
    forall j | j in own ensures |Upto(own, j)| < MAX_RECORD_PER_APP || |Upto(all, j)| >= MAX_FORMS {
      if j < k {
        Fewer(Upto(own, j), before);
      } else {
        UptoWithin(all, k, j);
        Fewer(Upto(all, k), Upto(all, j));
      }
    }
  }

  lemma UptoWithin(s: set<int>, k: int, j: int)
    ensures Upto(s, k) <= s && (k <= j ==> Upto(s, k) <= Upto(s, j))
  {
  }

  lemma ClientFirst(all: set<int>, own: set<int>, k: int)
    requires k in own && |Upto(own, k)| >= MAX_RECORD_PER_APP && |Upto(all, k)| < MAX_FORMS
    ensures LimitOf(all, own) == MaxFormsPerClient
  {
    hide Upto;
    UptoWithin(own, k, k);
    Fewer(Upto(own, k), own);
  }

  lemma BelowLimits(all: set<int>, own: set<int>)
    requires |all| < MAX_FORMS && |own| < MAX_RECORD_PER_APP
    ensures LimitOf(all, own) == NoLimit
  {
  }
}
