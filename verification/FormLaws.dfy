/** Who may add, delete, release and cast a form, and what each call and each
    event leaves alone: laws over the state before and after one step. */
module FormLaws {
  import opened FormTypes
  import opened FormDataMgr
  import opened FormDbCache
  import opened FormMgrAdapter
  import opened FormInvariants
  import opened FormSysEvents
  import opened FormInvalidForms
  import opened FormRuns

  // ----- what can be seen of a state -----

  predicate FirstHost(hosts: seq<FormHostRecord>, token: int, i: int) {
    0 <= i < |hosts| && hosts[i].clientStub == token && forall j :: 0 <= j < i ==> hosts[j].clientStub != token
  }

  predicate NoHost(hosts: seq<FormHostRecord>, token: int) {
    forall j :: 0 <= j < |hosts| ==> hosts[j].clientStub != token
  }

  // The host shows the form.
  ghost predicate Shows(hosts: seq<FormHostRecord>, token: int, id: int) {
    exists i :: FirstHost(hosts, token, i) && id in hosts[i].forms
  }

  // The host shows the form from now on; all other hosts are as they were.
  ghost predicate TakesOn(hosts: seq<FormHostRecord>, token: int, uid: int, id: int, now: seq<FormHostRecord>) {
    if NoHost(hosts, token) then now == hosts + [FormHostRecord(token, uid, {id})]
    else exists i :: FirstHost(hosts, token, i) && now == HostMore(hosts, i, id)
  }

  function HostMore(hosts: seq<FormHostRecord>, i: int, id: int): seq<FormHostRecord>
    requires 0 <= i < |hosts|
  {
    hosts[i := hosts[i].(forms := hosts[i].forms + {id})]
  }

  // The host no longer shows the form, and is gone when it shows nothing else.
  ghost predicate LetsGo(hosts: seq<FormHostRecord>, token: int, id: int, now: seq<FormHostRecord>) {
    if NoHost(hosts, token) then now == hosts
    else exists i :: FirstHost(hosts, token, i) && now == HostLess(hosts, i, id)
  }

  function HostLess(hosts: seq<FormHostRecord>, i: int, id: int): seq<FormHostRecord>
    requires 0 <= i < |hosts|
  {
    if hosts[i].forms <= {id} then hosts[..i] + hosts[i + 1..] else hosts[i := hosts[i].(forms := hosts[i].forms - {id})]
  }

  // The list `b` is `a` and uid, each once; or `a` without uid.
  ghost predicate WithUser(a: seq<int>, b: seq<int>, uid: int) {
    NoDuplicates(b) && forall u :: u in b <==> u in a || u == uid
  }

  ghost predicate WithoutUser(a: seq<int>, b: seq<int>, uid: int) {
    NoDuplicates(b) && forall u :: u in b <==> u in a && u != uid
  }

  // Everything about the other forms: records, list of temporary forms, entries, store.
  ghost predicate OthersStay(s: State, t: State, id: int) {
    && (forall k :: k != id ==> (k in t.records <==> k in s.records) && (k in s.records ==> t.records[k] == s.records[k]))
    && (forall k :: k != id ==> (k in t.temp <==> k in s.temp))
    && (forall d: FormDBInfo :: d.formId != id ==> (d in t.cache <==> d in s.cache))
    && (forall k :: k != id ==> (k in t.store <==> k in s.store) && (k in s.store ==> t.store[k] == s.store[k]))
  }

  // The database is left alone.
  predicate SameDatabase(s: State, t: State) {
    t.cache == s.cache && t.store == s.store
  }

  // The entry is in the cache in place of any other with its id, and in the
  // store unless storing failed; what is in the cache already is not stored.
  ghost predicate SavedAs(s: State, t: State, d: FormDBInfo, failing: set<int>) {
    && (forall e :: e in t.cache <==> e == d || (e in s.cache && e.formId != d.formId))
    && t.store == if d in s.cache || d.formId in failing then s.store else s.store[d.formId := d]
  }

  // The entry of a record.
  function EntryFor(id: int, r: FormRecord): FormDBInfo {
    FormDBInfo(formId := id, userId := r.userId, formName := r.formName, bundleName := r.bundleName,
               moduleName := r.moduleName, abilityName := r.abilityName, formUserUids := r.formUserUids)
  }

  // The user a caller belongs to owns 200000 caller ids.
  lemma UserOwnsUids(uid: int, userId: int)
    requires uid >= 0
    ensures UserIdOf(uid) == userId <==> 200000 * userId <= uid < 200000 * (userId + 1)
  {
  }

  // The id a host gave names a form: a 32-bit id the first form with this low
  // word, if there is one, and any other id itself.
  ghost predicate Named(records: Records, formId: int, id: int) {
    if 0 <= formId < 0x1_0000_0000 && exists k :: k in records && Low(k) == Low(formId)
    then id in records && Low(id) == Low(formId) && forall k :: k in records && Low(k) == Low(formId) ==> id <= k
    else id == formId
  }

  function Low(k: int): int {
    k % 0x1_0000_0000
  }

  lemma MatchedIsNamed(records: Records, formId: int)
    ensures forall id :: Named(records, formId, id) <==> id == MatchedId(records, formId)
  {
    var m := MatchedId(records, formId);
    MatchIsNamed(records, formId, m);
    forall id ensures Named(records, formId, id) <==> id == m {
      MatchIsNamed(records, formId, id);
      if Matches(records, formId, id) {
        MatchUnique(records, formId, id, m);
      }
    }
  }

  lemma MatchIsNamed(records: Records, formId: int, id: int)
    ensures Named(records, formId, id) <==> Matches(records, formId, id)
  {
    assert forall k :: SameLowWord(k, formId) <==> Low(k) == Low(formId);
    if exists k :: k in records && Low(k) == Low(formId) {
      var k :| k in records && Low(k) == Low(formId);
      assert SameLowWord(k, formId);
    }
    if exists k :: k in records && SameLowWord(k, formId) {
      var k :| k in records && SameLowWord(k, formId);
      assert Low(k) == Low(formId);
    }
  }

  // ----- the updates, seen -----

  lemma {:induction false} SomeHostFirst(hosts: seq<FormHostRecord>, token: int)
    ensures NoHost(hosts, token) || exists i :: FirstHost(hosts, token, i)
    decreases |hosts|
  {
    if hosts != [] {
      if hosts[0].clientStub == token {
        assert FirstHost(hosts, token, 0);
      } else {
        SomeHostFirst(hosts[1..], token);
        if i :| FirstHost(hosts[1..], token, i) {
          assert FirstHost(hosts, token, i + 1);
        }
      }
    }
  }

  // The first host with the token is the first behind a host without it.
  lemma LaterHost(hosts: seq<FormHostRecord>, token: int, i: nat)
    requires FirstHost(hosts, token, i) && i > 0
    ensures hosts[0].clientStub != token && FirstHost(hosts[1..], token, i - 1)
  {
  }

  lemma NoLaterHost(hosts: seq<FormHostRecord>, token: int)
    requires NoHost(hosts, token) && hosts != []
    ensures hosts[0].clientStub != token && NoHost(hosts[1..], token)
  {
  }

  lemma {:induction false} AllottedAt(hosts: seq<FormHostRecord>, token: int, uid: int, id: int, i: nat)
    requires FirstHost(hosts, token, i)
    ensures HostAllotted(hosts, token, uid, id) == HostMore(hosts, i, id)
    decreases i
  {
    if i > 0 {
      LaterHost(hosts, token, i);
      AllottedAt(hosts[1..], token, uid, id, i - 1);
    }
  }

  lemma {:induction false} AllottedNew(hosts: seq<FormHostRecord>, token: int, uid: int, id: int)
    requires NoHost(hosts, token)
    ensures HostAllotted(hosts, token, uid, id) == hosts + [FormHostRecord(token, uid, {id})]
    decreases |hosts|
  {
    if hosts != [] {
      NoLaterHost(hosts, token);
      AllottedNew(hosts[1..], token, uid, id);
    }
  }

  lemma HostAllottedIs(hosts: seq<FormHostRecord>, token: int, uid: int, id: int)
    ensures TakesOn(hosts, token, uid, id, HostAllotted(hosts, token, uid, id))
  {
    hide HostAllotted, HostMore, NoHost;
    SomeHostFirst(hosts, token);
    if NoHost(hosts, token) {
      AllottedNew(hosts, token, uid, id);
    } else {
      var i :| FirstHost(hosts, token, i);
      AllottedAt(hosts, token, uid, id, i);
    }
  }

  lemma {:induction false} ReleasedAt(hosts: seq<FormHostRecord>, token: int, id: int, i: nat)
    requires FirstHost(hosts, token, i)
    ensures HostReleased(hosts, token, id) == HostLess(hosts, i, id)
    decreases i
  {
    hide HostLess;
    if i > 0 {
      LaterHost(hosts, token, i);
      ReleasedAt(hosts[1..], token, id, i - 1);
      LaterHostLess(hosts, i - 1, id);
    } else {
      FirstHostLess(hosts, id);
    }
  }

  lemma {:induction false} ReleasedNone(hosts: seq<FormHostRecord>, token: int, id: int)
    requires NoHost(hosts, token)
    ensures HostReleased(hosts, token, id) == hosts && HostGone(hosts, token) == hosts
    decreases |hosts|
  {
    if hosts != [] {
      NoLaterHost(hosts, token);
      ReleasedNone(hosts[1..], token, id);
    }
  }

  lemma HostReleasedIs(hosts: seq<FormHostRecord>, token: int, id: int)
    ensures LetsGo(hosts, token, id, HostReleased(hosts, token, id))
  {
    hide HostReleased, HostLess, NoHost;
    SomeHostFirst(hosts, token);
    if NoHost(hosts, token) {
      ReleasedNone(hosts, token, id);
    } else {
      var i :| FirstHost(hosts, token, i);
      ReleasedAt(hosts, token, id, i);
    }
  }

  lemma LaterHostLess(hosts: seq<FormHostRecord>, i: nat, id: int)
    requires i < |hosts| - 1
    ensures HostLess(hosts, i + 1, id) == [hosts[0]] + HostLess(hosts[1..], i, id)
  {
    var rest := hosts[1..];
    assert rest[i] == hosts[i + 1];
    if hosts[i + 1].forms <= {id} {
      assert rest[i + 1..] == hosts[i + 2..];
      assert [hosts[0]] + rest[..i] == hosts[..i + 1];
      assert [hosts[0]] + (rest[..i] + rest[i + 1..]) == hosts[..i + 1] + hosts[i + 2..];
    } else {
      var h := hosts[i + 1].(forms := hosts[i + 1].forms - {id});
      assert [hosts[0]] + rest[i := h] == hosts[i + 1 := h];
    }
  }

  lemma FirstHostLess(hosts: seq<FormHostRecord>, id: int)
    requires hosts != []
    ensures HostLess(hosts, 0, id) == if hosts[0].forms - {id} == {} then hosts[1..]
                                      else [hosts[0].(forms := hosts[0].forms - {id})] + hosts[1..]
  {
    assert hosts[0].forms - {id} == {} <==> hosts[0].forms <= {id};
  }

  lemma {:induction false} HostFormsIs(hosts: seq<FormHostRecord>, token: int, id: int)
    ensures id in HostForms(hosts, token) <==> Shows(hosts, token, id)
    decreases |hosts|
  {
    if hosts != [] {
      if hosts[0].clientStub == token {
        assert FirstHost(hosts, token, 0);
      } else {
        HostFormsIs(hosts[1..], token, id);
        if Shows(hosts, token, id) {
          var i :| FirstHost(hosts, token, i) && id in hosts[i].forms;
          assert FirstHost(hosts[1..], token, i - 1);
        }
        if Shows(hosts[1..], token, id) {
          var i :| FirstHost(hosts[1..], token, i) && id in hosts[1..][i].forms;
          assert FirstHost(hosts, token, i + 1);
        }
      }
    }
  }

  lemma ListUpdates(uids: seq<int>, uid: int)
    requires NoDuplicates(uids)
    ensures WithUser(uids, AddIfMissing(uids, uid), uid) && WithoutUser(uids, RemoveFirst(uids, uid), uid)
    ensures uid in uids ==> AddIfMissing(uids, uid) == uids
    ensures RemoveFirst(uids, uid) == [] <==> forall u :: u in uids ==> u == uid
  {
    hide RemoveFirst;
    UidListsKeep(uids, uid);
    RemoveFirstIs(uids, uid);
    var left := RemoveFirst(uids, uid);
    if left != [] {
      assert left[0] in left;
    }
  }

  lemma SaveIs(s: State, id: int, r: FormRecord, failing: set<int>)
    requires DistinctIds(s.cache)
    ensures SavedAs(s, Saved(s, id, r, failing), EntryFor(id, r), failing)
    ensures Saved(s, id, r, failing).(cache := s.cache, store := s.store) == s
    ensures SaveSucceeds(s.cache, DBInfoOf(id, r), failing) <==> EntryFor(id, r) in s.cache || id !in failing
  {
    hide SavedCache, DistinctIds;
    var d := EntryFor(id, r);
    SavedHas(s.cache, d);
    EntryThere(s.cache, d);
  }

  lemma EntryThere(cache: Cache, d: FormDBInfo)
    requires DistinctIds(cache)
    ensures IndexOf(cache, d.formId) != -1 && cache[IndexOf(cache, d.formId)] == d <==> d in cache
    ensures IndexOf(cache, d.formId) == -1 <==> forall e :: e in cache ==> e.formId != d.formId
  {
    hide IndexOf;
    var i := IndexOf(cache, d.formId);
    if d in cache {
      SameEntry(cache, d, cache[i]);
    }
    if i != -1 {
      assert cache[i] in cache;
    }
  }

  lemma SavingStays(s: State, t: State, d: FormDBInfo, failing: set<int>, id: int)
    requires SavedAs(s, t, d, failing) && d.formId == id
    ensures forall e: FormDBInfo :: e.formId != id ==> (e in t.cache <==> e in s.cache)
    ensures forall k :: k != id ==> (k in t.store <==> k in s.store) && (k in s.store ==> t.store[k] == s.store[k])
  {
  }

  // ----- adding a form -----

  // The checks that come before a form is looked for. A new normal form needs
  // room: fewer than 512 normal forms of the caller's user, and fewer than 256
  // of them used by the caller.
  ghost predicate Checked(s: State, info: FormItemInfo, token: int, uid: int, out: Outside) {
    && info.formId >= 0 && token != 0
    && (info.temporary ==> info.formId == 0 && |s.temp| < 256)
    && (!info.temporary && info.formId == 0 ==> Room(s.records, uid))
    && out.configOk && out.hashOk && (info.formId == 0 ==> out.newFormId >= 0)
  }

  predicate Room(records: Records, uid: int) {
    && |set k | k in records && records[k].userId == UserIdOf(uid) && !records[k].formTempFlg| < 512
    && |set k | k in records && records[k].userId == UserIdOf(uid) && !records[k].formTempFlg
                && uid in records[k].formUserUids| < 256
  }

  lemma RoomIs(records: Records, uid: int)
    ensures Room(records, uid) <==> FormLimit(records, UserIdOf(uid), uid) == NoLimit
  {
    hide UserIdOf, ShareFirst;
    assert NormalForms(records, UserIdOf(uid))
        == set k | k in records && records[k].userId == UserIdOf(uid) && !records[k].formTempFlg;
    assert NormalFormsOf(records, UserIdOf(uid), uid)
        == set k | k in records && records[k].userId == UserIdOf(uid) && !records[k].formTempFlg && uid in records[k].formUserUids;
  }

  // The form that is asked for: a generated one, or the given id, which the
  // device's hash completes if it has 32 bits only.
  function Asked(info: FormItemInfo, udidHash: int, out: Outside): int {
    if info.formId == 0 then out.newFormId else if info.formId < 0x1_0000_0000 then udidHash + info.formId else info.formId
  }

  // A form that is not temporary is open to callers of its user and to those it
  // lists already: by its record, or by its entry in the database.
  predicate OpenRecord(s: State, id: int, uid: int) {
    id in s.records && !s.records[id].formTempFlg
    && (s.records[id].userId == UserIdOf(uid) || uid in s.records[id].formUserUids)
  }

  predicate OpenEntry(s: State, id: int, uid: int) {
    exists d :: d in s.cache && d.formId == id && (d.userId == UserIdOf(uid) || uid in d.formUserUids)
  }

  // A record is made for the form, or the caller shares the one there is.
  ghost predicate MakesRecord(s: State, info: FormItemInfo, token: int, uid: int, out: Outside, id: int) {
    Checked(s, info, token, uid, out) && id !in s.records && (info.formId == 0 || OpenEntry(s, id, uid))
  }

  ghost predicate SharesRecord(s: State, info: FormItemInfo, token: int, uid: int, out: Outside, id: int) {
    Checked(s, info, token, uid, out) && OpenRecord(s, id, uid) && out.matches
  }

  // The record is closed to the caller but its entry is not: the record stays
  // as it is, and is what the entry becomes.
  ghost predicate OnlyEntryOpen(s: State, info: FormItemInfo, token: int, uid: int, out: Outside, id: int) {
    Checked(s, info, token, uid, out) && id in s.records && !s.records[id].formTempFlg && !OpenRecord(s, id, uid)
    && OpenEntry(s, id, uid)
  }

  lemma OpenEntryIs(s: State, id: int, uid: int)
    requires DistinctIds(s.cache)
    ensures var i := IndexOf(s.cache, id);
            OpenEntry(s, id, uid) <==> i != -1 && (s.cache[i].userId == UserIdOf(uid) || uid in s.cache[i].formUserUids)
  {
    hide IndexOf, UserIdOf;
    var i := IndexOf(s.cache, id);
    if i != -1 {
      forall d | d in s.cache && d.formId == id ensures d == s.cache[i] {
        SameEntry(s.cache, d, s.cache[i]);
      }
    }
  }

  lemma KnownOf(s: State)
    requires Consistent(s)
    ensures DistinctIds(s.cache)
    ensures forall k :: k in s.temp <==> k in s.records && s.records[k].formTempFlg
    ensures forall k :: k in s.records ==> NoDuplicates(s.records[k].formUserUids)
    ensures forall d :: d in s.cache ==> NoDuplicates(d.formUserUids) && d.formId !in s.temp
  {
    forall d | d in s.cache ensures d.formId !in s.temp {
      assert d.formId in Ids(s.cache);
    }
  }

  // What a call that passes its checks comes to.
  lemma AddIs(s: State, info: FormItemInfo, token: int, uid: int, out: Outside, udidHash: int)
    requires Consistent(s)
    ensures var id, o := Asked(info, udidHash, out), AfterAdd(s, info, token, uid, udidHash, out);
            if !Checked(s, info, token, uid, out) then o.state == s && o.code != Ok
            else if info.formId == 0 then o == AfterAddNew(s, info.(formId := id), token, uid, out)
            else !info.temporary
                 && if OpenRecord(s, id, uid) && out.matches then o == AfterAddExist(s, id, token, uid, out)
                    else if !OpenRecord(s, id, uid) && OpenEntry(s, id, uid) && (id in s.records ==> !s.records[id].formTempFlg)
                    then o == AfterAddNew(s, info.(formId := id), token, uid, out)
                    else o.state == s && o.code != Ok
  {
    hide AfterAddNew, AfterAddExist, FormLimit, Consistent, Room, UserIdOf, IndexOf, OpenEntry;
    RoomIs(s.records, uid);
    KnownOf(s);
    OpenEntryIs(s, Asked(info, udidHash, out), uid);
  }

  // A call that is neither given a new record nor let into an old one, nor finds
  // an entry open, changes nothing and is told so.
  lemma AddRefused(s: State, info: FormItemInfo, token: int, uid: int, out: Outside, t: State, code: ErrCode, udidHash: int)
    requires Consistent(s) && Answered(s, Add(info, token, uid, out), t, code, udidHash)
    requires var id := Asked(info, udidHash, out);
             && !MakesRecord(s, info, token, uid, out, id) && !SharesRecord(s, info, token, uid, out, id)
             && !OnlyEntryOpen(s, info, token, uid, out, id)
    ensures t == s && code != Ok
  {
    hide AfterAdd, AfterAddNew, AfterAddExist, Consistent, Checked, OpenEntry, UserIdOf, Ids;
    AddIs(s, info, token, uid, out, udidHash);
    AskedIsNew(s, info, udidHash, out);
    if Checked(s, info, token, uid, out) {
      CheckedId(s, info, token, uid, out);
    }
  }

  // A caller is told which limit it met first, counting the forms in the order
  // of their ids: its own 256 or the user's 512.
  lemma LimitTold(s: State, info: FormItemInfo, token: int, uid: int, out: Outside, t: State, code: ErrCode, udidHash: int)
    requires Consistent(s) && Answered(s, Add(info, token, uid, out), t, code, udidHash)
    requires info.formId >= 0 && token != 0
    ensures info.temporary && info.formId == 0 && |s.temp| >= 256 ==> code == LimitReached(MaxSystemTempForms)
    ensures !info.temporary && info.formId == 0 && !Room(s.records, uid) ==>
              code == LimitReached(
                if exists k :: k in UserForms(s.records, UserIdOf(uid)) && OwnFirst(s.records, uid, k) then MaxFormsPerClient
                else MaxSystemForms)
  {
    hide Consistent, AfterAllotById, AfterAddNew, UserIdOf, OwnFirst, ShareFirst;
    RoomIs(s.records, uid);
    OwnFirstIs(s.records, uid);
  }

  // At form k the caller's share is full and the user's is not.
  predicate OwnFirst(records: Records, uid: int, k: int) {
    var normal := set j | j in records && j <= k && records[j].userId == UserIdOf(uid) && !records[j].formTempFlg;
    var own := set j | j in normal && j in records && uid in records[j].formUserUids;
    k in own && |own| >= 256 && |normal| < 512
  }

  lemma OwnFirstIs(records: Records, uid: int)
    ensures ShareFirst(NormalForms(records, UserIdOf(uid)), NormalFormsOf(records, UserIdOf(uid), uid))
            <==> exists k :: k in UserForms(records, UserIdOf(uid)) && OwnFirst(records, uid, k)
  {
    hide UserIdOf;
    var all, own := NormalForms(records, UserIdOf(uid)), NormalFormsOf(records, UserIdOf(uid), uid);
    forall k
      ensures k in own && |Upto(own, k)| >= MAX_RECORD_PER_APP && |Upto(all, k)| < MAX_FORMS
              <==> k in UserForms(records, UserIdOf(uid)) && OwnFirst(records, uid, k)
    {
      var normal := set j | j in records && j <= k && records[j].userId == UserIdOf(uid) && !records[j].formTempFlg;
      assert normal == Upto(all, k);
      assert (set j | j in normal && j in records && uid in records[j].formUserUids) == Upto(own, k);
    }
  }

  lemma AddNewIs(s: State, info: FormItemInfo, token: int, uid: int, out: Outside, r: FormRecord)
    requires Consistent(s) && r == AllottedState(s, info, token, uid).records[info.formId]
    requires r.formTempFlg == info.temporary
    ensures var o, id := AfterAddNew(s, info, token, uid, out), info.formId;
            && o.state.records == Allotted(s.records, info, uid, UserIdOf(uid))
            && o.state.temp == (if info.temporary then AddIfMissing(s.temp, id) else s.temp)
            && TakesOn(s.hosts, token, uid, id, o.state.hosts)
            && (if !info.temporary && id > 0 && out.providerOk then SavedAs(s, o.state, EntryFor(id, r), out.failing)
                else SameDatabase(s, o.state))
            && (o.code == Ok <==>
                  id > 0 && out.providerOk && (info.temporary || ((EntryFor(id, r) in s.cache || id !in out.failing) && out.timerOk)))
  {
    hide Allotted, AddIfMissing, HostAllotted, TakesOn, Saved, SavedAs, SaveSucceeds, EntryFor, Consistent, UserIdOf;
    KnownOf(s);
    var t := AllottedState(s, info, token, uid);
    HostAllottedIs(s.hosts, token, uid, info.formId);
    SaveIs(t, info.formId, r, out.failing);
    SavedFrom(s, t, Saved(t, info.formId, r, out.failing), EntryFor(info.formId, r), out.failing);
  }

  lemma SavedFrom(s: State, t: State, u: State, d: FormDBInfo, failing: set<int>)
    requires SavedAs(t, u, d, failing) && SameDatabase(s, t)
    ensures SavedAs(s, u, d, failing)
  {
  }

  // The record that is made lists the caller alone and belongs to its user. A
  // normal form is entered into the database once its provider is reached.
  lemma AddMakes(s: State, info: FormItemInfo, token: int, uid: int, out: Outside, t: State, code: ErrCode, udidHash: int)
    requires Consistent(s) && Answered(s, Add(info, token, uid, out), t, code, udidHash)
    requires MakesRecord(s, info, token, uid, out, Asked(info, udidHash, out))
    ensures var id := Asked(info, udidHash, out);
            var r := FormRecord(formId := id, userId := UserIdOf(uid), bundleName := info.bundleName,
                                moduleName := info.moduleName, abilityName := info.abilityName, formName := info.formName,
                                formTempFlg := info.temporary, formUserUids := [uid]);
            && t.records == s.records[id := r]
            && t.temp == (if info.temporary then s.temp + [id] else s.temp)
            && TakesOn(s.hosts, token, uid, id, t.hosts)
            && (if !info.temporary && id > 0 && out.providerOk then SavedAs(s, t, EntryFor(id, r), out.failing)
                else SameDatabase(s, t))
            && (code == Ok <==>
                  id > 0 && out.providerOk && (info.temporary || ((EntryFor(id, r) in s.cache || id !in out.failing) && out.timerOk)))
  {
    hide AfterAdd, AfterAddNew, AfterAddExist, Consistent, Checked, OpenEntry, UserIdOf, Ids, TakesOn, SavedAs, HostAllotted;
    var id := Asked(info, udidHash, out);
    AddIs(s, info, token, uid, out, udidHash);
    KnownOf(s);
    AddNewIs(s, info.(formId := id), token, uid, out, AllottedState(s, info.(formId := id), token, uid).records[id]);
  }

  // The caller of an open record becomes one of its users, unless the provider
  // had to be reached and was not; nothing else of the record changes.
  lemma AddShares(s: State, info: FormItemInfo, token: int, uid: int, out: Outside, t: State, code: ErrCode, udidHash: int)
    requires Consistent(s) && Answered(s, Add(info, token, uid, out), t, code, udidHash)
    requires SharesRecord(s, info, token, uid, out, Asked(info, udidHash, out))
    ensures var id := Asked(info, udidHash, out);
            var reached := out.mustAcquire ==> id > 0 && out.providerOk;
            && TakesOn(s.hosts, token, uid, id, t.hosts) && t.temp == s.temp && id in t.records
            && t.records == s.records[id := s.records[id].(formUserUids := t.records[id].formUserUids)]
            && (if reached then WithUser(s.records[id].formUserUids, t.records[id].formUserUids, uid) else t.records == s.records)
            && (if reached && out.timerOk then SavedAs(s, t, EntryFor(id, t.records[id]), out.failing) else SameDatabase(s, t))
            && (code == Ok <==>
                  reached && out.timerOk && (EntryFor(id, t.records[id]) in s.cache || id !in out.failing))
  {
    hide AfterAdd, AfterAddNew, Consistent, Checked, OpenEntry, UserIdOf, Ids, TakesOn, SavedAs, HostAllotted, Saved, SaveSucceeds,
         AddIfMissing, WithUser, NoDuplicates;
    var id := Asked(info, udidHash, out);
    AddIs(s, info, token, uid, out, udidHash);
    KnownOf(s);
    assert id in s.records && info.formId != 0 by {
      AskedIsNew(s, info, udidHash, out);
      CheckedId(s, info, token, uid, out);
    }
    ListUpdates(s.records[id].formUserUids, uid);
    HostAllottedIs(s.hosts, token, uid, id);
    var listed := HostAdded(s, token, uid, id).(records := WithUid(s.records, id, uid));
    var r := s.records[id].(formUserUids := AddIfMissing(s.records[id].formUserUids, uid));
    SaveIs(listed, id, r, out.failing);
    SavedFrom(s, listed, Saved(listed, id, r, out.failing), EntryFor(id, r), out.failing);
  }

  lemma AskedIsNew(s: State, info: FormItemInfo, udidHash: int, out: Outside)
    ensures info.formId == 0 && FreshId(s, out.newFormId) && out.newFormId >= 0 ==> Asked(info, udidHash, out) !in s.records
  {
  }

  // Of a form whose entry alone is open the record stays, and is what is saved.
  lemma AddOverwrites(s: State, info: FormItemInfo, token: int, uid: int, out: Outside, t: State, code: ErrCode, udidHash: int)
    requires Consistent(s) && Answered(s, Add(info, token, uid, out), t, code, udidHash)
    requires OnlyEntryOpen(s, info, token, uid, out, Asked(info, udidHash, out))
    ensures var id := Asked(info, udidHash, out);
            var d := EntryFor(id, s.records[id]);
            && t.records == s.records && t.temp == s.temp && TakesOn(s.hosts, token, uid, id, t.hosts)
            && (if id > 0 && out.providerOk then SavedAs(s, t, d, out.failing) else SameDatabase(s, t))
            && (code == Ok <==> id > 0 && out.providerOk && (d in s.cache || id !in out.failing) && out.timerOk)
  {
    hide AfterAdd, AfterAddNew, AfterAddExist, Consistent, Checked, OpenEntry, UserIdOf, Ids, TakesOn, SavedAs, HostAllotted;
    var id := Asked(info, udidHash, out);
    AddIs(s, info, token, uid, out, udidHash);
    assert info.formId != 0 by {
      AskedIsNew(s, info, udidHash, out);
      CheckedId(s, info, token, uid, out);
    }
    AddNewIs(s, info.(formId := id), token, uid, out, s.records[id]);
  }

  lemma CheckedId(s: State, info: FormItemInfo, token: int, uid: int, out: Outside)
    requires Checked(s, info, token, uid, out)
    ensures info.formId == 0 ==> out.newFormId >= 0
  {
  }

  predicate IsUser(records: Records, id: int, u: int) {
    id in records && u in records[id].formUserUids
  }

  // Adding a form makes the caller, and nobody else, a user of the form that was
  // asked for, exactly when its record is made or shared; who was a user stays
  // one, and all other forms are left alone. On Ok the host shows the form.
  lemma AddAdmits(s: State, info: FormItemInfo, token: int, uid: int, out: Outside, t: State, code: ErrCode, udidHash: int)
    requires Consistent(s) && Answered(s, Add(info, token, uid, out), t, code, udidHash)
    ensures var id := Asked(info, udidHash, out);
            && OthersStay(s, t, id)
            && (t.hosts == s.hosts || TakesOn(s.hosts, token, uid, id, t.hosts))
            && (forall u :: IsUser(t.records, id, u) <==>
                  IsUser(s.records, id, u)
                  || (u == uid && (MakesRecord(s, info, token, uid, out, id)
                                   || (SharesRecord(s, info, token, uid, out, id)
                                       && (out.mustAcquire ==> id > 0 && out.providerOk)))))
            && (code == Ok ==> id in t.records && Shows(t.hosts, token, id))
  {
    hide Answered, Consistent, MakesRecord, SharesRecord, OnlyEntryOpen, TakesOn, SavedAs, NoDuplicates, EntryFor, Asked, Shows;
    var id := Asked(info, udidHash, out);
    RecordAndTemp(s, id);
    if MakesRecord(s, info, token, uid, out, id) {
      MakesNew(s, info, token, uid, out, id);
      AddMakes(s, info, token, uid, out, t, code, udidHash);
      EntryForId(id, t.records[id]);
      OtherEntries(s, t, EntryFor(id, t.records[id]), out.failing, id);
      TakenOnShows(s.hosts, token, uid, id, t.hosts);
    } else if SharesRecord(s, info, token, uid, out, id) {
      SharesOld(s, info, token, uid, out, id);
      AddShares(s, info, token, uid, out, t, code, udidHash);
      EntryForId(id, t.records[id]);
      OtherEntries(s, t, EntryFor(id, t.records[id]), out.failing, id);
      TakenOnShows(s.hosts, token, uid, id, t.hosts);
    } else if OnlyEntryOpen(s, info, token, uid, out, id) {
      OverwritesOld(s, info, token, uid, out, id);
      AddOverwrites(s, info, token, uid, out, t, code, udidHash);
      EntryForId(id, s.records[id]);
      OtherEntries(s, t, EntryFor(id, s.records[id]), out.failing, id);
      TakenOnShows(s.hosts, token, uid, id, t.hosts);
    } else {
      AddRefused(s, info, token, uid, out, t, code, udidHash);
    }
  }

  lemma RecordAndTemp(s: State, id: int)
    requires Consistent(s)
    ensures id in s.temp <==> id in s.records && s.records[id].formTempFlg
  {
  }

  lemma MakesNew(s: State, info: FormItemInfo, token: int, uid: int, out: Outside, id: int)
    requires MakesRecord(s, info, token, uid, out, id)
    ensures id !in s.records
  {
  }

  lemma SharesOld(s: State, info: FormItemInfo, token: int, uid: int, out: Outside, id: int)
    requires SharesRecord(s, info, token, uid, out, id)
    ensures id in s.records
  {
  }

  lemma OverwritesOld(s: State, info: FormItemInfo, token: int, uid: int, out: Outside, id: int)
    requires OnlyEntryOpen(s, info, token, uid, out, id)
    ensures id in s.records
  {
  }

  lemma EntryForId(id: int, r: FormRecord)
    ensures EntryFor(id, r).formId == id
  {
  }

  lemma OtherEntries(s: State, t: State, d: FormDBInfo, failing: set<int>, id: int)
    requires (SavedAs(s, t, d, failing) && d.formId == id) || SameDatabase(s, t)
    ensures forall e: FormDBInfo :: e.formId != id ==> (e in t.cache <==> e in s.cache)
    ensures forall k :: k != id ==> (k in t.store <==> k in s.store) && (k in s.store ==> t.store[k] == s.store[k])
  {
    if !SameDatabase(s, t) {
      SavingStays(s, t, d, failing, id);
    }
  }

  lemma TakenOnShows(hosts: seq<FormHostRecord>, token: int, uid: int, id: int, now: seq<FormHostRecord>)
    requires TakesOn(hosts, token, uid, id, now)
    ensures Shows(now, token, id)
  {
    if NoHost(hosts, token) {
      assert FirstHost(now, token, |hosts|);
    } else {
      var i :| FirstHost(hosts, token, i) && now == HostMore(hosts, i, id);
      assert FirstHost(now, token, i);
    }
  }

  // ----- deleting and releasing a form -----

  // The users of a form: of a temporary form those of its record, of a normal
  // form those of its entry in the database.
  predicate Uses(s: State, id: int, u: int) {
    if id in s.temp then IsUser(s.records, id, u) else exists d :: d in s.cache && d.formId == id && u in d.formUserUids
  }

  predicate Known(s: State, id: int) {
    id in s.temp || exists d :: d in s.cache && d.formId == id
  }

  // The caller uses the form, and the form is of the caller's user.
  predicate Owns(s: State, id: int, uid: int) {
    if id in s.temp then IsUser(s.records, id, uid) && s.records[id].userId == UserIdOf(uid)
    else exists d :: d in s.cache && d.formId == id && uid in d.formUserUids && d.userId == UserIdOf(uid)
  }

  ghost predicate OnlyUser(s: State, id: int, uid: int) {
    forall u :: Uses(s, id, u) ==> u == uid
  }

  // The record, if there is one, loses uid.
  ghost predicate RecordLoses(a: Records, b: Records, id: int, uid: int) {
    if id !in a then b == a
    else id in b && b == a[id := a[id].(formUserUids := b[id].formUserUids)]
         && WithoutUser(a[id].formUserUids, b[id].formUserUids, uid)
  }

  // What deleting a temporary form does. The provider is told when the last
  // user goes; when it cannot be reached, nothing has happened.
  ghost predicate TempDeleted(s: State, id: int, token: int, uid: int, out: Outside, t: State, code: ErrCode) {
    && SameDatabase(s, t)
    && if !Owns(s, id, uid) then t == s && code == NotSelf
       else if !OnlyUser(s, id, uid) then
         code == Ok && t.temp == s.temp && RecordLoses(s.records, t.records, id, uid) && LetsGo(s.hosts, token, id, t.hosts)
       else if !out.providerOk then t == s && code == BindProviderFailed
       else t.records == s.records - {id} && WithoutUser(s.temp, t.temp, id)
            && if out.dataOk then code == Ok && LetsGo(s.hosts, token, id, t.hosts) else code == CommonCode && t.hosts == s.hosts
  }

  lemma DeleteTempIs(s: State, id: int, token: int, uid: int, out: Outside)
    requires Consistent(s) && id in s.temp
    ensures var o := AfterDeleteTemp(s, id, token, uid, out);
            TempDeleted(s, id, token, uid, out, o.state, o.code)
  {
    hide Consistent, RemoveFirst, AddIfMissing, HostReleased, LetsGo, UserIdOf, NoDuplicates, WithoutUser;
    KnownOf(s);
    var uids := s.records[id].formUserUids;
    ListUpdates(uids, uid);
    RemovedFrom(s.temp, id) by {
      TempIsUnique(s);
    }
    HostReleasedIs(s.hosts, token, id);
    OnlyUserIs(s, id, uid);
    if Owns(s, id, uid) && OnlyUser(s, id, uid) {
      OneUser(uids, uid);
      assert s.records[id := s.records[id].(formUserUids := [uid])] == s.records;
    }
  }

  lemma OnlyUserIs(s: State, id: int, uid: int)
    requires id in s.temp && id in s.records
    ensures OnlyUser(s, id, uid) <==> forall u :: u in s.records[id].formUserUids ==> u == uid
  {
    if OnlyUser(s, id, uid) {
      forall u | u in s.records[id].formUserUids ensures u == uid {
        assert Uses(s, id, u);
      }
    }
  }

  lemma RemovedFrom(temp: seq<int>, id: int)
    requires NoDuplicates(temp)
    ensures WithoutUser(temp, RemoveFirst(temp, id), id)
  {
    ListUpdates(temp, id);
  }

  lemma OneUser(uids: seq<int>, uid: int)
    requires NoDuplicates(uids) && uid in uids && forall u :: u in uids ==> u == uid
    ensures uids == [uid] && AddIfMissing(RemoveFirst(uids, uid), uid) == [uid]
  {
    assert uids[|uids| - 1] in uids && uids[0] in uids;
  }

  // What deleting a normal form does, by its entry `d`.
  ghost predicate EntryDeleted(s: State, d: FormDBInfo, token: int, uid: int, out: Outside, t: State, code: ErrCode) {
    var id := d.formId;
    && t.temp == s.temp
    && if !(d.userId == UserIdOf(uid) && uid in d.formUserUids) then t == s && code == NotSelf
       else if !(forall u :: u in d.formUserUids ==> u == uid) then
         && (exists left :: WithoutUser(d.formUserUids, left, uid) && SavedAs(s, t, d.(formUserUids := left), out.failing))
         && (if id in out.failing then code == StorageFailed && t.records == s.records && t.hosts == s.hosts
             else code == Ok && RecordLoses(s.records, t.records, id, uid) && LetsGo(s.hosts, token, id, t.hosts))
       else if !out.providerOk then t == s && code == BindProviderFailed
       else
         && t.records == s.records - {id}
         && (forall e :: e in t.cache <==> e in s.cache && e.formId != id)
         && t.store == (if id in out.failing then s.store else s.store - {id})
         && code == (if id in out.failing then StorageFailed else if out.dataOk && out.timerOk then Ok else CommonCode)
         && if code == Ok then LetsGo(s.hosts, token, id, t.hosts) else t.hosts == s.hosts
  }

  lemma OwnEntryHas(s: State, d: FormDBInfo, uid: int)
    requires Consistent(s) && d in s.cache
    ensures IndexOf(s.cache, d.formId) != -1 && s.cache[IndexOf(s.cache, d.formId)] == d
    ensures OwnEntry(s.cache, d.formId, uid) <==> d.userId == UserIdOf(uid) && uid in d.formUserUids
  {
    hide IndexOf, UserIdOf, Ids, DistinctIds;
    KnownOf(s);
    EntryThere(s.cache, d);
  }

  lemma DroppedIs(s: State, id: int, failing: set<int>)
    requires DistinctIds(s.cache)
    ensures forall e :: e in DroppedCache(s.cache, id) <==> e in s.cache && e.formId != id
    ensures DroppedStore(s.store, {id}, failing) == if id in failing then s.store else s.store - {id}
  {
    hide DroppedCache, DistinctIds;
    DropIsWithout(s.cache, id);
    WithoutHas(s.cache, {id});
    assert {id} - failing == if id in failing then {} else {id};
    assert s.store - {} == s.store;
  }

  lemma RecordLess(s: State, id: int, uid: int)
    requires Consistent(s)
    ensures RecordLoses(s.records, WithoutUid(s.records, id, uid), id, uid)
  {
    hide RemoveFirst, WithoutUser, NoDuplicates;
    KnownOf(s);
    if id in s.records {
      ListUpdates(s.records[id].formUserUids, uid);
    }
  }

  lemma DeleteEntryIs(s: State, d: FormDBInfo, token: int, uid: int, out: Outside)
    requires Consistent(s) && d in s.cache
    ensures var o := AfterDeleteNormal(s, d.formId, token, uid, out);
            EntryDeleted(s, d, token, uid, out, o.state, o.code)
  {
    hide Consistent, RemoveFirst, IndexOf, SavedCache, SavedStore, SaveSucceeds, DroppedCache, DroppedStore, WithoutUid, HostReleased,
         LetsGo, UserIdOf, NoDuplicates, WithoutUser, SavedAs, RecordLoses, OwnEntry, DistinctIds;
    var id := d.formId;
    KnownOf(s);
    OwnEntryHas(s, d, uid);
    ListUpdates(d.formUserUids, uid);
    HostReleasedIs(s.hosts, token, id);
    RecordLess(s, id, uid);
    DroppedIs(s, id, out.failing);
    var left := UnlistDB(d, uid);
    var saved := s.(cache := SavedCache(s.cache, left), store := SavedStore(s.cache, s.store, left, out.failing));
    EntrySaved(s, saved, left, out.failing);
    if uid in d.formUserUids {
      LessIsNew(s, d, left, uid);
    }
  }

  lemma EntrySaved(s: State, t: State, d: FormDBInfo, failing: set<int>)
    requires DistinctIds(s.cache)
    requires t == s.(cache := SavedCache(s.cache, d), store := SavedStore(s.cache, s.store, d, failing))
    ensures forall u: State :: u.cache == t.cache && u.store == t.store ==> SavedAs(s, u, d, failing)
    ensures SaveSucceeds(s.cache, d, failing) <==> d in s.cache || d.formId !in failing
  {
    hide DistinctIds, SavedCache;
    SavedHas(s.cache, d);
    EntryThere(s.cache, d);
  }

  lemma LessIsNew(s: State, d: FormDBInfo, left: FormDBInfo, uid: int)
    requires Consistent(s) && d in s.cache && uid in d.formUserUids && left == UnlistDB(d, uid)
    ensures left !in s.cache && left.formId == d.formId && left == d.(formUserUids := left.formUserUids)
    ensures WithoutUser(d.formUserUids, left.formUserUids, uid)
    ensures left.formUserUids == [] <==> forall u :: u in d.formUserUids ==> u == uid
  {
    hide RemoveFirst, DistinctIds;
    KnownOf(s);
    ListUpdates(d.formUserUids, uid);
    if left in s.cache {
      SameEntry(s.cache, left, d);
    }
  }

  // By the form's users: deleting takes off the caller, who must own the form,
  // and nobody else; the form goes exactly with its last user; all other forms
  // stay. It is Ok unless the provider, told of the last user, or the data, the
  // timer or the store failed.
  lemma DeleteTakesOff(s: State, formId: int, id: int, token: int, uid: int, out: Outside, t: State, code: ErrCode, udidHash: int)
    requires Consistent(s) && Answered(s, Delete(formId, token, uid, out), t, code, udidHash) && Named(s.records, formId, id)
    ensures OthersStay(s, t, id) && (t.hosts == s.hosts || LetsGo(s.hosts, token, id, t.hosts))
    ensures code == Ok <==>
              formId > 0 && token != 0 && Owns(s, id, uid)
              && (OnlyUser(s, id, uid) ==> out.providerOk && out.dataOk)
              && (id !in s.temp ==> id !in out.failing && (OnlyUser(s, id, uid) ==> out.timerOk))
    ensures code == Ok ==>
              && LetsGo(s.hosts, token, id, t.hosts)
              && (forall u :: Uses(t, id, u) <==> Uses(s, id, u) && u != uid)
              && (if OnlyUser(s, id, uid) then !Known(t, id) && id !in t.records
                  else Known(t, id) && RecordLoses(s.records, t.records, id, uid))
    ensures code in {InvalidParam, NotSelf, NotExistId, BindProviderFailed} ==> t == s
  {
    hide *;
    MatchedIsNamed(s.records, formId);
    DeleteIs(s, formId, id, token, uid, out, t, code, udidHash);
    SelfStays(s, id);
    if formId > 0 && token != 0 {
      if id in s.temp {
        TempOutcome(s, id, token, uid, out, t, code);
      } else if Known(s, id) {
        var d := EntryNamed(s, id);
        EntryOutcome(s, d, token, uid, out, t, code);
      } else {
        NotKnown(s, id, uid);
      }
    }
  }

  lemma DeleteIs(s: State, formId: int, id: int, token: int, uid: int, out: Outside, t: State, code: ErrCode, udidHash: int)
    requires Consistent(s) && Answered(s, Delete(formId, token, uid, out), t, code, udidHash) && id == MatchedId(s.records, formId)
    ensures if formId <= 0 || token == 0 then t == s && code == InvalidParam
            else if id in s.temp then TempDeleted(s, id, token, uid, out, t, code)
            else if !Known(s, id) then t == s && code == NotExistId
            else forall d :: d in s.cache && d.formId == id ==> EntryDeleted(s, d, token, uid, out, t, code)
  {
    hide MatchedId, AfterDeleteTemp, AfterDeleteCache, OwnEntry, IndexOf, TempDeleted, EntryDeleted, Consistent, HostReleased, UserIdOf;
    if id in s.temp {
      DeleteTempIs(s, id, token, uid, out);
    } else {
      KnownOf(s);
      UnknownIs(s, id);
      forall d | d in s.cache && d.formId == id ensures formId > 0 && token != 0 ==> EntryDeleted(s, d, token, uid, out, t, code) {
        DeleteEntryIs(s, d, token, uid, out);
      }
    }
  }

  lemma UnknownIs(s: State, id: int)
    requires id !in s.temp
    ensures Known(s, id) <==> IndexOf(s.cache, id) != -1
  {
    var i := IndexOf(s.cache, id);
    if i != -1 {
      assert s.cache[i] in s.cache;
    }
  }

  lemma SelfStays(s: State, id: int)
    ensures OthersStay(s, s, id)
  {
  }

  lemma EntryNamed(s: State, id: int) returns (d: FormDBInfo)
    requires Known(s, id) && id !in s.temp
    ensures d in s.cache && d.formId == id
  {
    d :| d in s.cache && d.formId == id;
  }

  lemma NotKnown(s: State, id: int, uid: int)
    requires !Known(s, id)
    ensures !Owns(s, id, uid)
  {
  }

  lemma TempOutcome(s: State, id: int, token: int, uid: int, out: Outside, t: State, code: ErrCode)
    requires Consistent(s) && id in s.temp && TempDeleted(s, id, token, uid, out, t, code)
    ensures OthersStay(s, t, id) && (t.hosts == s.hosts || LetsGo(s.hosts, token, id, t.hosts))
    ensures code == Ok <==> Owns(s, id, uid) && (OnlyUser(s, id, uid) ==> out.providerOk && out.dataOk)
    ensures code == Ok ==>
              && LetsGo(s.hosts, token, id, t.hosts)
              && (forall u :: Uses(t, id, u) <==> Uses(s, id, u) && u != uid)
              && (if OnlyUser(s, id, uid) then !Known(t, id) && id !in t.records
                  else Known(t, id) && RecordLoses(s.records, t.records, id, uid))
    ensures code in {InvalidParam, NotSelf, NotExistId, BindProviderFailed} ==> t == s
  {
    hide Consistent, LetsGo, NoDuplicates, UserIdOf, OnlyUser;
    KnownOf(s);
    if Owns(s, id, uid) && OnlyUser(s, id, uid) {
      OnlyUserIs(s, id, uid);
    }
  }

  lemma EntryIsOnly(s: State, d: FormDBInfo, uid: int)
    requires Consistent(s) && d in s.cache
    ensures d.formId !in s.temp && Known(s, d.formId)
    ensures forall u :: Uses(s, d.formId, u) <==> u in d.formUserUids
    ensures Owns(s, d.formId, uid) <==> uid in d.formUserUids && d.userId == UserIdOf(uid)
    ensures OnlyUser(s, d.formId, uid) <==> forall u :: u in d.formUserUids ==> u == uid
  {
    hide Consistent, UserIdOf, NoDuplicates, DistinctIds;
    KnownOf(s);
    forall e | e in s.cache && e.formId == d.formId ensures e == d {
      SameEntry(s.cache, e, d);
    }
    if OnlyUser(s, d.formId, uid) {
      forall u | u in d.formUserUids ensures u == uid {
        assert Uses(s, d.formId, u);
      }
    }
  }

  lemma EntryOutcome(s: State, d: FormDBInfo, token: int, uid: int, out: Outside, t: State, code: ErrCode)
    requires Consistent(s) && d in s.cache && EntryDeleted(s, d, token, uid, out, t, code)
    ensures var id := d.formId;
            && OthersStay(s, t, id) && (t.hosts == s.hosts || LetsGo(s.hosts, token, id, t.hosts))
            && (code == Ok <==> Owns(s, id, uid) && id !in out.failing
                                && (OnlyUser(s, id, uid) ==> out.providerOk && out.dataOk && out.timerOk))
            && (code == Ok ==>
                  && LetsGo(s.hosts, token, id, t.hosts)
                  && (forall u :: Uses(t, id, u) <==> Uses(s, id, u) && u != uid)
                  && (if OnlyUser(s, id, uid) then !Known(t, id) && id !in t.records
                      else Known(t, id) && RecordLoses(s.records, t.records, id, uid)))
            && (code in {InvalidParam, NotSelf, NotExistId, BindProviderFailed} ==> t == s)
  {
    hide Consistent, LetsGo, NoDuplicates, UserIdOf, OnlyUser, Uses, Owns, Known, WithoutUser, SavedAs;
    EntryIsOnly(s, d, uid);
    if uid in d.formUserUids && d.userId == UserIdOf(uid) {
      if forall u :: u in d.formUserUids ==> u == uid {
        EntryGone(s, d.formId, t);
      } else {
        var left :| WithoutUser(d.formUserUids, left, uid) && SavedAs(s, t, d.(formUserUids := left), out.failing);
        EntryLess(s, d, left, t, uid, out.failing);
      }
    }
  }

  lemma EntryGone(s: State, id: int, t: State)
    requires id !in s.temp
    ensures t.temp == s.temp && (forall e :: e in t.cache <==> e in s.cache && e.formId != id) ==>
              !Known(t, id) && forall u :: !Uses(t, id, u)
  {
  }

  lemma EntryLess(s: State, d: FormDBInfo, left: seq<int>, t: State, uid: int, failing: set<int>)
    requires Consistent(s) && d in s.cache && t.temp == s.temp
    requires WithoutUser(d.formUserUids, left, uid) && SavedAs(s, t, d.(formUserUids := left), failing)
    ensures Known(t, d.formId) && forall u :: Uses(t, d.formId, u) <==> u in d.formUserUids && u != uid
    ensures forall e: FormDBInfo :: e.formId != d.formId ==> (e in t.cache <==> e in s.cache)
    ensures forall k :: k != d.formId ==> (k in t.store <==> k in s.store) && (k in s.store ==> t.store[k] == s.store[k])
  {
    hide Consistent, NoDuplicates;
    KnownOf(s);
    var e := d.(formUserUids := left);
    assert e in t.cache;
  }

  // What a release of a normal form is answered.
  ghost predicate Releases(s: State, formId: int, id: int, token: int, uid: int, delCache: bool) {
    formId > 0 && token != 0 && Owns(s, id, uid) && (delCache ==> id in s.records && Shows(s.hosts, token, id))
  }

  // Releasing a temporary form deletes it. A normal form stays in the database
  // with all its users: its host lets go of it, and with the cached record the
  // caller, and nobody else, is taken off the record, which goes with its last
  // user.
  lemma ReleaseTakesOff(s: State, formId: int, id: int, token: int, uid: int, delCache: bool, out: Outside, t: State,
                        code: ErrCode, udidHash: int)
    requires Consistent(s) && Answered(s, Release(formId, token, uid, delCache, out), t, code, udidHash)
    requires Named(s.records, formId, id)
    ensures OthersStay(s, t, id) && (t.hosts == s.hosts || LetsGo(s.hosts, token, id, t.hosts))
    ensures formId <= 0 || token == 0 ==> t == s && code == InvalidParam
    ensures formId > 0 && token != 0 && id in s.temp ==> TempDeleted(s, id, token, uid, out, t, code)
    ensures id !in s.temp ==> SameDatabase(s, t) && t.temp == s.temp
                              && (code == Ok <==> Releases(s, formId, id, token, uid, delCache) && out.timerOk)
    ensures id !in s.temp && !Releases(s, formId, id, token, uid, delCache) ==> t == s
    ensures id !in s.temp && Releases(s, formId, id, token, uid, delCache) ==>
              && (!delCache ==> t.records == s.records && LetsGo(s.hosts, token, id, t.hosts))
              && (delCache ==>
                    var last := forall u :: IsUser(s.records, id, u) ==> u == uid;
                    && (if last then t.records == s.records - {id} else RecordLoses(s.records, t.records, id, uid))
                    && (if last && !out.timerOk then t.hosts == s.hosts else LetsGo(s.hosts, token, id, t.hosts)))
  {
    hide *;
    MatchedIsNamed(s.records, formId);
    SelfStays(s, id);
    if formId > 0 && token != 0 && id in s.temp {
      ReleaseTemp(s, formId, id, token, uid, delCache, out, t, code, udidHash);
      TempOutcome(s, id, token, uid, out, t, code);
    } else {
      ReleaseIs(s, formId, id, token, uid, delCache, out, t, code, udidHash);
    }
  }

  lemma ReleaseTemp(s: State, formId: int, id: int, token: int, uid: int, delCache: bool, out: Outside, t: State, code: ErrCode,
                    udidHash: int)
    requires Consistent(s) && Answered(s, Release(formId, token, uid, delCache, out), t, code, udidHash)
    requires id == MatchedId(s.records, formId) && formId > 0 && token != 0 && id in s.temp
    ensures TempDeleted(s, id, token, uid, out, t, code)
  {
    hide MatchedId, AfterDeleteTemp, TempDeleted, Consistent;
    DeleteTempIs(s, id, token, uid, out);
  }

  lemma OwnEntryIsOwns(s: State, id: int, uid: int)
    requires Consistent(s) && id !in s.temp
    ensures Known(s, id) <==> IndexOf(s.cache, id) != -1
    ensures Owns(s, id, uid) <==> OwnEntry(s.cache, id, uid)
    ensures Owns(s, id, uid) ==> Known(s, id)
  {
    hide IndexOf, UserIdOf, OwnEntry, Consistent;
    UnknownIs(s, id);
    if Known(s, id) {
      var d := EntryNamed(s, id);
      EntryIsOnly(s, d, uid);
      OwnEntryHas(s, d, uid);
    } else {
      NotKnown(s, id, uid);
      NoEntryOwned(s.cache, id, uid);
    }
  }

  lemma NoEntryOwned(cache: Cache, id: int, uid: int)
    requires IndexOf(cache, id) == -1
    ensures !OwnEntry(cache, id, uid)
  {
  }

  lemma ReleaseIs(s: State, formId: int, id: int, token: int, uid: int, delCache: bool, out: Outside, t: State, code: ErrCode,
                  udidHash: int)
    requires Consistent(s) && Answered(s, Release(formId, token, uid, delCache, out), t, code, udidHash)
    requires id == MatchedId(s.records, formId) && !(formId > 0 && token != 0 && id in s.temp)
    ensures OthersStay(s, t, id) && (t.hosts == s.hosts || LetsGo(s.hosts, token, id, t.hosts))
    ensures formId <= 0 || token == 0 ==> t == s && code == InvalidParam
    ensures SameDatabase(s, t) && t.temp == s.temp
    ensures code == Ok <==> Releases(s, formId, id, token, uid, delCache) && out.timerOk
    ensures !Releases(s, formId, id, token, uid, delCache) ==> t == s
    ensures Releases(s, formId, id, token, uid, delCache) ==>
              && (!delCache ==> t.records == s.records && LetsGo(s.hosts, token, id, t.hosts))
              && (delCache ==>
                    var last := forall u :: IsUser(s.records, id, u) ==> u == uid;
                    && (if last then t.records == s.records - {id} else RecordLoses(s.records, t.records, id, uid))
                    && (if last && !out.timerOk then t.hosts == s.hosts else LetsGo(s.hosts, token, id, t.hosts)))
  {
    hide MatchedId, OwnEntry, Owns, IndexOf, Consistent, HostReleased, LetsGo, UserIdOf, HostForms, Shows, WithoutUid, RecordLoses,
         IsUser, Known;
    SelfStays(s, id);
    if formId > 0 && token != 0 {
      OwnEntryIsOwns(s, id, uid);
      HostReleasedIs(s.hosts, token, id);
      HostFormsIs(s.hosts, token, id);
      RecordLess(s, id, uid);
      LessStays(s, id, uid, t);
      if id in s.records {
        LastOfRecord(s, id, uid);
      }
    }
  }

  lemma LastOfRecord(s: State, id: int, uid: int)
    requires Consistent(s) && id in s.records
    ensures id in WithoutUid(s.records, id, uid) && WithoutUid(s.records, id, uid) - {id} == s.records - {id}
    ensures WithoutUid(s.records, id, uid)[id].formUserUids == [] <==> forall u :: IsUser(s.records, id, u) ==> u == uid
  {
    hide RemoveFirst, Consistent;
    KnownOf(s);
    ListUpdates(s.records[id].formUserUids, uid);
    if forall u :: IsUser(s.records, id, u) ==> u == uid {
      forall u | u in s.records[id].formUserUids ensures u == uid {
        assert IsUser(s.records, id, u);
      }
    }
  }

  lemma LessStays(s: State, id: int, uid: int, t: State)
    requires SameDatabase(s, t) && t.temp == s.temp
    ensures var less := WithoutUid(s.records, id, uid);
            t.records == less || t.records == less - {id} || t.records == s.records ==> OthersStay(s, t, id)
  {
    hide RemoveFirst;
  }

  // ----- casting a temporary form -----

  ghost predicate Casts(s: State, formId: int, id: int, token: int, uid: int, out: Outside) {
    && formId > 0 && token != 0 && id in s.temp && Shows(s.hosts, token, id) && Room(s.records, uid) && out.providerOk
  }

  // Casting, by a host that shows the form and a caller with room for it, makes
  // the temporary form a normal one that also lists the caller, in its record
  // and in the database; it is Ok if storing and the timer did not fail.
  lemma CastMakesNormal(s: State, formId: int, id: int, token: int, uid: int, out: Outside, t: State, code: ErrCode, udidHash: int)
    requires Consistent(s) && Answered(s, Cast(formId, token, uid, out), t, code, udidHash) && Named(s.records, formId, id)
    ensures OthersStay(s, t, id) && t.hosts == s.hosts
    ensures code == Ok <==> Casts(s, formId, id, token, uid, out) && id !in out.failing && out.timerOk
    ensures !Casts(s, formId, id, token, uid, out) ==> t == s
    ensures Casts(s, formId, id, token, uid, out) ==>
              && id in s.records && id in t.records
              && t.records == s.records[id := s.records[id].(formTempFlg := false, formUserUids := t.records[id].formUserUids)]
              && WithUser(s.records[id].formUserUids, t.records[id].formUserUids, uid)
              && WithoutUser(s.temp, t.temp, id)
              && SavedAs(s, t, EntryFor(id, t.records[id]), out.failing)
  {
    hide *;
    MatchedIsNamed(s.records, formId);
    SelfStays(s, id);
    CastIs(s, formId, id, token, uid, out, t, code, udidHash);
    if Casts(s, formId, id, token, uid, out) {
      CastStays(s, id, uid, t, out.failing);
    }
  }

  lemma CastStays(s: State, id: int, uid: int, t: State, failing: set<int>)
    requires id in s.records && id in t.records && SavedAs(s, t, EntryFor(id, t.records[id]), failing)
    requires t.records == s.records[id := t.records[id]] && WithoutUser(s.temp, t.temp, id)
    ensures OthersStay(s, t, id)
  {
    hide SavedAs;
    SavingStays(s, t, EntryFor(id, t.records[id]), failing, id);
  }

  lemma CastIs(s: State, formId: int, id: int, token: int, uid: int, out: Outside, t: State, code: ErrCode, udidHash: int)
    requires Consistent(s) && Answered(s, Cast(formId, token, uid, out), t, code, udidHash) && id == MatchedId(s.records, formId)
    ensures t.hosts == s.hosts
    ensures code == Ok <==> Casts(s, formId, id, token, uid, out) && id !in out.failing && out.timerOk
    ensures !Casts(s, formId, id, token, uid, out) ==> t == s
    ensures Casts(s, formId, id, token, uid, out) ==>
              && id in s.records && id in t.records
              && t.records == s.records[id := t.records[id]]
              && t.records[id] == s.records[id].(formTempFlg := false, formUserUids := t.records[id].formUserUids)
              && WithUser(s.records[id].formUserUids, t.records[id].formUserUids, uid)
              && WithoutUser(s.temp, t.temp, id)
              && SavedAs(s, t, EntryFor(id, t.records[id]), out.failing)
  {
    hide MatchedId, Consistent, HostForms, Shows, FormLimit, Room, UserIdOf, RemoveFirst, AddIfMissing, Saved, SavedAs, SaveSucceeds,
         EntryFor, WithUser, WithoutUser, NoDuplicates, DistinctIds;
    KnownOf(s);
    RoomIs(s.records, uid);
    HostFormsIs(s.hosts, token, id);
    if id in s.temp {
      var r := s.records[id].(formTempFlg := false, formUserUids := AddIfMissing(s.records[id].formUserUids, uid));
      var cast := s.(temp := RemoveFirst(s.temp, id), records := s.records[id := r]);
      ListUpdates(s.records[id].formUserUids, uid);
      RemovedFrom(s.temp, id) by {
        TempIsUnique(s);
      }
      SaveIs(cast, id, r, out.failing);
      SavedFrom(s, cast, Saved(cast, id, r, out.failing), EntryFor(id, r), out.failing);
      EntryForId(id, r);
    }
  }

  // ----- the sweeps -----

  ghost predicate NoEntry(cache: Cache, id: int) {
    forall e :: e in cache ==> e.formId != id
  }

  // The entry, or the record, is there still, without uid among its users.
  ghost predicate EntryLoses(d: FormDBInfo, now: Cache, uid: int) {
    exists left :: WithoutUser(d.formUserUids, left, uid) && d.(formUserUids := left) in now
  }

  ghost predicate RecordLosesAt(a: Records, b: Records, k: int, uid: int) {
    && k in a && k in b && b[k] == a[k].(formUserUids := b[k].formUserUids)
    && WithoutUser(a[k].formUserUids, b[k].formUserUids, uid)
  }

  predicate RecordStays(a: Records, b: Records, k: int) {
    k in a && k in b && b[k] == a[k]
  }

  predicate Alone(uids: seq<int>, uid: int) {
    uids == [uid]
  }

  // A host that died takes along the temporary forms it showed, and nothing else.
  lemma HostDiedTakesTemps(s: State, token: int, t: State, udidHash: int)
    requires Consistent(s) && Step(s, HostDied(token), t, udidHash)
    ensures SameDatabase(s, t)
    ensures forall k :: k in t.temp <==> k in s.temp && !Shows(s.hosts, token, k)
    ensures forall k :: k in t.records <==> k in s.records && !(k in s.temp && Shows(s.hosts, token, k))
    ensures forall k :: k in t.records ==> RecordStays(s.records, t.records, k)
    ensures if NoHost(s.hosts, token) then t.hosts == s.hosts
            else exists i :: FirstHost(s.hosts, token, i) && t.hosts == Cut(s.hosts, i)
  {
    hide Consistent, HostForms, HostGone, Shows, Without;
    forall k ensures k in HostForms(s.hosts, token) <==> Shows(s.hosts, token, k) {
      HostFormsIs(s.hosts, token, k);
    }
    WithoutIs(s.temp, HostForms(s.hosts, token));
    HostGoneIs(s.hosts, token);
  }

  function Cut(hosts: seq<FormHostRecord>, i: int): seq<FormHostRecord>
    requires 0 <= i < |hosts|
  {
    hosts[..i] + hosts[i + 1..]
  }

  lemma {:induction false} GoneAt(hosts: seq<FormHostRecord>, token: int, i: nat)
    requires FirstHost(hosts, token, i)
    ensures HostGone(hosts, token) == Cut(hosts, i)
    decreases i
  {
    hide Cut;
    if i > 0 {
      LaterHost(hosts, token, i);
      GoneAt(hosts[1..], token, i - 1);
      LaterCut(hosts, i - 1);
    } else {
      FirstCut(hosts);
    }
  }

  lemma HostGoneIs(hosts: seq<FormHostRecord>, token: int)
    ensures if NoHost(hosts, token) then HostGone(hosts, token) == hosts
            else exists i :: FirstHost(hosts, token, i) && HostGone(hosts, token) == Cut(hosts, i)
  {
    hide HostGone, Cut, NoHost;
    SomeHostFirst(hosts, token);
    if NoHost(hosts, token) {
      ReleasedNone(hosts, token, 0);
    } else {
      var i :| FirstHost(hosts, token, i);
      GoneAt(hosts, token, i);
    }
  }

  lemma FirstCut(hosts: seq<FormHostRecord>)
    requires hosts != []
    ensures Cut(hosts, 0) == hosts[1..]
  {
  }

  lemma LaterCut(hosts: seq<FormHostRecord>, i: nat)
    requires i < |hosts| - 1
    ensures Cut(hosts, i + 1) == [hosts[0]] + Cut(hosts[1..], i)
  {
    assert hosts[1..][i + 1..] == hosts[i + 2..];
    assert [hosts[0]] + hosts[1..][..i] == hosts[..i + 1];
  }

  // The entry is of the user; or of the bundle and the user. An entry that
  // cannot be deleted stays.
  predicate UserEntry(cache: Cache, k: int, userId: int) {
    exists d :: d in cache && d.formId == k && d.userId == userId
  }

  predicate BundleEntry(cache: Cache, k: int, bundleName: string, userId: int) {
    exists d :: d in cache && d.formId == k && d.bundleName == bundleName && d.userId == userId
  }

  // With a user go all its records and all its entries that can be deleted.
  lemma UserRemovedTakesForms(s: State, userId: int, failing: set<int>, t: State, udidHash: int)
    requires Consistent(s) && Step(s, UserRemoved(userId, failing), t, udidHash)
    ensures t.hosts == s.hosts
    ensures forall k :: k in t.records <==> k in s.records && s.records[k].userId != userId
    ensures forall k :: k in t.records ==> RecordStays(s.records, t.records, k)
    ensures forall k :: k in t.temp <==> k in s.temp && k in s.records && s.records[k].userId != userId
    ensures forall d :: d in t.cache <==> d in s.cache && (d.userId != userId || d.formId in failing)
    ensures forall k :: k in t.store <==> k in s.store && (!UserEntry(s.cache, k, userId) || k in failing)
    ensures forall k :: k in t.store ==> t.store[k] == s.store[k]
  {
    hide Consistent, CacheWithout, Without;
    KnownOf(s);
    WithoutIs(s.temp, TempAmong(s.records, UserForms(s.records, userId)));
    WithoutHas(s.cache, UserEntries(s.cache, userId) - failing);
    OneEntryEach(s);
  }

  lemma OneEntryEach(s: State)
    requires Consistent(s)
    ensures forall d, e :: d in s.cache && e in s.cache && d.formId == e.formId ==> d == e
  {
    forall d, e | d in s.cache && e in s.cache && d.formId == e.formId ensures d == e {
      SameEntry(s.cache, d, e);
    }
  }

  // The forms that go with a bundle of a user.
  predicate GoesWithBundle(s: State, k: int, bundleName: string, userId: int, failing: set<int>) {
    || (BundleEntry(s.cache, k, bundleName, userId) && k !in failing)
    || (k in s.temp && k in s.records && s.records[k].bundleName == bundleName && s.records[k].userId == userId)
  }

  // With a bundle of a user go its temporary forms and its forms in the database
  // that can be deleted, and every host stops showing them.
  lemma BundleRemovedTakesForms(s: State, bundleName: string, userId: int, failing: set<int>, t: State, udidHash: int)
    requires Consistent(s) && Step(s, BundleRemoved(bundleName, userId, failing), t, udidHash)
    ensures forall k :: k in t.records <==> k in s.records && !GoesWithBundle(s, k, bundleName, userId, failing)
    ensures forall k :: k in t.records ==> RecordStays(s.records, t.records, k)
    ensures forall k :: k in t.temp <==> k in s.temp && !GoesWithBundle(s, k, bundleName, userId, failing)
    ensures forall d :: d in t.cache <==>
              d in s.cache && !(d.bundleName == bundleName && d.userId == userId && d.formId !in failing)
    ensures forall k :: k in t.store <==> k in s.store && !(BundleEntry(s.cache, k, bundleName, userId) && k !in failing)
    ensures forall k :: k in t.store ==> t.store[k] == s.store[k]
    ensures |t.hosts| == |s.hosts|
    ensures forall i :: 0 <= i < |s.hosts| ==>
              && t.hosts[i] == s.hosts[i].(forms := t.hosts[i].forms)
              && forall k :: k in t.hosts[i].forms <==>
                   k in s.hosts[i].forms && !GoesWithBundle(s, k, bundleName, userId, failing)
  {
    hide *;
    var entries := BundleEntries(s.cache, bundleName, userId) - failing;
    var temps := BundleTempForms(s.records - entries, bundleName, userId);
    BundleStepIs(s, bundleName, userId, failing, t, udidHash);
    BundleGone(s, bundleName, userId, failing);
    WithoutIs(s.temp, temps);
    WithoutHas(s.cache, entries);
    CleanedIs(s.hosts, entries + temps);
    forall k | k in t.records ensures RecordStays(s.records, t.records, k) {
      StaysIs(s.records, t.records, k);
    }
  }

  lemma StaysIs(a: Records, b: Records, k: int)
    ensures RecordStays(a, b, k) <==> k in a && k in b && b[k] == a[k]
  {
  }

  lemma BundleStepIs(s: State, bundleName: string, userId: int, failing: set<int>, t: State, udidHash: int)
    requires Step(s, BundleRemoved(bundleName, userId, failing), t, udidHash)
    ensures var entries := BundleEntries(s.cache, bundleName, userId) - failing;
            var temps := BundleTempForms(s.records - entries, bundleName, userId);
            && t.records == s.records - entries - temps && t.temp == Without(s.temp, temps)
            && t.hosts == HostsCleaned(s.hosts, entries + temps)
            && t.cache == CacheWithout(s.cache, entries) && t.store == s.store - entries
  {
    hide BundleEntries, BundleTempForms, Without, HostsCleaned, CacheWithout;
  }

  lemma BundleGone(s: State, bundleName: string, userId: int, failing: set<int>)
    requires Consistent(s)
    ensures var entries := BundleEntries(s.cache, bundleName, userId) - failing;
            var temps := BundleTempForms(s.records - entries, bundleName, userId);
            && (forall k :: k in entries <==> BundleEntry(s.cache, k, bundleName, userId) && k !in failing)
            && (forall k :: k in entries || k in temps <==> GoesWithBundle(s, k, bundleName, userId, failing))
            && (forall d :: d in s.cache ==>
                  (d.formId in entries <==> d.bundleName == bundleName && d.userId == userId && d.formId !in failing))
            && (forall k :: k in temps ==> k in s.temp) && (forall k :: k in entries ==> k !in s.temp)
  {
    hide Consistent, NoDuplicates;
    KnownOf(s);
    OneEntryEach(s);
  }

  lemma {:induction false} CleanedIs(hosts: seq<FormHostRecord>, removed: set<int>)
    ensures |HostsCleaned(hosts, removed)| == |hosts|
    ensures forall i :: 0 <= i < |hosts| ==> HostsCleaned(hosts, removed)[i] == hosts[i].(forms := hosts[i].forms - removed)
    decreases |hosts|
  {
    if hosts != [] {
      CleanedIs(hosts[..|hosts| - 1], removed);
    }
  }

  // A form of the caller's user that lists the caller and is not among the
  // valid ones: an entry in the database, or a temporary form.
  predicate InvalidEntry(s: State, k: int, uid: int, matched: set<int>) {
    exists d :: d in s.cache && d.formId == k && Invalid(k, d.userId, d.formUserUids, uid, matched)
  }

  predicate InvalidTemp(s: State, k: int, uid: int, matched: set<int>) {
    k in s.temp && k in s.records && Invalid(k, s.records[k].userId, s.records[k].formUserUids, uid, matched)
  }

  predicate InvalidForm(s: State, k: int, uid: int, matched: set<int>) {
    InvalidEntry(s, k, uid, matched) || InvalidTemp(s, k, uid, matched)
  }

  // Nobody but uid uses the form.
  predicate AloneOn(s: State, k: int, uid: int) {
    if k in s.temp then k in s.records && Alone(s.records[k].formUserUids, uid)
    else exists d :: d in s.cache && d.formId == k && Alone(d.formUserUids, uid)
  }

  lemma InvalidSetsAre(s: State, uid: int, matched: set<int>)
    requires Consistent(s)
    ensures forall k :: k in InvalidDBForms(s, uid, matched) <==> InvalidEntry(s, k, uid, matched)
    ensures forall k :: k in InvalidTemps(s, uid, matched) <==> InvalidTemp(s, k, uid, matched)
    ensures forall k :: k in LastDBForms(s, uid, matched) <==> InvalidEntry(s, k, uid, matched) && AloneOn(s, k, uid)
    ensures forall k :: k in LastTemps(s, uid, matched) <==> InvalidTemp(s, k, uid, matched) && AloneOn(s, k, uid)
    ensures forall k :: InvalidEntry(s, k, uid, matched) ==> k !in s.temp
  {
    hide *;
    HitsAreTemp(s, uid, matched);
    forall k
      ensures k in InvalidDBForms(s, uid, matched) <==> InvalidEntry(s, k, uid, matched)
      ensures k in InvalidTemps(s, uid, matched) <==> InvalidTemp(s, k, uid, matched)
      ensures k in LastDBForms(s, uid, matched) <==> InvalidEntry(s, k, uid, matched) && AloneOn(s, k, uid)
      ensures k in LastTemps(s, uid, matched) <==> InvalidTemp(s, k, uid, matched) && AloneOn(s, k, uid)
      ensures InvalidEntry(s, k, uid, matched) ==> k !in s.temp
    {
      InvalidEntryIs(s, k, uid, matched);
      InvalidTempIs(s, k, uid, matched);
      if k in s.temp {
        RecordIsHit(s, uid, matched, k);
      }
    }
  }

  lemma InvalidTempIs(s: State, k: int, uid: int, matched: set<int>)
    requires Consistent(s)
    ensures k !in s.temp ==> !InvalidTemp(s, k, uid, matched)
    ensures k in s.temp ==> k in s.records && (var r := s.records[k];
              && (InvalidTemp(s, k, uid, matched) <==> Invalid(k, r.userId, r.formUserUids, uid, matched))
              && (InvalidTemp(s, k, uid, matched) && AloneOn(s, k, uid) <==> Goes(k, r.userId, r.formUserUids, uid, matched)))
  {
    hide Invalid, NoDuplicates;
    KnownOf(s);
  }

  lemma InvalidEntryIs(s: State, k: int, uid: int, matched: set<int>)
    requires Consistent(s)
    ensures k in InvalidDBForms(s, uid, matched) <==> InvalidEntry(s, k, uid, matched)
    ensures k in LastDBForms(s, uid, matched) <==> InvalidEntry(s, k, uid, matched) && AloneOn(s, k, uid)
    ensures InvalidEntry(s, k, uid, matched) ==> k !in s.temp
  {
    hide Consistent, InvalidDBForms, LastDBForms, Invalid, NoDuplicates;
    KnownOf(s);
    OneEntryEach(s);
    HitsHaveEntries(s, uid, matched, k);
    if d :| d in s.cache && d.formId == k {
      EntryIsHit(s, uid, matched, d);
    }
  }

  lemma HitsHaveEntries(s: State, uid: int, matched: set<int>, k: int)
    ensures k in InvalidDBForms(s, uid, matched) || k in LastDBForms(s, uid, matched) ==> exists d :: d in s.cache && d.formId == k
  {
  }

  // Deleting the invalid forms takes the caller off exactly those, in the
  // database, in their records and at the caller's hosts; a form goes exactly
  // with its last user; nothing else changes.
  lemma DeleteInvalidTakesOff(s: State, formIds: seq<int>, token: int, uid: int, failing: set<int>, matched: set<int>, t: State,
                              code: ErrCode, udidHash: int)
    requires Consistent(s) && Answered(s, DeleteInvalid(formIds, token, uid, failing), t, code, udidHash)
    requires forall id :: id in matched <==> exists i :: 0 <= i < |formIds| && Named(s.records, formIds[i], id)
    ensures token == 0 ==> t == s && code == InvalidParam
    ensures token != 0 ==>
              && code == Ok
              && (forall d :: d in s.cache ==>
                    if !InvalidEntry(s, d.formId, uid, matched) then d in t.cache
                    else if AloneOn(s, d.formId, uid) then NoEntry(t.cache, d.formId) else EntryLoses(d, t.cache, uid))
              && (forall e :: e in t.cache ==> exists d :: d in s.cache && d.formId == e.formId)
              && (forall k :: k in s.records ==>
                    if !InvalidForm(s, k, uid, matched) then RecordStays(s.records, t.records, k)
                    else if AloneOn(s, k, uid) then k !in t.records else RecordLosesAt(s.records, t.records, k, uid))
              && (forall k :: k in t.records ==> k in s.records)
              && (forall k :: k in t.temp <==> k in s.temp && !(InvalidTemp(s, k, uid, matched) && AloneOn(s, k, uid)))
              && (forall k :: k in t.store <==>
                    k in s.store && !(InvalidEntry(s, k, uid, matched) && AloneOn(s, k, uid) && k !in failing))
              && (forall k :: k in t.store ==> t.store[k] == s.store[k])
              && if forall k :: !InvalidForm(s, k, uid, matched) then t.hosts == s.hosts
                 else forall h :: h in t.hosts <==> exists g :: g in s.hosts && HostRid(s, g, h, uid, matched)
  {
    hide *;
    InvalidStepIs(s, formIds, token, uid, failing, matched, t, code, udidHash);
    if token != 0 {
      InvalidEntriesLeft(s, uid, matched, failing);
      InvalidRecordsLeft(s, uid, matched, failing);
      InvalidStoreLeft(s, uid, matched, failing);
      InvalidHosts(s, uid, matched, failing);
    }
  }

  lemma InvalidEntriesLeft(s: State, uid: int, matched: set<int>, failing: set<int>)
    requires Consistent(s)
    ensures var t := AfterDeleteInvalid(s, uid, matched, failing);
            && (forall d :: d in s.cache ==>
                  if !InvalidEntry(s, d.formId, uid, matched) then d in t.cache
                  else if AloneOn(s, d.formId, uid) then NoEntry(t.cache, d.formId) else EntryLoses(d, t.cache, uid))
            && (forall e :: e in t.cache ==> exists d :: d in s.cache && d.formId == e.formId)
  {
    hide *;
    var t := AfterDeleteInvalid(s, uid, matched, failing);
    NothingNew(s, uid, matched, failing);
    forall d | d in s.cache
      ensures if !InvalidEntry(s, d.formId, uid, matched) then d in t.cache
              else if AloneOn(s, d.formId, uid) then NoEntry(t.cache, d.formId) else EntryLoses(d, t.cache, uid)
    {
      InvalidEntryLeft(s, uid, matched, failing, d);
    }
    forall e | e in t.cache ensures exists d :: d in s.cache && d.formId == e.formId {
      var d :| d in s.cache && Was(d, e, uid, matched);
      WasSame(d, e, uid, matched);
    }
  }

  lemma InvalidRecordsLeft(s: State, uid: int, matched: set<int>, failing: set<int>)
    requires Consistent(s)
    ensures var t := AfterDeleteInvalid(s, uid, matched, failing);
            && (forall k :: k in s.records ==>
                  if !InvalidForm(s, k, uid, matched) then RecordStays(s.records, t.records, k)
                  else if AloneOn(s, k, uid) then k !in t.records else RecordLosesAt(s.records, t.records, k, uid))
            && (forall k :: k in t.records ==> k in s.records)
  {
    hide *;
    var t := AfterDeleteInvalid(s, uid, matched, failing);
    InvalidSetsAre(s, uid, matched);
    AfterIs(s, uid, matched, failing);
    forall k | k in s.records
      ensures if !InvalidForm(s, k, uid, matched) then RecordStays(s.records, t.records, k)
              else if AloneOn(s, k, uid) then k !in t.records else RecordLosesAt(s.records, t.records, k, uid)
    {
      InvalidFormIs(s, k, uid, matched);
      InvalidRecordLeft(s, uid, matched, k);
    }
    forall k | k in t.records ensures k in s.records {
      RecordsAfter(s, uid, matched, k);
    }
  }

  lemma InvalidStoreLeft(s: State, uid: int, matched: set<int>, failing: set<int>)
    requires Consistent(s)
    ensures var t := AfterDeleteInvalid(s, uid, matched, failing);
            && (forall k :: k in t.temp <==> k in s.temp && !(InvalidTemp(s, k, uid, matched) && AloneOn(s, k, uid)))
            && (forall k :: k in t.store <==>
                  k in s.store && !(InvalidEntry(s, k, uid, matched) && AloneOn(s, k, uid) && k !in failing))
            && (forall k :: k in t.store ==> t.store[k] == s.store[k])
  {
    hide *;
    var t := AfterDeleteInvalid(s, uid, matched, failing);
    InvalidSetsAre(s, uid, matched);
    AfterIs(s, uid, matched, failing);
    WithoutIs(s.temp, LastTemps(s, uid, matched));
    forall k
      ensures k in t.store <==> k in s.store && !(k in LastDBForms(s, uid, matched) && k !in failing)
      ensures k in t.store ==> t.store[k] == s.store[k]
    {
      DroppedHas(s.store, LastDBForms(s, uid, matched), failing, k);
      DroppedSame(s.store, LastDBForms(s, uid, matched), failing, k);
    }
  }

  lemma InvalidFormIs(s: State, k: int, uid: int, matched: set<int>)
    ensures InvalidForm(s, k, uid, matched) <==> InvalidEntry(s, k, uid, matched) || InvalidTemp(s, k, uid, matched)
  {
  }

  lemma DroppedSame(store: Store, ids: set<int>, failing: set<int>, k: int)
    ensures k in DroppedStore(store, ids, failing) ==> k in store && DroppedStore(store, ids, failing)[k] == store[k]
  {
  }

  lemma WasSame(d: FormDBInfo, e: FormDBInfo, uid: int, matched: set<int>)
    requires Was(d, e, uid, matched)
    ensures d.formId == e.formId
  {
  }

  lemma InvalidStepIs(s: State, formIds: seq<int>, token: int, uid: int, failing: set<int>, matched: set<int>, t: State,
                      code: ErrCode, udidHash: int)
    requires Answered(s, DeleteInvalid(formIds, token, uid, failing), t, code, udidHash)
    requires forall id :: id in matched <==> exists i :: 0 <= i < |formIds| && Named(s.records, formIds[i], id)
    ensures token == 0 ==> t == s && code == InvalidParam
    ensures token != 0 ==> code == Ok && t == AfterDeleteInvalid(s, uid, matched, failing)
  {
    hide AfterDeleteInvalid, Matches, Named;
    if token != 0 {
      var m :| AllMatched(s.records, formIds, m) && t == AfterDeleteInvalid(s, uid, m, failing);
      forall id ensures id in m <==> id in matched {
        forall i | 0 <= i < |formIds| ensures Named(s.records, formIds[i], id) <==> Matches(s.records, formIds[i], id) {
          MatchIsNamed(s.records, formIds[i], id);
        }
      }
      assert m == matched;
    }
  }

  lemma InvalidEntryLeft(s: State, uid: int, matched: set<int>, failing: set<int>, d: FormDBInfo)
    requires Consistent(s) && d in s.cache
    ensures var t := AfterDeleteInvalid(s, uid, matched, failing);
            if !InvalidEntry(s, d.formId, uid, matched) then d in t.cache
            else if AloneOn(s, d.formId, uid) then NoEntry(t.cache, d.formId) else EntryLoses(d, t.cache, uid)
  {
    hide *;
    var t := AfterDeleteInvalid(s, uid, matched, failing);
    EntryAfter(s, uid, matched, failing, d);
    EntryInvalidIs(s, d, uid, matched);
    EntryStays(d, uid, matched);
    if Goes(d.formId, d.userId, d.formUserUids, uid, matched) {
      NoEntryIs(t.cache, d.formId);
    } else if Invalid(d.formId, d.userId, d.formUserUids, uid, matched) {
      EntryUids(s, d);
      EntryLosesIs(d, t.cache, uid, matched);
    }
  }

  lemma EntryInvalidIs(s: State, d: FormDBInfo, uid: int, matched: set<int>)
    requires Consistent(s) && d in s.cache
    ensures InvalidEntry(s, d.formId, uid, matched) <==> Invalid(d.formId, d.userId, d.formUserUids, uid, matched)
    ensures InvalidEntry(s, d.formId, uid, matched) && AloneOn(s, d.formId, uid)
            <==> Goes(d.formId, d.userId, d.formUserUids, uid, matched)
  {
    hide Consistent, Invalid, NoDuplicates;
    KnownOf(s);
    OneEntryEach(s);
  }

  lemma NoEntryIs(cache: Cache, id: int)
    ensures NoEntry(cache, id) <==> id !in Ids(cache)
  {
  }

  lemma EntryLosesIs(d: FormDBInfo, now: Cache, uid: int, matched: set<int>)
    requires NoDuplicates(d.formUserUids) && Invalid(d.formId, d.userId, d.formUserUids, uid, matched)
    requires d.(formUserUids := UidsAfter(d.formId, d.userId, d.formUserUids, uid, matched)) in now
    ensures EntryLoses(d, now, uid)
  {
    hide RemoveFirst, Invalid, NoDuplicates, WithoutUser;
    ListUpdates(d.formUserUids, uid);
  }

  lemma InvalidRecordLeft(s: State, uid: int, matched: set<int>, k: int)
    requires Consistent(s) && k in s.records
    ensures var now := UnlistAll(RecordsBetween(s, uid, matched), InvalidTemps(s, uid, matched), uid) - LastTemps(s, uid, matched);
            var hit := k in InvalidDBForms(s, uid, matched) || k in InvalidTemps(s, uid, matched);
            if !hit then RecordStays(s.records, now, k)
            else if k in LastDBForms(s, uid, matched) || k in LastTemps(s, uid, matched) then k !in now
            else RecordLosesAt(s.records, now, k, uid)
  {
    hide Consistent, InvalidDBForms, LastDBForms, InvalidTemps, LastTemps, RemoveFirst, NoDuplicates, WithoutUser;
    InvalidSets(s, uid, matched);
    InvalidSetsAre(s, uid, matched);
    KnownOf(s);
    ListUpdates(s.records[k].formUserUids, uid);
  }

  // What becomes of a host: the caller's hosts stop showing the invalid forms,
  // and go when they show nothing else.
  ghost predicate HostRid(s: State, g: FormHostRecord, h: FormHostRecord, uid: int, matched: set<int>) {
    if g.callerUid != uid then h == g
    else h == g.(forms := h.forms) && h.forms != {}
         && forall k :: k in h.forms <==> k in g.forms && !InvalidForm(s, k, uid, matched)
  }

  lemma InvalidHosts(s: State, uid: int, matched: set<int>, failing: set<int>)
    requires Consistent(s)
    ensures var t := AfterDeleteInvalid(s, uid, matched, failing);
            if forall k :: !InvalidForm(s, k, uid, matched) then t.hosts == s.hosts
            else forall h :: h in t.hosts <==> exists g :: g in s.hosts && HostRid(s, g, h, uid, matched)
  {
    hide *;
    var t := AfterDeleteInvalid(s, uid, matched, failing);
    var hits := InvalidDBForms(s, uid, matched) + InvalidTemps(s, uid, matched);
    InvalidSetsAre(s, uid, matched);
    forall k ensures k in hits <==> InvalidForm(s, k, uid, matched) {
      InvalidFormIs(s, k, uid, matched);
    }
    HostsAfterIs(s, uid, matched, failing);
    HasMember(hits);
    HostsWithoutIs(s.hosts, uid, hits);
    forall g, h ensures HostRid(s, g, h, uid, matched) <==> HostMinus(g, h, uid, hits) {
      HostRidIs(s, g, h, uid, matched, hits);
    }
  }

  predicate HostMinus(g: FormHostRecord, h: FormHostRecord, uid: int, hits: set<int>) {
    if g.callerUid != uid then h == g else h == g.(forms := g.forms - hits) && h.forms != {}
  }

  lemma HostRidIs(s: State, g: FormHostRecord, h: FormHostRecord, uid: int, matched: set<int>, hits: set<int>)
    requires forall k :: k in hits <==> InvalidForm(s, k, uid, matched)
    ensures HostRid(s, g, h, uid, matched) <==> HostMinus(g, h, uid, hits)
  {
    hide InvalidForm;
    if HostRid(s, g, h, uid, matched) && g.callerUid == uid {
      forall k ensures k in h.forms <==> k in g.forms - hits {
        assert k in hits <==> InvalidForm(s, k, uid, matched);
      }
      assert h.forms == g.forms - hits;
    }
  }

  lemma HostsAfterIs(s: State, uid: int, matched: set<int>, failing: set<int>)
    ensures var hits := InvalidDBForms(s, uid, matched) + InvalidTemps(s, uid, matched);
            AfterDeleteInvalid(s, uid, matched, failing).hosts
            == if hits == {} then s.hosts else HostsWithoutForms(s.hosts, uid, hits)
  {
    hide InvalidDBForms, InvalidTemps, LastDBForms, LastTemps, HostsWithoutForms, UnlistAll, RecordsBetween, CacheWithout, CacheSwept;
  }

  lemma {:induction false} HostsWithoutIs(hosts: seq<FormHostRecord>, uid: int, hits: set<int>)
    ensures forall h :: h in HostsWithoutForms(hosts, uid, hits) <==> exists g :: g in hosts && HostMinus(g, h, uid, hits)
    decreases |hosts|
  {
    if hosts != [] {
      var init, last := hosts[..|hosts| - 1], hosts[|hosts| - 1];
      HostsWithoutIs(init, uid, hits);
      assert hosts == init + [last];
      forall h ensures h in HostsWithoutForms(hosts, uid, hits)
                       <==> h in HostsWithoutForms(init, uid, hits) || HostMinus(last, h, uid, hits)
      {
      }
    }
  }

  // The provider of the form refused to be told that its last user goes.
  predicate RefusedForm(s: State, k: int, refusedDB: set<FormIdKey>, refusedTemp: set<FormIdKey>) {
    if k in s.temp then k in s.records && FormIdKey(s.records[k].bundleName, s.records[k].abilityName) in refusedTemp
    else exists d :: d in s.cache && d.formId == k && FormIdKey(d.bundleName, d.abilityName) in refusedDB
  }

  // The caller is the only user of the form and the provider agreed.
  predicate ClearedAway(s: State, k: int, uid: int, refusedDB: set<FormIdKey>, refusedTemp: set<FormIdKey>) {
    AloneOn(s, k, uid) && !RefusedForm(s, k, refusedDB, refusedTemp)
  }

  // The caller is off the form's list; of a form it uses alone only with consent.
  predicate ClearedOff(s: State, k: int, uid: int) {
    Uses(s, k, uid) && !AloneOn(s, k, uid)
  }

  // Clearing a caller's data takes it off every form that lists it, whosever
  // the form is; a form it uses alone goes, unless the provider refuses: then
  // all is as before, and the entry is stored again. Its hosts go.
  lemma DataClearedTakesOff(s: State, uid: int, refusedDB: set<FormIdKey>, refusedTemp: set<FormIdKey>, failing: set<int>,
                            t: State, udidHash: int)
    requires Consistent(s) && Step(s, DataCleared(uid, refusedDB, refusedTemp, failing), t, udidHash)
    ensures forall d :: d in s.cache ==>
              if ClearedAway(s, d.formId, uid, refusedDB, refusedTemp) then NoEntry(t.cache, d.formId)
              else if ClearedOff(s, d.formId, uid) then EntryLoses(d, t.cache, uid) else d in t.cache
    ensures forall e :: e in t.cache ==> exists d :: d in s.cache && d.formId == e.formId
    ensures forall k :: k in s.records ==>
              if ClearedAway(s, k, uid, refusedDB, refusedTemp) then k !in t.records
              else if ClearedOff(s, k, uid) then RecordLosesAt(s.records, t.records, k, uid)
              else RecordStays(s.records, t.records, k)
    ensures forall k :: k in t.records ==> k in s.records
    ensures forall k :: k in t.temp <==> k in s.temp && !ClearedAway(s, k, uid, refusedDB, refusedTemp)
    ensures forall k :: k in failing || k in s.temp || !AloneOn(s, k, uid) ==>
              (k in t.store <==> k in s.store) && (k in s.store ==> t.store[k] == s.store[k])
    ensures forall d :: d in s.cache && d.formId !in failing && AloneOn(s, d.formId, uid) ==>
              if RefusedForm(s, d.formId, refusedDB, refusedTemp) then d.formId in t.store && t.store[d.formId] == d
              else d.formId !in t.store
    ensures forall h :: h in t.hosts <==> h in s.hosts && h.callerUid != uid
  {
    hide *;
    ClearedStepIs(s, uid, refusedDB, refusedTemp, failing, t, udidHash);
    ClearedEntries(s, uid, refusedDB, refusedTemp, failing, t);
    forall k | k in s.records
      ensures if ClearedAway(s, k, uid, refusedDB, refusedTemp) then k !in t.records
              else if ClearedOff(s, k, uid) then RecordLosesAt(s.records, t.records, k, uid)
              else RecordStays(s.records, t.records, k)
    {
      ClearedRecord(s, uid, refusedDB, refusedTemp, t, k);
    }
    ClearedRest(s, uid, refusedDB, refusedTemp, t);
    HostsOfOthersIs(s.hosts, uid);
  }

  lemma ClearedStepIs(s: State, uid: int, refusedDB: set<FormIdKey>, refusedTemp: set<FormIdKey>, failing: set<int>, t: State,
                      udidHash: int)
    requires Step(s, DataCleared(uid, refusedDB, refusedTemp, failing), t, udidHash)
    ensures DBCleared(s, uid, refusedDB, failing, t) && t.hosts == HostsOfOthers(s.hosts, uid)
    ensures TempsCleared(ClearedRecords(s, uid, refusedDB), s.temp, uid, refusedTemp, t)
  {
    hide DBCleared, TempsCleared, ClearedRecords, HostsOfOthers;
  }

  lemma {:induction false} HostsOfOthersIs(hosts: seq<FormHostRecord>, uid: int)
    ensures forall h :: h in HostsOfOthers(hosts, uid) <==> h in hosts && h.callerUid != uid
    decreases |hosts|
  {
    if hosts != [] {
      HostsOfOthersIs(hosts[..|hosts| - 1], uid);
      assert hosts == hosts[..|hosts| - 1] + [hosts[|hosts| - 1]];
    }
  }

  // The sets the sweep over the entries is made of, entry by entry.
  lemma EntrySetsAre(s: State, uid: int, refusedDB: set<FormIdKey>, refusedTemp: set<FormIdKey>, k: int)
    requires Consistent(s)
    ensures var hits := EntriesListing(s.cache, uid);
            var last := LastUserOfEntry(s.cache, hits, uid);
            var back := Refused(last, EntryKeys(s.cache), refusedDB);
            && (k in hits <==> k !in s.temp && Uses(s, k, uid))
            && (k in last <==> k !in s.temp && AloneOn(s, k, uid))
            && (k in back <==> k in last && RefusedForm(s, k, refusedDB, refusedTemp))
  {
    hide Consistent, NoDuplicates, RemoveFirst, IndexOf;
    KnownOf(s);
    OneEntryEach(s);
    if d :| d in s.cache && d.formId == k {
      OneLeft(d.formUserUids, uid);
      EntryThere(s.cache, d);
      assert d.formId in Ids(s.cache);
    }
  }

  lemma ClearedEntries(s: State, uid: int, refusedDB: set<FormIdKey>, refusedTemp: set<FormIdKey>, failing: set<int>, t: State)
    requires Consistent(s) && DBCleared(s, uid, refusedDB, failing, t)
    ensures forall d :: d in s.cache ==>
              if ClearedAway(s, d.formId, uid, refusedDB, refusedTemp) then NoEntry(t.cache, d.formId)
              else if ClearedOff(s, d.formId, uid) then EntryLoses(d, t.cache, uid) else d in t.cache
    ensures forall e :: e in t.cache ==> exists d :: d in s.cache && d.formId == e.formId
    ensures forall k :: k in failing || k in s.temp || !AloneOn(s, k, uid) ==>
              (k in t.store <==> k in s.store) && (k in s.store ==> t.store[k] == s.store[k])
    ensures forall d :: d in s.cache && d.formId !in failing && AloneOn(s, d.formId, uid) ==>
              if RefusedForm(s, d.formId, refusedDB, refusedTemp) then d.formId in t.store && t.store[d.formId] == d
              else d.formId !in t.store
  {
    hide *;
    var hits := EntriesListing(s.cache, uid);
    var last := LastUserOfEntry(s.cache, hits, uid);
    var back := Refused(last, EntryKeys(s.cache), refusedDB);
    var swept := CacheSwept(s.cache, hits, uid);
    DBClearedIs(s, uid, refusedDB, failing, t);
    AfterHas(swept, back, last - back, uid);
    SweptHas(s.cache, hits, uid);
    forall d | d in s.cache
      ensures if ClearedAway(s, d.formId, uid, refusedDB, refusedTemp) then NoEntry(t.cache, d.formId)
              else if ClearedOff(s, d.formId, uid) then EntryLoses(d, t.cache, uid) else d in t.cache
      ensures d.formId !in failing && AloneOn(s, d.formId, uid) ==>
                if RefusedForm(s, d.formId, refusedDB, refusedTemp) then d.formId in t.store && t.store[d.formId] == d
                else d.formId !in t.store
    {
      ClearedEntry(s, uid, refusedDB, refusedTemp, failing, t, d);
    }
    forall e | e in t.cache ensures exists d :: d in s.cache && d.formId == e.formId {
      var c :| c in swept && Kept(c, e, back, last - back, uid);
      var d :| d in s.cache && c == if d.formId in hits then UnlistDB(d, uid) else d;
      KeptId(c, e, back, last - back, uid);
      UnlistDBId(d, uid);
    }
    forall k | k in failing || k in s.temp || !AloneOn(s, k, uid)
      ensures (k in t.store <==> k in s.store) && (k in s.store ==> t.store[k] == s.store[k])
    {
      EntrySetsAre(s, uid, refusedDB, refusedTemp, k);
      StoreElsewhere(swept, s.store, t.store, back, last - back, uid, failing, k);
    }
  }

  lemma DBClearedIs(s: State, uid: int, refusedDB: set<FormIdKey>, failing: set<int>, t: State)
    requires DBCleared(s, uid, refusedDB, failing, t)
    ensures var hits := EntriesListing(s.cache, uid);
            var last := LastUserOfEntry(s.cache, hits, uid);
            var back := Refused(last, EntryKeys(s.cache), refusedDB);
            && t.cache == CacheAfter(CacheSwept(s.cache, hits, uid), back, last - back, uid)
            && StoreAfter(CacheSwept(s.cache, hits, uid), s.store, t.store, back, last - back, uid, failing)
  {
    hide EntriesListing, LastUserOfEntry, Refused, EntryKeys, CacheAfter, CacheSwept, StoreAfter;
  }

  lemma KeptId(c: FormDBInfo, e: FormDBInfo, back: set<int>, gone: set<int>, uid: int)
    requires Kept(c, e, back, gone, uid)
    ensures c.formId == e.formId
  {
  }

  lemma UnlistDBId(d: FormDBInfo, uid: int)
    ensures UnlistDB(d, uid).formId == d.formId
  {
  }

  lemma StoreElsewhere(cache: Cache, store: Store, now: Store, back: set<int>, gone: set<int>, uid: int, failing: set<int>, k: int)
    requires StoreAfter(cache, store, now, back, gone, uid, failing) && (k in failing || (k !in back && k !in gone))
    ensures (k in now <==> k in store) && (k in store ==> now[k] == store[k])
  {
    hide IndexOf;
  }

  // An entry the caller uses alone is empty after the sweep, and itself again
  // when the caller is put back.
  lemma AloneIsBack(d: FormDBInfo, uid: int)
    requires Alone(d.formUserUids, uid)
    ensures Relist(UnlistDB(d, uid), uid) == d
  {
    assert RemoveFirst([uid], uid) == [];
  }

  lemma ClearedEntry(s: State, uid: int, refusedDB: set<FormIdKey>, refusedTemp: set<FormIdKey>, failing: set<int>, t: State,
                     d: FormDBInfo)
    requires Consistent(s) && DBCleared(s, uid, refusedDB, failing, t) && d in s.cache
    ensures if ClearedAway(s, d.formId, uid, refusedDB, refusedTemp) then NoEntry(t.cache, d.formId)
            else if ClearedOff(s, d.formId, uid) then EntryLoses(d, t.cache, uid) else d in t.cache
    ensures d.formId !in failing && AloneOn(s, d.formId, uid) ==>
              if RefusedForm(s, d.formId, refusedDB, refusedTemp) then d.formId in t.store && t.store[d.formId] == d
              else d.formId !in t.store
  {
    hide *;
    var hits := EntriesListing(s.cache, uid);
    var last := LastUserOfEntry(s.cache, hits, uid);
    var back := Refused(last, EntryKeys(s.cache), refusedDB);
    var swept := CacheSwept(s.cache, hits, uid);
    DBClearedIs(s, uid, refusedDB, failing, t);
    EntrySetsAre(s, uid, refusedDB, refusedTemp, d.formId);
    EntryUses(s, d, uid);
    ClearedIs(s, d.formId, uid, refusedDB, refusedTemp);
    SweptHas(s.cache, hits, uid);
    var c := if d.formId in hits then UnlistDB(d, uid) else d;
    UnlistDBId(d, uid);
    AfterHas(swept, back, last - back, uid);
    AfterIds(swept, back, last - back, uid);
    NoEntryIs(t.cache, d.formId);
    SweptEntry(s.cache, hits, uid, c) by {
      DistinctOf(s);
    }
    if d.formId in last {
      AloneIsBack(d, uid);
      if d.formId !in failing {
        StoreOf(swept, s.store, t.store, back, last - back, uid, failing, c);
      }
    }
    if d.formId !in last && d.formId in hits {
      EntryUids(s, d);
      LosesByUnlisting(d, t.cache, uid);
    }
  }

  lemma EntryUses(s: State, d: FormDBInfo, uid: int)
    requires Consistent(s) && d in s.cache
    ensures d.formId !in s.temp && (Uses(s, d.formId, uid) <==> uid in d.formUserUids)
    ensures AloneOn(s, d.formId, uid) <==> Alone(d.formUserUids, uid)
    ensures AloneOn(s, d.formId, uid) ==> Uses(s, d.formId, uid)
  {
    hide Consistent, NoDuplicates;
    KnownOf(s);
    OneEntryEach(s);
  }

  lemma ClearedIs(s: State, k: int, uid: int, refusedDB: set<FormIdKey>, refusedTemp: set<FormIdKey>)
    ensures ClearedAway(s, k, uid, refusedDB, refusedTemp) <==> AloneOn(s, k, uid) && !RefusedForm(s, k, refusedDB, refusedTemp)
    ensures ClearedOff(s, k, uid) <==> Uses(s, k, uid) && !AloneOn(s, k, uid)
  {
    hide AloneOn, RefusedForm, Uses;
  }

  lemma LosesByUnlisting(d: FormDBInfo, now: Cache, uid: int)
    requires NoDuplicates(d.formUserUids) && UnlistDB(d, uid) in now
    ensures EntryLoses(d, now, uid)
  {
    hide RemoveFirst, NoDuplicates, WithoutUser;
    ListUpdates(d.formUserUids, uid);
  }

  lemma SweptEntry(cache: Cache, hits: set<int>, uid: int, c: FormDBInfo)
    requires DistinctIds(cache) && c in CacheSwept(cache, hits, uid)
    ensures IndexOf(CacheSwept(cache, hits, uid), c.formId) != -1
    ensures CacheSwept(cache, hits, uid)[IndexOf(CacheSwept(cache, hits, uid), c.formId)] == c
  {
    hide CacheSwept, IndexOf, DistinctIds;
    SweptIds(cache, hits, uid);
    EntryThere(CacheSwept(cache, hits, uid), c);
  }

  lemma StoreOf(cache: Cache, store: Store, now: Store, back: set<int>, gone: set<int>, uid: int, failing: set<int>, c: FormDBInfo)
    requires StoreAfter(cache, store, now, back, gone, uid, failing) && c in cache && c.formId !in failing
    requires IndexOf(cache, c.formId) != -1 && cache[IndexOf(cache, c.formId)] == c
    ensures c.formId in back ==> c.formId in now && now[c.formId] == Relist(c, uid)
    ensures c.formId in gone ==> c.formId !in now
  {
    hide IndexOf;
    assert c.formId in Ids(cache);
  }

  // ----- clearing: records -----

  lemma ClearedRecord(s: State, uid: int, refusedDB: set<FormIdKey>, refusedTemp: set<FormIdKey>, t: State, k: int)
    requires Consistent(s) && TempsCleared(ClearedRecords(s, uid, refusedDB), s.temp, uid, refusedTemp, t) && k in s.records
    ensures if ClearedAway(s, k, uid, refusedDB, refusedTemp) then k !in t.records
            else if ClearedOff(s, k, uid) then RecordLosesAt(s.records, t.records, k, uid)
            else RecordStays(s.records, t.records, k)
  {
    hide *;
    var now := ClearedRecords(s, uid, refusedDB);
    ClearedIs(s, k, uid, refusedDB, refusedTemp);
    EntryRecord(s, uid, refusedDB, refusedTemp, k);
    RecordAndTemp(s, k);
    AloneUses(s, k, uid);
    if k in s.temp {
      TempRecord(s, now, uid, refusedDB, refusedTemp, t, k);
    } else if k in now {
      NormalRecord(now, s.temp, uid, refusedTemp, t, k);
    } else {
      GoneRecord(now, s.temp, uid, refusedTemp, t, k);
    }
    StaysIs(s.records, now, k);
    StaysIs(s.records, t.records, k);
    LosesAtIs(s.records, now, t.records, k, uid);
  }

  lemma LosesAtIs(a: Records, now: Records, b: Records, k: int, uid: int)
    ensures RecordLosesAt(a, now, k, uid) ==> k in now
    ensures k in now && k in b && b[k] == now[k] ==> (RecordLosesAt(a, now, k, uid) <==> RecordLosesAt(a, b, k, uid))
  {
  }

  // The records once the entries are cleared.
  lemma EntryRecord(s: State, uid: int, refusedDB: set<FormIdKey>, refusedTemp: set<FormIdKey>, k: int)
    requires Consistent(s) && k in s.records
    ensures var now := ClearedRecords(s, uid, refusedDB);
            && (k in now ==> now[k].formTempFlg == s.records[k].formTempFlg)
            && if k in s.temp || !Uses(s, k, uid) then RecordStays(s.records, now, k)
               else if !AloneOn(s, k, uid) then RecordLosesAt(s.records, now, k, uid)
               else if RefusedForm(s, k, refusedDB, refusedTemp) then RecordStays(s.records, now, k)
               else k !in now
  {
    hide *;
    var hits := EntriesListing(s.cache, uid);
    var last := LastUserOfEntry(s.cache, hits, uid);
    var back := Refused(last, EntryKeys(s.cache), refusedDB);
    EntrySetsAre(s, uid, refusedDB, refusedTemp, k);
    AloneUses(s, k, uid);
    ClearedRecordAt(s, uid, refusedDB, k);
    RecordUids(s, k);
    UnlistedRecord(s.records, ClearedRecords(s, uid, refusedDB), k, uid);
    StaysIs(s.records, ClearedRecords(s, uid, refusedDB), k);
  }

  lemma AloneUses(s: State, k: int, uid: int)
    ensures AloneOn(s, k, uid) ==> Uses(s, k, uid)
  {
  }

  lemma ClearedRecordAt(s: State, uid: int, refusedDB: set<FormIdKey>, k: int)
    requires k in s.records
    ensures var hits := EntriesListing(s.cache, uid);
            var last := LastUserOfEntry(s.cache, hits, uid);
            var back := Refused(last, EntryKeys(s.cache), refusedDB);
            var now := ClearedRecords(s, uid, refusedDB);
            && (k in now <==> !(k in last && k !in back))
            && (k in now ==> now[k] == if k in hits && k !in last then Unlisted(s.records[k], uid) else s.records[k])
            && (k in now ==> now[k].formTempFlg == s.records[k].formTempFlg)
  {
    hide EntriesListing, LastUserOfEntry, Refused, EntryKeys, RemoveFirst;
  }

  lemma UnlistedRecord(a: Records, b: Records, k: int, uid: int)
    requires k in a && NoDuplicates(a[k].formUserUids)
    ensures k in b && b[k] == Unlisted(a[k], uid) ==> RecordLosesAt(a, b, k, uid)
  {
    hide RemoveFirst, WithoutUser, NoDuplicates;
    ListUpdates(a[k].formUserUids, uid);
  }

  lemma NormalRecord(records: Records, temp: seq<int>, uid: int, refusedTemp: set<FormIdKey>, t: State, k: int)
    requires TempsCleared(records, temp, uid, refusedTemp, t) && k in records && !records[k].formTempFlg
    ensures k in t.records && t.records[k] == records[k]
  {
    hide RemoveFirst, AddIfMissing;
  }

  lemma GoneRecord(records: Records, temp: seq<int>, uid: int, refusedTemp: set<FormIdKey>, t: State, k: int)
    requires TempsCleared(records, temp, uid, refusedTemp, t) && k !in records
    ensures k !in t.records
  {
    hide RemoveFirst, AddIfMissing;
  }

  lemma TempRecord(s: State, now: Records, uid: int, refusedDB: set<FormIdKey>, refusedTemp: set<FormIdKey>, t: State, k: int)
    requires Consistent(s) && k in s.temp && RecordStays(s.records, now, k)
    requires TempsCleared(now, s.temp, uid, refusedTemp, t)
    ensures k in s.records
    ensures if ClearedAway(s, k, uid, refusedDB, refusedTemp) then k !in t.records
            else if ClearedOff(s, k, uid) then RecordLosesAt(s.records, t.records, k, uid)
            else RecordStays(s.records, t.records, k)
  {
    hide *;
    RecordAndTemp(s, k);
    RecordUids(s, k);
    StaysIs(s.records, now, k);
    StaysIs(s.records, t.records, k);
    TempUses(s, k, uid, refusedDB, refusedTemp);
    ClearedIs(s, k, uid, refusedDB, refusedTemp);
    ClearedTempAt(now, s.temp, uid, refusedTemp, t, k);
    UnlistedRecord(s.records, t.records, k, uid);
  }

  lemma TempUses(s: State, k: int, uid: int, refusedDB: set<FormIdKey>, refusedTemp: set<FormIdKey>)
    requires k in s.temp && k in s.records
    ensures Uses(s, k, uid) <==> uid in s.records[k].formUserUids
    ensures AloneOn(s, k, uid) <==> s.records[k].formUserUids == [uid]
    ensures RefusedForm(s, k, refusedDB, refusedTemp) <==> KeyOf(s.records[k]) in refusedTemp
  {
  }

  lemma ClearedTempAt(records: Records, temp: seq<int>, uid: int, refusedTemp: set<FormIdKey>, t: State, k: int)
    requires TempsCleared(records, temp, uid, refusedTemp, t) && k in records && records[k].formTempFlg
    requires NoDuplicates(records[k].formUserUids)
    ensures var r := records[k];
            if uid !in r.formUserUids then k in t.records && t.records[k] == r
            else if r.formUserUids != [uid] then k in t.records && t.records[k] == Unlisted(r, uid)
            else if KeyOf(r) in refusedTemp then k in t.records && t.records[k] == r
            else k !in t.records
  {
    hide RemoveFirst, NoDuplicates;
    OneLeft(records[k].formUserUids, uid);
  }

  lemma ClearedRest(s: State, uid: int, refusedDB: set<FormIdKey>, refusedTemp: set<FormIdKey>, t: State)
    requires Consistent(s) && TempsCleared(ClearedRecords(s, uid, refusedDB), s.temp, uid, refusedTemp, t)
    ensures forall k :: k in t.records ==> k in s.records
    ensures forall k :: k in t.temp <==> k in s.temp && !ClearedAway(s, k, uid, refusedDB, refusedTemp)
  {
    hide *;
    var now := ClearedRecords(s, uid, refusedDB);
    ClearedWithin(s, uid, refusedDB);
    forall k | k in t.records ensures k in s.records {
      if k !in now {
        GoneRecord(now, s.temp, uid, refusedTemp, t, k);
      }
    }
    var temps := TempFormsListing(now, uid);
    var last := LastUserOf(now, temps, uid);
    var back := Refused(last, KeysOf(now), refusedTemp);
    TempListIs(now, s.temp, uid, refusedTemp, t);
    WithoutIs(s.temp, last - back);
    forall k | k in s.temp
      ensures k in last - back <==> ClearedAway(s, k, uid, refusedDB, refusedTemp)
    {
      RecordAndTemp(s, k);
      RecordUids(s, k);
      EntryRecord(s, uid, refusedDB, refusedTemp, k);
      StaysIs(s.records, now, k);
      TempUses(s, k, uid, refusedDB, refusedTemp);
      ClearedIs(s, k, uid, refusedDB, refusedTemp);
      LastTempIs(now, uid, refusedTemp, k);
    }
  }

  lemma ClearedWithin(s: State, uid: int, refusedDB: set<FormIdKey>)
    ensures forall k :: k in ClearedRecords(s, uid, refusedDB) ==> k in s.records
  {
    hide EntriesListing, LastUserOfEntry, Refused, EntryKeys, RemoveFirst;
  }

  lemma TempListIs(records: Records, temp: seq<int>, uid: int, refusedTemp: set<FormIdKey>, t: State)
    requires TempsCleared(records, temp, uid, refusedTemp, t)
    ensures var last := LastUserOf(records, TempFormsListing(records, uid), uid);
            t.temp == Without(temp, last - Refused(last, KeysOf(records), refusedTemp))
  {
    hide LastUserOf, TempFormsListing, Refused, KeysOf, Without, Relisted, UnlistAll;
  }

  lemma LastTempIs(records: Records, uid: int, refusedTemp: set<FormIdKey>, k: int)
    requires k in records && records[k].formTempFlg && NoDuplicates(records[k].formUserUids)
    ensures var last := LastUserOf(records, TempFormsListing(records, uid), uid);
            k in last - Refused(last, KeysOf(records), refusedTemp)
            <==> records[k].formUserUids == [uid] && KeyOf(records[k]) !in refusedTemp
  {
    hide RemoveFirst, NoDuplicates;
    OneLeft(records[k].formUserUids, uid);
  }
}
