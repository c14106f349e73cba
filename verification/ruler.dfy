/**
 * `updateAlertRulesInGroup` of the ruler API: inside one transaction it
 * calculates the changes, writes the upserts, deletes the leftover rules and,
 * only when rules are being created, checks the alert-rule quota. Any error
 * rolls the whole transaction back and is answered with a status class; only
 * after a commit is the scheduler told about updated and deleted rules.
 *
 * The store is a value (its rows in insertion order and the next storage ID);
 * a transaction either returns the new value or leaves the old one in place.
 * What the collaborators outside the model answer (store failures, the quota
 * service, the store's UID generator) is an `Env` parameter.
 */
module Ruler {
  import opened Errors
  import opened Rules
  import opened Changes

  /** The persisted rule table. */
  datatype Store = Store(rows: seq<AlertRule>, nextId: int)

  /** The answer of `QuotaService.CheckQuotaReached` for the "alert_rule" target. */
  datatype QuotaAnswer = Allowed | LimitReached | QuotaFailed(error: Error)

  /** What the collaborators answer during one request. */
  datatype Env = Env(
    groupQueryFault: Option<Error>,   // GetRuleGroupAlertRules fails with this error
    lookupFault: map<Uid, Error>,     // GetAlertRuleByUID fails for these UIDs
    upsertFault: Option<Error>,       // UpsertAlertRules fails with this error
    deleteFault: map<Uid, Error>,     // DeleteAlertRuleByUID fails for these UIDs
    quota: QuotaAnswer,
    commitFault: Option<Error>,       // InTransaction fails to commit with this error
    mintUid: int -> Uid)              // UID the store gives a rule created without one

  /** A call into the scheduler's registry, keyed by organisation and UID. */
  datatype Notification = UpdateRule(key: AlertRuleKey) | DeleteRule(key: AlertRuleKey)

  /** The HTTP status, the store after the request, and the scheduler calls made. */
  datatype Response = Response(status: int, store: Store, notifications: seq<Notification>)

  const Accepted := 202

  const UpsertFailed := "failed to add or update rules"
  const DeleteFailed := "failed to delete rule with UID "
  const QuotaCheckFailed := "failed to get alert rules quota"

  // ---------------------------------------------------------------------------
  // Store reads and writes.
  // ---------------------------------------------------------------------------

  /** The rows of one (organisation, namespace, group), in row order. */
  function RowsOfGroup(rows: seq<AlertRule>, org: int, namespaceUid: string, ruleGroup: string): (group: seq<AlertRule>)
    ensures forall r :: r in group <==> r in rows && r.orgId == org && r.namespaceUid == namespaceUid && r.ruleGroup == ruleGroup
  {
    if rows == [] then []
    else
      var rest := RowsOfGroup(rows[1..], org, namespaceUid, ruleGroup);
      var r := rows[0];
      assert forall x :: x in rows <==> x == r || x in rows[1..];
      if r.orgId == org && r.namespaceUid == namespaceUid && r.ruleGroup == ruleGroup then [r] + rest else rest
  }

  /** The rule of an organisation with a given UID, or the not-found sentinel. */
  function FindByUid(rows: seq<AlertRule>, org: int, uid: Uid): (r: Result<AlertRule>)
    ensures r.Ok? ==> r.value in rows && r.value.orgId == org && r.value.uid == uid
    ensures r.Err? ==> r.error == Base(AlertRuleNotFound)
                       && forall x :: x in rows ==> !(x.orgId == org && x.uid == uid)
  {
    if rows == [] then Err(Base(AlertRuleNotFound))
    else if rows[0].orgId == org && rows[0].uid == uid then Ok(rows[0])
    else
      assert forall x :: x in rows ==> x == rows[0] || x in rows[1..];
      FindByUid(rows[1..], org, uid)
  }

  /** `GetRuleGroupAlertRules` as the calculator sees it. */
  function GroupQuery(store: Store, env: Env, org: int, namespaceUid: string, ruleGroup: string): Result<seq<AlertRule>>
  {
    if env.groupQueryFault.Some? then Err(env.groupQueryFault.value)
    else Ok(RowsOfGroup(store.rows, org, namespaceUid, ruleGroup))
  }

  /** `GetAlertRuleByUID` as the calculator sees it. */
  function UidLookup(store: Store, env: Env, org: int): Lookup
  {
    (u: Uid) => if u in env.lookupFault then Err(env.lookupFault[u]) else FindByUid(store.rows, org, u)
  }

  /** Update-by-ID for a rule that exists; insert with the next storage ID otherwise. */
  function WriteOne(store: Store, entry: UpsertRule, mintUid: int -> Uid): Store
  {
    if entry.existing.Some? then
      Store(seq(|store.rows|, i requires 0 <= i < |store.rows| =>
                if store.rows[i].id == entry.desired.id then entry.desired else store.rows[i]),
            store.nextId)
    else
      var uid := if entry.desired.uid == "" then mintUid(store.nextId) else entry.desired.uid;
      Store(store.rows + [entry.desired.(id := store.nextId, uid := uid)], store.nextId + 1)
  }

  /** `UpsertAlertRules`: the entries written in order. */
  function UpsertAll(store: Store, upsert: seq<UpsertRule>, mintUid: int -> Uid): Store
    decreases |upsert|
  {
    if upsert == [] then store
    else UpsertAll(WriteOne(store, upsert[0], mintUid), upsert[1..], mintUid)
  }

  /** `DeleteAlertRuleByUID`: drops the rows of the organisation with that UID. */
  function DeleteRows(rows: seq<AlertRule>, org: int, uid: Uid): (kept: seq<AlertRule>)
    ensures forall x :: x in kept <==> x in rows && !(x.orgId == org && x.uid == uid)
  {
    if rows == [] then []
    else
      var rest := DeleteRows(rows[1..], org, uid);
      assert forall x :: x in rows <==> x == rows[0] || x in rows[1..];
      if rows[0].orgId == org && rows[0].uid == uid then rest else [rows[0]] + rest
  }

  /** The delete loop: stops at the first rule whose deletion fails. */
  function DeleteAll(store: Store, env: Env, org: int, delete: seq<AlertRule>): Result<Store>
    decreases |delete|
  {
    if delete == [] then Ok(store)
    else if delete[0].uid in env.deleteFault then
      Err(Wrapped(DeleteFailed + delete[0].uid, env.deleteFault[delete[0].uid]))
    else DeleteAll(Store(DeleteRows(store.rows, org, delete[0].uid), store.nextId), env, org, delete[1..])
  }

  // ---------------------------------------------------------------------------
  // The transaction and the request.
  // ---------------------------------------------------------------------------

  /** The function run inside `InTransaction`: the new store and the changes, or
      the error that rolls everything back. */
  function Transaction(store: Store, env: Env, org: int, namespaceUid: string, ruleGroup: string,
                       submitted: seq<AlertRule>): Result<(Store, RuleChanges)>
  {
    match CalculateChanges(GroupQuery(store, env, org, namespaceUid, ruleGroup), UidLookup(store, env, org),
                           ruleGroup, submitted)
    case Err(e) => Err(e)
    case Ok(changes) =>
      if env.upsertFault.Some? then Err(Wrapped(UpsertFailed, env.upsertFault.value))
      else
        match DeleteAll(UpsertAll(store, changes.upsert, env.mintUid), env, org, changes.delete)
        case Err(e) => Err(e)
        case Ok(written) =>
          if changes.newRules > 0 then
            match env.quota
            case Allowed => Commit(env, written, changes)
            case LimitReached => Err(Base(QuotaReached))
            case QuotaFailed(e) => Err(Wrapped(QuotaCheckFailed, e))
          else Commit(env, written, changes)
  }

  /** The commit `InTransaction` makes once the function above returned no error;
      it can still fail, and then nothing is kept. */
  function Commit(env: Env, written: Store, changes: RuleChanges): Result<(Store, RuleChanges)>
  {
    if env.commitFault.Some? then Err(env.commitFault.value) else Ok((written, changes))
  }

  /** The scheduler calls after a commit: an update for every upsert that replaced
      an existing rule, in order, then a delete for every deleted rule. */
  function UpdatesFor(org: int, upsert: seq<UpsertRule>): seq<Notification>
  {
    if upsert == [] then []
    else
      (if upsert[0].existing.Some? then [UpdateRule(AlertRuleKey(org, upsert[0].existing.value.uid))] else [])
      + UpdatesFor(org, upsert[1..])
  }

  function DeletesFor(org: int, delete: seq<AlertRule>): seq<Notification>
  {
    seq(|delete|, i requires 0 <= i < |delete| => DeleteRule(AlertRuleKey(org, delete[i].uid)))
  }

  function Notifications(org: int, changes: RuleChanges): seq<Notification>
  {
    UpdatesFor(org, changes.upsert) + DeletesFor(org, changes.delete)
  }

  /** `updateAlertRulesInGroup`: a failed transaction leaves the store as it was,
      sends nothing to the scheduler and is answered with an error status. */
  function UpdateAlertRulesInGroup(store: Store, env: Env, org: int, namespaceUid: string, ruleGroup: string,
                                   submitted: seq<AlertRule>): (resp: Response)
    ensures resp.status in {Accepted, 400, 403, 404, 500}
    ensures resp.status == Accepted
            <==> Transaction(store, env, org, namespaceUid, ruleGroup, submitted).Ok?
    ensures resp.status != Accepted ==> resp.store == store && resp.notifications == []
  {
    match Transaction(store, env, org, namespaceUid, ruleGroup, submitted)
    case Err(e) => Response(StatusOf(e), store, [])
    case Ok((written, changes)) => Response(Accepted, written, Notifications(org, changes))
  }

  // ---------------------------------------------------------------------------
  // Proofs about the writes.
  // ---------------------------------------------------------------------------

  predicate HasId(rows: seq<AlertRule>, id: int)
  {
    exists x :: x in rows && x.id == id
  }

  /** The UIDs of some rules. */
  function UidsOf(rules: seq<AlertRule>): set<Uid>
  {
    set d | d in rules :: d.uid
  }

  lemma WriteOneEffect(store: Store, entry: UpsertRule, mintUid: int -> Uid)
    ensures var after := WriteOne(store, entry, mintUid);
            && (forall k :: HasId(store.rows, k) ==> HasId(after.rows, k))
            && (forall x :: x in store.rows && (entry.existing.None? || entry.desired.id != x.id) ==> x in after.rows)
            && (entry.existing.Some? && HasId(store.rows, entry.desired.id) ==> entry.desired in after.rows)
            && after.nextId == store.nextId + (if entry.existing.None? then 1 else 0)
  {
    var after := WriteOne(store, entry, mintUid);
    if entry.existing.Some? {
      forall k | HasId(store.rows, k)
        ensures HasId(after.rows, k)
      {
        var x :| x in store.rows && x.id == k;
        var i :| 0 <= i < |store.rows| && store.rows[i] == x;
        assert after.rows[i].id == k;
      }
      forall x | x in store.rows && entry.desired.id != x.id
        ensures x in after.rows
      {
        var i :| 0 <= i < |store.rows| && store.rows[i] == x;
        assert after.rows[i] == x;
      }
      if HasId(store.rows, entry.desired.id) {
        var x :| x in store.rows && x.id == entry.desired.id;
        var i :| 0 <= i < |store.rows| && store.rows[i] == x;
        assert after.rows[i] == entry.desired;
      }
    } else {
      forall k | HasId(store.rows, k)
        ensures HasId(after.rows, k)
      {
        var x :| x in store.rows && x.id == k;
        assert x in after.rows;
      }
    }
  }

  /** A row that no update rewrites survives the upserts. */
  lemma {:induction false} UpsertAllKeeps(store: Store, upsert: seq<UpsertRule>, mintUid: int -> Uid, x: AlertRule)
    requires x in store.rows
    requires forall j :: 0 <= j < |upsert| && upsert[j].existing.Some? ==> upsert[j].desired.id != x.id
    ensures x in UpsertAll(store, upsert, mintUid).rows
    decreases |upsert|
  {
    if upsert != [] {
      WriteOneEffect(store, upsert[0], mintUid);
      UpsertAllKeeps(WriteOne(store, upsert[0], mintUid), upsert[1..], mintUid, x);
    }
  }

  /** An update whose ID no later update rewrites is what the table holds for it. */
  lemma {:induction false} UpsertAllWrites(store: Store, upsert: seq<UpsertRule>, mintUid: int -> Uid, i: nat)
    requires i < |upsert| && upsert[i].existing.Some?
    requires HasId(store.rows, upsert[i].desired.id)
    requires forall j :: i < j < |upsert| && upsert[j].existing.Some? ==> upsert[j].desired.id != upsert[i].desired.id
    ensures upsert[i].desired in UpsertAll(store, upsert, mintUid).rows
    decreases |upsert|
  {
    var next := WriteOne(store, upsert[0], mintUid);
    WriteOneEffect(store, upsert[0], mintUid);
    if i == 0 {
      UpsertAllKeeps(next, upsert[1..], mintUid, upsert[0].desired);
    } else {
      UpsertAllWrites(next, upsert[1..], mintUid, i - 1);
    }
  }

  /** Every creation takes one storage ID. */
  lemma {:induction false} UpsertAllIds(store: Store, upsert: seq<UpsertRule>, mintUid: int -> Uid)
    ensures UpsertAll(store, upsert, mintUid).nextId == store.nextId + CountNew(upsert)
    decreases |upsert|
  {
    if upsert != [] {
      WriteOneEffect(store, upsert[0], mintUid);
      UpsertAllIds(WriteOne(store, upsert[0], mintUid), upsert[1..], mintUid);
    }
  }

  /** The delete loop succeeds exactly when no deletion fails, and then removes
      precisely the organisation's rows carrying a deleted UID. */
  lemma {:induction false} DeleteAllSpec(store: Store, env: Env, org: int, delete: seq<AlertRule>)
    ensures DeleteAll(store, env, org, delete).Ok? <==> forall d :: d in delete ==> d.uid !in env.deleteFault
    ensures DeleteAll(store, env, org, delete).Ok? ==>
              var after := DeleteAll(store, env, org, delete).value;
              && after.nextId == store.nextId
              && forall x :: x in after.rows <==> x in store.rows && !(x.orgId == org && x.uid in UidsOf(delete))
    ensures DeleteAll(store, env, org, delete).Err? ==>
              exists d :: d in delete && d.uid in env.deleteFault
                && Root(DeleteAll(store, env, org, delete).error) == Root(env.deleteFault[d.uid])
    decreases |delete|
  {
    if delete == [] {
      assert UidsOf(delete) == {};
    } else if delete[0].uid in env.deleteFault {
    } else {
      var d := delete[0];
      var next := Store(DeleteRows(store.rows, org, d.uid), store.nextId);
      DeleteAllSpec(next, env, org, delete[1..]);
      assert forall x :: x in delete <==> x == d || x in delete[1..];
      assert UidsOf(delete) == {d.uid} + UidsOf(delete[1..]);
    }
  }

  lemma {:induction false} UpdatesForSpec(org: int, upsert: seq<UpsertRule>)
    ensures |UpdatesFor(org, upsert)| == |upsert| - CountNew(upsert)
    ensures forall n :: n in UpdatesFor(org, upsert) <==>
              exists i :: 0 <= i < |upsert| && upsert[i].existing.Some?
                && n == UpdateRule(AlertRuleKey(org, upsert[i].existing.value.uid))
    decreases |upsert|
  {
    if upsert != [] {
      var rest := upsert[1..];
      UpdatesForSpec(org, rest);
      CountNewZeroIff(upsert);
      forall n
        ensures n in UpdatesFor(org, upsert) <==>
                exists i :: 0 <= i < |upsert| && upsert[i].existing.Some?
                  && n == UpdateRule(AlertRuleKey(org, upsert[i].existing.value.uid))
      {
        if n in UpdatesFor(org, rest) {
          var i :| 0 <= i < |rest| && rest[i].existing.Some?
                   && n == UpdateRule(AlertRuleKey(org, rest[i].existing.value.uid));
          assert upsert[i + 1] == rest[i];
        }
        if exists i :: 0 <= i < |upsert| && upsert[i].existing.Some?
             && n == UpdateRule(AlertRuleKey(org, upsert[i].existing.value.uid)) {
          var i :| 0 <= i < |upsert| && upsert[i].existing.Some?
                   && n == UpdateRule(AlertRuleKey(org, upsert[i].existing.value.uid));
          if i > 0 {
            assert rest[i - 1] == upsert[i];
          }
        }
      }
    }
  }

  // ---------------------------------------------------------------------------
  // The properties of updateAlertRulesInGroup.
  // ---------------------------------------------------------------------------

  /** The changes a request works with: those calculated from the store as it was. */
  function ChangesFor(store: Store, env: Env, org: int, namespaceUid: string, ruleGroup: string,
                      submitted: seq<AlertRule>): Result<RuleChanges>
  {
    CalculateChanges(GroupQuery(store, env, org, namespaceUid, ruleGroup), UidLookup(store, env, org),
                     ruleGroup, submitted)
  }

  /** Every error rolls the whole transaction back: the store is left as it was,
      the scheduler is not called, and the status comes from the error's class.
      A failing calculation, upsert, quota query or commit each do this; a
      failing deletion is `DeleteFailureRollsBack`. */
  lemma EveryFailureRollsBack(store: Store, env: Env, org: int, namespaceUid: string, ruleGroup: string,
                              submitted: seq<AlertRule>)
    ensures var computed := ChangesFor(store, env, org, namespaceUid, ruleGroup, submitted);
            var resp := UpdateAlertRulesInGroup(store, env, org, namespaceUid, ruleGroup, submitted);
            && (computed.Err? ==> resp == Response(StatusOf(computed.error), store, []))
            && (computed.Ok? && env.upsertFault.Some? ==>
                  resp == Response(StatusOf(env.upsertFault.value), store, []))
            && (computed.Ok? && env.upsertFault.None?
                && DeleteAll(UpsertAll(store, computed.value.upsert, env.mintUid), env, org, computed.value.delete).Ok?
                && computed.value.newRules > 0 && env.quota.QuotaFailed? ==>
                  resp == Response(StatusOf(env.quota.error), store, []))
            && (computed.Ok? && env.upsertFault.None?
                && DeleteAll(UpsertAll(store, computed.value.upsert, env.mintUid), env, org, computed.value.delete).Ok?
                && (computed.value.newRules == 0 || env.quota == Allowed) && env.commitFault.Some? ==>
                  resp == Response(StatusOf(env.commitFault.value), store, []))
  {
    if env.upsertFault.Some? {
      WrappingKeepsStatus(UpsertFailed, env.upsertFault.value);
    }
    if env.quota.QuotaFailed? {
      WrappingKeepsStatus(QuotaCheckFailed, env.quota.error);
    }
  }

  /** A deletion that fails after the upserts rolls the upserts back too: the store
      is left as it was, the scheduler is not called, and the status is that of
      the error of one of the rules whose deletion fails. */
  lemma DeleteFailureRollsBack(store: Store, env: Env, org: int, namespaceUid: string, ruleGroup: string,
                               submitted: seq<AlertRule>, ch: RuleChanges)
    requires ChangesFor(store, env, org, namespaceUid, ruleGroup, submitted) == Ok(ch)
    requires env.upsertFault.None?
    requires exists d :: d in ch.delete && d.uid in env.deleteFault
    ensures var resp := UpdateAlertRulesInGroup(store, env, org, namespaceUid, ruleGroup, submitted);
            && resp.store == store && resp.notifications == []
            && exists d :: d in ch.delete && d.uid in env.deleteFault && resp.status == StatusOf(env.deleteFault[d.uid])
  {
    var written := UpsertAll(store, ch.upsert, env.mintUid);
    DeleteAllSpec(written, env, org, ch.delete);
    var e := DeleteAll(written, env, org, ch.delete).error;
    var d :| d in ch.delete && d.uid in env.deleteFault && Root(e) == Root(env.deleteFault[d.uid]);
    assert StatusOf(e) == StatusOf(env.deleteFault[d.uid]);
  }

  /** The quota is consulted only when rules are created: without creations the
      answer of the quota service makes no difference. */
  lemma QuotaOnlyForCreations(store: Store, env: Env, org: int, namespaceUid: string, ruleGroup: string,
                              submitted: seq<AlertRule>, quota: QuotaAnswer)
    requires ChangesFor(store, env, org, namespaceUid, ruleGroup, submitted).Ok?
    requires ChangesFor(store, env, org, namespaceUid, ruleGroup, submitted).value.newRules == 0
    ensures UpdateAlertRulesInGroup(store, env.(quota := quota), org, namespaceUid, ruleGroup, submitted)
            == UpdateAlertRulesInGroup(store, env, org, namespaceUid, ruleGroup, submitted)
  {
    var env' := env.(quota := quota);
    assert GroupQuery(store, env', org, namespaceUid, ruleGroup) == GroupQuery(store, env, org, namespaceUid, ruleGroup);
    assert UidLookup(store, env', org) == UidLookup(store, env, org);
    var ch := ChangesFor(store, env, org, namespaceUid, ruleGroup, submitted).value;
    assert ChangesFor(store, env', org, namespaceUid, ruleGroup, submitted) == Ok(ch);
    DeleteAllEnvFrame(UpsertAll(store, ch.upsert, env.mintUid), env, env', org, ch.delete);
    assert Transaction(store, env', org, namespaceUid, ruleGroup, submitted)
        == Transaction(store, env, org, namespaceUid, ruleGroup, submitted);
  }

  lemma {:induction false} DeleteAllEnvFrame(store: Store, env: Env, env': Env, org: int, delete: seq<AlertRule>)
    requires env'.deleteFault == env.deleteFault
    ensures DeleteAll(store, env', org, delete) == DeleteAll(store, env, org, delete)
    decreases |delete|
  {
    if delete != [] && delete[0].uid !in env.deleteFault {
      DeleteAllEnvFrame(Store(DeleteRows(store.rows, org, delete[0].uid), store.nextId), env, env', org, delete[1..]);
    }
  }

  /** When rules are created and the limit is reached, the whole batch is refused
      with 403: not even the updates and deletions that would otherwise commit are kept. */
  lemma QuotaLimitRefusesWholeBatch(store: Store, env: Env, org: int, namespaceUid: string, ruleGroup: string,
                                    submitted: seq<AlertRule>, ch: RuleChanges)
    requires ChangesFor(store, env, org, namespaceUid, ruleGroup, submitted) == Ok(ch)
    requires ch.newRules > 0
    requires UpdateAlertRulesInGroup(store, env.(quota := Allowed), org, namespaceUid, ruleGroup, submitted).status == Accepted
    requires env.quota == LimitReached
    ensures UpdateAlertRulesInGroup(store, env, org, namespaceUid, ruleGroup, submitted) == Response(403, store, [])
  {
    var env' := env.(quota := Allowed);
    assert GroupQuery(store, env', org, namespaceUid, ruleGroup) == GroupQuery(store, env, org, namespaceUid, ruleGroup);
    assert UidLookup(store, env', org) == UidLookup(store, env, org);
    DeleteAllEnvFrame(UpsertAll(store, ch.upsert, env.mintUid), env, env', org, ch.delete);
  }

  /** A request is accepted exactly when the changes can be calculated, the
      upsert and every deletion succeed, and either nothing is created or the
      quota service lets the creations through. */
  lemma AcceptedIff(store: Store, env: Env, org: int, namespaceUid: string, ruleGroup: string,
                    submitted: seq<AlertRule>)
    ensures UpdateAlertRulesInGroup(store, env, org, namespaceUid, ruleGroup, submitted).status == Accepted
            <==> && ChangesFor(store, env, org, namespaceUid, ruleGroup, submitted).Ok?
                 && env.upsertFault.None?
                 && (forall d :: d in ChangesFor(store, env, org, namespaceUid, ruleGroup, submitted).value.delete
                       ==> d.uid !in env.deleteFault)
                 && (ChangesFor(store, env, org, namespaceUid, ruleGroup, submitted).value.newRules == 0
                     || env.quota == Allowed)
                 && env.commitFault.None?
  {
    var computed := ChangesFor(store, env, org, namespaceUid, ruleGroup, submitted);
    if computed.Ok? && env.upsertFault.None? {
      DeleteAllSpec(UpsertAll(store, computed.value.upsert, env.mintUid), env, org, computed.value.delete);
    }
  }

  /** An accepted request committed the calculated changes: the upserts were
      written, every deletion succeeded, and the scheduler calls follow them. */
  lemma Committed(store: Store, env: Env, org: int, namespaceUid: string, ruleGroup: string,
                  submitted: seq<AlertRule>)
    requires UpdateAlertRulesInGroup(store, env, org, namespaceUid, ruleGroup, submitted).status == Accepted
    ensures ChangesFor(store, env, org, namespaceUid, ruleGroup, submitted).Ok?
    ensures env.upsertFault.None?
    ensures var ch := ChangesFor(store, env, org, namespaceUid, ruleGroup, submitted).value;
            var deleted := DeleteAll(UpsertAll(store, ch.upsert, env.mintUid), env, org, ch.delete);
            && deleted.Ok?
            && UpdateAlertRulesInGroup(store, env, org, namespaceUid, ruleGroup, submitted)
               == Response(Accepted, deleted.value, Notifications(org, ch))
  {
  }

  /** What an update entry of a request is made of: a rule read from the store,
      with the submitted UID, rewritten with its ID and the next version; its UID
      is not among the deleted ones. */
  lemma UpdateEntryFacts(store: Store, env: Env, org: int, namespaceUid: string, ruleGroup: string,
                         submitted: seq<AlertRule>, ch: RuleChanges, i: nat)
    requires ChangesFor(store, env, org, namespaceUid, ruleGroup, submitted) == Ok(ch)
    requires i < |submitted| && |ch.upsert| == |submitted|
    requires ch.upsert[i].existing.Some?
    ensures var stored := ch.upsert[i].existing.value;
            && stored in store.rows
            && stored.uid == submitted[i].uid != ""
            && ch.upsert[i].desired == submitted[i].(id := stored.id, version := stored.version + 1)
            && submitted[i].uid !in UidsOf(ch.delete)
  {
    var query := GroupQuery(store, env, org, namespaceUid, ruleGroup);
    var lookup := UidLookup(store, env, org);
    UpdateEntryShape(query, lookup, ruleGroup, submitted, i);
    var stored := ch.upsert[i].existing.value;
    var u := submitted[i].uid;
    if !(stored in query.value && stored.uid == u) {
      assert lookup(u) == Ok(stored);
      assert FindByUid(store.rows, org, u) == Ok(stored);
    }
  }

  /** After a commit the scheduler is told to refresh every submitted rule that
      updated an existing rule, under its submitted UID, and nothing else; then to
      remove every deleted rule. Creations are not announced. */
  lemma NotifiesUpdatesThenDeletes(store: Store, env: Env, org: int, namespaceUid: string, ruleGroup: string,
                                   submitted: seq<AlertRule>)
    requires UpdateAlertRulesInGroup(store, env, org, namespaceUid, ruleGroup, submitted).status == Accepted
    ensures ChangesFor(store, env, org, namespaceUid, ruleGroup, submitted).Ok?
    ensures |ChangesFor(store, env, org, namespaceUid, ruleGroup, submitted).value.upsert| == |submitted|
    ensures var ch := ChangesFor(store, env, org, namespaceUid, ruleGroup, submitted).value;
            var updates := UpdatesFor(org, ch.upsert);
            && UpdateAlertRulesInGroup(store, env, org, namespaceUid, ruleGroup, submitted).notifications
               == updates + DeletesFor(org, ch.delete)
            && |updates| == |submitted| - ch.newRules
            && (forall n :: n in updates <==>
                  exists i :: 0 <= i < |submitted| && ch.upsert[i].existing.Some?
                    && n == UpdateRule(AlertRuleKey(org, submitted[i].uid)))
  {
    Committed(store, env, org, namespaceUid, ruleGroup, submitted);
    var ch := ChangesFor(store, env, org, namespaceUid, ruleGroup, submitted).value;
    CalculateChangesSpec(GroupQuery(store, env, org, namespaceUid, ruleGroup), UidLookup(store, env, org),
                         ruleGroup, submitted);
    NotificationKeys(store, env, org, namespaceUid, ruleGroup, submitted, ch);
  }

  lemma NotificationKeys(store: Store, env: Env, org: int, namespaceUid: string, ruleGroup: string,
                         submitted: seq<AlertRule>, ch: RuleChanges)
    requires ChangesFor(store, env, org, namespaceUid, ruleGroup, submitted) == Ok(ch)
    requires |ch.upsert| == |submitted| && ch.newRules == CountNew(ch.upsert)
    ensures |UpdatesFor(org, ch.upsert)| == |submitted| - ch.newRules
    ensures forall n :: n in UpdatesFor(org, ch.upsert) <==>
              exists i :: 0 <= i < |submitted| && ch.upsert[i].existing.Some?
                && n == UpdateRule(AlertRuleKey(org, submitted[i].uid))
    ensures forall n :: n in DeletesFor(org, ch.delete) <==>
              exists d :: d in ch.delete && n == DeleteRule(AlertRuleKey(org, d.uid))
  {
    UpdatesForSpec(org, ch.upsert);
    forall i | 0 <= i < |submitted| && ch.upsert[i].existing.Some?
      ensures ch.upsert[i].existing.value.uid == submitted[i].uid
    {
      UpdateEntryFacts(store, env, org, namespaceUid, ruleGroup, submitted, ch, i);
    }
    DeletesForKeys(org, ch.delete);
  }

  lemma DeletesForKeys(org: int, delete: seq<AlertRule>)
    ensures forall n :: n in DeletesFor(org, delete) <==>
              exists d :: d in delete && n == DeleteRule(AlertRuleKey(org, d.uid))
  {
    var deletes := DeletesFor(org, delete);
    forall n
      ensures n in deletes <==> exists d :: d in delete && n == DeleteRule(AlertRuleKey(org, d.uid))
    {
      if n in deletes {
        var k :| 0 <= k < |deletes| && deletes[k] == n;
        assert delete[k] in delete;
      }
      if exists d :: d in delete && n == DeleteRule(AlertRuleKey(org, d.uid)) {
        var d :| d in delete && n == DeleteRule(AlertRuleKey(org, d.uid));
        var k :| 0 <= k < |delete| && delete[k] == d;
        assert deletes[k] == n;
      }
    }
  }

  /** What a commit leaves in the store: no row of the organisation keeps a deleted
      UID; every update whose ID no later update rewrites is stored, one version
      above the rule it replaced; every row neither rewritten nor deleted stays; and
      each creation takes one storage ID. */
  lemma CommitEffects(store: Store, env: Env, org: int, namespaceUid: string, ruleGroup: string,
                      submitted: seq<AlertRule>)
    requires UpdateAlertRulesInGroup(store, env, org, namespaceUid, ruleGroup, submitted).status == Accepted
    ensures ChangesFor(store, env, org, namespaceUid, ruleGroup, submitted).Ok?
    ensures |ChangesFor(store, env, org, namespaceUid, ruleGroup, submitted).value.upsert| == |submitted|
    ensures var ch := ChangesFor(store, env, org, namespaceUid, ruleGroup, submitted).value;
            var after := UpdateAlertRulesInGroup(store, env, org, namespaceUid, ruleGroup, submitted).store;
            && (forall x :: x in after.rows && x.orgId == org ==> x.uid !in UidsOf(ch.delete))
            && (forall i :: 0 <= i < |submitted| && ch.upsert[i].existing.Some?
                  && (forall j :: i < j < |submitted| && ch.upsert[j].existing.Some? ==>
                        ch.upsert[j].desired.id != ch.upsert[i].desired.id)
                  ==> ch.upsert[i].desired in after.rows
                      && ch.upsert[i].desired.uid == submitted[i].uid
                      && ch.upsert[i].desired.version == ch.upsert[i].existing.value.version + 1)
            && (forall x :: x in store.rows && !(x.orgId == org && x.uid in UidsOf(ch.delete))
                  && (forall j :: 0 <= j < |submitted| && ch.upsert[j].existing.Some? ==> ch.upsert[j].desired.id != x.id)
                  ==> x in after.rows)
            && after.nextId == store.nextId + ch.newRules
  {
    Committed(store, env, org, namespaceUid, ruleGroup, submitted);
    var ch := ChangesFor(store, env, org, namespaceUid, ruleGroup, submitted).value;
    CalculateChangesSpec(GroupQuery(store, env, org, namespaceUid, ruleGroup), UidLookup(store, env, org),
                         ruleGroup, submitted);
    WritesOfCommit(store, env, org, namespaceUid, ruleGroup, submitted, ch);
  }

  lemma {:induction false} WritesOfCommit(store: Store, env: Env, org: int, namespaceUid: string, ruleGroup: string,
                       submitted: seq<AlertRule>, ch: RuleChanges)
    requires ChangesFor(store, env, org, namespaceUid, ruleGroup, submitted) == Ok(ch)
    requires |ch.upsert| == |submitted| && ch.newRules == CountNew(ch.upsert)
    requires DeleteAll(UpsertAll(store, ch.upsert, env.mintUid), env, org, ch.delete).Ok?
    ensures var after := DeleteAll(UpsertAll(store, ch.upsert, env.mintUid), env, org, ch.delete).value;
            && (forall x :: x in after.rows && x.orgId == org ==> x.uid !in UidsOf(ch.delete))
            && (forall i :: 0 <= i < |submitted| && ch.upsert[i].existing.Some?
                  && (forall j :: i < j < |submitted| && ch.upsert[j].existing.Some? ==>
                        ch.upsert[j].desired.id != ch.upsert[i].desired.id)
                  ==> ch.upsert[i].desired in after.rows
                      && ch.upsert[i].desired.uid == submitted[i].uid
                      && ch.upsert[i].desired.version == ch.upsert[i].existing.value.version + 1)
            && (forall x :: x in store.rows && !(x.orgId == org && x.uid in UidsOf(ch.delete))
                  && (forall j :: 0 <= j < |submitted| && ch.upsert[j].existing.Some? ==> ch.upsert[j].desired.id != x.id)
                  ==> x in after.rows)
            && after.nextId == store.nextId + ch.newRules
  {
    forall i | 0 <= i < |ch.upsert| && ch.upsert[i].existing.Some?
      ensures HasId(store.rows, ch.upsert[i].desired.id)
      ensures ch.upsert[i].desired.uid == submitted[i].uid && submitted[i].uid !in UidsOf(ch.delete)
      ensures ch.upsert[i].desired.version == ch.upsert[i].existing.value.version + 1
    {
      UpdateEntryFacts(store, env, org, namespaceUid, ruleGroup, submitted, ch, i);
      assert ch.upsert[i].existing.value in store.rows;
    }
    CommitRows(store, env, org, ch.upsert, ch.delete);
  }

  /** The rows left by upserting and then deleting, when every update targets a
      stored ID and no updated UID is deleted. */
  lemma CommitRows(store: Store, env: Env, org: int, upsert: seq<UpsertRule>, delete: seq<AlertRule>)
    requires DeleteAll(UpsertAll(store, upsert, env.mintUid), env, org, delete).Ok?
    requires forall i :: 0 <= i < |upsert| && upsert[i].existing.Some? ==>
               HasId(store.rows, upsert[i].desired.id) && upsert[i].desired.uid !in UidsOf(delete)
    ensures var after := DeleteAll(UpsertAll(store, upsert, env.mintUid), env, org, delete).value;
            && (forall x :: x in after.rows && x.orgId == org ==> x.uid !in UidsOf(delete))
            && (forall i :: 0 <= i < |upsert| && upsert[i].existing.Some?
                  && (forall j :: i < j < |upsert| && upsert[j].existing.Some? ==>
                        upsert[j].desired.id != upsert[i].desired.id)
                  ==> upsert[i].desired in after.rows)
            && (forall x :: x in store.rows && !(x.orgId == org && x.uid in UidsOf(delete))
                  && (forall j :: 0 <= j < |upsert| && upsert[j].existing.Some? ==> upsert[j].desired.id != x.id)
                  ==> x in after.rows)
            && after.nextId == store.nextId + CountNew(upsert)
  {
    var written := UpsertAll(store, upsert, env.mintUid);
    DeleteAllSpec(written, env, org, delete);
    UpsertAllIds(store, upsert, env.mintUid);
    forall i | 0 <= i < |upsert| && upsert[i].existing.Some?
                 && (forall j :: i < j < |upsert| && upsert[j].existing.Some? ==>
                       upsert[j].desired.id != upsert[i].desired.id)
      ensures upsert[i].desired in written.rows
    {
      UpsertAllWrites(store, upsert, env.mintUid, i);
    }
    forall x | x in store.rows
                 && (forall j :: 0 <= j < |upsert| && upsert[j].existing.Some? ==> upsert[j].desired.id != x.id)
      ensures x in written.rows
    {
      UpsertAllKeeps(store, upsert, env.mintUid, x);
    }
  }

  // ---------------------------------------------------------------------------
  // The table's invariant and the rules a commit creates.
  // ---------------------------------------------------------------------------

  predicate DistinctIds(rows: seq<AlertRule>)
  {
    forall i, j :: 0 <= i < j < |rows| ==> rows[i].id != rows[j].id
  }

  /** What the rule table keeps true: storage IDs are distinct and all below the
      next one it hands out. */
  predicate ValidStore(s: Store)
  {
    && (forall x :: x in s.rows ==> x.id < s.nextId)
    && DistinctIds(s.rows)
  }

  /** The store's UID generator hands out UIDs that no stored rule carries. */
  ghost predicate MintsFresh(s: Store, mintUid: int -> Uid)
  {
    forall n, x :: n >= s.nextId && x in s.rows ==> mintUid(n) != x.uid
  }

  /** The storage ID the i-th upsert gets if it creates a rule: the one after
      those of the creations before it. */
  function CreationId(store: Store, upsert: seq<UpsertRule>, i: nat): int
    requires i <= |upsert|
  {
    store.nextId + CountNew(upsert[..i])
  }

  /** How a created rule `r` is stored under the storage ID `id`: at version 1,
      with its own UID or, when it has none, the one the store mints for `id`. */
  function StoredAs(r: AlertRule, id: int, mintUid: int -> Uid): AlertRule
  {
    r.(id := id, version := 1, uid := if r.uid == "" then mintUid(id) else r.uid)
  }

  /** The row the i-th upsert appends when it creates a rule. */
  function CreatedRow(store: Store, upsert: seq<UpsertRule>, mintUid: int -> Uid, i: nat): AlertRule
    requires i < |upsert|
  {
    var id := CreationId(store, upsert, i);
    var d := upsert[i].desired;
    d.(id := id, uid := if d.uid == "" then mintUid(id) else d.uid)
  }

  lemma {:induction false} CountNewSplit(upsert: seq<UpsertRule>, i: nat)
    requires i <= |upsert|
    ensures CountNew(upsert) == CountNew(upsert[..i]) + CountNew(upsert[i..])
    decreases i
  {
    if i > 0 {
      CountNewSplit(upsert[1..], i - 1);
      assert upsert[..i][1..] == upsert[1..][..i - 1];
      assert upsert[1..][i - 1..] == upsert[i..];
    } else {
      assert upsert[..0] == [];
      assert upsert[0..] == upsert;
    }
  }

  /** A creation is appended under the next storage ID, and no later write touches
      it as long as every update rewrites a row that was already there. */
  lemma {:induction false} UpsertAllCreates(store: Store, upsert: seq<UpsertRule>, mintUid: int -> Uid, i: nat)
    requires i < |upsert| && upsert[i].existing.None?
    requires forall j :: 0 <= j < |upsert| && upsert[j].existing.Some? ==> upsert[j].desired.id < store.nextId
    ensures CreatedRow(store, upsert, mintUid, i) in UpsertAll(store, upsert, mintUid).rows
    decreases |upsert|
  {
    var next := WriteOne(store, upsert[0], mintUid);
    WriteOneEffect(store, upsert[0], mintUid);
    if i == 0 {
      assert upsert[..0] == [];
      var row := CreatedRow(store, upsert, mintUid, 0);
      assert next.rows[|next.rows| - 1] == row;
      UpsertAllKeeps(next, upsert[1..], mintUid, row);
    } else {
      assert upsert[..i][1..] == upsert[1..][..i - 1];
      assert CreatedRow(next, upsert[1..], mintUid, i - 1) == CreatedRow(store, upsert, mintUid, i);
      UpsertAllCreates(next, upsert[1..], mintUid, i - 1);
    }
  }

  lemma WriteOneValid(store: Store, entry: UpsertRule, mintUid: int -> Uid)
    requires ValidStore(store)
    requires entry.existing.Some? ==> HasId(store.rows, entry.desired.id)
    ensures ValidStore(WriteOne(store, entry, mintUid))
  {
    var after := WriteOne(store, entry, mintUid);
    if entry.existing.Some? {
      assert forall i :: 0 <= i < |after.rows| ==> after.rows[i].id == store.rows[i].id;
      forall x | x in after.rows
        ensures x.id < after.nextId
      {
        var i :| 0 <= i < |after.rows| && after.rows[i] == x;
        assert store.rows[i] in store.rows;
      }
    } else {
      assert forall i :: 0 <= i < |store.rows| ==> store.rows[i] in store.rows;
    }
  }

  /** The upserts keep the invariant when every update rewrites a stored row. */
  lemma {:induction false} UpsertAllValid(store: Store, upsert: seq<UpsertRule>, mintUid: int -> Uid)
    requires ValidStore(store)
    requires forall j :: 0 <= j < |upsert| && upsert[j].existing.Some? ==> HasId(store.rows, upsert[j].desired.id)
    ensures ValidStore(UpsertAll(store, upsert, mintUid))
    decreases |upsert|
  {
    if upsert != [] {
      WriteOneValid(store, upsert[0], mintUid);
      WriteOneEffect(store, upsert[0], mintUid);
      UpsertAllValid(WriteOne(store, upsert[0], mintUid), upsert[1..], mintUid);
    }
  }

  lemma {:induction false} DeleteRowsDistinct(rows: seq<AlertRule>, org: int, uid: Uid)
    requires DistinctIds(rows)
    ensures DistinctIds(DeleteRows(rows, org, uid))
    decreases |rows|
  {
    if rows != [] {
      DeleteRowsDistinct(rows[1..], org, uid);
      var rest := DeleteRows(rows[1..], org, uid);
      forall k | 0 <= k < |rest|
        ensures rest[k].id != rows[0].id
      {
        assert rest[k] in rest;
        var j :| 0 <= j < |rows[1..]| && rows[1..][j] == rest[k];
        assert rows[j + 1] == rest[k];
      }
    }
  }

  /** The delete loop keeps the invariant. */
  lemma {:induction false} DeleteAllValid(store: Store, env: Env, org: int, delete: seq<AlertRule>)
    requires ValidStore(store)
    requires DeleteAll(store, env, org, delete).Ok?
    ensures ValidStore(DeleteAll(store, env, org, delete).value)
    decreases |delete|
  {
    if delete != [] {
      DeleteRowsDistinct(store.rows, org, delete[0].uid);
      DeleteAllValid(Store(DeleteRows(store.rows, org, delete[0].uid), store.nextId), env, org, delete[1..]);
    }
  }

  /** Upserting and then deleting keeps the invariant, and keeps every created row
      whose UID is not deleted. */
  lemma CommitCreations(store: Store, env: Env, org: int, upsert: seq<UpsertRule>, delete: seq<AlertRule>,
                        after: Store)
    requires ValidStore(store)
    requires DeleteAll(UpsertAll(store, upsert, env.mintUid), env, org, delete) == Ok(after)
    requires forall j :: 0 <= j < |upsert| && upsert[j].existing.Some? ==> HasId(store.rows, upsert[j].desired.id)
    ensures ValidStore(after)
    ensures forall i :: 0 <= i < |upsert| && upsert[i].existing.None?
              && CreatedRow(store, upsert, env.mintUid, i).uid !in UidsOf(delete)
              ==> CreatedRow(store, upsert, env.mintUid, i) in after.rows
                  && CreationId(store, upsert, i) < after.nextId
  {
    var written := UpsertAll(store, upsert, env.mintUid);
    UpsertAllValid(store, upsert, env.mintUid);
    DeleteAllValid(written, env, org, delete);
    DeleteAllSpec(written, env, org, delete);
    UpsertAllIds(store, upsert, env.mintUid);
    forall j | 0 <= j < |upsert| && upsert[j].existing.Some?
      ensures upsert[j].desired.id < store.nextId
    {
      var x :| x in store.rows && x.id == upsert[j].desired.id;
    }
    forall i | 0 <= i < |upsert| && upsert[i].existing.None?
      ensures CreatedRow(store, upsert, env.mintUid, i) in written.rows
      ensures CreationId(store, upsert, i) < written.nextId
    {
      UpsertAllCreates(store, upsert, env.mintUid, i);
      CountNewSplit(upsert, i);
      assert CountNew(upsert[i..]) >= 1;
    }
  }

  /** A created row is the submitted rule as stored, under a UID that no deletion
      of the same request carries: a submitted UID is never deleted, and a minted
      one is carried by no stored rule. */
  lemma CreationFacts(store: Store, mintUid: int -> Uid, submitted: seq<AlertRule>,
                      upsert: seq<UpsertRule>, delete: seq<AlertRule>)
    requires MintsFresh(store, mintUid)
    requires |upsert| == |submitted|
    requires forall i :: 0 <= i < |submitted| && upsert[i].existing.None? ==>
               upsert[i].desired == submitted[i].(version := 1)
    requires forall d :: d in delete ==> d in store.rows && d.uid !in SubmittedUids(submitted)
    ensures forall i :: 0 <= i < |submitted| && upsert[i].existing.None? ==>
              && CreatedRow(store, upsert, mintUid, i) == StoredAs(submitted[i], CreationId(store, upsert, i), mintUid)
              && CreatedRow(store, upsert, mintUid, i).uid !in UidsOf(delete)
  {
    forall i | 0 <= i < |submitted| && upsert[i].existing.None?
      ensures CreatedRow(store, upsert, mintUid, i) == StoredAs(submitted[i], CreationId(store, upsert, i), mintUid)
      ensures CreatedRow(store, upsert, mintUid, i).uid !in UidsOf(delete)
    {
      assert submitted[i] in submitted;
    }
  }

  /** The commit, stated on the upserts and deletions alone. */
  lemma CreationsKept(store: Store, env: Env, org: int, submitted: seq<AlertRule>,
                      upsert: seq<UpsertRule>, delete: seq<AlertRule>, after: Store)
    requires ValidStore(store) && MintsFresh(store, env.mintUid)
    requires DeleteAll(UpsertAll(store, upsert, env.mintUid), env, org, delete) == Ok(after)
    requires |upsert| == |submitted|
    requires forall j :: 0 <= j < |upsert| && upsert[j].existing.Some? ==> HasId(store.rows, upsert[j].desired.id)
    requires forall i :: 0 <= i < |submitted| && upsert[i].existing.None? ==>
               upsert[i].desired == submitted[i].(version := 1)
    requires forall d :: d in delete ==> d in store.rows && d.uid !in SubmittedUids(submitted)
    ensures ValidStore(after)
    ensures forall i :: 0 <= i < |submitted| && upsert[i].existing.None? ==>
              && store.nextId <= CreationId(store, upsert, i) < after.nextId
              && StoredAs(submitted[i], CreationId(store, upsert, i), env.mintUid) in after.rows
  {
    CreationFacts(store, env.mintUid, submitted, upsert, delete);
    CommitCreations(store, env, org, upsert, delete, after);
  }

  /** Every update of a request rewrites a row the table holds. */
  lemma UpdatesRewriteStoredRows(store: Store, env: Env, org: int, namespaceUid: string, ruleGroup: string,
                                 submitted: seq<AlertRule>, ch: RuleChanges)
    requires ChangesFor(store, env, org, namespaceUid, ruleGroup, submitted) == Ok(ch)
    requires |ch.upsert| == |submitted|
    ensures forall j :: 0 <= j < |ch.upsert| && ch.upsert[j].existing.Some? ==> HasId(store.rows, ch.upsert[j].desired.id)
  {
    forall j | 0 <= j < |ch.upsert| && ch.upsert[j].existing.Some?
      ensures HasId(store.rows, ch.upsert[j].desired.id)
    {
      UpdateEntryFacts(store, env, org, namespaceUid, ruleGroup, submitted, ch, j);
      assert ch.upsert[j].existing.value in store.rows;
    }
  }

  /** A request deletes only stored rows, and none whose UID it submits. */
  lemma DeletionsAreStoredUnsubmitted(store: Store, env: Env, org: int, namespaceUid: string, ruleGroup: string,
                                      submitted: seq<AlertRule>, ch: RuleChanges)
    requires ChangesFor(store, env, org, namespaceUid, ruleGroup, submitted) == Ok(ch)
    ensures forall d :: d in ch.delete ==> d in store.rows && d.uid !in SubmittedUids(submitted)
  {
    DeleteIsUnmatchedRemainder(GroupQuery(store, env, org, namespaceUid, ruleGroup), UidLookup(store, env, org),
                               ruleGroup, submitted);
  }

  /** After a commit on a table that keeps its invariant, every created rule is in
      the table at version 1, under a storage ID no row had before, with its
      submitted UID or, without one, a UID minted for that ID; and the table still
      keeps its invariant. */
  lemma CommitStoresCreations(store: Store, env: Env, org: int, namespaceUid: string, ruleGroup: string,
                              submitted: seq<AlertRule>)
    requires ValidStore(store) && MintsFresh(store, env.mintUid)
    requires UpdateAlertRulesInGroup(store, env, org, namespaceUid, ruleGroup, submitted).status == Accepted
    ensures ChangesFor(store, env, org, namespaceUid, ruleGroup, submitted).Ok?
    ensures |ChangesFor(store, env, org, namespaceUid, ruleGroup, submitted).value.upsert| == |submitted|
    ensures var ch := ChangesFor(store, env, org, namespaceUid, ruleGroup, submitted).value;
            var after := UpdateAlertRulesInGroup(store, env, org, namespaceUid, ruleGroup, submitted).store;
            && ValidStore(after)
            && forall i :: 0 <= i < |submitted| && ch.upsert[i].existing.None? ==>
                 && store.nextId <= CreationId(store, ch.upsert, i) < after.nextId
                 && StoredAs(submitted[i], CreationId(store, ch.upsert, i), env.mintUid) in after.rows
  {
    Committed(store, env, org, namespaceUid, ruleGroup, submitted);
    var ch := ChangesFor(store, env, org, namespaceUid, ruleGroup, submitted).value;
    CreationShape(GroupQuery(store, env, org, namespaceUid, ruleGroup), UidLookup(store, env, org),
                  ruleGroup, submitted);
    DeletionsAreStoredUnsubmitted(store, env, org, namespaceUid, ruleGroup, submitted, ch);
    UpdatesRewriteStoredRows(store, env, org, namespaceUid, ruleGroup, submitted, ch);
    var after := UpdateAlertRulesInGroup(store, env, org, namespaceUid, ruleGroup, submitted).store;
    assert DeleteAll(UpsertAll(store, ch.upsert, env.mintUid), env, org, ch.delete) == Ok(after);
    CreationsKept(store, env, org, submitted, ch.upsert, ch.delete, after);
  }
}
