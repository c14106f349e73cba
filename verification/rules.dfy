/**
 * The alert rule entity as the reconciliation handles it. Only identity,
 * placement, interval and version take part in the logic; the rest of the
 * definition is carried along unchanged.
 */
module Rules {

  /** A rule's stable identifier; the empty string means "not yet created". */
  type Uid = string

  /** The key the scheduler's registry uses: organisation and rule UID. */
  datatype AlertRuleKey = AlertRuleKey(orgId: int, uid: Uid)

  /** Everything about a rule that the reconciliation copies without looking at it. */
  datatype Definition = Definition(
    title: string,
    condition: string,
    data: seq<string>,
    forSeconds: int,
    annotations: map<string, string>,
    labels: map<string, string>,
    noDataState: string,
    execErrState: string)

  datatype AlertRule = AlertRule(
    id: int,                 // storage key, assigned by the store on insert
    orgId: int,
    uid: Uid,
    namespaceUid: string,
    ruleGroup: string,
    intervalSeconds: int,
    version: int,
    definition: Definition)
}
