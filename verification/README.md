# Alert rule-group reconciliation of the Grafana ruler API

This project models the core of the ruler API of Grafana's unified alerting, in
`pkg/services/ngalert/api/api_ruler.go`:

- **`calculateChanges`** compares the rules a client submits for one rule group with
  the rules stored for that group. It returns a `RuleChanges` value:
  - one upsert per submitted rule, each a creation or an update of an existing rule;
  - the group rules to delete;
  - the number of creations.

  Submitted UIDs are matched first against the rules of the group. Failing that, they
  are looked up across the organisation, so a rule can move from another group.
- **`updateAlertRulesInGroup`** does its work inside one transaction:
  1. calculate the changes;
  2. write the upserts;
  3. delete the leftover rules;
  4. only when rules are created, ask the quota service.

  Any error rolls everything back. The error is answered with 404, 400, 403 or 500,
  chosen by the sentinel at the root of the error chain. Only after a commit is the
  scheduler told about updated and deleted rules.
- **The read routes** `RouteGetNamespaceRulesConfig` and `RouteGetRulesConfig` fold
  stored rules into one configuration per rule group. The organisation-wide route
  files each group under its folder title. It skips rules whose namespace the caller
  cannot see.

## Files

- `errors.dfy` (`Errors`):
  - sentinel errors and `%w` wrapping;
  - `errors.Is`;
  - the status class of a failed update.
- `rules.dfy` (`Rules`): the alert rule and the scheduler's rule key.
- `changes.dfy` (`Changes`):
  - `calculateChanges` as a fold over the submitted rules;
  - a pointwise reference definition of the fold;
  - the properties of the diff.
- `ruler.dfy` (`Ruler`):
  - the rule store as a value;
  - the transaction;
  - the response and the trace of scheduler calls.
- `grouping.dfy` (`Grouping`): the folds of the two read routes.

## Modelling choices

- **Collaborators.** The store, the quota service and the UID generator are outside
  the model, so their answers are parameters. `Env` holds the faults (including a
  failing commit), the quota answer and the UID minting function.
  - The organisation-wide UID lookup is a function `Uid -> Result<AlertRule>`.
  - An error whose chain holds `ErrAlertRuleNotFound` means "absent".
- **The store.** The store is a sequence of rows plus the next storage ID.
  - An upsert with an existing rule overwrites the row with the same ID.
  - An upsert without one appends a row with a fresh ID. It gets a minted UID when
    none was submitted.
  - The store's own implementation is not part of this model. These write
    semantics are the assumption that `CommitEffects` rests on.
  - `ValidStore` is the table's invariant: every row's ID is below the next ID, and
    no two rows share an ID. `MintsFresh` says the UID generator never mints, for a
    fresh ID, a UID a stored row already carries. `CommitStoresCreations` assumes
    both of the table before the request and proves the invariant of the table after.
- **The commit.** `InTransaction` can fail to commit after its callback returned.
  `Env.commitFault` is that failure; it rolls back like any other.
- **Deletion order.** The source ranges over a Go map to build the deletion list, so
  its order is unspecified. The model lists the deletions in query order. Its
  contracts state only which rules are deleted, each exactly once.
- **Configurations per namespace.** For the same reason, the configurations filed
  under a namespace title are a set.
- **Duplicate submitted UIDs.** When a submission carries a UID twice, the first
  occurrence takes the group rule out of the index. The later ones go to the
  organisation-wide lookup, exactly as the loop does.

## Model

| member | source | states |
|---|---|---|
| Errors.StatusOf | pkg/services/ngalert/api/api_ruler.go:298-307 | a failed update is answered 404 exactly when the error chain's root is rule-not-found, 400 exactly for failed validation, 403 exactly for quota reached, 500 for anything else |
| Errors.IsFindsRoot | pkg/services/ngalert/api/api_ruler.go:299-303 | `errors.Is` through any number of `%w` wrappings answers yes exactly for the root sentinel |
| Changes.IndexKeepsLastOccurrence | pkg/services/ngalert/api/api_ruler.go:382-385 | the UID index of the group holds, for each UID, the last rule of the query result carrying it |
| Changes.CalculateChanges | pkg/services/ngalert/api/api_ruler.go:371-437 | the diff itself; its contract is carried by `Changes.CalculateChangesFailsIff` and `Changes.CalculateChangesSpec` |
| Changes.Resolve | pkg/services/ngalert/api/api_ruler.go:393-405 | how one submitted UID is matched; its contract is carried by `Changes.CreationIff`, `Changes.GroupMatchIsUpdate`, `Changes.LookupMatchIsMove` and `Changes.LookupFailureAborts` |
| Changes.EntryFor | pkg/services/ngalert/api/api_ruler.go:408-424 | the upsert built from a match; its contract is carried by `Changes.CreationIff` and `Changes.GroupMatchIsUpdate` |
| Changes.CalculateChangesFailsIff | pkg/services/ngalert/api/api_ruler.go:377-403 | the diff fails when the group query fails (same root error); otherwise it fails exactly when some submitted rule's lookup fails with an error other than not-found, and reports the first such error |
| Changes.CalculateChangesSpec | pkg/services/ngalert/api/api_ruler.go:371-437 | on success: one upsert per submitted rule in submission order, each equal to what the pointwise reference resolves for that rule; the creation count counts the upserts without an existing rule; the deletions are exactly the group rules whose UID was not submitted, with no UID twice |
| Changes.CreationIff | pkg/services/ngalert/api/api_ruler.go:391-416 | an upsert has no existing rule exactly when the submitted UID is empty, or it is not matched in the group and the lookup says not-found; such an entry is the submitted rule at version 1 |
| Changes.GroupMatchIsUpdate | pkg/services/ngalert/api/api_ruler.go:393-424 | a submitted rule matching a group rule updates it: the group rule is the existing one, its ID is carried over and its version bumped by one, unconditionally |
| Changes.LookupMatchIsMove | pkg/services/ngalert/api/api_ruler.go:398-424 | a UID not matched in the group but found by the organisation-wide lookup is an update of the rule found, not a creation |
| Changes.LookupFailureAborts | pkg/services/ngalert/api/api_ruler.go:400-403 | a lookup failing for any reason other than not-found makes the whole diff fail |
| Changes.DeleteIsUnmatchedRemainder | pkg/services/ngalert/api/api_ruler.go:382-430 | a rule is deleted exactly when it is the group's rule for its UID and no submitted rule carries that UID |
| Changes.NewRulesCountsCreations | pkg/services/ngalert/api/api_ruler.go:387-426 | the upserts are as many as the submitted rules; the creation count is at most that, and zero exactly when every upsert updates an existing rule |
| Changes.UpdateEntryShape | pkg/services/ngalert/api/api_ruler.go:393-424 | an update's existing rule is the group rule with the submitted UID or the rule the lookup found under it; that UID is set and is not deleted |
| Changes.NightlyExample | pkg/services/ngalert/api/api_ruler.go:371-437 | group `nightly` with r1 (v3) and r2 (v1), submitted an edited r1 and a rule without UID: r1 is updated to v4 under its ID, the new rule is created at v1, r2 is deleted, one creation |
| Ruler.UpdateAlertRulesInGroup | pkg/services/ngalert/api/api_ruler.go:260-326 | the response is 202 exactly when the transaction succeeds; otherwise its status is one of 400/403/404/500, the store is unchanged and nothing is sent to the scheduler |
| Ruler.Transaction | pkg/services/ngalert/api/api_ruler.go:264-296 | the transaction body and its commit; its contract is carried by `Ruler.AcceptedIff`, `Ruler.EveryFailureRollsBack`, `Ruler.DeleteFailureRollsBack` and `Ruler.CommitEffects` |
| Ruler.AcceptedIff | pkg/services/ngalert/api/api_ruler.go:264-296 | a request is accepted exactly when the diff succeeds, the upsert succeeds, no deletion fails, either nothing is created or the quota service allows it, and the commit succeeds |
| Ruler.EveryFailureRollsBack | pkg/services/ngalert/api/api_ruler.go:264-307 | a failing diff, upsert, quota query or commit each leave the store as it was, send no scheduler call, and answer with the status class of the collaborator's error |
| Ruler.DeleteFailureRollsBack | pkg/services/ngalert/api/api_ruler.go:264-307 | when a deletion fails after the upserts, the upserts are rolled back with it: the store is as it was, no scheduler call is sent, and the status is the class of a failing deletion's error |
| Ruler.QuotaOnlyForCreations | pkg/services/ngalert/api/api_ruler.go:283-294 | when nothing is created, the quota service's answer makes no difference to the response |
| Ruler.QuotaLimitRefusesWholeBatch | pkg/services/ngalert/api/api_ruler.go:283-305 | when rules are created and the limit is reached, a request that would otherwise commit is refused with 403, keeping none of its updates or deletions |
| Ruler.DeleteAll | pkg/services/ngalert/api/api_ruler.go:277-281 | the delete loop; its contract is carried by `Ruler.DeleteAllSpec` |
| Ruler.DeleteAllSpec | pkg/services/ngalert/api/api_ruler.go:277-281 | the delete loop succeeds exactly when no deletion fails, then removes exactly the organisation's rows with a deleted UID; on failure the error has the root of a failing deletion |
| Ruler.UpdateEntryFacts | pkg/services/ngalert/api/api_ruler.go:391-424 | in a request, an update's existing rule is a stored row with the submitted (non-empty) UID, rewritten with its ID and next version; that UID is not deleted |
| Ruler.NotifiesUpdatesThenDeletes | pkg/services/ngalert/api/api_ruler.go:309-323 | after a commit the scheduler gets the update calls, then the delete calls; there is one update per submitted rule that replaced an existing rule (as many as the submitted rules minus the creations), keyed by the submitted UID, and none for creations |
| Ruler.CommitEffects | pkg/services/ngalert/api/api_ruler.go:272-281 | after a commit no organisation row keeps a deleted UID; each update not overwritten by a later one is stored with the submitted UID and the bumped version; other rows neither rewritten nor deleted stay; each creation uses one storage ID |
| Ruler.CommitStoresCreations | pkg/services/ngalert/api/api_ruler.go:272-296 | on a table keeping its invariant, after a commit every created rule is stored at version 1 under a storage ID no row had before, with its submitted UID or, without one, a UID minted for that ID; the table after the commit keeps the invariant |
| Ruler.CommitCreations | pkg/services/ngalert/api/api_ruler.go:272-281 | upserting then deleting keeps the table's invariant and keeps every appended row whose UID no deletion carries |
| Ruler.Notifications | pkg/services/ngalert/api/api_ruler.go:309-323 | the scheduler calls after a commit; their contract is carried by `Ruler.NotifiesUpdatesThenDeletes` |
| Ruler.UpdatesFor | pkg/services/ngalert/api/api_ruler.go:309-316 | the update calls; their contract is carried by `Ruler.UpdatesForSpec` |
| Ruler.UpdatesForSpec | pkg/services/ngalert/api/api_ruler.go:309-316 | the update calls are as many as the upserts with an existing rule and are keyed by those rules' UIDs |
| Grouping.GroupNodes | pkg/services/ngalert/api/api_ruler.go:104-120 | the grouping fold; its contract is carried by `Grouping.GroupNodesSpec` and `Grouping.GroupingValues` |
| Grouping.GroupNodesSpec | pkg/services/ngalert/api/api_ruler.go:104-120 | the fold opens one configuration per group name present; each holds that group's rules in input order and the interval of the first of them |
| Grouping.NamesAreDistinct | pkg/services/ngalert/api/api_ruler.go:103-120 | configurations are keyed by their name, so no two share a name |
| Grouping.GroupingValues | pkg/services/ngalert/api/api_ruler.go:104-124 | the configurations produced are exactly the expected configurations of the groups present; there are none only for an empty input |
| Grouping.NamespaceRulesConfig | pkg/services/ngalert/api/api_ruler.go:99-126 | the namespace route; its contract is carried by `Grouping.NamespaceConfigSpec` |
| Grouping.NamespaceConfigSpec | pkg/services/ngalert/api/api_ruler.go:99-126 | the namespace route answers 500 exactly when the store fails; otherwise 202 with the title as the only key, present only when there are rules, holding one configuration per group present |
| Grouping.OrgConfigs | pkg/services/ngalert/api/api_ruler.go:200-236 | the organisation-wide fold; its contract is carried by `Grouping.OrgConfigsSpec` |
| Grouping.OrgBody | pkg/services/ngalert/api/api_ruler.go:236-241 | the organisation-wide body; its contract is carried by `Grouping.OrgBodySpec` |
| Grouping.OrgConfigsSpec | pkg/services/ngalert/api/api_ruler.go:200-236 | the organisation-wide fold has an entry for a title exactly when some visible rule's folder carries it, and that entry is the grouping of that title's visible rules |
| Grouping.OrgBodySpec | pkg/services/ngalert/api/api_ruler.go:200-241 | the organisation-wide body lists under each such title exactly the configurations of that title's visible rules |
| Grouping.OrgRulesConfig | pkg/services/ngalert/api/api_ruler.go:163-243 | the organisation-wide route answers 200 exactly when the folders are listed and either none is visible (empty body) or the panel filter is well formed and the store answers; 500 for a failing folder listing or store, 400 otherwise; on success the body is the grouping by title |
| Grouping.InvisibleRulesDropped | pkg/services/ngalert/api/api_ruler.go:201-206 | a rule whose namespace is not among the visible folders appears in no configuration |

## Left out

- HTTP plumbing is not modelled: request parsing, `response.JSON`, `ErrResp` messages and `toNamespaceErrorResponse`. Neither is the JSON shape built by `toGettableExtendedRuleNode`, where a rule node is the rule plus its folder ID. These are transport, not logic.
- Namespace resolution is not modelled. `GetNamespaceByTitle` and `GetNamespaces` are outside this model; their answers are inputs.
- `validateRuleGroup` and the condition validator are not modelled. Validation happens before `updateAlertRulesInGroup`. Its failures appear only as the 400 status class of `AlertRuleFailedValidation`.
- The store's SQL is replaced by a value store. The store implementation (the `store` package) is not part of this model. Its query filters by dashboard and panel are not modelled, so the organisation-wide query's answer is an input.
- The quota service is an oracle answering allowed, limit reached, or an error.
- Logging is not modelled: the organisation-wide route's `srv.log.Error` for a rule in a namespace the caller cannot see (line 204) and its `srv.log.Debug` when no folder is visible (line 171). Neither changes the response.
- The commit's failure is a parameter (`Env.commitFault`); the database's reasons for it are outside this model.
- Ruler.CommitStoresCreations: assumes `ValidStore` and `MintsFresh` of the table before the request; the store implementation that would guarantee them is not part of this model.
- The scheduler is reduced to the trace of update and delete calls it receives.
- `time.Duration` and `model.Duration` interval conversion is not modelled; intervals stay in integer seconds.
- The `Updated` timestamp is not modelled.
- The building of `namespaceUIDs` in `RouteGetRulesConfig` (lines 175-178) is left out. It is query plumbing, and its leading empty strings do not change which rules are returned for visible folders.
- Idempotence of resubmission is not modelled, because the source does not provide it: the version is bumped on every match.
- Concurrency and isolation between simultaneous transactions are not modelled. One request is modelled at a time, and its transaction is all-or-nothing.
- The delete routes (lines 40-86) and `RouteGetRulegGroupConfig` (lines 129-161) are not modelled. They are separate endpoints outside the rule-group update and the two grouping folds.
- Ruler.DeleteAll: the error context omits the rule's storage ID that the source prints. Only the root and status of the error are relied on.
- Changes.Deletions: the order is fixed to query order, where the source's order is Go map iteration order. Only membership and distinctness are stated.
- Grouping.NamespaceBody: the configurations are a set rather than a sequence, because the source appends them in map iteration order.
- The other files of the repository (chats, query history, ACL) hold no logic belonging to this reconciliation.

## Notes on the source

- The deletions are built as a slice by ranging over a map, so no UID repeats and only
  the order is unspecified; `Changes.CalculateChangesSpec` proves that no UID is
  deleted twice.
- The organisation-wide route keys its result by folder title, not by folder UID. Two
  visible folders with the same title therefore share one entry, and their groups
  merge by name. The model keeps this: see `Grouping.OrgConfigsSpec`.
- The namespace route answers a successful read with 202, not 200. The model keeps the
  source's status.
