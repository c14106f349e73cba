/**
 * The change calculator of the ruler API (`calculateChanges`): diffs the
 * rules submitted for one (organisation, namespace, group) against the rules
 * stored in that group, falling back to an organisation-wide lookup by UID
 * for rules that are not in the group, and produces the upserts, the
 * deletions and the number of rules being created.
 */
module Changes {
  import opened Errors
  import opened Rules

  /** One write: `existing` is the stored rule being replaced, `None` for a creation;
      `desired` is the rule to store (the source's `New`). */
  datatype UpsertRule = UpsertRule(existing: Option<AlertRule>, desired: AlertRule)

  datatype RuleChanges = RuleChanges(newRules: nat, upsert: seq<UpsertRule>, delete: seq<AlertRule>)

  /** Where a submitted rule's UID resolved to in the two-tier lookup. */
  datatype Match = InGroup(rule: AlertRule) | Elsewhere(rule: AlertRule) | Absent

  /** The organisation-wide point query by UID (`GetAlertRuleByUID`) as an oracle. */
  type Lookup = Uid -> Result<AlertRule>

  /** State of the loop over the submitted rules. */
  datatype Progress = Progress(upsert: seq<UpsertRule>, newRules: nat, leftover: map<Uid, AlertRule>)

  const GroupQueryFailed := "failed to query database for rules in the group "
  const LookupFailed := "failed to query database for an alert rule with UID "

  /** The existing group rules indexed by UID; a later rule with the same UID wins. */
  function IndexByUid(rules: seq<AlertRule>): (index: map<Uid, AlertRule>)
    ensures forall u :: u in index ==> index[u].uid == u && index[u] in rules
  {
    if rules == [] then map[]
    else
      var front, last := rules[..|rules| - 1], rules[|rules| - 1];
      assert rules == front + [last];
      IndexByUid(front)[last.uid := last]
  }

  /** Every rule of the query result has its UID indexed. */
  lemma {:induction false} IndexCoversRules(rules: seq<AlertRule>)
    ensures forall i :: 0 <= i < |rules| ==> rules[i].uid in IndexByUid(rules)
    decreases |rules|
  {
    if rules != [] {
      var front := rules[..|rules| - 1];
      IndexCoversRules(front);
      assert forall i :: 0 <= i < |front| ==> rules[i] == front[i];
    }
  }

  /** The index keeps, for each UID, the last rule of the query result carrying it. */
  lemma {:induction false} IndexKeepsLastOccurrence(rules: seq<AlertRule>, i: nat)
    requires i < |rules|
    requires forall j :: i < j < |rules| ==> rules[j].uid != rules[i].uid
    ensures rules[i].uid in IndexByUid(rules)
    ensures IndexByUid(rules)[rules[i].uid] == rules[i]
  {
    if i < |rules| - 1 {
      var front := rules[..|rules| - 1];
      IndexKeepsLastOccurrence(front, i);
    }
  }

  /** The two-tier lookup of one submitted rule against the current group index. */
  function Resolve(index: map<Uid, AlertRule>, lookup: Lookup, r: AlertRule): Result<Match>
  {
    if r.uid == "" then Ok(Absent)
    else if r.uid in index then Ok(InGroup(index[r.uid]))
    else
      match lookup(r.uid)
      case Ok(found) => Ok(Elsewhere(found))
      case Err(e) =>
        if Is(e, AlertRuleNotFound) then Ok(Absent)
        else Err(Wrapped(LookupFailed + r.uid, e))
  }

  /** The upsert entry for a submitted rule: version 1 for a creation; for an
      update the stored ID is carried over and the version bumped, unconditionally. */
  function EntryFor(m: Match, r: AlertRule): UpsertRule
  {
    if m.Absent? then UpsertRule(None, r.(version := 1))
    else UpsertRule(Some(m.rule), r.(id := m.rule.id, version := m.rule.version + 1))
  }

  /** The group index after a rule resolved to `m`: a rule found in the group is
      taken out of the index so that it is not deleted afterwards. */
  function Advance(index: map<Uid, AlertRule>, m: Match, r: AlertRule): map<Uid, AlertRule>
  {
    if m.InGroup? then index - {r.uid} else index
  }

  /** The loop over the submitted rules, in submission order. */
  function Reconcile(index: map<Uid, AlertRule>, lookup: Lookup, submitted: seq<AlertRule>): Result<Progress>
    decreases |submitted|
  {
    if submitted == [] then Ok(Progress([], 0, index))
    else
      var r := submitted[0];
      match Resolve(index, lookup, r)
      case Err(e) => Err(e)
      case Ok(m) =>
        match Reconcile(Advance(index, m, r), lookup, submitted[1..])
        case Err(e) => Err(e)
        case Ok(p) =>
          Ok(Progress([EntryFor(m, r)] + p.upsert,
                      if m.Absent? then p.newRules + 1 else p.newRules,
                      p.leftover))
  }

  /** The leftover group rules as a sequence. The source ranges over a map, so its
      order is unspecified; here it follows the query result, last occurrence first
      seen from the back, and only the set of rules is promised. */
  function Deletions(existing: seq<AlertRule>, leftover: map<Uid, AlertRule>): seq<AlertRule>
    decreases |existing|
  {
    if existing == [] then []
    else
      var front, last := existing[..|existing| - 1], existing[|existing| - 1];
      if last.uid in leftover then Deletions(front, leftover - {last.uid}) + [last]
      else Deletions(front, leftover)
  }

  /** `calculateChanges`, given the answer of the group query and the UID lookup. */
  function CalculateChanges(groupQuery: Result<seq<AlertRule>>, lookup: Lookup, ruleGroup: string,
                            submitted: seq<AlertRule>): Result<RuleChanges>
  {
    match groupQuery
    case Err(e) => Err(Wrapped(GroupQueryFailed + ruleGroup, e))
    case Ok(existing) =>
      match Reconcile(IndexByUid(existing), lookup, submitted)
      case Err(e) => Err(e)
      case Ok(p) => Ok(RuleChanges(p.newRules, p.upsert, Deletions(existing, p.leftover)))
  }

  // ---------------------------------------------------------------------------
  // Reference definitions: what the loop computes, stated per submitted rule.
  // ---------------------------------------------------------------------------

  /** The non-empty UIDs among some submitted rules. */
  function SubmittedUids(rules: seq<AlertRule>): set<Uid>
  {
    set r | r in rules && r.uid != "" :: r.uid
  }

  /** The group index as the i-th submitted rule sees it: every UID submitted
      earlier has been taken out of it. */
  function GroupIndexAt(index: map<Uid, AlertRule>, submitted: seq<AlertRule>, i: nat): map<Uid, AlertRule>
    requires i <= |submitted|
  {
    index - SubmittedUids(submitted[..i])
  }

  function ResolveAt(index: map<Uid, AlertRule>, lookup: Lookup, submitted: seq<AlertRule>, i: nat): Result<Match>
    requires i < |submitted|
  {
    Resolve(GroupIndexAt(index, submitted, i), lookup, submitted[i])
  }

  /** The number of creations among some upserts. */
  function CountNew(upsert: seq<UpsertRule>): nat
  {
    if upsert == [] then 0
    else (if upsert[0].existing.None? then 1 else 0) + CountNew(upsert[1..])
  }

  predicate SubMap(m: map<Uid, AlertRule>, n: map<Uid, AlertRule>)
  {
    forall u :: u in m ==> u in n && m[u] == n[u]
  }

  // ---------------------------------------------------------------------------
  // Proofs.
  // ---------------------------------------------------------------------------

  lemma SubmittedUidsCons(r: AlertRule, rest: seq<AlertRule>)
    ensures SubmittedUids([r] + rest) == (if r.uid != "" then {r.uid} else {}) + SubmittedUids(rest)
  {
    var s := [r] + rest;
    forall u | u in SubmittedUids(s)
      ensures u in (if r.uid != "" then {r.uid} else {}) + SubmittedUids(rest)
    {
      var x :| x in s && x.uid != "" && x.uid == u;
      if x != r {
        assert x in rest;
      }
    }
  }

  /** One step of the loop moves the pointwise index along by one rule. */
  lemma StepIndex(index: map<Uid, AlertRule>, submitted: seq<AlertRule>, m: Match, k: nat)
    requires |submitted| > 0 && k < |submitted|
    requires m.InGroup? <==> submitted[0].uid != "" && submitted[0].uid in index
    ensures GroupIndexAt(index, submitted, k + 1) == GroupIndexAt(Advance(index, m, submitted[0]), submitted[1..], k)
  {
    var r := submitted[0];
    assert submitted[..k + 1] == [r] + submitted[1..][..k];
    SubmittedUidsCons(r, submitted[1..][..k]);
  }

  /** After the first rule has resolved to `m`, the rest of the loop sees the same
      pointwise indexes, shifted by one, and leaves the same leftover. */
  lemma ShiftByOne(index: map<Uid, AlertRule>, lookup: Lookup, submitted: seq<AlertRule>, m: Match)
    requires |submitted| > 0
    requires Resolve(index, lookup, submitted[0]) == Ok(m)
    ensures ResolveAt(index, lookup, submitted, 0) == Ok(m)
    ensures forall k :: 0 <= k < |submitted| - 1 ==>
              ResolveAt(index, lookup, submitted, k + 1) == ResolveAt(Advance(index, m, submitted[0]), lookup, submitted[1..], k)
    ensures index - SubmittedUids(submitted) == Advance(index, m, submitted[0]) - SubmittedUids(submitted[1..])
  {
    assert submitted[..0] == [];
    assert SubmittedUids(submitted[..0]) == {};
    assert GroupIndexAt(index, submitted, 0) == index;
    var rest := submitted[1..];
    forall k | 0 <= k < |rest|
      ensures ResolveAt(index, lookup, submitted, k + 1) == ResolveAt(Advance(index, m, submitted[0]), lookup, rest, k)
    {
      StepIndex(index, submitted, m, k);
    }
    StepIndex(index, submitted, m, |rest|);
    assert rest[..|rest|] == rest;
    assert submitted[..|rest| + 1] == submitted;
  }

  /** The loop succeeds exactly when every submitted rule resolves. */
  lemma {:induction false} ReconcileSucceedsIff(index: map<Uid, AlertRule>, lookup: Lookup, submitted: seq<AlertRule>)
    ensures Reconcile(index, lookup, submitted).Ok?
            <==> forall i :: 0 <= i < |submitted| ==> ResolveAt(index, lookup, submitted, i).Ok?
    decreases |submitted|
  {
    if submitted != [] {
      match Resolve(index, lookup, submitted[0])
      case Err(e) =>
        assert submitted[..0] == [] && SubmittedUids(submitted[..0]) == {};
        assert ResolveAt(index, lookup, submitted, 0).Err?;
      case Ok(m) =>
        ShiftByOne(index, lookup, submitted, m);
        ReconcileSucceedsIff(Advance(index, m, submitted[0]), lookup, submitted[1..]);
        if forall i :: 0 <= i < |submitted| ==> ResolveAt(index, lookup, submitted, i).Ok? {
          assert forall k :: 0 <= k < |submitted| - 1 ==>
                   ResolveAt(Advance(index, m, submitted[0]), lookup, submitted[1..], k).Ok? by {
            forall k | 0 <= k < |submitted| - 1
              ensures ResolveAt(Advance(index, m, submitted[0]), lookup, submitted[1..], k).Ok?
            {
              assert ResolveAt(index, lookup, submitted, k + 1).Ok?;
            }
          }
        } else {
          var i :| 0 <= i < |submitted| && ResolveAt(index, lookup, submitted, i).Err?;
          assert i > 0;
          assert ResolveAt(Advance(index, m, submitted[0]), lookup, submitted[1..], i - 1).Err?;
        }
    }
  }

  /** On success the loop yields one entry per submitted rule, in submission order,
      counts the creations, and leaves in the index exactly the UIDs nobody submitted. */
  lemma {:induction false} ReconcileEntries(index: map<Uid, AlertRule>, lookup: Lookup, submitted: seq<AlertRule>)
    requires Reconcile(index, lookup, submitted).Ok?
    ensures var p := Reconcile(index, lookup, submitted).value;
            && |p.upsert| == |submitted|
            && (forall i :: 0 <= i < |submitted| ==>
                  ResolveAt(index, lookup, submitted, i).Ok? &&
                  p.upsert[i] == EntryFor(ResolveAt(index, lookup, submitted, i).value, submitted[i]))
            && p.newRules == CountNew(p.upsert)
            && p.leftover == index - SubmittedUids(submitted)
    decreases |submitted|
  {
    if submitted == [] {
      assert SubmittedUids(submitted) == {};
    } else {
      var m := Resolve(index, lookup, submitted[0]).value;
      var rest := submitted[1..];
      var index' := Advance(index, m, submitted[0]);
      ShiftByOne(index, lookup, submitted, m);
      ReconcileEntries(index', lookup, rest);
      var p := Reconcile(index', lookup, rest).value;
      var q := Reconcile(index, lookup, submitted).value;
      assert q.upsert == [EntryFor(m, submitted[0])] + p.upsert;
      forall i | 0 <= i < |submitted|
        ensures ResolveAt(index, lookup, submitted, i).Ok?
        ensures q.upsert[i] == EntryFor(ResolveAt(index, lookup, submitted, i).value, submitted[i])
      {
        if i > 0 {
          assert q.upsert[i] == p.upsert[i - 1];
          assert ResolveAt(index, lookup, submitted, i) == ResolveAt(index', lookup, rest, i - 1);
        }
      }
      assert q.upsert[1..] == p.upsert;
    }
  }

  /** On failure the loop reports the error of the first rule that failed to resolve. */
  lemma {:induction false} ReconcileFirstError(index: map<Uid, AlertRule>, lookup: Lookup, submitted: seq<AlertRule>)
    requires Reconcile(index, lookup, submitted).Err?
    ensures exists i :: 0 <= i < |submitted|
              && (forall j :: 0 <= j < i ==> ResolveAt(index, lookup, submitted, j).Ok?)
              && ResolveAt(index, lookup, submitted, i) == Err(Reconcile(index, lookup, submitted).error)
    decreases |submitted|
  {
    assert submitted[..0] == [] && SubmittedUids(submitted[..0]) == {};
    match Resolve(index, lookup, submitted[0])
    case Err(e) =>
      assert ResolveAt(index, lookup, submitted, 0) == Err(e);
    case Ok(m) =>
      var rest := submitted[1..];
      var index' := Advance(index, m, submitted[0]);
      ShiftByOne(index, lookup, submitted, m);
      ReconcileFirstError(index', lookup, rest);
      var e := Reconcile(index', lookup, rest).error;
      var i :| 0 <= i < |rest|
            && (forall j :: 0 <= j < i ==> ResolveAt(index', lookup, rest, j).Ok?)
            && ResolveAt(index', lookup, rest, i) == Err(e);
      assert ResolveAt(index, lookup, submitted, i + 1) == Err(e);
      forall j | 0 <= j < i + 1
        ensures ResolveAt(index, lookup, submitted, j).Ok?
      {
        if j > 0 {
          assert ResolveAt(index', lookup, rest, j - 1).Ok?;
        }
      }
  }

  /** Taking one key out of a map takes exactly its value out of the values,
      when no other key shares that value's UID. */
  lemma ValuesWithout(leftover: map<Uid, AlertRule>, u: Uid)
    requires u in leftover
    requires forall k :: k in leftover ==> leftover[k].uid == k
    ensures forall x :: x in leftover.Values <==> x in (leftover - {u}).Values || x == leftover[u]
  {
    var rest := leftover - {u};
    forall x
      ensures x in leftover.Values <==> x in rest.Values || x == leftover[u]
    {
      if x in leftover.Values {
        var k :| k in leftover && leftover[k] == x;
        if k != u {
          assert k in rest && rest[k] == x;
        }
      }
      if x in rest.Values {
        var k :| k in rest && rest[k] == x;
        assert k in leftover && leftover[k] == x;
      }
    }
  }

  /** The deletions are exactly the leftover rules. */
  lemma {:induction false} DeletionsAreLeftover(existing: seq<AlertRule>, leftover: map<Uid, AlertRule>)
    requires SubMap(leftover, IndexByUid(existing))
    ensures forall x :: x in Deletions(existing, leftover) <==> x in leftover.Values
    ensures forall x :: x in Deletions(existing, leftover) ==> x.uid in leftover
    decreases |existing|
  {
    DeletionsAreLeftoverValues(existing, leftover);
    forall x | x in Deletions(existing, leftover)
      ensures x.uid in leftover
    {
      var u :| u in leftover && leftover[u] == x;
      assert IndexByUid(existing)[u].uid == u;
    }
  }

  lemma {:induction false} DeletionsAreLeftoverValues(existing: seq<AlertRule>, leftover: map<Uid, AlertRule>)
    requires SubMap(leftover, IndexByUid(existing))
    ensures forall x :: x in Deletions(existing, leftover) <==> x in leftover.Values
    decreases |existing|
  {
    if existing != [] {
      var front, last := existing[..|existing| - 1], existing[|existing| - 1];
      assert IndexByUid(existing) == IndexByUid(front)[last.uid := last];
      if last.uid in leftover {
        var rest := leftover - {last.uid};
        assert SubMap(rest, IndexByUid(front));
        DeletionsAreLeftoverValues(front, rest);
        assert Deletions(existing, leftover) == Deletions(front, rest) + [last];
        ValuesWithout(leftover, last.uid);
      } else {
        assert SubMap(leftover, IndexByUid(front));
        DeletionsAreLeftoverValues(front, leftover);
        assert Deletions(existing, leftover) == Deletions(front, leftover);
      }
    }
  }

  predicate DistinctUids(rules: seq<AlertRule>)
  {
    forall i, j :: 0 <= i < j < |rules| ==> rules[i].uid != rules[j].uid
  }

  lemma AppendDistinct(rules: seq<AlertRule>, r: AlertRule)
    requires DistinctUids(rules)
    requires forall x :: x in rules ==> x.uid != r.uid
    ensures DistinctUids(rules + [r])
  {
    var d := rules + [r];
    forall i, j | 0 <= i < j < |d|
      ensures d[i].uid != d[j].uid
    {
      assert d[i] == rules[i];
      if j < |rules| {
        assert d[j] == rules[j];
      } else {
        assert rules[i] in rules;
      }
    }
  }

  /** Both ways the deletion walk can step keep the leftover inside the index. */
  lemma SubMapOfFront(existing: seq<AlertRule>, leftover: map<Uid, AlertRule>)
    requires existing != []
    requires SubMap(leftover, IndexByUid(existing))
    ensures var front, last := existing[..|existing| - 1], existing[|existing| - 1];
            && SubMap(leftover - {last.uid}, IndexByUid(front))
            && (last.uid in leftover ==> leftover[last.uid] == last)
  {
  }

  /** No UID is deleted twice. */
  lemma {:induction false} DeletionsDistinct(existing: seq<AlertRule>, leftover: map<Uid, AlertRule>)
    requires SubMap(leftover, IndexByUid(existing))
    ensures DistinctUids(Deletions(existing, leftover))
    decreases |existing|
  {
    if existing != [] {
      var front, last := existing[..|existing| - 1], existing[|existing| - 1];
      SubMapOfFront(existing, leftover);
      var rest := leftover - {last.uid};
      if last.uid in leftover {
        DeletionsDistinct(front, rest);
        DeletionsAreLeftover(front, rest);
        AppendDistinct(Deletions(front, rest), last);
      } else {
        assert rest == leftover;
        DeletionsDistinct(front, leftover);
      }
    }
  }

  /** `calculateChanges` fails exactly when the group query fails or some submitted
      rule's UID lookup fails for a reason other than "not found"; it then reports
      the first such failure. */
  lemma CalculateChangesFailsIff(groupQuery: Result<seq<AlertRule>>, lookup: Lookup, ruleGroup: string,
                                 submitted: seq<AlertRule>)
    ensures groupQuery.Err? ==>
              CalculateChanges(groupQuery, lookup, ruleGroup, submitted).Err?
              && Root(CalculateChanges(groupQuery, lookup, ruleGroup, submitted).error) == Root(groupQuery.error)
    ensures groupQuery.Ok? && CalculateChanges(groupQuery, lookup, ruleGroup, submitted).Ok? ==>
              forall i :: 0 <= i < |submitted| ==> ResolveAt(IndexByUid(groupQuery.value), lookup, submitted, i).Ok?
    ensures groupQuery.Ok? && CalculateChanges(groupQuery, lookup, ruleGroup, submitted).Err? ==>
              exists i :: 0 <= i < |submitted|
                && (forall j :: 0 <= j < i ==> ResolveAt(IndexByUid(groupQuery.value), lookup, submitted, j).Ok?)
                && ResolveAt(IndexByUid(groupQuery.value), lookup, submitted, i)
                   == Err(CalculateChanges(groupQuery, lookup, ruleGroup, submitted).error)
  {
    if groupQuery.Ok? {
      var index := IndexByUid(groupQuery.value);
      ReconcileSucceedsIff(index, lookup, submitted);
      if Reconcile(index, lookup, submitted).Ok? {
        assert CalculateChanges(groupQuery, lookup, ruleGroup, submitted).Ok?;
      } else {
        ReconcileFirstError(index, lookup, submitted);
        assert CalculateChanges(groupQuery, lookup, ruleGroup, submitted)
            == Err(Reconcile(index, lookup, submitted).error);
      }
    }
  }

  /** On success, `calculateChanges` yields one upsert per submitted rule, in order,
      each as the pointwise reference resolves it; it counts the creations; and it
      deletes exactly the group rules whose UID nobody submitted, each once. */
  lemma CalculateChangesSpec(groupQuery: Result<seq<AlertRule>>, lookup: Lookup, ruleGroup: string,
                             submitted: seq<AlertRule>)
    requires CalculateChanges(groupQuery, lookup, ruleGroup, submitted).Ok?
    ensures groupQuery.Ok?
    ensures var index := IndexByUid(groupQuery.value);
            var ch := CalculateChanges(groupQuery, lookup, ruleGroup, submitted).value;
            && |ch.upsert| == |submitted|
            && (forall i :: 0 <= i < |submitted| ==>
                  ResolveAt(index, lookup, submitted, i).Ok? &&
                  ch.upsert[i] == EntryFor(ResolveAt(index, lookup, submitted, i).value, submitted[i]))
            && ch.newRules == CountNew(ch.upsert)
            && (forall x :: x in ch.delete <==> x in (index - SubmittedUids(submitted)).Values)
            && DistinctUids(ch.delete)
  {
    var existing := groupQuery.value;
    var index := IndexByUid(existing);
    var p := Reconcile(index, lookup, submitted).value;
    assert CalculateChanges(groupQuery, lookup, ruleGroup, submitted).value
        == RuleChanges(p.newRules, p.upsert, Deletions(existing, p.leftover));
    ReconcileEntries(index, lookup, submitted);
    assert SubMap(p.leftover, index);
    DeletionsAreLeftover(existing, p.leftover);
    DeletionsDistinct(existing, p.leftover);
  }

  // ---------------------------------------------------------------------------
  // The behaviour of calculateChanges, one submitted rule at a time.
  // ---------------------------------------------------------------------------

  /** The i-th submitted rule matches a rule of the group: its UID is set, the
      group holds it, and no earlier submitted rule carried the same UID (the
      first such rule takes the group rule out of the index). */
  predicate MatchedInGroup(index: map<Uid, AlertRule>, submitted: seq<AlertRule>, i: nat)
    requires i < |submitted|
  {
    && submitted[i].uid != ""
    && submitted[i].uid in index
    && forall j :: 0 <= j < i ==> submitted[j].uid != submitted[i].uid
  }

  lemma MatchedInGroupIff(index: map<Uid, AlertRule>, submitted: seq<AlertRule>, i: nat)
    requires i < |submitted|
    ensures MatchedInGroup(index, submitted, i)
            <==> submitted[i].uid != "" && submitted[i].uid in GroupIndexAt(index, submitted, i)
  {
    var u := submitted[i].uid;
    if u != "" && u in index && u in SubmittedUids(submitted[..i]) {
      var r :| r in submitted[..i] && r.uid != "" && r.uid == u;
      var j :| 0 <= j < i && submitted[..i][j] == r;
    }
    if u != "" && u in index && !MatchedInGroup(index, submitted, i) {
      var j :| 0 <= j < i && submitted[j].uid == u;
      assert submitted[..i][j] == submitted[j];
    }
  }

  /** A submitted rule without a UID, or whose UID is neither in the group nor
      found by the organisation-wide lookup, is a creation: no existing rule,
      version 1, everything else as submitted. Conversely every creation is
      such a rule. */
  lemma CreationIff(groupQuery: Result<seq<AlertRule>>, lookup: Lookup, ruleGroup: string,
                    submitted: seq<AlertRule>, i: nat)
    requires CalculateChanges(groupQuery, lookup, ruleGroup, submitted).Ok?
    requires i < |submitted|
    ensures |CalculateChanges(groupQuery, lookup, ruleGroup, submitted).value.upsert| == |submitted|
    ensures groupQuery.Ok?
    ensures var index := IndexByUid(groupQuery.value);
            var entry := CalculateChanges(groupQuery, lookup, ruleGroup, submitted).value.upsert[i];
            var u := submitted[i].uid;
            entry.existing.None?
            <==> u == "" || (!MatchedInGroup(index, submitted, i) && lookup(u).Err? && Is(lookup(u).error, AlertRuleNotFound))
    ensures var entry := CalculateChanges(groupQuery, lookup, ruleGroup, submitted).value.upsert[i];
            entry.existing.None? ==> entry.desired == submitted[i].(version := 1)
  {
    CalculateChangesSpec(groupQuery, lookup, ruleGroup, submitted);
    MatchedInGroupIff(IndexByUid(groupQuery.value), submitted, i);
  }

  /** Every creation is the submitted rule at version 1, whatever its ID was. */
  lemma CreationShape(groupQuery: Result<seq<AlertRule>>, lookup: Lookup, ruleGroup: string,
                      submitted: seq<AlertRule>)
    requires CalculateChanges(groupQuery, lookup, ruleGroup, submitted).Ok?
    ensures var ch := CalculateChanges(groupQuery, lookup, ruleGroup, submitted).value;
            && |ch.upsert| == |submitted|
            && forall i :: 0 <= i < |submitted| && ch.upsert[i].existing.None? ==>
                 ch.upsert[i].desired == submitted[i].(version := 1)
  {
    CalculateChangesSpec(groupQuery, lookup, ruleGroup, submitted);
  }

  /** A submitted rule that matches a rule of the group updates it in place: that
      rule is the existing one, its storage ID is carried over and the version is
      bumped by one, whether or not anything else changed. */
  lemma GroupMatchIsUpdate(groupQuery: Result<seq<AlertRule>>, lookup: Lookup, ruleGroup: string,
                           submitted: seq<AlertRule>, i: nat)
    requires CalculateChanges(groupQuery, lookup, ruleGroup, submitted).Ok?
    requires i < |submitted|
    requires groupQuery.Ok? && MatchedInGroup(IndexByUid(groupQuery.value), submitted, i)
    ensures |CalculateChanges(groupQuery, lookup, ruleGroup, submitted).value.upsert| == |submitted|
    ensures var stored := IndexByUid(groupQuery.value)[submitted[i].uid];
            var entry := CalculateChanges(groupQuery, lookup, ruleGroup, submitted).value.upsert[i];
            && entry.existing == Some(stored)
            && stored in groupQuery.value
            && entry.desired.id == stored.id
            && entry.desired.version == stored.version + 1
            && entry.desired == submitted[i].(id := stored.id, version := stored.version + 1)
  {
    CalculateChangesSpec(groupQuery, lookup, ruleGroup, submitted);
    MatchedInGroupIff(IndexByUid(groupQuery.value), submitted, i);
  }

  /** A submitted rule whose UID is not (or no longer) in the group but that the
      organisation-wide lookup finds is an update of the rule found, moved into
      this group: not a creation. */
  lemma LookupMatchIsMove(groupQuery: Result<seq<AlertRule>>, lookup: Lookup, ruleGroup: string,
                          submitted: seq<AlertRule>, i: nat, found: AlertRule)
    requires CalculateChanges(groupQuery, lookup, ruleGroup, submitted).Ok?
    requires i < |submitted|
    requires groupQuery.Ok? && !MatchedInGroup(IndexByUid(groupQuery.value), submitted, i)
    requires submitted[i].uid != "" && lookup(submitted[i].uid) == Ok(found)
    ensures |CalculateChanges(groupQuery, lookup, ruleGroup, submitted).value.upsert| == |submitted|
    ensures var entry := CalculateChanges(groupQuery, lookup, ruleGroup, submitted).value.upsert[i];
            && entry.existing == Some(found)
            && entry.desired == submitted[i].(id := found.id, version := found.version + 1)
  {
    CalculateChangesSpec(groupQuery, lookup, ruleGroup, submitted);
    MatchedInGroupIff(IndexByUid(groupQuery.value), submitted, i);
  }

  /** A lookup that fails for any reason other than "not found" makes the whole
      calculation fail. */
  lemma LookupFailureAborts(groupQuery: Result<seq<AlertRule>>, lookup: Lookup, ruleGroup: string,
                            submitted: seq<AlertRule>, i: nat)
    requires i < |submitted|
    requires groupQuery.Ok? && !MatchedInGroup(IndexByUid(groupQuery.value), submitted, i)
    requires submitted[i].uid != "" && lookup(submitted[i].uid).Err?
    requires !Is(lookup(submitted[i].uid).error, AlertRuleNotFound)
    ensures CalculateChanges(groupQuery, lookup, ruleGroup, submitted).Err?
  {
    CalculateChangesFailsIff(groupQuery, lookup, ruleGroup, submitted);
    MatchedInGroupIff(IndexByUid(groupQuery.value), submitted, i);
    assert ResolveAt(IndexByUid(groupQuery.value), lookup, submitted, i).Err?;
  }

  /** The deletions are exactly the group rules whose UID no submitted rule carries. */
  lemma DeleteIsUnmatchedRemainder(groupQuery: Result<seq<AlertRule>>, lookup: Lookup, ruleGroup: string,
                                   submitted: seq<AlertRule>)
    requires CalculateChanges(groupQuery, lookup, ruleGroup, submitted).Ok?
    ensures groupQuery.Ok?
    ensures var index := IndexByUid(groupQuery.value);
            var ch := CalculateChanges(groupQuery, lookup, ruleGroup, submitted).value;
            forall x :: x in ch.delete <==>
              x in groupQuery.value && x.uid in index && index[x.uid] == x && x.uid !in SubmittedUids(submitted)
  {
    CalculateChangesSpec(groupQuery, lookup, ruleGroup, submitted);
    var index := IndexByUid(groupQuery.value);
    var ch := CalculateChanges(groupQuery, lookup, ruleGroup, submitted).value;
    var left := index - SubmittedUids(submitted);
    forall x
      ensures x in left.Values <==>
              x in groupQuery.value && x.uid in index && index[x.uid] == x && x.uid !in SubmittedUids(submitted)
    {
      if x in left.Values {
        var u :| u in left && left[u] == x;
      }
      if x.uid in index && index[x.uid] == x && x.uid !in SubmittedUids(submitted) {
        assert left[x.uid] == x;
      }
    }
  }

  /** The creation count counts the upserts without an existing rule: it is zero
      exactly when every submitted rule updates an existing one. */
  lemma NewRulesCountsCreations(groupQuery: Result<seq<AlertRule>>, lookup: Lookup, ruleGroup: string,
                                submitted: seq<AlertRule>)
    requires CalculateChanges(groupQuery, lookup, ruleGroup, submitted).Ok?
    ensures var ch := CalculateChanges(groupQuery, lookup, ruleGroup, submitted).value;
            && |ch.upsert| == |submitted|
            && ch.newRules <= |submitted|
            && (ch.newRules == 0 <==> forall i :: 0 <= i < |ch.upsert| ==> ch.upsert[i].existing.Some?)
  {
    CalculateChangesSpec(groupQuery, lookup, ruleGroup, submitted);
    CountNewZeroIff(CalculateChanges(groupQuery, lookup, ruleGroup, submitted).value.upsert);
  }

  lemma {:induction false} CountNewZeroIff(upsert: seq<UpsertRule>)
    ensures CountNew(upsert) <= |upsert|
    ensures CountNew(upsert) == 0 <==> forall i :: 0 <= i < |upsert| ==> upsert[i].existing.Some?
  {
    if upsert != [] {
      CountNewZeroIff(upsert[1..]);
      if CountNew(upsert) == 0 {
        forall i | 0 <= i < |upsert|
          ensures upsert[i].existing.Some?
        {
          if i > 0 {
            assert upsert[i] == upsert[1..][i - 1];
          }
        }
      }
      if forall i :: 0 <= i < |upsert| ==> upsert[i].existing.Some? {
        forall i | 0 <= i < |upsert| - 1
          ensures upsert[1..][i].existing.Some?
        {
          assert upsert[1..][i] == upsert[i + 1];
        }
      }
    }
  }

  /** An update entry replaces either the group rule with the submitted UID or the
      rule the lookup found under it; the submitted UID is set and is not deleted. */
  lemma UpdateEntryShape(groupQuery: Result<seq<AlertRule>>, lookup: Lookup, ruleGroup: string,
                         submitted: seq<AlertRule>, i: nat)
    requires CalculateChanges(groupQuery, lookup, ruleGroup, submitted).Ok?
    requires i < |submitted|
    requires |CalculateChanges(groupQuery, lookup, ruleGroup, submitted).value.upsert| == |submitted|
    requires CalculateChanges(groupQuery, lookup, ruleGroup, submitted).value.upsert[i].existing.Some?
    ensures groupQuery.Ok?
    ensures var ch := CalculateChanges(groupQuery, lookup, ruleGroup, submitted).value;
            var stored := ch.upsert[i].existing.value;
            var u := submitted[i].uid;
            && u != ""
            && ((stored in groupQuery.value && stored.uid == u) || lookup(u) == Ok(stored))
            && ch.upsert[i].desired == submitted[i].(id := stored.id, version := stored.version + 1)
            && forall d :: d in ch.delete ==> d.uid != u
  {
    CalculateChangesSpec(groupQuery, lookup, ruleGroup, submitted);
    DeleteIsUnmatchedRemainder(groupQuery, lookup, ruleGroup, submitted);
    assert submitted[i] in submitted;
  }

  /**
   * A worked case: group `nightly` holds r1 (version 3) and r2 (version 1); the
   * submission edits r1 and adds a rule without a UID. r1 is updated to
   * version 4 under its stored ID, the new rule is created at version 1, and
   * r2 is deleted.
   */
  lemma NightlyExample(d1: Definition, d2: Definition, edited: Definition, added: Definition)
    ensures var r1 := AlertRule(11, 1, "r1", "ops", "nightly", 60, 3, d1);
            var r2 := AlertRule(12, 1, "r2", "ops", "nightly", 60, 1, d2);
            var s1 := AlertRule(0, 1, "r1", "ops", "nightly", 60, 0, edited);
            var s2 := AlertRule(0, 1, "", "ops", "nightly", 60, 0, added);
            var notFound: Lookup := (u: Uid) => Err(Base(AlertRuleNotFound));
            CalculateChanges(Ok([r1, r2]), notFound, "nightly", [s1, s2])
            == Ok(RuleChanges(1, [UpsertRule(Some(r1), s1.(id := 11, version := 4)),
                                  UpsertRule(None, s2.(version := 1))],
                              [r2]))
  {
    var r1 := AlertRule(11, 1, "r1", "ops", "nightly", 60, 3, d1);
    var r2 := AlertRule(12, 1, "r2", "ops", "nightly", 60, 1, d2);
    var s1 := AlertRule(0, 1, "r1", "ops", "nightly", 60, 0, edited);
    var s2 := AlertRule(0, 1, "", "ops", "nightly", 60, 0, added);
    var notFound: Lookup := (u: Uid) => Err(Base(AlertRuleNotFound));
    assert [r1, r2][..1] == [r1] && [r1][..0] == [];
    assert IndexByUid([r1]) == map["r1" := r1];
    var index := IndexByUid([r1, r2]);
    assert index == map["r1" := r1, "r2" := r2];
    var rest := index - {"r1"};
    assert rest == map["r2" := r2];
    assert Resolve(index, notFound, s1) == Ok(InGroup(r1));
    assert Resolve(rest, notFound, s2) == Ok(Absent);
    assert [s1, s2][1..] == [s2] && [s2][1..] == [];
    assert Reconcile(rest, notFound, []) == Ok(Progress([], 0, rest));
    assert Advance(rest, Absent, s2) == rest && Advance(index, InGroup(r1), s1) == rest;
    assert EntryFor(Absent, s2) == UpsertRule(None, s2.(version := 1));
    assert EntryFor(InGroup(r1), s1) == UpsertRule(Some(r1), s1.(id := 11, version := 4));
    var tail := Reconcile(rest, notFound, [s2]);
    assert tail.Ok?;
    assert tail.value.upsert == [UpsertRule(None, s2.(version := 1))];
    assert tail.value.newRules == 1;
    assert tail.value.leftover == rest;
    assert Reconcile(rest, notFound, [s2]) == Ok(Progress([UpsertRule(None, s2.(version := 1))], 1, rest));
    var whole := Reconcile(index, notFound, [s1, s2]);
    assert whole.Ok?;
    assert whole.value.upsert == [EntryFor(InGroup(r1), s1)] + tail.value.upsert;
    assert whole.value.newRules == 1 && whole.value.leftover == rest;
    assert whole.value.upsert == [UpsertRule(Some(r1), s1.(id := 11, version := 4)), UpsertRule(None, s2.(version := 1))];
    assert Reconcile(index, notFound, [s1, s2])
           == Ok(Progress([UpsertRule(Some(r1), s1.(id := 11, version := 4)), UpsertRule(None, s2.(version := 1))],
                          1, rest));
    assert rest - {"r2"} == map[];
    assert Deletions([r1], map[]) == [];
    assert Deletions([r1, r2], rest) == [r2];
  }
}
