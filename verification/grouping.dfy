/**
 * The read side of the ruler: stored rules folded into one configuration per
 * rule group, for a single namespace (folder) and for every namespace of the
 * organisation the caller can see. The configurations of a namespace are
 * handed out in map iteration order, which Go leaves unspecified, so a
 * namespace's configurations are modelled as a set.
 */
module Grouping {
  import opened Errors
  import opened Rules

  /** A rule as the read routes return it, together with the ID of its folder. */
  datatype RuleNode = RuleNode(rule: AlertRule, folderId: int)

  /** One rule group: its name, its evaluation interval and its rules. */
  datatype RuleGroupConfig = RuleGroupConfig(name: string, intervalSeconds: int, rules: seq<RuleNode>)

  /** A folder the caller may see, as the namespace service returns it. */
  datatype Folder = Folder(id: int, uid: string, title: string)

  /** Namespace title to the rule-group configurations filed under it. */
  type ConfigResponseBody = map<string, set<RuleGroupConfig>>

  datatype ConfigResponse = ConfigResponse(status: int, body: ConfigResponseBody)

  const NamespaceOk := 202   // the namespace route answers 202 Accepted
  const OrgOk := 200
  const BadRequest := 400
  const InternalError := 500

  // ---------------------------------------------------------------------------
  // Folding rules into groups
  // ---------------------------------------------------------------------------

  /** One step of the fold: open the node's group with the node's interval, or
      append the node to the group already open. */
  function AddNode(configs: map<string, RuleGroupConfig>, n: RuleNode): (next: map<string, RuleGroupConfig>)
    ensures next.Keys == configs.Keys + {n.rule.ruleGroup}
    ensures forall g :: g in configs && g != n.rule.ruleGroup ==> next[g] == configs[g]
  {
    var g := n.rule.ruleGroup;
    if g !in configs then
      configs[g := RuleGroupConfig(g, n.rule.intervalSeconds, [n])]
    else
      configs[g := configs[g].(rules := configs[g].rules + [n])]
  }

  /** The fold over the nodes in the order the store returned them. */
  function GroupNodes(nodes: seq<RuleNode>): map<string, RuleGroupConfig>
    decreases |nodes|
  {
    if nodes == [] then map[]
    else AddNode(GroupNodes(nodes[..|nodes| - 1]), nodes[|nodes| - 1])
  }

  /** Reference: the nodes of group `g`, in input order. */
  function NodesOfGroup(nodes: seq<RuleNode>, g: string): (members: seq<RuleNode>)
    ensures forall n :: n in members <==> n in nodes && n.rule.ruleGroup == g
    ensures |members| <= |nodes|
    decreases |nodes|
  {
    if nodes == [] then []
    else
      var front := nodes[..|nodes| - 1];
      var last := nodes[|nodes| - 1];
      assert nodes == front + [last];
      NodesOfGroup(front, g) + (if last.rule.ruleGroup == g then [last] else [])
  }

  /**
   * The fold opens exactly one configuration per group name present; the
   * configuration of group `g` holds that group's rules in input order and
   * the interval of the first of them.
   */
  lemma {:induction false} GroupNodesSpec(nodes: seq<RuleNode>)
    ensures forall g :: g in GroupNodes(nodes) <==> NodesOfGroup(nodes, g) != []
    ensures forall g :: g in GroupNodes(nodes) ==> GroupNodes(nodes)[g] == ExpectedConfig(nodes, g)
    decreases |nodes|
  {
    if nodes != [] {
      var front := nodes[..|nodes| - 1];
      var last := nodes[|nodes| - 1];
      GroupNodesSpec(front);
      forall g
        ensures g in GroupNodes(nodes) <==> NodesOfGroup(nodes, g) != []
        ensures g in GroupNodes(nodes) ==> GroupNodes(nodes)[g] == ExpectedConfig(nodes, g)
      {
        if g == last.rule.ruleGroup && g !in GroupNodes(front) {
          assert NodesOfGroup(front, g) == [];
          assert NodesOfGroup(nodes, g) == [last];
        }
      }
    }
  }

  /** Every node lands in the configuration named by its group. */
  lemma EveryNodeFiled(nodes: seq<RuleNode>, k: nat)
    requires k < |nodes|
    ensures nodes[k].rule.ruleGroup in GroupNodes(nodes)
    ensures nodes[k] in GroupNodes(nodes)[nodes[k].rule.ruleGroup].rules
  {
    GroupNodesSpec(nodes);
    assert nodes[k] in nodes;
  }

  /** Group names are keys, so no two configurations share a name. */
  lemma NamesAreDistinct(configs: map<string, RuleGroupConfig>, nodes: seq<RuleNode>)
    requires configs == GroupNodes(nodes)
    ensures forall c1, c2 :: c1 in configs.Values && c2 in configs.Values && c1.name == c2.name ==> c1 == c2
    ensures forall g :: g in configs ==> configs[g].name == g
  {
    GroupNodesSpec(nodes);
  }

  // ---------------------------------------------------------------------------
  // One namespace
  // ---------------------------------------------------------------------------

  /** The namespace's rules, each paired with the namespace's folder ID. */
  function NodesIn(rules: seq<AlertRule>, folderId: int): seq<RuleNode>
  {
    seq(|rules|, k requires 0 <= k < |rules| => RuleNode(rules[k], folderId))
  }

  /**
   * The rule-group configurations of one namespace, filed under its title.
   * The title gets an entry only when some configuration is appended to it,
   * so a namespace without rules yields an empty body.
   */
  function NamespaceBody(title: string, folderId: int, rules: seq<AlertRule>): ConfigResponseBody
  {
    var configs := GroupNodes(NodesIn(rules, folderId));
    if configs == map[] then map[] else map[title := configs.Values]
  }

  /** The namespace route after the namespace was resolved: the store's answer
      for the namespace's rules, then the grouping. */
  function NamespaceRulesConfig(title: string, folderId: int, query: Result<seq<AlertRule>>): (resp: ConfigResponse)
    ensures resp.status in {NamespaceOk, InternalError}
  {
    match query
    case Err(_) => ConfigResponse(InternalError, map[])
    case Ok(rules) => ConfigResponse(NamespaceOk, NamespaceBody(title, folderId, rules))
  }

  /** Reference: the configuration a group present in `nodes` should get. */
  function ExpectedConfig(nodes: seq<RuleNode>, g: string): RuleGroupConfig
    requires NodesOfGroup(nodes, g) != []
  {
    RuleGroupConfig(g, NodesOfGroup(nodes, g)[0].rule.intervalSeconds, NodesOfGroup(nodes, g))
  }

  /** The configurations the fold produces are exactly the expected ones of the
      groups present, and the fold is empty only for an empty input. */
  lemma GroupingValues(nodes: seq<RuleNode>)
    ensures GroupNodes(nodes) == map[] <==> nodes == []
    ensures forall c :: c in GroupNodes(nodes).Values <==>
              exists g :: NodesOfGroup(nodes, g) != [] && c == ExpectedConfig(nodes, g)
  {
    var configs := GroupNodes(nodes);
    GroupNodesSpec(nodes);
    if nodes != [] {
      EveryNodeFiled(nodes, 0);
    }
    forall c | c in configs.Values
      ensures exists g :: NodesOfGroup(nodes, g) != [] && c == ExpectedConfig(nodes, g)
    {
      var g :| g in configs && configs[g] == c;
    }
    forall g | NodesOfGroup(nodes, g) != []
      ensures ExpectedConfig(nodes, g) in configs.Values
    {
      assert configs[g] in configs.Values;
    }
  }

  /**
   * The namespace route fails with 500 exactly when the store fails. On
   * success the body has the title as its only key, and only when there are
   * rules; under it is one configuration per group present, holding that
   * group's rules in store order and the interval of the first of them.
   */
  lemma NamespaceConfigSpec(title: string, folderId: int, query: Result<seq<AlertRule>>)
    ensures query.Err? <==> NamespaceRulesConfig(title, folderId, query) == ConfigResponse(InternalError, map[])
    ensures query.Ok? ==>
              var resp := NamespaceRulesConfig(title, folderId, query);
              var nodes := NodesIn(query.value, folderId);
              && resp.status == NamespaceOk
              && resp.body.Keys <= {title}
              && (title in resp.body <==> query.value != [])
              && (title in resp.body ==>
                    forall c :: c in resp.body[title] <==>
                      exists g :: NodesOfGroup(nodes, g) != [] && c == ExpectedConfig(nodes, g))
  {
    if query.Ok? {
      GroupingValues(NodesIn(query.value, folderId));
    }
  }

  // ---------------------------------------------------------------------------
  // Every visible namespace of the organisation
  // ---------------------------------------------------------------------------

  /** A rule is shown when its namespace is among the visible folders. */
  predicate Visible(visible: map<string, Folder>, r: AlertRule)
  {
    r.namespaceUid in visible
  }

  /** One step of the organisation-wide fold: skip a rule of an invisible
      namespace, otherwise file it under its folder's title and group. */
  function AddOrgRule(configs: map<string, map<string, RuleGroupConfig>>, visible: map<string, Folder>,
                      r: AlertRule): (next: map<string, map<string, RuleGroupConfig>>)
    ensures !Visible(visible, r) ==> next == configs
    ensures Visible(visible, r) ==> next.Keys == configs.Keys + {visible[r.namespaceUid].title}
    ensures Visible(visible, r) ==>
              forall t :: t in configs && t != visible[r.namespaceUid].title ==> next[t] == configs[t]
  {
    if !Visible(visible, r) then configs
    else
      var folder := visible[r.namespaceUid];
      var inner := if folder.title in configs then configs[folder.title] else map[];
      configs[folder.title := AddNode(inner, RuleNode(r, folder.id))]
  }

  /** The fold over the organisation's rules, in store order. */
  function OrgConfigs(rules: seq<AlertRule>, visible: map<string, Folder>): map<string, map<string, RuleGroupConfig>>
    decreases |rules|
  {
    if rules == [] then map[]
    else AddOrgRule(OrgConfigs(rules[..|rules| - 1], visible), visible, rules[|rules| - 1])
  }

  /** Reference: the visible rules whose folder is titled `title`, in store
      order, each paired with its own folder's ID. */
  function NodesTitled(rules: seq<AlertRule>, visible: map<string, Folder>, title: string): (nodes: seq<RuleNode>)
    ensures forall n :: n in nodes ==>
              n.rule in rules && Visible(visible, n.rule) && visible[n.rule.namespaceUid].title == title
              && n.folderId == visible[n.rule.namespaceUid].id
    decreases |rules|
  {
    if rules == [] then []
    else
      var front := rules[..|rules| - 1];
      var last := rules[|rules| - 1];
      assert rules == front + [last];
      NodesTitled(front, visible, title)
      + (if Visible(visible, last) && visible[last.namespaceUid].title == title
         then [RuleNode(last, visible[last.namespaceUid].id)] else [])
  }

  /** Appending a node to the fold's input is one more fold step. */
  lemma GroupNodesSnoc(nodes: seq<RuleNode>, n: RuleNode)
    ensures GroupNodes(nodes + [n]) == AddNode(GroupNodes(nodes), n)
  {
    assert (nodes + [n])[..|nodes|] == nodes;
  }

  /**
   * The organisation-wide fold files, under each title that some visible rule's
   * folder carries, exactly the grouping of that title's visible rules; rules of
   * invisible namespaces appear nowhere. Folders sharing a title share an entry.
   */
  lemma {:induction false} OrgConfigsSpec(rules: seq<AlertRule>, visible: map<string, Folder>)
    ensures forall t :: t in OrgConfigs(rules, visible) <==> NodesTitled(rules, visible, t) != []
    ensures forall t :: t in OrgConfigs(rules, visible) ==>
              OrgConfigs(rules, visible)[t] == GroupNodes(NodesTitled(rules, visible, t))
    decreases |rules|
  {
    if rules != [] {
      var front := rules[..|rules| - 1];
      var last := rules[|rules| - 1];
      OrgConfigsSpec(front, visible);
      forall t
        ensures t in OrgConfigs(rules, visible) <==> NodesTitled(rules, visible, t) != []
        ensures t in OrgConfigs(rules, visible) ==>
                  OrgConfigs(rules, visible)[t] == GroupNodes(NodesTitled(rules, visible, t))
      {
        OrgStep(front, last, visible, t);
      }
    }
  }

  /** One rule more changes only the entry of its folder's title, by one fold step. */
  lemma {:induction false} OrgStep(front: seq<AlertRule>, last: AlertRule, visible: map<string, Folder>, t: string)
    requires forall t :: t in OrgConfigs(front, visible) <==> NodesTitled(front, visible, t) != []
    requires forall t :: t in OrgConfigs(front, visible) ==>
               OrgConfigs(front, visible)[t] == GroupNodes(NodesTitled(front, visible, t))
    ensures t in OrgConfigs(front + [last], visible) <==> NodesTitled(front + [last], visible, t) != []
    ensures t in OrgConfigs(front + [last], visible) ==>
              OrgConfigs(front + [last], visible)[t] == GroupNodes(NodesTitled(front + [last], visible, t))
  {
    OrgConfigsSnoc(front, last, visible);
    NodesTitledSnoc(front, last, visible, t);
    AddOrgRuleStep(OrgConfigs(front, visible), visible, last, t, NodesTitled(front, visible, t));
  }

  /** The fold step for one title, with the entry before it and the nodes it stands for. */
  lemma AddOrgRuleStep(before: map<string, map<string, RuleGroupConfig>>, visible: map<string, Folder>,
                       last: AlertRule, t: string, nodes: seq<RuleNode>)
    requires t in before <==> nodes != []
    requires t in before ==> before[t] == GroupNodes(nodes)
    ensures var after := AddOrgRule(before, visible, last);
            var grown := nodes + (if Visible(visible, last) && visible[last.namespaceUid].title == t
                                  then [RuleNode(last, visible[last.namespaceUid].id)] else []);
            && (t in after <==> grown != [])
            && (t in after ==> after[t] == GroupNodes(grown))
  {
    if Visible(visible, last) && visible[last.namespaceUid].title == t {
      var n := RuleNode(last, visible[last.namespaceUid].id);
      GroupNodesSnoc(nodes, n);
      if t !in before {
        assert nodes == [];
        assert nodes + [n] == [n];
      }
    } else {
      assert nodes + [] == nodes;
    }
  }

  lemma OrgConfigsSnoc(front: seq<AlertRule>, last: AlertRule, visible: map<string, Folder>)
    ensures OrgConfigs(front + [last], visible) == AddOrgRule(OrgConfigs(front, visible), visible, last)
  {
    assert (front + [last])[..|front|] == front;
  }

  lemma NodesTitledSnoc(front: seq<AlertRule>, last: AlertRule, visible: map<string, Folder>, t: string)
    ensures NodesTitled(front + [last], visible, t)
            == NodesTitled(front, visible, t)
               + (if Visible(visible, last) && visible[last.namespaceUid].title == t
                  then [RuleNode(last, visible[last.namespaceUid].id)] else [])
  {
    assert (front + [last])[..|front|] == front;
  }

  /** The organisation-wide body: every title with its configurations. */
  function OrgBody(configs: map<string, map<string, RuleGroupConfig>>): ConfigResponseBody
  {
    map t | t in configs :: configs[t].Values
  }

  /**
   * The organisation-wide body files under each title exactly the
   * configurations of that title's visible rules, one per group present.
   */
  lemma {:induction false} OrgBodySpec(rules: seq<AlertRule>, visible: map<string, Folder>)
    ensures var body := OrgBody(OrgConfigs(rules, visible));
            forall t :: (t in body <==> NodesTitled(rules, visible, t) != [])
              && (t in body ==> body[t] == GroupNodes(NodesTitled(rules, visible, t)).Values)
  {
    var configs := OrgConfigs(rules, visible);
    OrgConfigsSpec(rules, visible);
    forall t | t in OrgBody(configs)
      ensures OrgBody(configs)[t] == GroupNodes(NodesTitled(rules, visible, t)).Values
    {
      assert OrgBody(configs)[t] == configs[t].Values;
    }
  }

  /**
   * The organisation-wide route once the caller is known: the visible folders
   * (keyed by UID), the dashboard and panel filters, and the store's answer.
   * It answers 200 exactly when the folders were listed and either none is
   * visible (an empty body, before anything else is looked at) or the filters
   * are well formed and the store answered. A malformed panel ID, or a panel
   * ID without a dashboard UID, is a bad request; a store failure is an
   * internal error. On success the body files under each title that a visible
   * rule's folder carries the grouping of that title's visible rules.
   */
  function OrgRulesConfig(namespaces: Result<map<string, Folder>>, dashboardUid: string, panelId: Result<int>,
                          query: Result<seq<AlertRule>>): (resp: ConfigResponse)
    ensures resp.status in {OrgOk, BadRequest, InternalError}
    ensures resp.status != OrgOk ==> resp.body == map[]
    ensures resp.status == OrgOk
            <==> namespaces.Ok? && (namespaces.value == map[]
                   || (panelId.Ok? && !(dashboardUid == "" && panelId.value != 0) && query.Ok?))
    ensures resp.status == InternalError <==>
              namespaces.Err? || (namespaces.value != map[] && panelId.Ok?
                                  && !(dashboardUid == "" && panelId.value != 0) && query.Err?)
    ensures namespaces.Ok? && namespaces.value == map[] ==> resp == ConfigResponse(OrgOk, map[])
    ensures resp.status == OrgOk && namespaces.value != map[] ==>
              forall t :: (t in resp.body <==> NodesTitled(query.value, namespaces.value, t) != [])
                && (t in resp.body ==>
                      resp.body[t] == GroupNodes(NodesTitled(query.value, namespaces.value, t)).Values)
  {
    if namespaces.Err? then ConfigResponse(InternalError, map[])
    else if namespaces.value == map[] then ConfigResponse(OrgOk, map[])
    else if panelId.Err? then ConfigResponse(BadRequest, map[])
    else if dashboardUid == "" && panelId.value != 0 then ConfigResponse(BadRequest, map[])
    else if query.Err? then ConfigResponse(InternalError, map[])
    else
      OrgBodySpec(query.value, namespaces.value);
      ConfigResponse(OrgOk, OrgBody(OrgConfigs(query.value, namespaces.value)))
  }

  /** A rule of a namespace the caller cannot see is in no configuration. */
  lemma InvisibleRulesDropped(rules: seq<AlertRule>, visible: map<string, Folder>, k: nat)
    requires k < |rules| && !Visible(visible, rules[k])
    ensures forall t, g :: t in OrgConfigs(rules, visible) && g in OrgConfigs(rules, visible)[t] ==>
              forall n :: n in OrgConfigs(rules, visible)[t][g].rules ==> n.rule != rules[k]
  {
    OrgConfigsSpec(rules, visible);
    forall t, g | t in OrgConfigs(rules, visible) && g in OrgConfigs(rules, visible)[t]
      ensures forall n :: n in OrgConfigs(rules, visible)[t][g].rules ==> n.rule != rules[k]
    {
      var nodes := NodesTitled(rules, visible, t);
      GroupNodesSpec(nodes);
    }
  }
}
