/** What running a plan produces: node results, branch exclusion, cascading skips, nested plans
    and the final answer, independently of the order in which nodes happen to finish. */
module Semantics {
  import opened Wrappers
  import opened Graphs
  import opened Plans

  datatype Status = Completed | Skipped | Failed | Empty

  datatype NodeResult = NodeResult(
    status: Status,
    output: Option<string>,
    branchTaken: Option<string>,
    confidence: real,
    error: Option<string>)

  const SKIPPED := NodeResult(Skipped, None, None, 1.0, None)

  type Results = map<int, NodeResult>

  /** One entry of a node's fresh context. */
  datatype Part =
    | NotAvailable(id: int)
    | NoOutput(id: int)
    | FailedWith(id: int, error: Option<string>)
    | Output(id: int, text: Option<string>)

  /** The task a run serves: the user's, or one that a subplan node passes down. */
  datatype Request =
    | UserRequest(text: string)
    | SubplanRequest(parent: Request, plan: Plan, node: Node, context: seq<Part>)

  /** What executing a node may yield; only the scheduler records skips. */
  type Outcome = r: NodeResult | !r.status.Skipped? witness NodeResult(Completed, None, None, 1.0, None)

  /** Tools and models: a node's outcome depends on the node, its plan, its request and its context. */
  type Oracle = (Request, Plan, Node, seq<Part>) -> Outcome

  // ---------- Context ----------

  function PartOf(id: int, results: Results): Part {
    if id !in results then NotAvailable(id)
    else match results[id].status
      case Skipped => NotAvailable(id)
      case Empty => NoOutput(id)
      case Failed => FailedWith(id, results[id].error)
      case Completed => Output(id, results[id].output)
  }

  function Context(node: Node, results: Results): seq<Part> {
    seq(|node.contextNeeded|, i requires 0 <= i < |node.contextNeeded| => PartOf(node.contextNeeded[i], results))
  }

  // ---------- Skipping ----------

  function ContentDependencies(nodes: seq<Node>, node: Node): set<int> {
    set dep | dep in node.contextNeeded && !(if dep in Ids(nodes) then NodeAt(nodes, dep) else node).kind.Decision?
  }

  /** Every input that is not a decision was skipped, and there is at least one such input. */
  predicate OnlyUsesSkipped(nodes: seq<Node>, node: Node, results: Results, missingCounts: bool) {
    && node.contextNeeded != []
    && ContentDependencies(nodes, node) != {}
    && forall dep :: dep in ContentDependencies(nodes, node) ==>
         if dep in results then results[dep].status.Skipped? else missingCounts
  }

  /** The targets of every branch the decision did not take. */
  function UntakenTargets(branches: seq<Branch>, taken: Option<string>): set<int> {
    if taken.None? || taken.value == "" || branches == [] then {}
    else
      var last := branches[|branches| - 1];
      UntakenTargets(branches[..|branches| - 1], taken) + if last.name != taken.value then Elems(last.targets) else {}
  }

  function ExcludedBy(node: Node, result: NodeResult): set<int> {
    if node.kind.Decision? then UntakenTargets(node.branches, result.branchTaken) else {}
  }

  /** All nodes that the decisions executed so far exclude. */
  function Excluded(nodes: seq<Node>, results: Results): set<int> {
    if nodes == [] then {}
    else
      var last := nodes[|nodes| - 1];
      Excluded(nodes[..|nodes| - 1], results) + if last.id in results then ExcludedBy(last, results[last.id]) else {}
  }

  /** Writing one result and, for a decision, the skips it causes. */
  function Record(nodes: seq<Node>, node: Node, result: NodeResult, results: Results): Results {
    var written := results[node.id := result];
    written + map t | t in ExcludedBy(node, result) && t in Ids(nodes) && t !in written :: SKIPPED
  }

  // ---------- Final answer ----------

  function Render(output: Option<string>): string {
    if output.Some? then output.value else "None"
  }

  /** The last completed node of the given kind among the first k in plan order. */
  function LastCompleted(plan: Plan, results: Results, kind: NodeType, k: nat): Option<NodeResult>
    requires k <= |plan.sortedIds|
  {
    if k == 0 then None
    else
      var id := plan.sortedIds[k - 1];
      if id in Ids(plan.nodes)
         && NodeAt(plan.nodes, id).kind == kind
         && !OnlyUsesSkipped(plan.nodes, NodeAt(plan.nodes, id), results, true)
         && id in results && results[id].status.Completed?
      then Some(results[id])
      else LastCompleted(plan, results, kind, k - 1)
  }

  function FinalResult(plan: Plan, results: Results): Option<NodeResult> {
    var answer := LastCompleted(plan, results, Answer, |plan.sortedIds|);
    var synthesis := LastCompleted(plan, results, Synthesis, |plan.sortedIds|);
    if answer.Some? then answer
    else if synthesis.Some? then synthesis
    else LastCompleted(plan, results, Summary, |plan.sortedIds|)
  }

  function FinalOutput(plan: Plan, results: Results): Option<string> {
    var final := FinalResult(plan, results);
    if final.Some? then Some(Render(final.value.output)) else None
  }

  /** What a finished nested run contributes as the result of its subplan node. */
  function SubplanResult(plan: Plan, results: Results): Outcome {
    var final := FinalResult(plan, results);
    if final.None? then NodeResult(Empty, None, None, 1.0, Some("Subplan produced no final output"))
    else NodeResult(Completed, Some(Render(final.value.output)), None, final.value.confidence, None)
  }

  const NO_SUBPLAN: Outcome := NodeResult(Failed, None, None, 1.0, Some("SUBPLAN node has no nested plan"))

  lemma NestedIsAccepted(plan: Plan, node: Node)
    requires Accepted(plan) && node in plan.nodes && node.kind.Subplan? && node.subplan.Some?
    ensures Accepted(node.subplan.value)
  {
    assert AllAccepted(plan.nodes);
  }

  // ---------- The sequential pass ----------

  /** The outcome of a node that runs with the given context. */
  ghost function Ran(oracle: Oracle, request: Request, plan: Plan, node: Node, context: seq<Part>): Outcome
    requires Accepted(plan) && node in plan.nodes
    decreases plan, 0
  {
    if !node.kind.Subplan? then oracle(request, plan, node, context)
    else if node.subplan.None? then NO_SUBPLAN
    else
      var sub := node.subplan.value;
      NestedIsAccepted(plan, node);
      SubplanResult(sub, Denote(oracle, SubplanRequest(request, plan, node, context), sub))
  }

  /** The result of a ready node, whether it runs or is skipped for want of content. */
  ghost function Settle(oracle: Oracle, request: Request, plan: Plan, node: Node, results: Results): NodeResult
    requires Accepted(plan) && node in plan.nodes
    decreases plan, 1
  {
    if OnlyUsesSkipped(plan.nodes, node, results, false) then SKIPPED
    else Ran(oracle, request, plan, node, Context(node, results))
  }

  /** Results after visiting the first k nodes of the plan order one at a time. */
  ghost function Pass(oracle: Oracle, request: Request, plan: Plan, k: nat): Results
    requires Accepted(plan) && k <= |plan.sortedIds|
    decreases plan, 2, k
  {
    if k == 0 then map[]
    else
      var results := Pass(oracle, request, plan, k - 1);
      var id := plan.sortedIds[k - 1];
      assert id in Elems(plan.sortedIds);
      if id in results then results
      else
        var node := NodeAt(plan.nodes, id);
        Record(plan.nodes, node, Settle(oracle, request, plan, node, results), results)
  }

  ghost function Denote(oracle: Oracle, request: Request, plan: Plan): Results
    requires Accepted(plan)
    decreases plan, 3
  {
    Pass(oracle, request, plan, |plan.sortedIds|)
  }

  // ---------- Order-free characterisation ----------

  ghost function Deps(plan: Plan, id: int): set<int> {
    Preds(Ids(plan.nodes), EdgesOf(plan.nodes), id)
  }

  /** The result is forced by the results of the node's dependencies. */
  ghost predicate Justified(oracle: Oracle, request: Request, plan: Plan, results: Results, id: int)
    requires Accepted(plan) && id in Ids(plan.nodes) && id in results
  {
    if id in Excluded(plan.nodes, results) then results[id] == SKIPPED
    else
      && Deps(plan, id) <= results.Keys
      && results[id] == Settle(oracle, request, plan, NodeAt(plan.nodes, id), results)
  }

  /** Partial results that some run could have reached. */
  ghost predicate Consistent(oracle: Oracle, request: Request, plan: Plan, results: Results)
    requires Accepted(plan)
  {
    && results.Keys <= Ids(plan.nodes)
    && Excluded(plan.nodes, results) <= results.Keys
    && forall id {:trigger Justified(oracle, request, plan, results, id)} ::
         id in results ==> Justified(oracle, request, plan, results, id)
  }

  ghost predicate Settled(oracle: Oracle, request: Request, plan: Plan, results: Results)
    requires Accepted(plan)
  {
    Consistent(oracle, request, plan, results) && results.Keys == Ids(plan.nodes)
  }

  // ---------- Exclusion ----------

  lemma {:induction false} UntakenAreTargets(branches: seq<Branch>, taken: Option<string>)
    ensures UntakenTargets(branches, taken) <= TargetsOf(branches)
  {
    if branches != [] {
      UntakenAreTargets(branches[..|branches| - 1], taken);
    }
  }

  lemma ExcludedAreDependents(plan: Plan, node: Node, result: NodeResult, t: int)
    requires Accepted(plan) && node in plan.nodes && t in ExcludedBy(node, result)
    ensures t in Ids(plan.nodes) && node.id in Deps(plan, t)
  {
    UntakenAreTargets(node.branches, result.branchTaken);
    assert (node.id, t) in NodeEdges(node);
    assert (node.id, t) in EdgesOf(plan.nodes);
  }

  lemma {:induction false} ExcluderOf(nodes: seq<Node>, results: Results, t: int) returns (d: Node)
    requires t in Excluded(nodes, results)
    ensures d in nodes && d.id in results && t in ExcludedBy(d, results[d.id])
  {
    var last := nodes[|nodes| - 1];
    if last.id in results && t in ExcludedBy(last, results[last.id]) {
      d := last;
    } else {
      d := ExcluderOf(nodes[..|nodes| - 1], results, t);
    }
  }

  lemma {:induction false} ExcluderExcludes(nodes: seq<Node>, results: Results, d: Node)
    requires d in nodes && d.id in results
    ensures ExcludedBy(d, results[d.id]) <= Excluded(nodes, results)
  {
    if d != nodes[|nodes| - 1] {
      ExcluderExcludes(nodes[..|nodes| - 1], results, d);
    }
  }

  /** Recording a node excludes exactly its untaken targets in addition; skips exclude nobody. */
  lemma RecordExcludes(plan: Plan, node: Node, result: NodeResult, results: Results)
    requires Accepted(plan) && node in plan.nodes && node.id !in results
    ensures Excluded(plan.nodes, Record(plan.nodes, node, result, results))
         == Excluded(plan.nodes, results) + ExcludedBy(node, result)
  {
    var after := Record(plan.nodes, node, result, results);
    forall t | t in Excluded(plan.nodes, after)
      ensures t in Excluded(plan.nodes, results) + ExcludedBy(node, result)
    {
      var d := ExcluderOf(plan.nodes, after, t);
      if d.id == node.id {
        NodeAtIsUnique(plan.nodes, d);
        NodeAtIsUnique(plan.nodes, node);
      } else {
        assert after[d.id] != SKIPPED;
        ExcluderExcludes(plan.nodes, results, d);
      }
    }
    forall t | t in Excluded(plan.nodes, results)
      ensures t in Excluded(plan.nodes, after)
    {
      var d := ExcluderOf(plan.nodes, results, t);
      ExcluderExcludes(plan.nodes, after, d);
    }
    ExcluderExcludes(plan.nodes, after, node);
  }

  lemma ContextIsDeps(plan: Plan, node: Node, dep: int)
    requires Accepted(plan) && node in plan.nodes && dep in node.contextNeeded
    ensures dep in Deps(plan, node.id)
  {
    assert (dep, node.id) in NodeEdges(node);
    assert (dep, node.id) in EdgesOf(plan.nodes);
  }

  /** A node's result depends on its declared inputs alone. */
  lemma SettleIsLocal(oracle: Oracle, request: Request, plan: Plan, node: Node, a: Results, b: Results)
    requires Accepted(plan) && node in plan.nodes
    requires forall dep :: dep in Deps(plan, node.id) ==> dep in a && dep in b && a[dep] == b[dep]
    ensures Settle(oracle, request, plan, node, a) == Settle(oracle, request, plan, node, b)
    ensures Context(node, a) == Context(node, b)
    ensures OnlyUsesSkipped(plan.nodes, node, a, false) == OnlyUsesSkipped(plan.nodes, node, b, false)
  {
    forall dep | dep in node.contextNeeded
      ensures dep in a && dep in b && a[dep] == b[dep]
    {
      ContextIsDeps(plan, node, dep);
    }
    assert Context(node, a) == Context(node, b);
  }

  /** Recording a ready node keeps the results consistent. */
  lemma RecordKeepsConsistent(oracle: Oracle, request: Request, plan: Plan, node: Node, results: Results)
    requires Accepted(plan) && Consistent(oracle, request, plan, results)
    requires node in plan.nodes && node.id !in results && Deps(plan, node.id) <= results.Keys
    ensures Consistent(oracle, request, plan,
              Record(plan.nodes, node, Settle(oracle, request, plan, node, results), results))
  {
    var result := Settle(oracle, request, plan, node, results);
    var after := Record(plan.nodes, node, result, results);
    RecordExcludes(plan, node, result, results);
    IdIsListed(plan.nodes, node);
    hide Accepted, Excluded, ExcludedBy, Settle;
    forall t | t in Excluded(plan.nodes, after)
      ensures t in after
    {
      if t in ExcludedBy(node, result) {
        ExcludedAreDependents(plan, node, result, t);
      }
    }
    forall id | id in after
      ensures id in Ids(plan.nodes) && Justified(oracle, request, plan, after, id)
    {
      RecordJustifies(oracle, request, plan, node, results, id);
    }
  }

  lemma RecordJustifies(oracle: Oracle, request: Request, plan: Plan, node: Node, results: Results, id: int)
    requires Accepted(plan) && Consistent(oracle, request, plan, results)
    requires node in plan.nodes && node.id !in results && Deps(plan, node.id) <= results.Keys
    requires id in Record(plan.nodes, node, Settle(oracle, request, plan, node, results), results)
    ensures id in Ids(plan.nodes)
    ensures Justified(oracle, request, plan,
              Record(plan.nodes, node, Settle(oracle, request, plan, node, results), results), id)
  {
    hide *;
    var result := Settle(oracle, request, plan, node, results);
    var after := Record(plan.nodes, node, result, results);
    RecordIs(plan.nodes, node, result, results);
    RecordExcludes(plan, node, result, results);
    NodeIsListed(plan, node);
    if id in results {
      OldStaysJustified(oracle, request, plan, node, result, results, after, id);
    } else if id == node.id {
      NewIsJustified(oracle, request, plan, node, results, after);
    } else {
      ExcludedAreDependents(plan, node, result, id);
      ExcludedIsJustified(oracle, request, plan, after, id);
    }
  }

  lemma RecordIs(nodes: seq<Node>, node: Node, result: NodeResult, results: Results)
    requires node.id !in results
    ensures var after := Record(nodes, node, result, results);
      && (forall t :: t in after <==>
        t in results || t == node.id || (t in ExcludedBy(node, result) && t in Ids(nodes)))
      && (forall t :: t in results ==> after[t] == results[t])
      && after[node.id] == result
      && (forall t :: t in after && t !in results && t != node.id ==> after[t] == SKIPPED)
  {
    hide ExcludedBy, Ids;
  }

  lemma OldStaysJustified(oracle: Oracle, request: Request, plan: Plan, node: Node, result: NodeResult,
                          results: Results, after: Results, id: int)
    requires Accepted(plan) && Consistent(oracle, request, plan, results)
    requires node in plan.nodes && node.id !in results && id in results
    requires id in after && (forall t :: t in results ==> t in after && after[t] == results[t])
    requires Excluded(plan.nodes, after) == Excluded(plan.nodes, results) + ExcludedBy(node, result)
    ensures id in Ids(plan.nodes) && Justified(oracle, request, plan, after, id)
  {
    hide Accepted, Excluded, ExcludedBy, Settle, NodeAt, Ids, Deps;
    assert Justified(oracle, request, plan, results, id);
    if id !in Excluded(plan.nodes, results) {
      if id in ExcludedBy(node, result) {
        ExcludedAreDependents(plan, node, result, id);
        assert false;
      }
      SettleIsLocal(oracle, request, plan, NodeAt(plan.nodes, id), results, after);
    }
  }

  lemma NewIsJustified(oracle: Oracle, request: Request, plan: Plan, node: Node, results: Results, after: Results)
    requires Accepted(plan) && Consistent(oracle, request, plan, results)
    requires node in plan.nodes && node.id in Ids(plan.nodes) && NodeAt(plan.nodes, node.id) == node
    requires node.id !in results && Deps(plan, node.id) <= results.Keys
    requires forall t :: t in results ==> t in after && after[t] == results[t]
    requires var result := Settle(oracle, request, plan, node, results);
      && node.id in after && after[node.id] == result
      && Excluded(plan.nodes, after) == Excluded(plan.nodes, results) + ExcludedBy(node, result)
    ensures Justified(oracle, request, plan, after, node.id)
  {
    hide Accepted, Excluded, ExcludedBy, Settle, NodeAt, Ids, Deps;
    var result := Settle(oracle, request, plan, node, results);
    if node.id in ExcludedBy(node, result) {
      ExcludedAreDependents(plan, node, result, node.id);
      assert false;
    }
    SettleIsLocal(oracle, request, plan, node, results, after);
  }

  lemma ExcludedIsJustified(oracle: Oracle, request: Request, plan: Plan, after: Results, id: int)
    requires Accepted(plan) && id in Ids(plan.nodes) && id in after && after[id] == SKIPPED
    requires id in Excluded(plan.nodes, after)
    ensures Justified(oracle, request, plan, after, id)
  {
    hide Accepted, Excluded, Settle, NodeAt, Ids;
  }

  lemma NodeIsListed(plan: Plan, node: Node)
    requires Accepted(plan) && node in plan.nodes
    ensures node.id in Ids(plan.nodes) && NodeAt(plan.nodes, node.id) == node
  {
    hide DistinctIds, NodeAt, Ids, AllAccepted;
    NodeAtIsUnique(plan.nodes, node);
  }

  /** Any two consistent partial results agree wherever both are defined. */
  lemma {:induction false} ConsistentAgree(oracle: Oracle, request: Request, plan: Plan, a: Results, b: Results, k: nat)
    requires Accepted(plan) && k <= |plan.sortedIds|
    requires Consistent(oracle, request, plan, a) && Consistent(oracle, request, plan, b)
    ensures forall id :: id in plan.sortedIds[..k] && id in a && id in b ==> a[id] == b[id]
  {
    if k > 0 {
      ConsistentAgree(oracle, request, plan, a, b, k - 1);
      var id := plan.sortedIds[k - 1];
      assert plan.sortedIds[..k] == plan.sortedIds[..k - 1] + [id];
      if id in a && id in b {
        forall dep | dep in Deps(plan, id)
          ensures dep in plan.sortedIds[..k - 1]
        {
        }
        assert Justified(oracle, request, plan, a, id) && Justified(oracle, request, plan, b, id);
        if id in Excluded(plan.nodes, a) {
          ExclusionAgrees(plan, a, b, id);
        } else if id in Excluded(plan.nodes, b) {
          ExclusionAgrees(plan, b, a, id);
        } else {
          SettleIsLocal(oracle, request, plan, NodeAt(plan.nodes, id), a, b);
        }
      }
    }
  }

  lemma ExclusionAgrees(plan: Plan, a: Results, b: Results, id: int)
    requires Accepted(plan) && id in Excluded(plan.nodes, a)
    requires forall dep :: dep in Deps(plan, id) && dep in a && dep in b ==> a[dep] == b[dep]
    ensures id in Excluded(plan.nodes, b) || !(Deps(plan, id) <= b.Keys)
  {
    var d := ExcluderOf(plan.nodes, a, id);
    ExcludedAreDependents(plan, d, a[d.id], id);
    if d.id in b {
      ExcluderExcludes(plan.nodes, b, d);
    }
  }

  lemma SettledIsUnique(oracle: Oracle, request: Request, plan: Plan, a: Results, b: Results)
    requires Accepted(plan)
    requires Settled(oracle, request, plan, a) && Settled(oracle, request, plan, b)
    ensures a == b
  {
    ConsistentAgree(oracle, request, plan, a, b, |plan.sortedIds|);
    assert plan.sortedIds[..|plan.sortedIds|] == plan.sortedIds;
    forall id | id in a
      ensures a[id] == b[id]
    {
      assert id in Elems(plan.sortedIds);
    }
  }

  lemma {:induction false} PassIsConsistent(oracle: Oracle, request: Request, plan: Plan, k: nat)
    requires Accepted(plan) && k <= |plan.sortedIds|
    ensures Consistent(oracle, request, plan, Pass(oracle, request, plan, k))
    ensures forall id :: id in plan.sortedIds[..k] ==> id in Pass(oracle, request, plan, k)
  {
    if k == 0 {
      NothingIsExcluded(plan.nodes);
    } else {
      PassIsConsistent(oracle, request, plan, k - 1);
      var results := Pass(oracle, request, plan, k - 1);
      var id := plan.sortedIds[k - 1];
      assert id in Elems(plan.sortedIds);
      assert plan.sortedIds[..k] == plan.sortedIds[..k - 1] + [id];
      if id !in results {
        RecordKeepsConsistent(oracle, request, plan, NodeAt(plan.nodes, id), results);
      }
    }
  }

  lemma {:induction false} NothingIsExcluded(nodes: seq<Node>)
    ensures Excluded(nodes, map[]) == {}
  {
    if nodes != [] {
      NothingIsExcluded(nodes[..|nodes| - 1]);
    }
  }

  /** The sequential pass settles every node of the plan. */
  lemma DenoteIsSettled(oracle: Oracle, request: Request, plan: Plan)
    requires Accepted(plan)
    ensures Settled(oracle, request, plan, Denote(oracle, request, plan))
  {
    PassIsConsistent(oracle, request, plan, |plan.sortedIds|);
    assert plan.sortedIds[..|plan.sortedIds|] == plan.sortedIds;
    forall id | id in Ids(plan.nodes)
      ensures id in Denote(oracle, request, plan)
    {
      assert id in Elems(plan.sortedIds);
    }
  }

  // ---------- What is skipped, and what the final answer may use ----------

  /** The decision took a branch and lists t under another one. */
  ghost predicate ListsUntaken(d: Node, result: NodeResult, t: int) {
    && d.kind.Decision? && result.branchTaken.Some? && result.branchTaken.value != ""
    && exists k :: 0 <= k < |d.branches| && d.branches[k].name != result.branchTaken.value && t in d.branches[k].targets
  }

  lemma {:induction false} UntakenTargetsAre(branches: seq<Branch>, taken: Option<string>, t: int)
    ensures t in UntakenTargets(branches, taken) <==>
      (taken.Some? && taken.value != ""
       && exists k :: 0 <= k < |branches| && branches[k].name != taken.value && t in branches[k].targets)
  {
    if branches != [] && taken.Some? && taken.value != "" {
      var init := branches[..|branches| - 1];
      UntakenTargetsAre(init, taken, t);
      assert forall k :: 0 <= k < |init| ==> init[k] == branches[k];
    }
  }

  /** What a decision excludes: all targets of all branches but the one it took. */
  lemma ExcludedByIs(d: Node, result: NodeResult, t: int)
    ensures t in ExcludedBy(d, result) <==> ListsUntaken(d, result, t)
  {
    UntakenTargetsAre(d.branches, result.branchTaken, t);
  }

  /** The ids excluded so far are those that an executed decision lists under a branch it did not take. */
  lemma ExcludedIs(nodes: seq<Node>, results: Results, t: int)
    ensures t in Excluded(nodes, results) <==>
      exists d :: d in nodes && d.id in results && ListsUntaken(d, results[d.id], t)
  {
    hide ExcludedBy, ListsUntaken;
    if t in Excluded(nodes, results) {
      var d := ExcluderOf(nodes, results, t);
      ExcludedByIs(d, results[d.id], t);
    }
    if d :| d in nodes && d.id in results && ListsUntaken(d, results[d.id], t) {
      ExcludedByIs(d, results[d.id], t);
      ExcluderExcludes(nodes, results, d);
    }
  }

  /** A node has content to work on unless it has inputs that are not decisions and all of those were
      skipped. */
  lemma OnlyUsesSkippedIs(plan: Plan, node: Node, results: Results)
    requires Accepted(plan) && node in plan.nodes
    requires forall dep :: dep in node.contextNeeded ==> dep in results
    ensures OnlyUsesSkipped(plan.nodes, node, results, false) <==>
      ((exists n :: n in plan.nodes && n.id in node.contextNeeded && !n.kind.Decision?)
       && (forall n :: n in plan.nodes && n.id in node.contextNeeded && !n.kind.Decision? ==>
             n.id in results && results[n.id].status == Skipped))
  {
    forall dep | dep in node.contextNeeded
      ensures dep in Ids(plan.nodes)
    {
      ContextIsDeps(plan, node, dep);
    }
    forall n | n in plan.nodes
      ensures n.id in Ids(plan.nodes) && NodeAt(plan.nodes, n.id) == n
    {
      NodeIsListed(plan, n);
    }
    hide Accepted, NodeAt, Ids;
    var content := ContentDependencies(plan.nodes, node);
    assert forall n :: n in plan.nodes && n.id in node.contextNeeded && !n.kind.Decision? ==> n.id in content;
    forall dep | dep in content
      ensures exists n :: n in plan.nodes && n.id == dep && n.id in node.contextNeeded && !n.kind.Decision?
    {
      assert NodeAt(plan.nodes, dep) in plan.nodes;
    }
    if content != {} {
      Inhabited(content);
    }
  }

  /** At the end a node is skipped exactly when an executed decision that took a branch lists it under
      another one, or it has inputs that are not decisions and all of those were skipped. */
  lemma SkippedExactlyWhen(oracle: Oracle, request: Request, plan: Plan, results: Results, node: Node)
    requires Accepted(plan) && Settled(oracle, request, plan, results) && node in plan.nodes
    ensures node.id in results
    ensures results[node.id].status == Skipped <==>
      || (exists d, k :: d in plan.nodes && d.kind == Decision && d.id in results && results[d.id].status != Skipped
                         && results[d.id].branchTaken.Some? && results[d.id].branchTaken.value != ""
                         && 0 <= k < |d.branches| && d.branches[k].name != results[d.id].branchTaken.value
                         && node.id in d.branches[k].targets)
      || ((exists n :: n in plan.nodes && n.id in node.contextNeeded && n.kind != Decision)
          && (forall n :: n in plan.nodes && n.id in node.contextNeeded && n.kind != Decision ==>
                n.id in results && results[n.id].status == Skipped))
  {
    SkippedMeans(oracle, request, plan, results, node);
    forall dep | dep in node.contextNeeded
      ensures dep in results
    {
      ContextIsDeps(plan, node, dep);
    }
    OnlyUsesSkippedIs(plan, node, results);
    hide Accepted, Settled, OnlyUsesSkipped, ExcludedBy;
    forall d | d in plan.nodes && d.id in results
      ensures node.id in ExcludedBy(d, results[d.id]) <==> ListsUntaken(d, results[d.id], node.id)
    {
      ExcludedByIs(d, results[d.id], node.id);
    }
  }

  lemma SkippedMeans(oracle: Oracle, request: Request, plan: Plan, results: Results, node: Node)
    requires Accepted(plan) && Settled(oracle, request, plan, results) && node in plan.nodes
    ensures results.Keys == Ids(plan.nodes) && node.id in results
    ensures results[node.id].status.Skipped? <==>
      || (exists d :: d in plan.nodes && d.id in results && !results[d.id].status.Skipped?
                      && node.id in ExcludedBy(d, results[d.id]))
      || OnlyUsesSkipped(plan.nodes, node, results, false)
  {
    IdIsListed(plan.nodes, node);
    NodeAtIsUnique(plan.nodes, node);
    assert Justified(oracle, request, plan, results, node.id);
    if node.id in Excluded(plan.nodes, results) {
      var d := ExcluderOf(plan.nodes, results, node.id);
      SkipsExcludeNobody(oracle, request, plan, results, d);
    } else if d :| d in plan.nodes && d.id in results && node.id in ExcludedBy(d, results[d.id]) {
      ExcluderExcludes(plan.nodes, results, d);
    }
  }

  lemma SkipsExcludeNobody(oracle: Oracle, request: Request, plan: Plan, results: Results, d: Node)
    requires Accepted(plan) && Consistent(oracle, request, plan, results) && d in plan.nodes && d.id in results
    ensures results[d.id].status.Skipped? ==> ExcludedBy(d, results[d.id]) == {}
  {
    IdIsListed(plan.nodes, d);
    assert Justified(oracle, request, plan, results, d.id);
  }

  /** The skipped-content filter of the final answer rejects no node that completed. */
  lemma FilterKeepsCompleted(oracle: Oracle, request: Request, plan: Plan, results: Results, node: Node)
    requires Accepted(plan) && Settled(oracle, request, plan, results) && node in plan.nodes
    requires results[node.id].status.Completed?
    ensures !OnlyUsesSkipped(plan.nodes, node, results, true)
  {
    SkippedMeans(oracle, request, plan, results, node);
    forall dep | dep in node.contextNeeded
      ensures dep in results
    {
      ContextIsDeps(plan, node, dep);
    }
  }

  /** A target listed under two branches is skipped whichever of them the decision takes. */
  lemma SharedTargetIsSkipped(oracle: Oracle, request: Request, plan: Plan, results: Results,
                              d: Node, i: nat, j: nat, t: int)
    requires Accepted(plan) && Settled(oracle, request, plan, results)
    requires d in plan.nodes && d.kind.Decision? && d.id in results
    requires results[d.id].branchTaken.Some? && results[d.id].branchTaken.value != ""
    requires i < |d.branches| && j < |d.branches| && d.branches[i].name != d.branches[j].name
    requires t in d.branches[i].targets && t in d.branches[j].targets
    ensures t in results && results[t] == SKIPPED
  {
    var k := if d.branches[i].name != results[d.id].branchTaken.value then i else j;
    UntakenIncludes(d.branches, results[d.id].branchTaken, k, t);
    ExcluderExcludes(plan.nodes, results, d);
    assert Justified(oracle, request, plan, results, t);
  }

  lemma {:induction false} UntakenIncludes(branches: seq<Branch>, taken: Option<string>, k: nat, t: int)
    requires taken.Some? && taken.value != "" && k < |branches|
    requires branches[k].name != taken.value && t in branches[k].targets
    ensures t in UntakenTargets(branches, taken)
  {
    if k < |branches| - 1 {
      UntakenIncludes(branches[..|branches| - 1], taken, k, t);
    }
  }
}
