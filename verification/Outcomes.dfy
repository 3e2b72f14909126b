/** What the results of a finished run say, node by node, and which of them is its answer. */
module Outcomes {
  import opened Wrappers
  import opened Graphs
  import opened Plans
  import opened Semantics

  // ---------- The final answer ----------

  /** The node at position k of the plan order has this kind and completed. */
  ghost predicate CompletedAt(plan: Plan, results: Results, kind: NodeType, k: int) {
    && 0 <= k < |plan.sortedIds|
    && plan.sortedIds[k] in results && results[plan.sortedIds[k]].status == Completed
    && exists n :: n in plan.nodes && n.id == plan.sortedIds[k] && n.kind == kind
  }

  ghost predicate NoneCompleted(plan: Plan, results: Results, kind: NodeType) {
    forall k :: !CompletedAt(plan, results, kind, k)
  }

  ghost predicate LastAt(plan: Plan, results: Results, kind: NodeType, k: int) {
    CompletedAt(plan, results, kind, k) && forall j :: CompletedAt(plan, results, kind, j) ==> j <= k
  }

  /** The answer comes from the last completed answer node, else the last completed synthesis, else the last
      completed summary. */
  ghost predicate Supplies(plan: Plan, results: Results, k: int): (b: bool)
    ensures b ==> 0 <= k < |plan.sortedIds| && plan.sortedIds[k] in results
  {
    || LastAt(plan, results, Answer, k)
    || (NoneCompleted(plan, results, Answer) && LastAt(plan, results, Synthesis, k))
    || (NoneCompleted(plan, results, Answer) && NoneCompleted(plan, results, Synthesis)
        && LastAt(plan, results, Summary, k))
  }

  ghost predicate NothingToAnswer(plan: Plan, results: Results) {
    NoneCompleted(plan, results, Answer) && NoneCompleted(plan, results, Synthesis)
    && NoneCompleted(plan, results, Summary)
  }

  ghost predicate LastBelow(plan: Plan, results: Results, kind: NodeType, i: int, k: int): (b: bool)
    ensures b ==> 0 <= i < |plan.sortedIds| && plan.sortedIds[i] in results
  {
    i < k && CompletedAt(plan, results, kind, i) && forall j :: i < j < k ==> !CompletedAt(plan, results, kind, j)
  }

  lemma {:induction false} LastCompletedIs(oracle: Oracle, request: Request, plan: Plan, results: Results,
                                           kind: NodeType, k: nat)
    requires Accepted(plan) && Settled(oracle, request, plan, results) && k <= |plan.sortedIds|
    ensures LastCompleted(plan, results, kind, k).None? <==> NoneBelow(plan, results, kind, k)
    ensures forall i :: LastBelow(plan, results, kind, i, k) ==>
      LastCompleted(plan, results, kind, k) == Some(results[plan.sortedIds[i]])
  {
    hide *;
    if k == 0 {
      NothingBelowZero(plan, results, kind);
    } else {
      LastCompletedIs(oracle, request, plan, results, kind, k - 1);
      LastCompletedStep(oracle, request, plan, results, kind, k - 1);
      OneMorePosition(plan, results, kind, k - 1);
    }
  }

  ghost predicate NoneBelow(plan: Plan, results: Results, kind: NodeType, k: int) {
    forall j :: j < k ==> !CompletedAt(plan, results, kind, j)
  }

  lemma NothingBelowZero(plan: Plan, results: Results, kind: NodeType)
    ensures LastCompleted(plan, results, kind, 0).None? && NoneBelow(plan, results, kind, 0)
    ensures forall i :: !LastBelow(plan, results, kind, i, 0)
  {
  }

  lemma OneMorePosition(plan: Plan, results: Results, kind: NodeType, k: nat)
    ensures NoneBelow(plan, results, kind, k + 1) <==>
      NoneBelow(plan, results, kind, k) && !CompletedAt(plan, results, kind, k)
    ensures forall i :: LastBelow(plan, results, kind, i, k + 1) ==>
      if CompletedAt(plan, results, kind, k) then i == k else LastBelow(plan, results, kind, i, k)
  {
    hide CompletedAt;
  }

  lemma LastCompletedStep(oracle: Oracle, request: Request, plan: Plan, results: Results, kind: NodeType, k: nat)
    requires Accepted(plan) && Settled(oracle, request, plan, results) && k < |plan.sortedIds|
    ensures plan.sortedIds[k] in results
    ensures LastCompleted(plan, results, kind, k + 1)
         == if CompletedAt(plan, results, kind, k) then Some(results[plan.sortedIds[k]])
            else LastCompleted(plan, results, kind, k)
  {
    PickedExactlyWhen(oracle, request, plan, results, kind, k);
    hide Accepted, Settled, CompletedAt, OnlyUsesSkipped, Ids, NodeAt;
  }

  lemma PickedExactlyWhen(oracle: Oracle, request: Request, plan: Plan, results: Results, kind: NodeType, k: nat)
    requires Accepted(plan) && Settled(oracle, request, plan, results) && k < |plan.sortedIds|
    ensures var id := plan.sortedIds[k];
      && id in Ids(plan.nodes) && id in results
      && (CompletedAt(plan, results, kind, k) <==>
            NodeAt(plan.nodes, id).kind == kind && results[id].status.Completed?
            && !OnlyUsesSkipped(plan.nodes, NodeAt(plan.nodes, id), results, true))
  {
    var id := plan.sortedIds[k];
    assert id in Elems(plan.sortedIds);
    var node := NodeAt(plan.nodes, id);
    if results[id].status.Completed? {
      FilterKeepsCompleted(oracle, request, plan, results, node);
    }
    forall n | n in plan.nodes && n.id == id
      ensures n == node
    {
      NodeAtIsUnique(plan.nodes, n);
    }
  }

  /** Which result a finished run answers with, read off the statuses alone. */
  lemma FinalResultIs(oracle: Oracle, request: Request, plan: Plan, results: Results)
    requires Accepted(plan) && Settled(oracle, request, plan, results)
    ensures FinalResult(plan, results).None? <==> NothingToAnswer(plan, results)
    ensures forall k :: Supplies(plan, results, k) ==> FinalResult(plan, results) == Some(results[plan.sortedIds[k]])
  {
    hide *;
    AnswerOfKind(oracle, request, plan, results, Answer);
    AnswerOfKind(oracle, request, plan, results, Synthesis);
    AnswerOfKind(oracle, request, plan, results, Summary);
    BestKind(plan, results);
  }

  lemma AnswerOfKind(oracle: Oracle, request: Request, plan: Plan, results: Results, kind: NodeType)
    requires Accepted(plan) && Settled(oracle, request, plan, results)
    ensures LastCompleted(plan, results, kind, |plan.sortedIds|).None? <==> NoneCompleted(plan, results, kind)
    ensures forall k :: LastAt(plan, results, kind, k) ==> LastIs(plan, results, kind, k)
  {
    LastCompletedIs(oracle, request, plan, results, kind, |plan.sortedIds|);
    OnlyPositions(plan, results, kind);
    hide Accepted, Settled, CompletedAt, LastCompleted;
    forall k | LastAt(plan, results, kind, k)
      ensures LastBelow(plan, results, kind, k, |plan.sortedIds|)
    {
    }
  }

  ghost predicate LastIs(plan: Plan, results: Results, kind: NodeType, k: int) {
    && 0 <= k < |plan.sortedIds| && plan.sortedIds[k] in results
    && LastCompleted(plan, results, kind, |plan.sortedIds|) == Some(results[plan.sortedIds[k]])
  }

  /** The choice among the three kinds. */
  lemma BestKind(plan: Plan, results: Results)
    requires forall kind {:trigger NoneCompleted(plan, results, kind)} :: kind in {Answer, Synthesis, Summary} ==>
      && (LastCompleted(plan, results, kind, |plan.sortedIds|).None? <==> NoneCompleted(plan, results, kind))
      && (forall k :: LastAt(plan, results, kind, k) ==> LastIs(plan, results, kind, k))
    ensures FinalResult(plan, results).None? <==> NothingToAnswer(plan, results)
    ensures forall k :: Supplies(plan, results, k) ==> FinalResult(plan, results) == Some(results[plan.sortedIds[k]])
  {
    hide LastCompleted, LastAt;
    assert Answer in {Answer, Synthesis, Summary} && Synthesis in {Answer, Synthesis, Summary}
        && Summary in {Answer, Synthesis, Summary};
  }

  lemma OnlyPositions(plan: Plan, results: Results, kind: NodeType)
    ensures forall k :: CompletedAt(plan, results, kind, k) ==> 0 <= k < |plan.sortedIds|
  {
  }

  /** There is an answer or there is nothing to answer with. */
  lemma SomethingSupplies(plan: Plan, results: Results) returns (k: int)
    requires !NothingToAnswer(plan, results)
    ensures Supplies(plan, results, k)
  {
    hide CompletedAt;
    if !NoneCompleted(plan, results, Answer) {
      k := LastExists(plan, results, Answer);
    } else if !NoneCompleted(plan, results, Synthesis) {
      k := LastExists(plan, results, Synthesis);
    } else {
      k := LastExists(plan, results, Summary);
    }
  }

  lemma LastExists(plan: Plan, results: Results, kind: NodeType) returns (k: int)
    requires !NoneCompleted(plan, results, kind)
    ensures LastAt(plan, results, kind, k)
  {
    var some: int :| CompletedAt(plan, results, kind, some);
    k := |plan.sortedIds|;
    while !CompletedAt(plan, results, kind, k)
      invariant some <= k && forall j :: CompletedAt(plan, results, kind, j) ==> j <= k
      decreases k
    {
      k := k - 1;
    }
  }

  /** The text of the answer: the output of the result that supplies it, and none if nothing does. */
  lemma FinalOutputIs(oracle: Oracle, request: Request, plan: Plan, results: Results)
    requires Accepted(plan) && Settled(oracle, request, plan, results)
    ensures FinalOutput(plan, results).None? <==> NothingToAnswer(plan, results)
    ensures forall k :: Supplies(plan, results, k) && results[plan.sortedIds[k]].output.Some? ==>
      FinalOutput(plan, results) == results[plan.sortedIds[k]].output
    ensures forall k :: Supplies(plan, results, k) && results[plan.sortedIds[k]].output.None? ==>
      FinalOutput(plan, results) == Some("None")
  {
    FinalResultIs(oracle, request, plan, results);
    hide FinalResult, Settled, Accepted, Supplies;
  }

  // ---------- Context and outcome of a node ----------

  /** Of each input, in order: its output if it completed, its error if it failed, a notice if it was empty,
      and that it is not available if it was skipped or never ran. */
  lemma ContextSays(node: Node, results: Results, i: nat)
    requires i < |node.contextNeeded|
    ensures |Context(node, results)| == |node.contextNeeded|
    ensures var dep := node.contextNeeded[i];
      var part := Context(node, results)[i];
      && (dep !in results ==> part == NotAvailable(dep))
      && (dep in results && results[dep].status == Skipped ==> part == NotAvailable(dep))
      && (dep in results && results[dep].status == Empty ==> part == NoOutput(dep))
      && (dep in results && results[dep].status == Failed ==> part == FailedWith(dep, results[dep].error))
      && (dep in results && results[dep].status == Completed ==> part == Output(dep, results[dep].output))
  {
  }

  /** What a finished run holds for a node that was not skipped: for a tool or a model node what it answers to
      its own context, for a subplan node what the nested run supplies on the request passed down. */
  lemma ResultsAreOutcomes(oracle: Oracle, request: Request, plan: Plan, results: Results, node: Node)
    requires Accepted(plan) && Settled(oracle, request, plan, results) && node in plan.nodes
    requires node.id in results && !results[node.id].status.Skipped?
    ensures !node.kind.Subplan? ==> results[node.id] == oracle(request, plan, node, Context(node, results))
    ensures node.kind.Subplan? && node.subplan.None? ==> results[node.id].status == Failed
    ensures node.kind.Subplan? && node.subplan.Some? ==> Accepted(node.subplan.value)
    ensures node.kind.Subplan? && node.subplan.Some? ==>
      IsSubplanOutcome(node.subplan.value,
        Denote(oracle, SubplanRequest(request, plan, node, Context(node, results)), node.subplan.value),
        results[node.id])
  {
    NodeIsListed(plan, node);
    NotSkippedMeansRan(oracle, request, plan, results, node);
    hide Settled, Context;
    if node.kind.Subplan? && node.subplan.Some? {
      NestedIsAccepted(plan, node);
      var inner := SubplanRequest(request, plan, node, Context(node, results));
      DenoteIsSettled(oracle, inner, node.subplan.value);
      SubplanResultIs(oracle, inner, node.subplan.value, Denote(oracle, inner, node.subplan.value));
    }
  }

  lemma NotSkippedMeansRan(oracle: Oracle, request: Request, plan: Plan, results: Results, node: Node)
    requires Accepted(plan) && Settled(oracle, request, plan, results) && node in plan.nodes
    requires node.id in Ids(plan.nodes) && NodeAt(plan.nodes, node.id) == node
    requires node.id in results && !results[node.id].status.Skipped?
    ensures results[node.id] == Ran(oracle, request, plan, node, Context(node, results))
  {
    hide Accepted, Ran, Context, OnlyUsesSkipped, Excluded;
    assert Justified(oracle, request, plan, results, node.id);
  }

  /** A nested run that supplies an answer makes its node Completed, with that answer's text and confidence;
      one that does not makes it Empty. */
  ghost predicate IsSubplanOutcome(plan: Plan, results: Results, outcome: NodeResult) {
    && (NothingToAnswer(plan, results) ==> outcome.status == Empty && outcome.output.None?)
    && (!NothingToAnswer(plan, results) ==> outcome.status == Completed)
    && (forall k :: Supplies(plan, results, k) ==>
          && outcome.confidence == results[plan.sortedIds[k]].confidence
          && outcome.output == Some(if results[plan.sortedIds[k]].output.Some?
                                    then results[plan.sortedIds[k]].output.value else "None"))
  }

  lemma SubplanResultIs(oracle: Oracle, request: Request, plan: Plan, results: Results)
    requires Accepted(plan) && Settled(oracle, request, plan, results)
    ensures IsSubplanOutcome(plan, results, SubplanResult(plan, results))
  {
    FinalResultIs(oracle, request, plan, results);
    if !NothingToAnswer(plan, results) {
      var k := SomethingSupplies(plan, results);
    }
    hide FinalResult, Settled, Accepted, Supplies, NothingToAnswer;
  }
}
