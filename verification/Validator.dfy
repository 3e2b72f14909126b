/** The validator's remaining structural checks: decision nesting and nested plans. */
module Validator {
  import opened Wrappers
  import opened Graphs
  import opened Plans
  import opened TopologicalSort
  import opened NodeContracts

  // ---------- Decision nesting ----------

  ghost predicate IsBranching(nodes: seq<Node>, id: int) {
    id in Ids(nodes) && NodeAt(nodes, id).kind.Decision? && NodeAt(nodes, id).branches != []
  }

  /** A run of decisions, each listed in a branch of the one before. */
  ghost predicate IsDecisionChain(nodes: seq<Node>, chain: seq<int>) {
    && |chain| >= 1
    && (forall i :: 0 <= i < |chain| ==> IsBranching(nodes, chain[i]))
    && (forall i, j :: 0 <= i && j == i + 1 < |chain| ==> chain[j] in AllTargets(NodeAt(nodes, chain[i]).branches))
  }

  function AllTargets(branches: seq<Branch>): seq<int> {
    if branches == [] then []
    else AllTargets(branches[..|branches| - 1]) + branches[|branches| - 1].targets
  }

  lemma {:induction false} AllTargetsAreTargets(branches: seq<Branch>)
    ensures Elems(AllTargets(branches)) == TargetsOf(branches)
  {
    if branches == [] {
    } else {
      AllTargetsAreTargets(branches[..|branches| - 1]);
    }
  }

  /** A plan graph with a level for every node, all below top. */
  lemma {:induction false} AllTargetsAre(branches: seq<Branch>, t: int)
    ensures t in AllTargets(branches) <==> exists i :: 0 <= i < |branches| && t in branches[i].targets
  {
    AllTargetsAreTargets(branches);
    TargetsOfAre(branches, t);
    assert t in AllTargets(branches) <==> t in Elems(AllTargets(branches));
  }

  /** Some decision of the plan has this id and has branches. */
  ghost predicate HasDecision(nodes: seq<Node>, id: int) {
    exists n :: n in nodes && n.id == id && n.kind == Decision && n.branches != []
  }

  /** Some node with id u has v among the targets of one of its branches. */
  ghost predicate HasTarget(nodes: seq<Node>, u: int, v: int) {
    exists n, b :: n in nodes && n.id == u && 0 <= b < |n.branches| && v in n.branches[b].targets
  }

  lemma BranchingIs(nodes: seq<Node>, u: int, v: int)
    requires DistinctIds(nodes)
    ensures IsBranching(nodes, u) <==> HasDecision(nodes, u)
    ensures IsBranching(nodes, u) ==> (v in AllTargets(NodeAt(nodes, u).branches) <==> HasTarget(nodes, u, v))
  {
    forall n | n in nodes
      ensures n.id in Ids(nodes) && NodeAt(nodes, n.id) == n
    {
      NodeAtIsUnique(nodes, n);
    }
    hide Ids, NodeAt, DistinctIds;
    if u in Ids(nodes) {
      AllTargetsAre(NodeAt(nodes, u).branches, v);
    }
  }

  /** A chain of decisions: each has branches, and each but the first is a target in some branch of the one
      before. */
  lemma DecisionChainsAre(nodes: seq<Node>, chain: seq<int>)
    requires DistinctIds(nodes)
    ensures IsDecisionChain(nodes, chain) <==>
      && chain != []
      && (forall i :: 0 <= i < |chain| ==> HasDecision(nodes, chain[i]))
      && (forall i, j :: 0 <= i && j == i + 1 < |chain| ==> HasTarget(nodes, chain[i], chain[j]))
  {
    forall u, v
      ensures IsBranching(nodes, u) <==> HasDecision(nodes, u)
      ensures IsBranching(nodes, u) ==> (v in AllTargets(NodeAt(nodes, u).branches) <==> HasTarget(nodes, u, v))
    {
      BranchingIs(nodes, u, v);
    }
    hide DistinctIds, IsBranching, HasDecision, HasTarget, AllTargets;
  }

  ghost predicate Leveled(nodes: seq<Node>, level: map<int, nat>, top: int) {
    && DistinctIds(nodes)
    && level.Keys == Ids(nodes)
    && Levels(Ids(nodes), EdgesOf(nodes), level)
    && forall v :: v in level ==> level[v] < top
  }

  ghost predicate AreAbove(nodes: seq<Node>, level: map<int, nat>, ids: seq<int>, floor: int)
    requires level.Keys == Ids(nodes)
  {
    forall id :: id in ids && id in Ids(nodes) ==> floor < level[id]
  }

  lemma TargetsAreAbove(nodes: seq<Node>, level: map<int, nat>, top: int, id: int)
    requires Leveled(nodes, level, top) && IsBranching(nodes, id)
    ensures AreAbove(nodes, level, AllTargets(NodeAt(nodes, id).branches), level[id])
  {
    var node := NodeAt(nodes, id);
    AllTargetsAreTargets(node.branches);
    forall t | t in AllTargets(node.branches) && t in Ids(nodes)
      ensures level[id] < level[t]
    {
      assert t in ControlTargets(node);
      assert (id, t) in NodeEdges(node);
      assert (id, t) in EdgesOf(nodes);
    }
  }

  /** The most decisions on a chain that starts at one of the ids. */
  ghost function Deepest(nodes: seq<Node>, level: map<int, nat>, top: int, ids: seq<int>, floor: int): nat
    requires Leveled(nodes, level, top) && AreAbove(nodes, level, ids, floor)
    decreases top - floor, 0, |ids|
  {
    if ids == [] then 0 else
      var rest := Deepest(nodes, level, top, ids[..|ids| - 1], floor);
      var last := ids[|ids| - 1];
      var here := if IsBranching(nodes, last) then DeepestAt(nodes, level, top, last) else 0;
      if here > rest then here else rest
  }

  ghost function DeepestAt(nodes: seq<Node>, level: map<int, nat>, top: int, id: int): nat
    requires Leveled(nodes, level, top) && IsBranching(nodes, id)
    decreases top - level[id], 1, 0
  {
    TargetsAreAbove(nodes, level, top, id);
    1 + Deepest(nodes, level, top, AllTargets(NodeAt(nodes, id).branches), level[id])
  }

  lemma {:induction false} DeepestBoundsChains(nodes: seq<Node>, level: map<int, nat>, top: int, ids: seq<int>,
                                               floor: int, chain: seq<int>)
    requires Leveled(nodes, level, top) && AreAbove(nodes, level, ids, floor)
    requires IsDecisionChain(nodes, chain) && chain[0] in ids
    ensures |chain| <= Deepest(nodes, level, top, ids, floor)
    decreases top - floor, 0, |ids|
  {
    var last := ids[|ids| - 1];
    if chain[0] != last {
      DeepestBoundsChains(nodes, level, top, ids[..|ids| - 1], floor, chain);
    } else if |chain| > 1 {
      TargetsAreAbove(nodes, level, top, last);
      var tail := chain[1..];
      assert forall i :: 0 <= i < |tail| ==> tail[i] == chain[i + 1];
      DeepestBoundsChains(nodes, level, top, AllTargets(NodeAt(nodes, last).branches), level[last], tail);
    }
  }

  lemma ChainPrepend(nodes: seq<Node>, id: int, tail: seq<int>)
    requires IsBranching(nodes, id) && IsDecisionChain(nodes, tail)
    requires tail[0] in AllTargets(NodeAt(nodes, id).branches)
    ensures IsDecisionChain(nodes, [id] + tail)
  {
    var chain := [id] + tail;
    forall i, j | 0 <= i && j == i + 1 < |chain|
      ensures chain[j] in AllTargets(NodeAt(nodes, chain[i]).branches)
    {
      if i > 0 {
        assert chain[i] == tail[i - 1] && chain[j] == tail[j - 1];
      }
    }
  }

  lemma {:induction false} DeepestIsReached(nodes: seq<Node>, level: map<int, nat>, top: int, ids: seq<int>, floor: int)
    returns (chain: seq<int>)
    requires Leveled(nodes, level, top) && AreAbove(nodes, level, ids, floor)
    requires Deepest(nodes, level, top, ids, floor) > 0
    ensures IsDecisionChain(nodes, chain) && chain[0] in ids
    ensures |chain| == Deepest(nodes, level, top, ids, floor)
    decreases top - floor, 0, |ids|
  {
    hide Levels, IdList;
    var last := ids[|ids| - 1];
    var init := ids[..|ids| - 1];
    if Deepest(nodes, level, top, init, floor) == Deepest(nodes, level, top, ids, floor) {
      chain := DeepestIsReached(nodes, level, top, init, floor);
    } else {
      TargetsAreAbove(nodes, level, top, last);
      var targets := AllTargets(NodeAt(nodes, last).branches);
      if Deepest(nodes, level, top, targets, level[last]) == 0 {
        chain := [last];
      } else {
        var tail := DeepestIsReached(nodes, level, top, targets, level[last]);
        chain := [last] + tail;
        ChainPrepend(nodes, last, tail);
      }
    }
  }

  lemma {:induction false} DeepestOfConcat(nodes: seq<Node>, level: map<int, nat>, top: int, a: seq<int>, b: seq<int>,
                                           floor: int)
    requires Leveled(nodes, level, top) && AreAbove(nodes, level, a, floor) && AreAbove(nodes, level, b, floor)
    ensures AreAbove(nodes, level, a + b, floor)
    ensures var da, db := Deepest(nodes, level, top, a, floor), Deepest(nodes, level, top, b, floor);
      Deepest(nodes, level, top, a + b, floor) == if da > db then da else db
    decreases |b|
  {
    if b == [] {
      assert a + b == a;
    } else {
      DeepestOfConcat(nodes, level, top, a, b[..|b| - 1], floor);
      assert (a + b)[..|a + b| - 1] == a + b[..|b| - 1];
    }
  }

  /** The recursion climbs one level at a time, so a sorted plan bounds it. */
  method NestingDepth(nodeIds: seq<int>, nodes: seq<Node>, current: int,
                      ghost level: map<int, nat>, ghost top: int, ghost floor: int) returns (maxDepth: int)
    requires Leveled(nodes, level, top) && AreAbove(nodes, level, nodeIds, floor)
    ensures maxDepth == current + Deepest(nodes, level, top, nodeIds, floor)
    decreases top - floor, 0
  {
    maxDepth := current;
    for i := 0 to |nodeIds|
      invariant maxDepth == current + Deepest(nodes, level, top, nodeIds[..i], floor)
    {
      assert nodeIds[..i + 1][..i] == nodeIds[..i];
      var nid := nodeIds[i];
      assert nid in nodeIds;
      if nid in Ids(nodes) {
        var node := NodeAt(nodes, nid);
        if node.kind.Decision? && node.branches != [] {
          var below := BranchesDepth(node, nodes, current, level, top);
          maxDepth := if below > maxDepth then below else maxDepth;
        }
      }
    }
    assert nodeIds[..|nodeIds|] == nodeIds;
  }

  lemma BranchIsAbove(nodes: seq<Node>, level: map<int, nat>, top: int, id: int, j: nat)
    requires Leveled(nodes, level, top) && IsBranching(nodes, id) && j < |NodeAt(nodes, id).branches|
    requires AreAbove(nodes, level, AllTargets(NodeAt(nodes, id).branches[..j]), level[id])
    ensures var branches := NodeAt(nodes, id).branches;
      && AreAbove(nodes, level, branches[j].targets, level[id])
      && AreAbove(nodes, level, AllTargets(branches[..j + 1]), level[id])
      && var before := Deepest(nodes, level, top, AllTargets(branches[..j]), level[id]);
         var here := Deepest(nodes, level, top, branches[j].targets, level[id]);
         Deepest(nodes, level, top, AllTargets(branches[..j + 1]), level[id]) == if before > here then before else here
  {
    var branches := NodeAt(nodes, id).branches;
    TargetsAreAbove(nodes, level, top, id);
    AllTargetsAreTargets(branches);
    forall t | t in branches[j].targets
      ensures t in AllTargets(branches)
    {
      TargetsInclude(branches, j, t);
      assert t in Elems(AllTargets(branches));
    }
    assert branches[..j + 1][..j] == branches[..j];
    DeepestOfConcat(nodes, level, top, AllTargets(branches[..j]), branches[j].targets, level[id]);
  }

  /** Before any branch nothing is nested; over all branches the nesting is that of the decision. */
  lemma NoBranches(nodes: seq<Node>, level: map<int, nat>, top: int, node: Node)
    requires Leveled(nodes, level, top) && IsBranching(nodes, node.id) && NodeAt(nodes, node.id) == node
    ensures level.Keys == Ids(nodes) && node.id in level && level[node.id] < top && |node.branches| > 0
    ensures AllTargets(node.branches[..0]) == [] && AreAbove(nodes, level, [], level[node.id])
    ensures Deepest(nodes, level, top, [], level[node.id]) == 0
    ensures node.branches[..|node.branches|] == node.branches
    ensures AreAbove(nodes, level, AllTargets(node.branches), level[node.id])
    ensures DeepestAt(nodes, level, top, node.id)
         == 1 + Deepest(nodes, level, top, AllTargets(node.branches), level[node.id])
  {
    hide Levels, DistinctIds, EdgesOf;
    TargetsAreAbove(nodes, level, top, node.id);
  }

  /** The deepest nesting below any branch of a decision that itself sits at depth current. */
  method BranchesDepth(node: Node, nodes: seq<Node>, current: int, ghost level: map<int, nat>, ghost top: int)
    returns (maxDepth: int)
    requires Leveled(nodes, level, top) && IsBranching(nodes, node.id) && NodeAt(nodes, node.id) == node
    ensures maxDepth == current + DeepestAt(nodes, level, top, node.id)
    decreases top - level[node.id], 1
  {
    hide *;
    NoBranches(nodes, level, top, node);
    maxDepth := current + 1;
    for j := 0 to |node.branches|
      invariant AreAbove(nodes, level, AllTargets(node.branches[..j]), level[node.id])
      invariant maxDepth == current + 1 + Deepest(nodes, level, top, AllTargets(node.branches[..j]), level[node.id])
    {
      BranchIsAbove(nodes, level, top, node.id, j);
      var depth := NestingDepth(node.branches[j].targets, nodes, current + 1, level, top, level[node.id]);
      maxDepth := if depth > maxDepth then depth else maxDepth;
    }
  }

  ghost predicate NestsWithin(nodes: seq<Node>, limit: int) {
    forall chain :: IsDecisionChain(nodes, chain) ==> |chain| <= limit
  }

  ghost predicate NestsWithinFrom(nodes: seq<Node>, ids: seq<int>, limit: int) {
    forall chain :: IsDecisionChain(nodes, chain) && chain[0] in ids ==> |chain| <= limit
  }

  lemma DeepestAtIsExact(nodes: seq<Node>, level: map<int, nat>, top: int, id: int, limit: int)
    requires Leveled(nodes, level, top) && IsBranching(nodes, id)
    ensures DeepestAt(nodes, level, top, id) <= limit <==> NestsWithinFrom(nodes, [id], limit)
  {
    var depth := DeepestAt(nodes, level, top, id);
    var floor: int := -1;
    assert [id][..0] == [];
    assert Deepest(nodes, level, top, [id], floor) == depth;
    forall chain | IsDecisionChain(nodes, chain) && chain[0] in [id]
      ensures |chain| <= depth
    {
      DeepestBoundsChains(nodes, level, top, [id], floor, chain);
    }
    var longest := DeepestIsReached(nodes, level, top, [id], floor);
  }

  /** The depth of the first branch of the decision that nests too deeply. */
  method DeepBranch(node: Node, nodes: seq<Node>, limit: int, ghost level: map<int, nat>, ghost top: int)
    returns (tooDeep: Option<int>)
    requires Leveled(nodes, level, top) && IsBranching(nodes, node.id) && NodeAt(nodes, node.id) == node
    ensures tooDeep.None? <==> DeepestAt(nodes, level, top, node.id) <= limit
    ensures tooDeep.Some? ==> limit < tooDeep.value <= DeepestAt(nodes, level, top, node.id)
  {
    hide *;
    NoBranches(nodes, level, top, node);
    ghost var base := level[node.id];
    for j := 0 to |node.branches|
      invariant AreAbove(nodes, level, AllTargets(node.branches[..j]), base)
      invariant j == 0 || 1 + Deepest(nodes, level, top, AllTargets(node.branches[..j]), base) <= limit
      invariant j == 0 ==> AllTargets(node.branches[..j]) == []
    {
      BranchIsAbove(nodes, level, top, node.id, j);
      var depth := NestingDepth(node.branches[j].targets, nodes, 1, level, top, base);
      if depth > limit {
        BranchIsBelow(nodes, level, top, node.id, j);
        return Some(depth);
      }
    }
    return None;
  }

  lemma BranchIsBelow(nodes: seq<Node>, level: map<int, nat>, top: int, id: int, j: nat)
    requires Leveled(nodes, level, top) && IsBranching(nodes, id) && j < |NodeAt(nodes, id).branches|
    requires AreAbove(nodes, level, NodeAt(nodes, id).branches[j].targets, level[id])
    ensures 1 + Deepest(nodes, level, top, NodeAt(nodes, id).branches[j].targets, level[id])
         <= DeepestAt(nodes, level, top, id)
  {
    var branches := NodeAt(nodes, id).branches;
    var targets := branches[j].targets;
    TargetsAreAbove(nodes, level, top, id);
    AllTargetsAreTargets(branches);
    forall t | t in targets
      ensures t in AllTargets(branches)
    {
      TargetsInclude(branches, j, t);
      assert t in Elems(AllTargets(branches));
    }
    if Deepest(nodes, level, top, targets, level[id]) > 0 {
      var chain := DeepestIsReached(nodes, level, top, targets, level[id]);
      DeepestBoundsChains(nodes, level, top, AllTargets(branches), level[id], chain);
    }
  }

  lemma NestsWithinSplit(nodes: seq<Node>, ids: seq<int>, id: int, limit: int)
    ensures NestsWithinFrom(nodes, ids + [id], limit) <==>
      NestsWithinFrom(nodes, ids, limit) && NestsWithinFrom(nodes, [id], limit)
    ensures !IsBranching(nodes, id) ==> NestsWithinFrom(nodes, [id], limit)
  {
  }

  /** Passes exactly when no chain of nested decisions is longer than the limit. */
  method CheckDecisionNesting(nodes: seq<Node>, limit: int, ghost level: map<int, nat>, ghost top: int)
    returns (error: Option<PlanError>)
    requires Leveled(nodes, level, top)
    ensures error.None? <==> NestsWithin(nodes, limit)
    ensures error.Some? ==> error.value.NestingTooDeep? && error.value.depth > limit
  {
    hide *;
    NothingNests(nodes, limit);
    for i := 0 to |nodes|
      invariant NestsWithinFrom(nodes, IdList(nodes[..i]), limit)
    {
      var node := nodes[i];
      OneMoreDecision(nodes, i, limit, level, top);
      if node.kind.Decision? && node.branches != [] {
        var tooDeep := DeepBranch(node, nodes, limit, level, top);
        if tooDeep.Some? {
          return Some(NestingTooDeep(node.id, tooDeep.value));
        }
      }
    }
    EverythingNests(nodes, limit);
    return None;
  }

  lemma NothingNests(nodes: seq<Node>, limit: int)
    ensures nodes[..0] == [] && NestsWithinFrom(nodes, IdList(nodes[..0]), limit)
  {
  }

  lemma EverythingNests(nodes: seq<Node>, limit: int)
    ensures nodes[..|nodes|] == nodes
    ensures NestsWithinFrom(nodes, IdList(nodes), limit) ==> NestsWithin(nodes, limit)
  {
  }

  /** One node: if it is a decision with branches the nesting below it decides, otherwise nothing does. */
  lemma OneMoreDecision(nodes: seq<Node>, i: nat, limit: int, level: map<int, nat>, top: int)
    requires Leveled(nodes, level, top) && i < |nodes| && NestsWithinFrom(nodes, IdList(nodes[..i]), limit)
    ensures var node := nodes[i];
      if node.kind.Decision? && node.branches != [] then
        && IsBranching(nodes, node.id) && NodeAt(nodes, node.id) == node
        && (DeepestAt(nodes, level, top, node.id) <= limit ==> NestsWithinFrom(nodes, IdList(nodes[..i + 1]), limit))
        && (DeepestAt(nodes, level, top, node.id) > limit ==> !NestsWithin(nodes, limit))
      else NestsWithinFrom(nodes, IdList(nodes[..i + 1]), limit)
  {
    var node := nodes[i];
    ListedWithNode(nodes, i, level, top);
    hide Leveled, NestsWithinFrom, NestsWithin, NodeAt, Ids;
    NestsWithinSplit(nodes, IdList(nodes[..i]), node.id, limit);
    if node.kind.Decision? && node.branches != [] {
      DeepestAtIsExact(nodes, level, top, node.id, limit);
      NestsWithinMeans(nodes, node.id, limit);
    }
  }

  lemma ListedWithNode(nodes: seq<Node>, i: nat, level: map<int, nat>, top: int)
    requires Leveled(nodes, level, top) && i < |nodes|
    ensures nodes[i].id in Ids(nodes) && NodeAt(nodes, nodes[i].id) == nodes[i]
    ensures IdList(nodes[..i + 1]) == IdList(nodes[..i]) + [nodes[i].id]
  {
    hide Levels, DistinctIds, EdgesOf, NodeAt, Ids;
    assert nodes[i] in nodes;
    NodeAtIsUnique(nodes, nodes[i]);
  }

  lemma NestsWithinMeans(nodes: seq<Node>, id: int, limit: int)
    ensures NestsWithin(nodes, limit) ==> NestsWithinFrom(nodes, [id], limit)
  {
  }

  // ---------- Whole plan trees ----------

  /** The plan with every recorded order removed: what the validator must leave unchanged. */
  function Bare(plan: Plan): Plan {
    Plan(BareNodes(plan.nodes), [])
  }

  function BareNodes(nodes: seq<Node>): (r: seq<Node>)
    ensures |r| == |nodes|
    decreases nodes
  {
    if nodes == [] then []
    else
      var last := nodes[|nodes| - 1];
      BareNodes(nodes[..|nodes| - 1]) +
      [if last.kind.Subplan? && last.subplan.Some? then last.(subplan := Some(Bare(last.subplan.value))) else last]
  }

  /** The limits in force, the registered tools and the number of configured tiers. */
  datatype Settings = Settings(
    maxPlanNodes: int,
    maxSubplanNodes: int,
    maxNesting: int,
    maxSubplans: int,
    tools: set<string>,
    tiers: int)

  function MaxNodes(s: Settings, isSubplan: bool): int {
    if isSubplan then s.maxSubplanNodes else s.maxPlanNodes
  }

  function SubplanCount(nodes: seq<Node>): nat {
    if nodes == [] then 0
    else SubplanCount(nodes[..|nodes| - 1]) + if nodes[|nodes| - 1].kind.Subplan? then 1 else 0
  }

  lemma {:induction false} SubplansAreCounted(nodes: seq<Node>)
    ensures SubplanCount(nodes) == |SubplansOf(nodes)|
  {
    hide SubplansOf;
    if nodes == [] {
      NoSubplans();
    } else {
      SubplansAreCounted(nodes[..|nodes| - 1]);
      OneMoreSubplan(nodes);
    }
  }

  /** The positions of the subplan nodes. */
  ghost function SubplansOf(nodes: seq<Node>): set<int> {
    set i | 0 <= i < |nodes| && nodes[i].kind == Subplan
  }

  lemma NoSubplans()
    ensures SubplansOf([]) == {}
  {
  }

  lemma OneMoreSubplan(nodes: seq<Node>)
    requires nodes != []
    ensures var init := nodes[..|nodes| - 1];
      && |init| !in SubplansOf(init)
      && SubplansOf(nodes) == SubplansOf(init) + if nodes[|init|].kind.Subplan? then {|init|} else {}
  {
  }

  /** The condition on a plan tree: at every level few enough nodes and subplans, acceptable nodes,
      distinct ids, existing references, no cycle and bounded nesting, and a plan inside every subplan
      node. */
  ghost predicate WellFormed(plan: Plan, isSubplan: bool, s: Settings) {
    && |plan.nodes| <= MaxNodes(s, isSubplan)
    && (forall n :: n in plan.nodes ==> NodeIsFine(n, s.tools, s.tiers))
    && DistinctIds(plan.nodes)
    && RefsExist(plan.nodes)
    && Acyclic(EdgesOf(plan.nodes))
    && NestsWithin(plan.nodes, s.maxNesting)
    && SubplanCount(plan.nodes) <= s.maxSubplans
    && AllWellFormed(plan.nodes, s)
  }

  ghost predicate AllWellFormed(nodes: seq<Node>, s: Settings) {
    forall n :: n in nodes && n.kind.Subplan? ==> n.subplan.Some? && WellFormed(n.subplan.value, true, s)
  }

  /** Everything that must hold of a plan, at this level and in the plans nested in it. */
  lemma WellFormedIs(plan: Plan, isSubplan: bool, s: Settings)
    ensures WellFormed(plan, isSubplan, s) <==>
      && |plan.nodes| <= (if isSubplan then s.maxSubplanNodes else s.maxPlanNodes)
      && (forall n :: n in plan.nodes ==> NodeIsFine(n, s.tools, s.tiers))
      && DistinctIds(plan.nodes) && RefsExist(plan.nodes) && Acyclic(EdgesOf(plan.nodes))
      && (forall chain :: IsDecisionChain(plan.nodes, chain) ==> |chain| <= s.maxNesting)
      && |SubplansOf(plan.nodes)| <= s.maxSubplans
      && (forall n :: n in plan.nodes && n.kind == Subplan ==> n.subplan.Some? && WellFormed(n.subplan.value, true, s))
  {
    SubplansAreCounted(plan.nodes);
    hide NodeIsFine, DistinctIds, RefsExist, Acyclic, EdgesOf, IsDecisionChain, SubplanCount, SubplansOf;
    if AllWellFormed(plan.nodes, s) {
      forall n | n in plan.nodes && n.kind == Subplan
        ensures n.subplan.Some? && WellFormed(n.subplan.value, true, s)
      {
        assert n.kind.Subplan?;
      }
    }
    if forall n :: n in plan.nodes && n.kind == Subplan ==> n.subplan.Some? && WellFormed(n.subplan.value, true, s) {
      forall n | n in plan.nodes && n.kind.Subplan?
        ensures n.subplan.Some? && WellFormed(n.subplan.value, true, s)
      {
        assert n.kind == Subplan;
      }
    }
  }

  /** A plan that passes keeps the limit for plans, and the plans nested in it keep the limit for subplans;
      one that exceeds its limit fails. */
  lemma LimitsAreKept(plan: Plan, s: Settings)
    ensures WellFormed(plan, false, s) ==> |plan.nodes| <= s.maxPlanNodes
    ensures WellFormed(plan, true, s) ==> |plan.nodes| <= s.maxSubplanNodes
    ensures WellFormed(plan, false, s) ==> forall n :: n in plan.nodes && n.kind == Subplan ==>
      n.subplan.Some? && |n.subplan.value.nodes| <= s.maxSubplanNodes
  {
    hide NestsWithin, RefsExist, DistinctIds, NodeIsFine;
    if WellFormed(plan, false, s) {
      forall n | n in plan.nodes && n.kind == Subplan
        ensures n.subplan.Some? && |n.subplan.value.nodes| <= s.maxSubplanNodes
      {
        assert AllWellFormed(plan.nodes, s) && n.kind.Subplan?;
        assert n.subplan.Some?;
        assert WellFormed(n.subplan.value, true, s);
      }
    }
  }

  /** The nodes, in their order, with all fields the same, and plans nested in them equal in this sense: only
      the recorded orders may differ. */
  ghost predicate SameButOrder(a: Plan, b: Plan)
    decreases a
  {
    |a.nodes| == |b.nodes| && forall i :: 0 <= i < |a.nodes| ==> SameNode(a.nodes[i], b.nodes[i])
  }

  ghost predicate SameNode(a: Node, b: Node)
    decreases a
  {
    if a.kind.Subplan? && a.subplan.Some? && b.subplan.Some? then
      a.(subplan := b.subplan) == b && SameButOrder(a.subplan.value, b.subplan.value)
    else a == b
  }

  lemma {:induction false} BareIsFaithful(a: Plan, b: Plan)
    requires Bare(a) == Bare(b)
    ensures SameButOrder(a, b)
    decreases a
  {
    forall i | 0 <= i < |a.nodes|
      ensures i < |b.nodes| && SameNode(a.nodes[i], b.nodes[i])
    {
      BareAt(a.nodes, i);
      BareAt(b.nodes, i);
      BareNodeIsFaithful(a.nodes[i], b.nodes[i]);
    }
  }

  function BareNode(n: Node): Node
    decreases n, 1
  {
    if n.kind.Subplan? && n.subplan.Some? then n.(subplan := Some(Bare(n.subplan.value))) else n
  }

  lemma {:induction false} BareAt(nodes: seq<Node>, i: nat)
    requires i < |nodes|
    ensures BareNodes(nodes)[i] == BareNode(nodes[i])
    decreases |nodes|
  {
    if i < |nodes| - 1 {
      BareAt(nodes[..|nodes| - 1], i);
    }
  }

  lemma BareNodeIsFaithful(a: Node, b: Node)
    requires BareNode(a) == BareNode(b)
    ensures SameNode(a, b)
    decreases a
  {
    hide Bare, SameButOrder;
    if a.kind.Subplan? && a.subplan.Some? {
      assert b.kind.Subplan? && b.subplan.Some?;
      BareIsFaithful(a.subplan.value, b.subplan.value);
    }
  }

  /** Two node lists that differ in nested plans only. */
  ghost predicate SameGraph(a: seq<Node>, b: seq<Node>) {
    |a| == |b| && forall i :: 0 <= i < |a| ==> a[i].(subplan := None) == b[i].(subplan := None)
  }

  lemma SameNodeSameEdges(a: Node, b: Node)
    requires a.(subplan := None) == b.(subplan := None)
    ensures a.id == b.id && NodeEdges(a) == NodeEdges(b)
  {
  }

  lemma {:induction false} SameGraphSameEdges(a: seq<Node>, b: seq<Node>)
    requires SameGraph(a, b)
    ensures IdList(a) == IdList(b) && EdgesOf(a) == EdgesOf(b)
  {
    hide EdgesOf, NodeEdges;
    if a == [] {
      assert a == b;
    } else {
      var n := |a| - 1;
      SameGraphSameEdges(a[..n], b[..n]);
      EdgesGrow(a, n);
      EdgesGrow(b, n);
      assert a[..n + 1] == a && b[..n + 1] == b;
      SameNodeSameEdges(a[n], b[n]);
      assert IdList(a) == IdList(a[..n]) + [a[n].id];
      assert IdList(b) == IdList(b[..n]) + [b[n].id];
    }
  }

  lemma SortedTree(plan: Plan, nodes: seq<Node>, order: seq<int>)
    requires DistinctIds(plan.nodes) && RefsExist(plan.nodes) && Acyclic(EdgesOf(plan.nodes))
    requires Closed(Ids(plan.nodes), EdgesOf(plan.nodes)) && order == KahnOrder(Ids(plan.nodes), EdgesOf(plan.nodes))
    requires SameGraph(plan.nodes, nodes) && AllAccepted(nodes)
    ensures Accepted(Plan(nodes, order))
  {
    TopoSortIsSound(plan, map[]);
    SameGraphSameEdges(plan.nodes, nodes);
  }

  method Validate(plan: Plan, isSubplan: bool, s: Settings) returns (r: Result<Plan, PlanError>)
    ensures r.Success? <==> WellFormed(plan, isSubplan, s)
    ensures r.Success? ==> Accepted(r.value) && Bare(r.value) == Bare(plan) && SameButOrder(plan, r.value)
    ensures r.Success? ==> Closed(Ids(plan.nodes), EdgesOf(plan.nodes))
    ensures r.Success? ==> r.value.sortedIds == KahnOrder(Ids(plan.nodes), EdgesOf(plan.nodes))
    decreases plan, 1
  {
    hide NodeIsFine, NestsWithin, Levels;
    if |plan.nodes| > MaxNodes(s, isSubplan) {
      return Failure(TooManyNodes(|plan.nodes|, MaxNodes(s, isSubplan)));
    }
    var rejected := CheckNodes(plan.nodes, s.tools, s.tiers);
    if rejected.Some? {
      return Failure(rejected.value);
    }
    var order := TopoSort(plan);
    if order.Failure? {
      return Failure(order.error);
    }
    ghost var level := AcyclicHasLevels(Ids(plan.nodes), EdgesOf(plan.nodes));
    ghost var top := HighestOver(level, level.Keys);
    var tooDeep := CheckDecisionNesting(plan.nodes, s.maxNesting, level, top);
    if tooDeep.Some? {
      return Failure(tooDeep.value);
    }
    var nested := CheckSubplans(plan.nodes, s);
    if nested.Failure? {
      return Failure(nested.error);
    }
    SortedTree(plan, nested.value, order.value);
    BareIsFaithful(plan, Plan(nested.value, order.value));
    return Success(Plan(nested.value, order.value));
  }

  /** The checked nodes are the given ones with every nested plan accepted and in its own order. */
  ghost predicate AreChecked(nodes: seq<Node>, checked: seq<Node>, s: Settings) {
    && AllWellFormed(nodes, s)
    && SameGraph(nodes, checked)
    && AllAccepted(checked)
    && BareNodes(checked) == BareNodes(nodes)
  }

  ghost predicate IsCheckedNode(node: Node, checked: Node, s: Settings) {
    if node.kind.Subplan? then
      && node.subplan.Some? && WellFormed(node.subplan.value, true, s)
      && checked.subplan.Some? && checked == node.(subplan := checked.subplan)
      && Accepted(checked.subplan.value) && Bare(checked.subplan.value) == Bare(node.subplan.value)
    else checked == node
  }

  lemma CheckOneMore(nodes: seq<Node>, checked: seq<Node>, node: Node, last: Node, s: Settings)
    requires AreChecked(nodes, checked, s) && IsCheckedNode(node, last, s)
    ensures AreChecked(nodes + [node], checked + [last], s)
  {
    hide *;
    AppendWellFormed(nodes, node, last, s);
    AppendSameGraph(nodes, checked, node, last, s);
    AppendAccepted(checked, node, last, s);
    AppendBare(nodes, checked, node, last, s);
    CheckedParts(nodes, checked, s);
    CheckedParts(nodes + [node], checked + [last], s);
  }

  lemma CheckedParts(nodes: seq<Node>, checked: seq<Node>, s: Settings)
    ensures AreChecked(nodes, checked, s) <==>
      && AllWellFormed(nodes, s) && SameGraph(nodes, checked)
      && AllAccepted(checked) && BareNodes(checked) == BareNodes(nodes)
  {
  }

  lemma AppendWellFormed(nodes: seq<Node>, node: Node, last: Node, s: Settings)
    requires IsCheckedNode(node, last, s)
    ensures AllWellFormed(nodes, s) ==> AllWellFormed(nodes + [node], s)
  {
    hide Accepted, WellFormed, Bare;
  }

  lemma AppendSameGraph(nodes: seq<Node>, checked: seq<Node>, node: Node, last: Node, s: Settings)
    requires IsCheckedNode(node, last, s)
    ensures SameGraph(nodes, checked) ==> SameGraph(nodes + [node], checked + [last])
  {
    hide Accepted, WellFormed, Bare;
    assert last.(subplan := None) == node.(subplan := None);
  }

  lemma AppendAccepted(checked: seq<Node>, node: Node, last: Node, s: Settings)
    requires IsCheckedNode(node, last, s)
    ensures AllAccepted(checked) ==> AllAccepted(checked + [last])
  {
    hide Accepted, WellFormed, Bare;
  }

  lemma AppendBare(nodes: seq<Node>, checked: seq<Node>, node: Node, last: Node, s: Settings)
    requires IsCheckedNode(node, last, s)
    ensures BareNodes(checked) == BareNodes(nodes) ==> BareNodes(checked + [last]) == BareNodes(nodes + [node])
  {
    hide Accepted, WellFormed, Bare;
    assert (nodes + [node])[..|nodes|] == nodes && (checked + [last])[..|checked|] == checked;
    assert (nodes + [node])[|nodes|] == node && (checked + [last])[|checked|] == last;
  }

  /** Validates every nested plan and records its order in place of the one it came with. */
  method CheckSubplans(nodes: seq<Node>, s: Settings) returns (r: Result<seq<Node>, PlanError>)
    ensures r.Success? <==> SubplanCount(nodes) <= s.maxSubplans && AllWellFormed(nodes, s)
    ensures r.Success? ==> SameGraph(nodes, r.value) && AllAccepted(r.value) && BareNodes(r.value) == BareNodes(nodes)
    decreases nodes, 0
  {
    hide Accepted, WellFormed, Bare, SubplanCount;
    if SubplanCount(nodes) > s.maxSubplans {
      return Failure(TooManySubplans(SubplanCount(nodes), s.maxSubplans));
    }
    var checked: seq<Node> := [];
    for i := 0 to |nodes|
      invariant AreChecked(nodes[..i], checked, s)
    {
      var node := nodes[i];
      var last := node;
      if node.kind.Subplan? {
        assert node in nodes;
        if node.subplan.None? {
          return Failure(MissingSubplan(node.id));
        }
        var sub := Validate(node.subplan.value, true, s);
        if sub.Failure? {
          return Failure(sub.error);
        }
        last := node.(subplan := Some(sub.value));
      }
      CheckOneMore(nodes[..i], checked, node, last, s);
      assert nodes[..i + 1] == nodes[..i] + [node];
      checked := checked + [last];
    }
    assert nodes[..|nodes|] == nodes;
    return Success(checked);
  }
}
