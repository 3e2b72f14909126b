/** Plans: nodes with data dependencies, decisions with branches, and nested plans. */
module Plans {
  import opened Wrappers
  import opened Graphs

  datatype NodeType = Tool | Decision | Synthesis | Think | Summary | Answer | Subplan

  /** One entry of a decision's ordered branch dictionary. */
  datatype Branch = Branch(name: string, targets: seq<int>)

  /** A node without a branch dictionary has no branches; hasBranches tells it from one whose dictionary
      is empty, which only the contract check does. */
  datatype Node = Node(
    id: int,
    kind: NodeType,
    description: string,
    tool: Option<string>,
    contextNeeded: seq<int>,
    condition: Option<string>,
    hasBranches: bool,
    branches: seq<Branch>,
    defaultBranch: Option<string>,
    forcedTier: Option<int>,
    subplan: Option<Plan>)

  datatype Plan = Plan(nodes: seq<Node>, sortedIds: seq<int>)

  function IdList(nodes: seq<Node>): (r: seq<int>)
    ensures |r| == |nodes| && forall i :: 0 <= i < |nodes| ==> r[i] == nodes[i].id
  {
    seq(|nodes|, i requires 0 <= i < |nodes| => nodes[i].id)
  }

  function Ids(nodes: seq<Node>): set<int> {
    Elems(IdList(nodes))
  }

  ghost predicate DistinctIds(nodes: seq<Node>) {
    Distinct(IdList(nodes))
  }

  function TargetsOf(branches: seq<Branch>): set<int> {
    if branches == [] then {}
    else TargetsOf(branches[..|branches| - 1]) + Elems(branches[|branches| - 1].targets)
  }

  lemma {:induction false} TargetsInclude(branches: seq<Branch>, i: nat, t: int)
    requires i < |branches| && t in branches[i].targets
    ensures t in TargetsOf(branches)
  {
    if i < |branches| - 1 {
      TargetsInclude(branches[..|branches| - 1], i, t);
    }
  }

  lemma {:induction false} TargetsOfAre(branches: seq<Branch>, t: int)
    ensures t in TargetsOf(branches) <==> exists i :: 0 <= i < |branches| && t in branches[i].targets
  {
    if branches != [] {
      var init := branches[..|branches| - 1];
      TargetsOfAre(init, t);
      assert forall i :: 0 <= i < |init| ==> init[i] == branches[i];
    }
  }

  function ControlTargets(node: Node): set<int> {
    if node.kind.Decision? then TargetsOf(node.branches) else {}
  }

  /** Data edges into the node, and control edges from it when it is a decision. */
  ghost function NodeEdges(node: Node): Edges {
    (set d | d in node.contextNeeded :: (d, node.id)) + (set t | t in ControlTargets(node) :: (node.id, t))
  }

  /** The edges of a plan: from each context id to the node that needs it, and from a decision to each target
      of its branches. */
  lemma EdgesAre(nodes: seq<Node>, u: int, v: int)
    ensures (u, v) in EdgesOf(nodes) <==>
      || (exists n :: n in nodes && n.id == v && u in n.contextNeeded)
      || (exists n, i :: n in nodes && n.id == u && n.kind == Decision
                         && 0 <= i < |n.branches| && v in n.branches[i].targets)
  {
    if (u, v) in EdgesOf(nodes) {
      var n :| n in nodes && (u, v) in NodeEdges(n);
      TargetsOfAre(n.branches, v);
    }
    if n :| n in nodes && n.id == v && u in n.contextNeeded {
      assert (u, v) in NodeEdges(n);
    }
    if n, i :| n in nodes && n.id == u && n.kind == Decision && 0 <= i < |n.branches| && v in n.branches[i].targets {
      TargetsOfAre(n.branches, v);
      assert (u, v) in NodeEdges(n);
    }
  }

  ghost function EdgesOf(nodes: seq<Node>): Edges {
    set n, e | n in nodes && e in NodeEdges(n) :: e
  }

  ghost function Refs(node: Node): set<int> {
    Elems(node.contextNeeded) + ControlTargets(node)
  }

  ghost predicate RefsExist(nodes: seq<Node>) {
    forall n :: n in nodes ==> Refs(n) <= Ids(nodes)
  }

  lemma IdIsListed(nodes: seq<Node>, n: Node)
    requires n in nodes
    ensures n.id in Ids(nodes)
  {
    var i :| 0 <= i < |nodes| && nodes[i] == n;
    assert IdList(nodes)[i] == n.id;
  }

  lemma RefsExistIffClosed(nodes: seq<Node>)
    ensures RefsExist(nodes) <==> Closed(Ids(nodes), EdgesOf(nodes))
  {
    if RefsExist(nodes) {
      forall e | e in EdgesOf(nodes)
        ensures e.0 in Ids(nodes) && e.1 in Ids(nodes)
      {
        var n :| n in nodes && e in NodeEdges(n);
        IdIsListed(nodes, n);
        assert e.0 == n.id || e.0 in Refs(n);
        assert e.1 == n.id || e.1 in Refs(n);
      }
    }
    if Closed(Ids(nodes), EdgesOf(nodes)) {
      forall n, d | n in nodes && d in Refs(n)
        ensures d in Ids(nodes)
      {
        if d in n.contextNeeded {
          assert (d, n.id) in NodeEdges(n) && (d, n.id) in EdgesOf(nodes);
        } else {
          assert (n.id, d) in NodeEdges(n) && (n.id, d) in EdgesOf(nodes);
        }
      }
    }
  }

  /** The node a lookup by id finds; with repeated ids the last one wins. */
  function NodeAt(nodes: seq<Node>, id: int): (n: Node)
    requires id in Ids(nodes)
    ensures n in nodes && n.id == id
  {
    if nodes[|nodes| - 1].id == id then nodes[|nodes| - 1]
    else
      assert forall i :: 0 <= i < |nodes| - 1 ==> IdList(nodes[..|nodes| - 1])[i] == IdList(nodes)[i];
      NodeAt(nodes[..|nodes| - 1], id)
  }

  lemma NodeAtIsUnique(nodes: seq<Node>, n: Node)
    requires DistinctIds(nodes) && n in nodes
    ensures n.id in Ids(nodes) && NodeAt(nodes, n.id) == n
  {
    IdIsListed(nodes, n);
    var m := NodeAt(nodes, n.id);
    var i :| 0 <= i < |nodes| && nodes[i] == n;
    var j :| 0 <= j < |nodes| && nodes[j] == m;
    assert IdList(nodes)[i] == IdList(nodes)[j];
  }

  lemma EdgeInto(nodes: seq<Node>, u: int, n: Node)
    requires DistinctIds(nodes) && n in nodes
    ensures (u, n.id) in EdgesOf(nodes) <==>
      u in n.contextNeeded || exists d :: d in nodes && d.id == u && n.id in ControlTargets(d)
  {
    if (u, n.id) in EdgesOf(nodes) {
      var m :| m in nodes && (u, n.id) in NodeEdges(m);
      if m.id == n.id {
        NodeAtIsUnique(nodes, m);
        NodeAtIsUnique(nodes, n);
      }
    }
    if u in n.contextNeeded {
      assert (u, n.id) in NodeEdges(n);
    }
    if d :| d in nodes && d.id == u && n.id in ControlTargets(d) {
      assert (u, n.id) in NodeEdges(d);
    }
  }

  /** A plan whose ids are distinct, whose references exist, and whose sorted ids list
      every node once with all dependencies first. */
  ghost predicate Sorted(plan: Plan) {
    && DistinctIds(plan.nodes)
    && Closed(Ids(plan.nodes), EdgesOf(plan.nodes))
    && IsOrderOf(Ids(plan.nodes), plan.sortedIds)
    && Forward(EdgesOf(plan.nodes), plan.sortedIds)
  }

  /** What the validator leaves behind: the plan and all plans nested in it are sorted. */
  ghost predicate Accepted(plan: Plan) {
    Sorted(plan) && AllAccepted(plan.nodes)
  }

  ghost predicate AllAccepted(nodes: seq<Node>) {
    forall n :: n in nodes && n.kind.Subplan? && n.subplan.Some? ==> Accepted(n.subplan.value)
  }
}
