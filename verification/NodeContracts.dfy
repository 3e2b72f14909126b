/** The checks the validator makes of the nodes of one level, each on its own: which fields a kind of
    node must and must not declare, registered tools, and tiers in range. */
module NodeContracts {
  import opened Wrappers
  import opened Graphs
  import opened Plans
  import opened TopologicalSort

  predicate IsGiven(text: Option<string>) {
    text.Some? && text.value != ""
  }

  /** An empty branch dictionary is declared, too. */
  predicate DeclaresBranches(node: Node) {
    node.hasBranches || node.branches != []
  }

  function BranchNames(branches: seq<Branch>): set<string> {
    set b | b in branches :: b.name
  }

  predicate IsDecision(node: Node) {
    && IsGiven(node.condition) && DeclaresBranches(node)
    && BranchNames(node.branches) == {"yes", "no"}
    && node.defaultBranch.Some? && node.defaultBranch.value in {"yes", "no"}
  }

  /** Only a decision has a condition and branches, which are yes and no and include the default; only a
      tool node names a tool; only a subplan node holds a plan. */
  predicate MeetsContract(node: Node) {
    && (node.kind.Tool? <==> IsGiven(node.tool))
    && (if node.kind.Decision? then IsDecision(node)
        else node.condition.None? && !DeclaresBranches(node) && !IsGiven(node.defaultBranch))
    && (node.kind.Subplan? <==> node.subplan.Some?)
  }

  /** What a level's nodes must satisfy, given the registered tools and the number of tiers. */
  predicate NodeIsFine(node: Node, tools: set<string>, tiers: int) {
    && MeetsContract(node)
    && (node.kind.Tool? && node.tool.Some? ==> node.tool.value in tools)
    && (node.forcedTier.Some? ==> 0 <= node.forcedTier.value < tiers)
  }

  method CheckDecisionContract(node: Node) returns (broken: bool)
    requires node.kind.Decision?
    ensures broken <==> !IsDecision(node)
  {
    if !IsGiven(node.condition) || !DeclaresBranches(node) {
      return true;
    }
    if BranchNames(node.branches) != {"yes", "no"} {
      return true;
    }
    return node.defaultBranch.None? || node.defaultBranch.value !in BranchNames(node.branches);
  }

  method CheckNodeContracts(nodes: seq<Node>) returns (error: Option<PlanError>)
    ensures error.None? <==> forall n :: n in nodes ==> MeetsContract(n)
    ensures error.Some? ==> error.value.ContractBroken?
  {
    for i := 0 to |nodes|
      invariant forall j :: 0 <= j < i ==> MeetsContract(nodes[j])
    {
      var node := nodes[i];
      assert node in nodes;
      if node.kind.Tool? != IsGiven(node.tool) {
        return Some(ContractBroken(node.id));
      }
      if node.kind.Decision? {
        var broken := CheckDecisionContract(node);
        if broken {
          return Some(ContractBroken(node.id));
        }
      } else if node.condition.Some? || DeclaresBranches(node) || IsGiven(node.defaultBranch) {
        return Some(ContractBroken(node.id));
      }
      if node.kind.Subplan? != node.subplan.Some? {
        return Some(ContractBroken(node.id));
      }
    }
    return None;
  }

  method CheckToolNames(nodes: seq<Node>, tools: set<string>) returns (error: Option<PlanError>)
    ensures error.None? <==> forall n :: n in nodes && n.kind.Tool? && n.tool.Some? ==> n.tool.value in tools
    ensures error.Some? ==> error.value.UnknownTools? && error.value.names != []
    ensures error.Some? ==> forall name :: name in error.value.names ==> name !in tools
  {
    var unknown: seq<string> := [];
    for i := 0 to |nodes|
      invariant unknown == [] <==>
        forall j :: 0 <= j < i && nodes[j].kind.Tool? && nodes[j].tool.Some? ==> nodes[j].tool.value in tools
      invariant forall name :: name in unknown ==> name !in tools
    {
      assert nodes[i] in nodes;
      if nodes[i].kind.Tool? && nodes[i].tool.Some? && nodes[i].tool.value !in tools {
        unknown := unknown + [nodes[i].tool.value];
      }
    }
    if unknown != [] {
      return Some(UnknownTools(unknown));
    }
    return None;
  }

  method CheckForcedTiers(nodes: seq<Node>, tiers: int) returns (error: Option<PlanError>)
    ensures error.None? <==> forall n :: n in nodes && n.forcedTier.Some? ==> 0 <= n.forcedTier.value < tiers
    ensures error.Some? ==> error.value.TierOutOfRange? && !(0 <= error.value.tier < tiers)
  {
    var maxTier := tiers - 1;
    for i := 0 to |nodes|
      invariant forall j :: 0 <= j < i && nodes[j].forcedTier.Some? ==> 0 <= nodes[j].forcedTier.value < tiers
    {
      assert nodes[i] in nodes;
      if nodes[i].forcedTier.Some? && (nodes[i].forcedTier.value < 0 || nodes[i].forcedTier.value > maxTier) {
        return Some(TierOutOfRange(nodes[i].id, nodes[i].forcedTier.value));
      }
    }
    return None;
  }

  /** The three checks, in this order. */
  method CheckNodes(nodes: seq<Node>, tools: set<string>, tiers: int) returns (error: Option<PlanError>)
    ensures error.None? <==> forall n :: n in nodes ==> NodeIsFine(n, tools, tiers)
    ensures error.Some? ==> error.value.ContractBroken? || error.value.UnknownTools? || error.value.TierOutOfRange?
  {
    error := CheckNodeContracts(nodes);
    if error.None? {
      error := CheckToolNames(nodes, tools);
    }
    if error.None? {
      error := CheckForcedTiers(nodes, tiers);
    }
  }
}
