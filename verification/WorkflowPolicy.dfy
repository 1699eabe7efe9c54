/**
  The structural part of workflow validation, and the memoised depth-first search
  that measures the longest dependency chain or finds a cycle.
 */
module WorkflowPolicy {
  type NodeId = string

  datatype Node = Node(
    id: NodeId,
    role: nat,
    dependsOn: seq<NodeId>,
    permission: string,
    failurePolicy: string,
    timeoutSeconds: int
  )

  type Graph = map<NodeId, Node>

  // ---- Chains ----

  predicate DependsOn(nodes: Graph, a: NodeId, b: NodeId) {
    a in nodes && b in nodes && b in nodes[a].dependsOn
  }

  /** Each node of a chain depends on the next; unknown dependencies are not followed. */
  ghost predicate IsChain(nodes: Graph, p: seq<NodeId>) {
    && p != [] && p[0] in nodes
    && forall i :: 0 <= i < |p| - 1 ==> DependsOn(nodes, p[i], p[i + 1])
  }

  ghost predicate ChainFromTo(nodes: Graph, p: seq<NodeId>, a: NodeId, b: NodeId) {
    IsChain(nodes, p) && p[0] == a && p[|p| - 1] == b
  }

  ghost predicate LeadsTo(nodes: Graph, a: NodeId, b: NodeId) {
    exists p :: ChainFromTo(nodes, p, a, b) && |p| >= 2
  }

  ghost predicate HasCycle(nodes: Graph) {
    exists a :: LeadsTo(nodes, a, a)
  }

  /** `depth` is the length of the longest chain, zero for the empty graph. */
  ghost predicate IsDepth(nodes: Graph, depth: nat) {
    && (forall p :: IsChain(nodes, p) ==> |p| <= depth)
    && (depth > 0 ==> exists p :: IsChain(nodes, p) && |p| == depth)
  }

  lemma StepLeadsTo(nodes: Graph, a: NodeId, b: NodeId)
    requires DependsOn(nodes, a, b)
    ensures LeadsTo(nodes, a, b)
  {
    assert ChainFromTo(nodes, [a, b], a, b);
  }

  lemma LeadsToThenStep(nodes: Graph, a: NodeId, b: NodeId, c: NodeId)
    requires LeadsTo(nodes, a, b) && DependsOn(nodes, b, c)
    ensures LeadsTo(nodes, a, c)
  {
    var p :| ChainFromTo(nodes, p, a, b) && |p| >= 2;
    assert ChainFromTo(nodes, p + [c], a, c);
  }

  // ---- The search ----

  datatype Mark = Visiting | Measured

  type Marks = map<NodeId, Mark>
  type Depths = map<NodeId, nat>

  ghost predicate IsMeasured(state: Marks, x: NodeId) { x in state && state[x].Measured? }

  ghost predicate IsVisiting(state: Marks, x: NodeId) { x in state && state[x].Visiting? }

  /** `id` is the head of a chain of this length. */
  ghost predicate Realised(nodes: Graph, id: NodeId, depth: nat) {
    exists p :: IsChain(nodes, p) && p[0] == id && |p| == depth
  }

  ghost predicate Below(state: Marks, memo: Depths, y: NodeId, depth: nat) {
    IsMeasured(state, y) && y in memo && memo[y] < depth
  }

  /** A measured depth is realised by a chain and exceeds every depth below it. */
  ghost predicate DepthIsSound(nodes: Graph, state: Marks, memo: Depths, x: NodeId) {
    && x in nodes && x in memo && memo[x] >= 1
    && Realised(nodes, x, memo[x])
    && forall y :: DependsOn(nodes, x, y) ==> Below(state, memo, y, memo[x])
  }

  ghost predicate Sound(nodes: Graph, state: Marks, memo: Depths) {
    forall x :: IsMeasured(state, x) ==> DepthIsSound(nodes, state, memo, x)
  }

  /** Measured nodes keep their depth. */
  ghost predicate Keeps(s0: Marks, m0: Depths, s1: Marks, m1: Depths) {
    && s0.Keys <= s1.Keys
    && forall x :: IsMeasured(s0, x) ==> IsMeasured(s1, x) && (x in m0 ==> x in m1 && m1[x] == m0[x])
  }

  lemma EnterKeepsSound(nodes: Graph, state: Marks, memo: Depths, id: NodeId)
    requires Sound(nodes, state, memo) && id !in state
    ensures Sound(nodes, state[id := Visiting], memo)
    ensures Keeps(state, memo, state[id := Visiting], memo)
  {
    var s := state[id := Visiting];
    forall x | IsMeasured(s, x) ensures DepthIsSound(nodes, s, memo, x) {
      assert IsMeasured(state, x);
      forall y | DependsOn(nodes, x, y) ensures Below(s, memo, y, memo[x]) {
        assert Below(state, memo, y, memo[x]);
      }
    }
  }

  lemma LeaveKeepsSound(nodes: Graph, state: Marks, memo: Depths, id: NodeId, depth: nat)
    requires Sound(nodes, state, memo) && IsVisiting(state, id) && id in nodes
    requires depth >= 1 && Realised(nodes, id, depth)
    requires forall y :: DependsOn(nodes, id, y) ==> Below(state, memo, y, depth)
    ensures Sound(nodes, state[id := Measured], memo[id := depth])
    ensures Keeps(state, memo, state[id := Measured], memo[id := depth])
  {
    var s, m := state[id := Measured], memo[id := depth];
    forall x | IsMeasured(s, x) ensures DepthIsSound(nodes, s, m, x) {
      assert x != id ==> IsMeasured(state, x);
      forall y | DependsOn(nodes, x, y) ensures Below(s, m, y, m[x]) {
        assert Below(state, memo, y, m[x]);
      }
    }
  }

  class DepthSearch {
    const nodes: Graph
    var state: Marks
    var memo: Depths

    constructor (nodes: Graph)
      ensures this.nodes == nodes && state == map[] && memo == map[]
    {
      this.nodes := nodes;
      state, memo := map[], map[];
    }

    ghost predicate OnPathTo(id: NodeId)
      reads this
    {
      forall x :: IsVisiting(state, x) ==> LeadsTo(nodes, x, id)
    }

    method Visit(id: NodeId) returns (depth: nat, cycle: bool)
      requires Sound(nodes, state, memo) && OnPathTo(id) && id in nodes
      modifies this`state, this`memo
      ensures cycle ==> HasCycle(nodes)
      ensures !cycle ==> Sound(nodes, state, memo) && Keeps(old(state), old(memo), state, memo)
      ensures !cycle ==> IsMeasured(state, id) && id in memo && depth == memo[id]
      ensures !cycle ==> forall x :: IsVisiting(state, x) <==> IsVisiting(old(state), x)
      decreases nodes.Keys - state.Keys
    {
      if id in state {
        if state[id].Visiting? {
          assert IsVisiting(state, id);
          return 0, true;
        }
        assert IsMeasured(state, id);
        return memo[id], false;
      }
      EnterKeepsSound(nodes, state, memo, id);
      state := state[id := Visiting];
      depth := 1;
      var deps := nodes[id].dependsOn;
      assert IsChain(nodes, [id]);
      for i := 0 to |deps|
        invariant Sound(nodes, state, memo) && Keeps(old(state), old(memo), state, memo)
        invariant id in state
        invariant forall x :: IsVisiting(state, x) <==> x == id || IsVisiting(old(state), x)
        invariant depth >= 1 && Realised(nodes, id, depth)
        invariant forall k :: 0 <= k < i && deps[k] in nodes ==> Below(state, memo, deps[k], depth)
      {
        var dependency := deps[i];
        if dependency in nodes {
          EdgeExtendsPaths(id, dependency);
          var value;
          value, cycle := Visit(dependency);
          if cycle { return 0, true; }
          if value + 1 > depth {
            ChainExtends(nodes, id, dependency, value);
            depth := value + 1;
          }
        }
      }
      assert IsVisiting(state, id);
      LeaveKeepsSound(nodes, state, memo, id, depth);
      state, memo := state[id := Measured], memo[id := depth];
      return depth, false;
    }

    lemma EdgeExtendsPaths(id: NodeId, dependency: NodeId)
      requires DependsOn(nodes, id, dependency)
      requires forall x :: IsVisiting(state, x) ==> x == id || LeadsTo(nodes, x, id)
      ensures OnPathTo(dependency)
    {
      forall x | IsVisiting(state, x) ensures LeadsTo(nodes, x, dependency) {
        StepLeadsTo(nodes, id, dependency);
        if x != id { LeadsToThenStep(nodes, x, id, dependency); }
      }
    }
  }

  lemma ChainExtends(nodes: Graph, id: NodeId, dependency: NodeId, depth: nat)
    requires DependsOn(nodes, id, dependency) && Realised(nodes, dependency, depth)
    ensures Realised(nodes, id, depth + 1)
  {
    var p :| IsChain(nodes, p) && p[0] == dependency && |p| == depth;
    assert IsChain(nodes, [id] + p);
  }

  // ---- The whole graph ----

  lemma {:induction false} MeasuredChainDescends(nodes: Graph, state: Marks, memo: Depths, p: seq<NodeId>)
    requires Sound(nodes, state, memo) && IsChain(nodes, p) && IsMeasured(state, p[0])
    ensures DepthIsSound(nodes, state, memo, p[0])
    ensures IsMeasured(state, p[|p| - 1]) && DepthIsSound(nodes, state, memo, p[|p| - 1])
    ensures memo[p[|p| - 1]] + |p| - 1 <= memo[p[0]]
  {
    if |p| > 1 {
      assert DependsOn(nodes, p[0], p[1]);
      assert Below(state, memo, p[1], memo[p[0]]);
      forall i | 0 <= i < |p[1..]| - 1 ensures DependsOn(nodes, p[1..][i], p[1..][i + 1]) {
        assert DependsOn(nodes, p[i + 1], p[i + 2]);
      }
      MeasuredChainDescends(nodes, state, memo, p[1..]);
    }
  }

  /** A cycle, if there is one; otherwise the length of the longest chain. */
  method GraphDepth(nodes: Graph) returns (depth: nat, cycle: bool)
    ensures cycle <==> HasCycle(nodes)
    ensures !cycle ==> IsDepth(nodes, depth)
  {
    var search := new DepthSearch(nodes);
    depth := 0;
    var todo := nodes.Keys;
    while todo != {}
      invariant search.nodes == nodes && fresh(search) && todo <= nodes.Keys
      invariant Sound(nodes, search.state, search.memo)
      invariant forall x :: !IsVisiting(search.state, x)
      invariant forall x :: x in nodes && x !in todo ==> Below(search.state, search.memo, x, depth + 1)
      invariant depth > 0 ==> exists x :: Realised(nodes, x, depth)
      decreases todo
    {
      var id :| id in todo;
      var value;
      value, cycle := search.Visit(id);
      if cycle { return 0, true; }
      assert DepthIsSound(nodes, search.state, search.memo, id);
      if value > depth { depth := value; }
      todo := todo - {id};
    }
    MeasuredGraph(nodes, search.state, search.memo, depth);
    return depth, false;
  }

  lemma MeasuredGraph(nodes: Graph, state: Marks, memo: Depths, depth: nat)
    requires Sound(nodes, state, memo)
    requires forall x :: x in nodes ==> Below(state, memo, x, depth + 1)
    requires depth > 0 ==> exists x :: Realised(nodes, x, depth)
    ensures !HasCycle(nodes) && IsDepth(nodes, depth)
  {
    forall p | IsChain(nodes, p) ensures |p| <= depth {
      assert Below(state, memo, p[0], depth + 1);
      MeasuredChainDescends(nodes, state, memo, p);
    }
    forall a ensures !LeadsTo(nodes, a, a) {
      if p :| ChainFromTo(nodes, p, a, a) && |p| >= 2 {
        assert Below(state, memo, p[0], depth + 1);
        MeasuredChainDescends(nodes, state, memo, p);
      }
    }
  }

  /** The verdict does not depend on the order in which the map is walked. */
  lemma DepthIsUnique(nodes: Graph, a: nat, b: nat)
    requires IsDepth(nodes, a) && IsDepth(nodes, b)
    ensures a == b
  {
    if a > 0 { var p :| IsChain(nodes, p) && |p| == a; }
    if b > 0 { var p :| IsChain(nodes, p) && |p| == b; }
  }

  // ---- Validation ----

  datatype Limits = Limits(maxNodes: int, maxDepth: int, maxConcurrency: int)

  datatype Spec = Spec(limits: Limits, nodes: seq<Node>)

  datatype Policy = Policy(maxNodes: int, maxDepth: int, maxConcurrency: int, maxTimeout: int)

  datatype Violation =
    | MaxNodes | MaxDepth | MaxConcurrency | NodeCount
    | DuplicateNode(id: NodeId) | PermissionInvalid(id: NodeId) | TimeoutInvalid(id: NodeId) | FailurePolicyInvalid(id: NodeId)
    | SelfDependency(id: NodeId) | MissingDependency(id: NodeId) | DuplicateDependency(id: NodeId)
    | Cycle | Depth

  /** Later nodes of the same id replace earlier ones. */
  function NodesById(nodes: seq<Node>): (g: Graph)
    ensures forall id :: id in g <==> exists i :: 0 <= i < |nodes| && nodes[i].id == id
    ensures forall id :: id in g ==> g[id] in nodes && g[id].id == id
  {
    if nodes == [] then map[]
    else
      var n := |nodes| - 1;
      NodesById(nodes[..n])[nodes[n].id := nodes[n]]
  }

  predicate LimitsAllowed(policy: Policy, spec: Spec) {
    && 1 <= spec.limits.maxNodes <= policy.maxNodes
    && 1 <= spec.limits.maxDepth <= policy.maxDepth
    && 1 <= spec.limits.maxConcurrency <= policy.maxConcurrency
    && 1 <= |spec.nodes| <= policy.maxNodes
    && |spec.nodes| <= spec.limits.maxNodes
  }

  predicate NodeAllowed(policy: Policy, node: Node) {
    && node.permission in {"full", "review"}
    && 1 <= node.timeoutSeconds <= policy.maxTimeout
    && node.failurePolicy in {"stop", "continue"}
  }

  ghost predicate DistinctIds(nodes: seq<Node>) {
    forall i, j :: 0 <= i < j < |nodes| ==> nodes[i].id != nodes[j].id
  }

  /** A node names known nodes other than itself, each once. */
  ghost predicate DependenciesAllowed(nodes: Graph, node: Node) {
    && (forall i :: 0 <= i < |node.dependsOn| ==> node.dependsOn[i] != node.id && node.dependsOn[i] in nodes)
    && forall i, j :: 0 <= i < j < |node.dependsOn| ==> node.dependsOn[i] != node.dependsOn[j]
  }

  ghost predicate DepthAllowed(policy: Policy, spec: Spec, nodes: Graph) {
    && !HasCycle(nodes)
    && forall p :: IsChain(nodes, p) ==> |p| <= spec.limits.maxDepth && |p| <= policy.maxDepth
  }

  ghost predicate Acceptable(policy: Policy, spec: Spec) {
    && LimitsAllowed(policy, spec)
    && (forall i :: 0 <= i < |spec.nodes| ==> NodeAllowed(policy, spec.nodes[i]))
    && DistinctIds(spec.nodes)
    && (forall i :: 0 <= i < |spec.nodes| ==> DependenciesAllowed(NodesById(spec.nodes), spec.nodes[i]))
    && DepthAllowed(policy, spec, NodesById(spec.nodes))
  }

  method LimitViolations(policy: Policy, spec: Spec) returns (v: seq<Violation>)
    ensures v == [] <==> LimitsAllowed(policy, spec)
  {
    v := [];
    if spec.limits.maxNodes < 1 || spec.limits.maxNodes > policy.maxNodes { v := v + [MaxNodes]; }
    if spec.limits.maxDepth < 1 || spec.limits.maxDepth > policy.maxDepth { v := v + [MaxDepth]; }
    if spec.limits.maxConcurrency < 1 || spec.limits.maxConcurrency > policy.maxConcurrency { v := v + [MaxConcurrency]; }
    if |spec.nodes| == 0 || |spec.nodes| > policy.maxNodes || |spec.nodes| > spec.limits.maxNodes { v := v + [NodeCount]; }
  }

  lemma DistinctPrefix(nodes: seq<Node>, i: nat)
    requires i < |nodes|
    ensures DistinctIds(nodes[..i + 1]) <==> DistinctIds(nodes[..i]) && nodes[i].id !in NodesById(nodes[..i])
    ensures NodesById(nodes[..i + 1]) == NodesById(nodes[..i])[nodes[i].id := nodes[i]]
  {
    assert nodes[..i + 1][..i] == nodes[..i];
    if nodes[i].id in NodesById(nodes[..i]) {
      var k :| 0 <= k < |nodes[..i]| && nodes[..i][k].id == nodes[i].id;
      assert nodes[..i + 1][k].id == nodes[..i + 1][i].id;
    } else if DistinctIds(nodes[..i]) {
      forall j, k | 0 <= j < k < i + 1 ensures nodes[j].id != nodes[k].id {
        if k < i { assert nodes[..i][j].id != nodes[..i][k].id; } else { assert nodes[..i][j].id == nodes[j].id; }
      }
    }
  }

  method FieldViolations(policy: Policy, node: Node) returns (v: seq<Violation>)
    ensures v == [] <==> NodeAllowed(policy, node)
  {
    v := [];
    if node.permission != "full" && node.permission != "review" { v := v + [PermissionInvalid(node.id)]; }
    if node.timeoutSeconds < 1 || node.timeoutSeconds > policy.maxTimeout { v := v + [TimeoutInvalid(node.id)]; }
    if node.failurePolicy != "stop" && node.failurePolicy != "continue" { v := v + [FailurePolicyInvalid(node.id)]; }
  }

  method NodeViolations(policy: Policy, nodes: seq<Node>) returns (v: seq<Violation>, byId: Graph)
    ensures byId == NodesById(nodes)
    ensures v == [] <==> DistinctIds(nodes) && forall i :: 0 <= i < |nodes| ==> NodeAllowed(policy, nodes[i])
  {
    v, byId := [], map[];
    for i := 0 to |nodes|
      invariant byId == NodesById(nodes[..i])
      invariant v == [] <==> DistinctIds(nodes[..i]) && forall k :: 0 <= k < i ==> NodeAllowed(policy, nodes[k])
    {
      var node := nodes[i];
      DistinctPrefix(nodes, i);
      if node.id in byId { v := v + [DuplicateNode(node.id)]; }
      byId := byId[node.id := node];
      var fields := FieldViolations(policy, node);
      v := v + fields;
    }
    assert nodes[..|nodes|] == nodes;
  }

  method DependencyViolations(nodes: Graph, node: Node) returns (v: seq<Violation>)
    ensures v == [] <==> DependenciesAllowed(nodes, node)
  {
    v := [];
    var seen: set<NodeId> := {};
    var deps := node.dependsOn;
    for i := 0 to |deps|
      invariant forall d :: d in seen <==> d in deps[..i]
      invariant v == [] <==>
                (forall k :: 0 <= k < i ==> deps[k] != node.id && deps[k] in nodes)
                && forall j, k :: 0 <= j < k < i ==> deps[j] != deps[k]
    {
      var d := deps[i];
      if d == node.id {
        v := v + [SelfDependency(node.id)];
      } else if d !in nodes {
        v := v + [MissingDependency(node.id)];
      } else if d in seen {
        v := v + [DuplicateDependency(node.id)];
      }
      seen := seen + {d};
    }
  }

  method AllDependencyViolations(nodes: Graph, list: seq<Node>) returns (v: seq<Violation>)
    ensures v == [] <==> forall k :: 0 <= k < |list| ==> DependenciesAllowed(nodes, list[k])
  {
    v := [];
    for i := 0 to |list|
      invariant v == [] <==> forall k :: 0 <= k < i ==> DependenciesAllowed(nodes, list[k])
    {
      var issues := DependencyViolations(nodes, list[i]);
      v := v + issues;
    }
  }

  method DepthViolations(policy: Policy, spec: Spec, nodes: Graph) returns (v: seq<Violation>)
    ensures 0 <= spec.limits.maxDepth <= policy.maxDepth ==> (v == [] <==> DepthAllowed(policy, spec, nodes))
  {
    var depth, cycle := GraphDepth(nodes);
    if cycle { return [Cycle]; }
    ghost var longest :| depth > 0 ==> IsChain(nodes, longest) && |longest| == depth;
    if depth > spec.limits.maxDepth || depth > policy.maxDepth { return [Depth]; }
    return [];
  }

  method Validate(policy: Policy, spec: Spec) returns (v: seq<Violation>)
    ensures v == [] <==> Acceptable(policy, spec)
  {
    v := LimitViolations(policy, spec);
    var nodeIssues, byId := NodeViolations(policy, spec.nodes);
    var edgeIssues := AllDependencyViolations(byId, spec.nodes);
    var depthIssues := DepthViolations(policy, spec, byId);
    assert |v + nodeIssues + edgeIssues + depthIssues| == |v| + |nodeIssues| + |edgeIssues| + |depthIssues|;
    v := v + nodeIssues + edgeIssues + depthIssues;
  }
}
