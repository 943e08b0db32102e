/** `findPath` and `deriveAgentJobSetupFromGraph`: from a saved graph to the job an agent runs. */
module AgentSetup {
  import opened Common
  import opened Graphs
  import opened CheckDag
  import opened FilterExpr

  // ---- findPath: marks a node when it is pushed, and carries whole paths on the stack ----

  /** A stacked path: a walk from `start` through marked nodes, none of them twice. */
  ghost predicate Trail(edges: seq<Edge>, seen: set<Id>, start: Id, p: seq<Id>) {
    IsWalk(edges, p) && p[0] == start && NoRepeats(p) && forall x :: x in p ==> x in seen
  }

  ghost predicate SomeEndsAt(stack: seq<seq<Id>>, x: Id) {
    exists i :: 0 <= i < |stack| && |stack[i]| > 0 && stack[i][|stack[i]| - 1] == x
  }

  lemma ExtendTrail(edges: seq<Edge>, seen: set<Id>, start: Id, p: seq<Id>, next: Id)
    requires Trail(edges, seen, start, p) && next !in seen && Step(edges, p[|p| - 1], next)
    ensures Trail(edges, seen + {next}, start, p + [next])
  {
  }

  method PushTargets(path: seq<Id>, targets: seq<Id>, seen0: set<Id>, stack0: seq<seq<Id>>,
                     ghost start: Id, ghost edges: seq<Edge>)
    returns (seen: set<Id>, stack: seq<seq<Id>>)
    requires Trail(edges, seen0, start, path)
    requires forall t :: t in targets ==> Step(edges, path[|path| - 1], t)
    requires forall q :: q in stack0 ==> Trail(edges, seen0, start, q)
    ensures seen == seen0 + (set t | t in targets)
    ensures stack0 <= stack && (seen == seen0 ==> stack == stack0)
    ensures forall q :: q in stack ==> Trail(edges, seen, start, q)
    ensures forall x :: x in seen && x !in seen0 ==> SomeEndsAt(stack, x)
  {
    seen, stack := seen0, stack0;
    for i := 0 to |targets|
      invariant seen == seen0 + (set t | t in targets[..i])
      invariant stack0 <= stack && (seen == seen0 ==> stack == stack0)
      invariant Trail(edges, seen, start, path)
      invariant forall q :: q in stack ==> Trail(edges, seen, start, q)
      invariant forall x :: x in seen && x !in seen0 ==> SomeEndsAt(stack, x)
    {
      var next := targets[i];
      assert forall t :: t in targets[..i + 1] <==> t in targets[..i] || t == next;
      if next in seen { continue; }
      assert next in targets;
      ExtendTrail(edges, seen, start, path, next);
      assert forall q :: q in stack ==> Trail(edges, seen + {next}, start, q);
      ghost var before := stack;
      seen := seen + {next};
      stack := stack + [path + [next]];
      forall x | x in seen && x !in seen0 ensures SomeEndsAt(stack, x) {
        if x == next {
          assert stack[|stack| - 1] == path + [next];
        } else {
          var k :| 0 <= k < |before| && |before[k]| > 0 && before[k][|before[k]| - 1] == x;
          assert stack[k] == before[k];
        }
      }
    }
    assert targets[..|targets|] == targets;
  }

  method FindPath(fromId: Id, toId: Id, outAdj: Adjacency, ghost edges: seq<Edge>) returns (found: Option<seq<Id>>)
    requires Represents(outAdj, edges)
    ensures found.None? <==> !Reach(edges, fromId, toId)
    ensures found.Some? ==> WalkBetween(edges, found.value, fromId, toId) && NoRepeats(found.value)
  {
    ghost var ids := {fromId} + set e | e in edges :: e.target;
    var stack := [[fromId]];
    var seen := {fromId};
    assert stack[0][|stack[0]| - 1] == fromId;
    while stack != []
      invariant fromId in seen && seen <= ids
      invariant forall q :: q in stack ==> Trail(edges, seen, fromId, q)
      invariant forall x :: x in seen ==>
                  SomeEndsAt(stack, x) || (x != toId && forall y :: Step(edges, x, y) ==> y in seen)
      decreases ids - seen, |stack|
    {
      var path := stack[|stack| - 1];
      ghost var before := stack;
      stack := stack[..|stack| - 1];
      assert path in before;
      var current := path[|path| - 1];
      if current == toId {
        assert WalkBetween(edges, path, fromId, toId);
        return Some(path);
      }
      var targets := Successors(outAdj, current);
      ghost var popped, seen0 := stack, seen;
      seen, stack := PushTargets(path, targets, seen, stack, fromId, edges);
      forall x | x in seen
        ensures SomeEndsAt(stack, x) || (x != toId && forall y :: Step(edges, x, y) ==> y in seen)
      {
        if x in seen0 && x != current && SomeEndsAt(before, x) {
          var k :| 0 <= k < |before| && |before[k]| > 0 && before[k][|before[k]| - 1] == x;
          assert stack[k] == before[k];
        }
      }
    }
    if Reach(edges, fromId, toId) {
      ClosedHoldsReachable(edges, seen, fromId, toId);
      assert false;
    }
    return None;
  }

  // ---- Agreement with checkDag's search ----

  /** What checkDag's edges reach, all edges reach. */
  lemma ValidEdgesReachLess<C>(g: GraphDoc<C>, a: Id, b: Id)
    ensures Reach(GraphEdges(g), a, b) ==> Reach(g.edges, a, b)
  {
    if Reach(GraphEdges(g), a, b) { ReachMonotone(GraphEdges(g), g.edges, a, b); }
  }

  ghost predicate SameReach<C>(g: GraphDoc<C>, a: Id, b: Id) {
    Reach(GraphEdges(g), a, b) <==> Reach(g.edges, a, b)
  }

  /** The edge has both ends in the document, or leads nowhere. */
  ghost predicate Harmless<C>(g: GraphDoc<C>, e: Edge) {
    ValidEdge(NodeIds(g.nodes), e) || e.source == e.target
  }

  /** Over all pairs of ids, the two edge lists reach the same exactly when every edge that dangles is a loop. */
  lemma SearchesAgree<C>(g: GraphDoc<C>)
    ensures (forall a, b :: SameReach(g, a, b)) <==> forall e :: e in g.edges ==> Harmless(g, e)
  {
    if forall e :: e in g.edges ==> Harmless(g, e) {
      forall a, b ensures SameReach(g, a, b) {
        ValidEdgesReachLess(g, a, b);
        if Reach(g.edges, a, b) {
          var p :| WalkBetween(g.edges, p, a, b);
          HarmlessWalk(g, p);
        }
      }
    } else {
      var e :| e in g.edges && !Harmless(g, e);
      OnlyDanglingEdge(g, e);
      assert !SameReach(g, e.source, e.target);
    }
  }

  lemma {:induction false} HarmlessWalk<C>(g: GraphDoc<C>, p: seq<Id>)
    requires IsWalk(g.edges, p) && forall e :: e in g.edges ==> Harmless(g, e)
    ensures Reach(GraphEdges(g), p[0], p[|p| - 1])
    decreases |p|
  {
    if |p| == 1 {
      ReachRefl(GraphEdges(g), p[0]);
    } else {
      var init, n := p[..|p| - 1], |p| - 1;
      WalkPrefix(g.edges, p, n);
      HarmlessWalk(g, init);
      assert Step(g.edges, p[n - 1], p[n]);
      var e :| e in g.edges && e.source == p[n - 1] && e.target == p[n];
      if e.source != e.target {
        assert Step(GraphEdges(g), p[n - 1], p[n]);
        ReachStep(GraphEdges(g), p[0], p[n - 1], p[n]);
      }
    }
  }

  /** A dangling edge between different ids is not made up for: no valid edge touches the missing end. */
  lemma OnlyDanglingEdge<C>(g: GraphDoc<C>, e: Edge)
    requires e in g.edges && !Harmless(g, e)
    ensures Reach(g.edges, e.source, e.target) && !Reach(GraphEdges(g), e.source, e.target)
  {
    ReachRefl(g.edges, e.source);
    assert Step(g.edges, e.source, e.target);
    ReachStep(g.edges, e.source, e.source, e.target);
    if Reach(GraphEdges(g), e.source, e.target) {
      if e.source in NodeIds(g.nodes) {
        ClosedHoldsReachable(GraphEdges(g), NodeIds(g.nodes), e.source, e.target);
      } else {
        ClosedHoldsReachable(GraphEdges(g), {e.source}, e.source, e.target);
      }
      assert false;
    }
  }

  // ---- Agreement between nodes of the document ----

  /** A way from one node to another through ids that are no nodes, at least one of them. */
  ghost predicate IsDetour<C>(g: GraphDoc<C>, p: seq<Id>) {
    && |p| > 2 && IsWalk(g.edges, p)
    && p[0] in NodeIds(g.nodes) && p[|p| - 1] in NodeIds(g.nodes)
    && forall i :: 0 < i < |p| - 1 ==> p[i] !in NodeIds(g.nodes)
  }

  /** Between nodes of the document, the only ones the two searches are asked about, they agree exactly when every
      detour through missing nodes is matched by valid edges. */
  lemma SearchesAgreeOnNodes<C>(g: GraphDoc<C>)
    ensures (forall a, b :: a in NodeIds(g.nodes) && b in NodeIds(g.nodes) ==> SameReach(g, a, b))
            <==> forall p :: IsDetour(g, p) ==> Reach(GraphEdges(g), p[0], p[|p| - 1])
  {
    if forall p :: IsDetour(g, p) ==> Reach(GraphEdges(g), p[0], p[|p| - 1]) {
      forall a, b | a in NodeIds(g.nodes) && b in NodeIds(g.nodes) ensures SameReach(g, a, b) {
        ValidEdgesReachLess(g, a, b);
        if Reach(g.edges, a, b) {
          var p :| WalkBetween(g.edges, p, a, b);
          MatchedWalk(g, p);
        }
      }
    } else {
      var p :| IsDetour(g, p) && !Reach(GraphEdges(g), p[0], p[|p| - 1]);
      assert WalkBetween(g.edges, p, p[0], p[|p| - 1]);
      assert !SameReach(g, p[0], p[|p| - 1]);
    }
  }

  /** A walk between nodes of the document is made of valid edges and detours. */
  lemma {:induction false} MatchedWalk<C>(g: GraphDoc<C>, p: seq<Id>)
    requires forall q :: IsDetour(g, q) ==> Reach(GraphEdges(g), q[0], q[|q| - 1])
    requires IsWalk(g.edges, p) && p[0] in NodeIds(g.nodes) && p[|p| - 1] in NodeIds(g.nodes)
    ensures Reach(GraphEdges(g), p[0], p[|p| - 1])
    decreases |p|
  {
    if |p| == 1 {
      ReachRefl(GraphEdges(g), p[0]);
    } else {
      var k := LastStop(g, p);
      WalkPrefix(g.edges, p, k + 1);
      WalkSuffix(g.edges, p, k);
      MatchedWalk(g, p[..k + 1]);
      var leg := p[k..];
      if |leg| == 2 {
        assert Step(g.edges, leg[0], leg[1]);
        assert Step(GraphEdges(g), leg[0], leg[1]);
        ReachStep(GraphEdges(g), p[0], leg[0], leg[1]);
      } else {
        assert IsDetour(g, leg);
        ReachTransitive(GraphEdges(g), p[0], leg[0], leg[|leg| - 1]);
      }
    }
  }

  /** The last node of the document before the end of the walk. */
  lemma {:induction false} LastStop<C>(g: GraphDoc<C>, p: seq<Id>) returns (k: nat)
    requires |p| > 1 && p[0] in NodeIds(g.nodes)
    ensures k < |p| - 1 && p[k] in NodeIds(g.nodes)
    ensures forall i :: k < i < |p| - 1 ==> p[i] !in NodeIds(g.nodes)
    decreases |p|
  {
    if p[|p| - 2] in NodeIds(g.nodes) {
      k := |p| - 2;
    } else {
      k := LastStop(g, p[..|p| - 1]);
    }
  }

  /** A walk through a node that is not in the document: findPath follows it, checkDag does not. */
  lemma DanglingEdgesSeparateTheSearches()
    ensures var g: GraphDoc<()> := GraphDoc([GraphNode("s", Source, ()), GraphNode("d", Destination, ())],
                                  [Edge("e1", "s", "x"), Edge("e2", "x", "d")]);
            Reach(g.edges, "s", "d") && !SourceReachesDestination(g.nodes, GraphEdges(g))
  {
    var g: GraphDoc<()> := GraphDoc([GraphNode("s", Source, ()), GraphNode("d", Destination, ())],
                          [Edge("e1", "s", "x"), Edge("e2", "x", "d")]);
    assert g.edges[0] in g.edges && g.edges[1] in g.edges;
    assert Step(g.edges, "s", "x") && Step(g.edges, "x", "d");
    assert WalkBetween(g.edges, ["s", "x", "d"], "s", "d");
    assert "x" !in NodeIds(g.nodes);
    assert forall e :: e in GraphEdges(g) ==> e in g.edges && ValidEdge(NodeIds(g.nodes), e);
    assert forall e :: e !in GraphEdges(g);
    forall s, d | s in g.nodes && d in g.nodes && s.kind == Source && d.kind == Destination
      ensures !Reach(GraphEdges(g), s.id, d.id)
    {
      if Reach(GraphEdges(g), s.id, d.id) {
        ClosedHoldsReachable(GraphEdges(g), {"s"}, s.id, d.id);
        assert false;
      }
    }
  }

  // ---- The derivation ----

  datatype Mode = Replace | UpsertDelta | Realtime

  datatype Entity = Entity(namespace: string, name: string)

  datatype Column = Column(name: string, columnType: string, isKey: bool)

  datatype MappingEntry = MappingEntry(from: string, to: string)

  /** The delivery section; `options` stands for the settings that are copied over unread. */
  datatype Delivery = Delivery(mode: Option<Mode>, options: map<string, string>)

  datatype SourceDestConfig = SourceDestConfig(
    entity: Option<Entity>,
    columns: Option<seq<Column>>,
    mapping: Option<seq<MappingEntry>>,
    params: Option<map<string, string>>,
    delivery: Option<Delivery>)

  datatype TransformStep = FilterStep(expr: Expr) | OtherStep(kind: string)

  /** A node's settings. The two parses are None when the stored configuration does not have the expected shape. */
  datatype NodeConfig = NodeConfig(
    manifestId: Option<string>,
    connectionId: Option<string>,
    steps: Option<seq<TransformStep>>,
    sourceDest: Option<SourceDestConfig>)

  type Node = GraphNode<NodeConfig>

  datatype Problem =
    | NoAgentSource
    | NoAgentDestination
    | NotConnected
    | BadTransformConfig(nodeId: Id)
    | OnlyFilterSteps(kind: string)
    | NotFlatFilter
    | BadSourceConfig
    | BadDestinationConfig
    | NoSourceConnection
    | NoDestinationConnection
    | NoSourceTable
    | NoDeliveryMode
    | UnmappedKeys(names: seq<string>)
    | EmptyMappingSide(index: nat)

  datatype JobSetup = JobSetup(
    sourceConnectionId: string,
    sourceTable: string,
    destinationConnectionId: string,
    columns: seq<Column>,
    mapping: seq<MappingEntry>,
    filter: seq<Condition>,
    params: map<string, string>,
    mode: Mode,
    options: map<string, string>)

  const AGENT_SOURCE := "sqlserver-agent"
  const PLANOMETRY_TABLE := "planometry-table"
  const HTTPS_ENDPOINT := "https-endpoint"

  predicate Present(o: Option<string>) {
    o.Some? && o.value != ""
  }

  predicate IsAgentSource(n: Node) {
    n.kind == Source && n.config.manifestId == Some(AGENT_SOURCE)
  }

  predicate IsAgentDestination(n: Node) {
    n.kind == Destination && n.config.manifestId in {Some(PLANOMETRY_TABLE), Some(HTTPS_ENDPOINT)}
  }

  function First(nodes: seq<Node>, wanted: Node -> bool): (n: Option<Node>)
    ensures n.Some? ==> n.value in nodes && wanted(n.value)
    ensures n.None? ==> forall m :: m in nodes ==> !wanted(m)
  {
    if nodes == [] then None
    else if wanted(nodes[0]) then Some(nodes[0])
    else First(nodes[1..], wanted)
  }

  function FindNode(nodes: seq<Node>, id: Id): Option<Node> {
    First(nodes, (n: Node) => n.id == id)
  }

  /** The transform nodes strictly inside a path, in path order. */
  function TransformsOf(nodes: seq<Node>, inner: seq<Id>): seq<Node> {
    FlatMap(inner, id => TransformAt(nodes, id))
  }

  function TransformAt(nodes: seq<Node>, id: Id): seq<Node> {
    var found := FindNode(nodes, id);
    if found.Some? && found.value.kind == Transform then [found.value] else []
  }

  function Inner(path: seq<Id>): seq<Id> {
    if |path| < 2 then [] else path[1..|path| - 1]
  }

  // The same nodes by their positions on the path.

  /** The first node of the list with this id. */
  ghost predicate FirstWithId(nodes: seq<Node>, id: Id, n: Node) {
    exists k :: 0 <= k < |nodes| && nodes[k] == n && n.id == id && forall j :: 0 <= j < k ==> nodes[j].id != id
  }

  /** A transform node that stands at this place of the path, at neither end. */
  ghost predicate TransformOnPath(nodes: seq<Node>, path: seq<Id>, i: nat, n: Node) {
    0 < i < |path| - 1 && FirstWithId(nodes, path[i], n) && n.kind == Transform
  }

  /** The places `at`, in path order, are those of the transform nodes, and these are the nodes. */
  ghost predicate TransformsAt(nodes: seq<Node>, path: seq<Id>, from: nat, at: seq<nat>, ts: seq<Node>) {
    && |at| == |ts|
    && (forall j, k :: 0 <= j < k < |at| ==> at[j] < at[k])
    && (forall k :: 0 <= k < |at| ==> from <= at[k] && TransformOnPath(nodes, path, at[k], ts[k]))
    && forall i: nat, n :: from <= i && TransformOnPath(nodes, path, i, n) ==> i in at
  }

  ghost predicate AreTransformsInside(nodes: seq<Node>, path: seq<Id>, ts: seq<Node>) {
    exists at :: TransformsAt(nodes, path, 1, at, ts)
  }

  /** Wanted, and none before it is. */
  ghost predicate FirstAt(nodes: seq<Node>, wanted: Node -> bool, k: nat) {
    k < |nodes| && wanted(nodes[k]) && forall j :: 0 <= j < k ==> !wanted(nodes[j])
  }

  lemma {:induction false} FirstIsFirst(nodes: seq<Node>, wanted: Node -> bool) returns (k: nat)
    requires First(nodes, wanted).Some?
    ensures FirstAt(nodes, wanted, k) && nodes[k] == First(nodes, wanted).value
  {
    if wanted(nodes[0]) {
      k := 0;
    } else {
      k := FirstIsFirst(nodes[1..], wanted);
      assert forall j :: 0 < j <= k + 1 ==> nodes[j] == nodes[1..][j - 1];
      k := k + 1;
    }
  }

  lemma OneFirst(nodes: seq<Node>, wanted: Node -> bool, j: nat, k: nat)
    requires FirstAt(nodes, wanted, j) && FirstAt(nodes, wanted, k)
    ensures j == k
  {
  }

  lemma FoundIsFirst(nodes: seq<Node>, id: Id, n: Node)
    ensures FindNode(nodes, id) == Some(n) <==> FirstWithId(nodes, id, n)
  {
    var wanted := (m: Node) => m.id == id;
    if FindNode(nodes, id) == Some(n) {
      var k := FirstIsFirst(nodes, wanted);
      assert forall j :: 0 <= j < k ==> !wanted(nodes[j]);
      assert nodes[k] == n && n.id == id && forall j :: 0 <= j < k ==> nodes[j].id != id;
    }
    if FirstWithId(nodes, id, n) {
      var j :| 0 <= j < |nodes| && nodes[j] == n && n.id == id && forall l :: 0 <= l < j ==> nodes[l].id != id;
      assert nodes[j] in nodes && wanted(nodes[j]);
      assert First(nodes, wanted).Some?;
      var k := FirstIsFirst(nodes, wanted);
      OneFirst(nodes, wanted, j, k);
    }
  }

  lemma TransformsAreInside(nodes: seq<Node>, path: seq<Id>)
    ensures AreTransformsInside(nodes, path, TransformsOf(nodes, Inner(path)))
  {
    if |path| < 2 {
      assert TransformsAt(nodes, path, 1, [], []);
    } else {
      var at := TransformPlaces(nodes, path, 1);
    }
  }

  /** What stands at one place of the path: its node if that is a transform. */
  lemma PlaceHolds(nodes: seq<Node>, path: seq<Id>, i: nat)
    requires 0 < i < |path| - 1
    ensures forall n :: TransformOnPath(nodes, path, i, n) <==> n in TransformAt(nodes, path[i])
    ensures |TransformAt(nodes, path[i])| <= 1
  {
    forall n ensures TransformOnPath(nodes, path, i, n) <==> n in TransformAt(nodes, path[i]) {
      FoundIsFirst(nodes, path[i], n);
    }
  }

  lemma SkipPlace(nodes: seq<Node>, path: seq<Id>, from: nat, at: seq<nat>, ts: seq<Node>)
    requires TransformsAt(nodes, path, from + 1, at, ts)
    requires forall n :: !TransformOnPath(nodes, path, from, n)
    ensures TransformsAt(nodes, path, from, at, ts)
  {
    forall i: nat, n | from <= i && TransformOnPath(nodes, path, i, n) ensures i in at {
      assert i != from;
    }
  }

  lemma TakePlace(nodes: seq<Node>, path: seq<Id>, from: nat, n: Node, at: seq<nat>, ts: seq<Node>)
    requires TransformsAt(nodes, path, from + 1, at, ts) && TransformOnPath(nodes, path, from, n)
    ensures TransformsAt(nodes, path, from, [from] + at, [n] + ts)
  {
    var at', ts' := [from] + at, [n] + ts;
    forall k | 0 <= k < |at'| ensures from <= at'[k] && TransformOnPath(nodes, path, at'[k], ts'[k]) {
      if k > 0 { assert at'[k] == at[k - 1] && ts'[k] == ts[k - 1]; }
    }
    forall i: nat, m | from <= i && TransformOnPath(nodes, path, i, m) ensures i in at' {
      assert i == from || i in at;
    }
  }

  /** The places of the transform nodes from here on. */
  lemma {:induction false} TransformPlaces(nodes: seq<Node>, path: seq<Id>, from: nat) returns (at: seq<nat>)
    requires 1 <= from <= |path| - 1
    ensures TransformsAt(nodes, path, from, at, TransformsOf(nodes, path[from..|path| - 1]))
    decreases |path| - from
  {
    var ids := path[from..|path| - 1];
    if ids == [] {
      at := [];
    } else {
      var here, rest := TransformAt(nodes, path[from]), TransformsOf(nodes, path[from + 1..|path| - 1]);
      at := TransformPlaces(nodes, path, from + 1);
      assert ids[1..] == path[from + 1..|path| - 1] && TransformsOf(nodes, ids) == here + rest;
      PlaceHolds(nodes, path, from);
      if here == [] {
        SkipPlace(nodes, path, from, at, rest);
        assert [] + rest == rest;
      } else {
        assert here == [here[0]] && here[0] in here;
        TakePlace(nodes, path, from, here[0], at, rest);
        at := [from] + at;
      }
    }
  }

  // Folding the steps of the path into one condition list.

  function StepProblems(s: TransformStep): seq<Problem> {
    match s
    case OtherStep(kind) => [OnlyFilterSteps(kind)]
    case FilterStep(e) => if Conditions(e).None? then [NotFlatFilter] else []
  }

  function StepConditions(s: TransformStep): seq<Condition> {
    if s.FilterStep? && Conditions(s.expr).Some? then Conditions(s.expr).value else []
  }

  function StepsProblems(steps: seq<TransformStep>): seq<Problem> {
    FlatMap(steps, StepProblems)
  }

  function StepsConditions(steps: seq<TransformStep>): seq<Condition> {
    FlatMap(steps, StepConditions)
  }

  function NodeProblems(n: Node): seq<Problem> {
    if n.config.steps.None? then [BadTransformConfig(n.id)] else StepsProblems(n.config.steps.value)
  }

  function NodeSteps(n: Node): seq<TransformStep> {
    if n.config.steps.None? then [] else n.config.steps.value
  }

  function PathProblems(ts: seq<Node>): seq<Problem> {
    FlatMap(ts, NodeProblems)
  }

  /** All steps of the transform nodes, in the order a row meets them. */
  function PathSteps(ts: seq<Node>): seq<TransformStep> {
    FlatMap(ts, NodeSteps)
  }

  method FoldSteps(steps: seq<TransformStep>, problems0: seq<Problem>, conditions0: seq<Condition>)
    returns (problems: seq<Problem>, conditions: seq<Condition>)
    ensures problems == problems0 + StepsProblems(steps)
    ensures conditions == conditions0 + StepsConditions(steps)
  {
    problems, conditions := problems0, conditions0;
    for i := 0 to |steps|
      invariant problems == problems0 + StepsProblems(steps[..i])
      invariant conditions == conditions0 + StepsConditions(steps[..i])
    {
      FlatMapStep(steps, i, StepProblems);
      FlatMapStep(steps, i, StepConditions);
      match steps[i] {
        case OtherStep(kind) => problems := problems + [OnlyFilterSteps(kind)];
        case FilterStep(expr) =>
          var flat := ExprToConditions(expr);
          match flat {
            case None => problems := problems + [NotFlatFilter];
            case Some(cs) => conditions := conditions + cs;
          }
      }
    }
    assert steps[..|steps|] == steps;
  }

  method FoldPath(ts: seq<Node>) returns (problems: seq<Problem>, conditions: seq<Condition>)
    ensures problems == PathProblems(ts)
    ensures conditions == StepsConditions(PathSteps(ts))
  {
    problems, conditions := [], [];
    for i := 0 to |ts|
      invariant problems == PathProblems(ts[..i])
      invariant conditions == StepsConditions(PathSteps(ts[..i]))
    {
      FlatMapStep(ts, i, NodeProblems);
      FlatMapStep(ts, i, NodeSteps);
      match ts[i].config.steps {
        case None =>
          assert PathSteps(ts[..i + 1]) == PathSteps(ts[..i]);
          problems := problems + [BadTransformConfig(ts[i].id)];
        case Some(steps) =>
          assert PathSteps(ts[..i + 1]) == PathSteps(ts[..i]) + steps;
          FlatMapConcat(PathSteps(ts[..i]), steps, StepConditions);
          problems, conditions := FoldSteps(steps, problems, conditions);
      }
    }
    assert ts[..|ts|] == ts;
  }

  // The remaining checks, each adding at most one problem.

  function When(c: bool, p: Problem): seq<Problem> {
    if c then [p] else []
  }

  function UnmappedKeyNames(columns: seq<Column>, mapping: seq<MappingEntry>): (names: seq<string>)
    ensures forall x :: x in names <==>
              (exists c :: c in columns && c.isKey && c.name == x) && forall m :: m in mapping ==> m.from != x
  {
    if columns == [] then []
    else
      var c := columns[|columns| - 1];
      assert columns == columns[..|columns| - 1] + [c];
      UnmappedKeyNames(columns[..|columns| - 1], mapping)
      + if c.isKey && forall m :: m in mapping ==> m.from != c.name then [c.name] else []
  }

  function ColumnsOf(c: Option<SourceDestConfig>): seq<Column> {
    if c.Some? && c.value.columns.Some? then c.value.columns.value else []
  }

  function MappingOf(c: Option<SourceDestConfig>): seq<MappingEntry> {
    if c.Some? && c.value.mapping.Some? then c.value.mapping.value else []
  }

  predicate HasMode(c: SourceDestConfig) {
    c.delivery.Some? && c.delivery.value.mode.Some?
  }

  function EndpointProblems(src: Node, dst: Node): seq<Problem> {
    var sc, dc := src.config.sourceDest, dst.config.sourceDest;
    var unmapped := UnmappedKeyNames(ColumnsOf(sc), MappingOf(dc));
    When(sc.None?, BadSourceConfig)
    + When(dc.None?, BadDestinationConfig)
    + When(!Present(src.config.connectionId), NoSourceConnection)
    + When(!Present(dst.config.connectionId), NoDestinationConnection)
    + When(sc.Some? && sc.value.entity.None?, NoSourceTable)
    + When(dc.Some? && !HasMode(dc.value), NoDeliveryMode)
    + When(dst.config.manifestId == Some(PLANOMETRY_TABLE) && unmapped != [], UnmappedKeys(unmapped))
  }

  /** The final shape check: of everything copied into the setup, only a mapping side can still be empty. */
  function SetupIssues(mapping: seq<MappingEntry>): (issues: seq<Problem>)
    ensures issues == [] <==> forall m :: m in mapping ==> m.from != "" && m.to != ""
  {
    if mapping == [] then []
    else
      var k := |mapping| - 1;
      var m := mapping[k];
      assert mapping == mapping[..k] + [m];
      SetupIssues(mapping[..k]) + When(m.from == "", EmptyMappingSide(k)) + When(m.to == "", EmptyMappingSide(k))
  }

  function SetupFor(src: Node, dst: Node, filter: seq<Condition>): JobSetup
    requires EndpointProblems(src, dst) == []
  {
    var sc, dc := src.config.sourceDest.value, dst.config.sourceDest.value;
    JobSetup(
      src.config.connectionId.value,
      sc.entity.value.namespace + "." + sc.entity.value.name,
      dst.config.connectionId.value,
      ColumnsOf(Some(sc)),
      MappingOf(Some(dc)),
      filter,
      if sc.params.Some? then sc.params.value else map[],
      dc.delivery.value.mode.value,
      dc.delivery.value.options)
  }

  /** What derivation must return once the path between the two endpoints is known. */
  ghost function Derived(nodes: seq<Node>, src: Node, dst: Node, path: seq<Id>): Result<JobSetup, seq<Problem>> {
    var ts := TransformsOf(nodes, Inner(path));
    var problems := PathProblems(ts) + EndpointProblems(src, dst);
    if problems != [] then Err(problems)
    else
      var setup := SetupFor(src, dst, StepsConditions(PathSteps(ts)));
      var issues := SetupIssues(setup.mapping);
      if issues != [] then Err(issues) else Ok(setup)
  }

  method TransformNodes(nodes: seq<Node>, path: seq<Id>) returns (ts: seq<Node>)
    ensures ts == TransformsOf(nodes, Inner(path))
    ensures AreTransformsInside(nodes, path, ts)
  {
    var inner := Inner(path);
    TransformsAreInside(nodes, path);
    ts := [];
    for i := 0 to |inner|
      invariant ts == TransformsOf(nodes, inner[..i])
    {
      FlatMapStep(inner, i, id => TransformAt(nodes, id));
      var n := FindNode(nodes, inner[i]);
      if n.Some? && n.value.kind == Transform { ts := ts + [n.value]; }
    }
    assert inner[..|inner|] == inner;
  }

  /** The result follows from this repetition-free path between the two endpoints. */
  ghost predicate DerivedOver(
      g: GraphDoc<NodeConfig>, src: Node, dst: Node, path: seq<Id>, r: Result<JobSetup, seq<Problem>>) {
    && WalkBetween(g.edges, path, src.id, dst.id) && NoRepeats(path)
    && r == Derived(g.nodes, src, dst, path)
  }

  method Derive(g: GraphDoc<NodeConfig>) returns (r: Result<JobSetup, seq<Problem>>)
    ensures var src, dst := First(g.nodes, IsAgentSource), First(g.nodes, IsAgentDestination);
            if src.None? then r == Err([NoAgentSource])
            else if dst.None? then r == Err([NoAgentDestination])
            else if !Reach(g.edges, src.value.id, dst.value.id) then r == Err([NotConnected])
            else exists path :: DerivedOver(g, src.value, dst.value, path, r)
  {
    var src := First(g.nodes, IsAgentSource);
    if src.None? { return Err([NoAgentSource]); }
    var dst := First(g.nodes, IsAgentDestination);
    if dst.None? { return Err([NoAgentDestination]); }
    var outAdj := BuildAdjacency(g.edges);
    var found := FindPath(src.value.id, dst.value.id, outAdj, g.edges);
    if found.None? { return Err([NotConnected]); }
    var ts := TransformNodes(g.nodes, found.value);
    var problems, filterConditions := FoldPath(ts);
    problems := problems + EndpointProblems(src.value, dst.value);
    if |problems| > 0 {
      r := Err(problems);
    } else {
      var setup := SetupFor(src.value, dst.value, filterConditions);
      var issues := SetupIssues(setup.mapping);
      r := if |issues| > 0 then Err(issues) else Ok(setup);
    }
    assert DerivedOver(g, src.value, dst.value, found.value, r);
  }

  // ---- What a successful derivation guarantees ----

  lemma PathFaults(ts: seq<Node>)
    ensures PathProblems(ts) == [] <==>
            && (forall n :: n in ts ==> n.config.steps.Some?)
            && forall s :: s in PathSteps(ts) ==> s.FilterStep? && Conditions(s.expr).Some?
  {
    FlatMapMembers(ts, NodeProblems);
    FlatMapMembers(ts, NodeSteps);
    forall n | n in ts ensures n.config.steps.Some? ==>
        (NodeProblems(n) == [] <==> forall s :: s in NodeSteps(n) ==> s.FilterStep? && Conditions(s.expr).Some?) {
      FlatMapMembers(NodeSteps(n), StepProblems);
    }
  }

  lemma AllHoldConcat(a: seq<Condition>, b: seq<Condition>, row: Row, rt: Runtime)
    ensures AllHold(a + b, row, rt) <==> AllHold(a, row, rt) && AllHold(b, row, rt)
  {
    if AllHold(a + b, row, rt) {
      forall i | 0 <= i < |a| ensures Holds(a[i], row, rt) { assert (a + b)[i] == a[i]; }
      forall i | 0 <= i < |b| ensures Holds(b[i], row, rt) { assert (a + b)[|a| + i] == b[i]; }
    }
  }

  /** A row passes every filter step, one after the other, exactly when it satisfies the joined condition list and every
      `contains` needle is text. */
  lemma {:induction false} FoldKeepsMeaning(steps: seq<TransformStep>, row: Row, rt: Runtime)
    requires forall s :: s in steps ==> s.FilterStep? && Conditions(s.expr).Some?
    ensures (forall s :: s in steps ==> Passes(s.expr, row, rt)) <==>
            AllHold(StepsConditions(steps), row, rt) && forall s :: s in steps ==> FaithfulFilter(s.expr)
  {
    if steps != [] {
      var first, rest := steps[0], steps[1..];
      assert steps == [first] + rest;
      FoldKeepsMeaning(rest, row, rt);
      AllHoldConcat(StepConditions(first), StepsConditions(rest), row, rt);
      ConditionsKeepMeaning(first.expr, Conditions(first.expr).value, row, rt);
    }
  }
}
