/** `checkDag` of the checks engine: edge filter, orphans, three-colour cycle detection, source-to-destination
    search. */
module CheckDag {
  import opened Common
  import opened Graphs

  datatype NodeType = Source | Transform | Destination

  datatype GraphNode<Config> = GraphNode(id: Id, kind: NodeType, config: Config)

  datatype GraphDoc<Config> = GraphDoc(nodes: seq<GraphNode<Config>>, edges: seq<Edge>)

  datatype Finding =
    | NoNodes
    | MissingSource(edgeId: string, endpoint: Id)
    | MissingTarget(edgeId: string, endpoint: Id)
    | Orphan(nodeId: Id)
    | Cyclic
    | NoPath
    | CleanDag

  datatype Status = Pass | Fail

  datatype CheckResult = CheckResult(status: Status, finding: Finding)

  datatype Color = White | Gray | Black

  // ---- What the report has to say, in terms of the graph alone ----

  function NodeIds<C>(nodes: seq<GraphNode<C>>): (ids: set<Id>)
    ensures forall x :: x in ids <==> exists i :: 0 <= i < |nodes| && nodes[i].id == x
  {
    set i | 0 <= i < |nodes| :: nodes[i].id
  }

  function EdgeFindings(ids: set<Id>, e: Edge): seq<CheckResult> {
    (if e.source in ids then [] else [CheckResult(Fail, MissingSource(e.id, e.source))])
    + (if e.target in ids then [] else [CheckResult(Fail, MissingTarget(e.id, e.target))])
  }

  predicate ValidEdge(ids: set<Id>, e: Edge) {
    e.source in ids && e.target in ids
  }

  function EdgeRows(ids: set<Id>, edges: seq<Edge>): seq<CheckResult> {
    if edges == [] then []
    else EdgeRows(ids, edges[..|edges| - 1]) + EdgeFindings(ids, edges[|edges| - 1])
  }

  function ValidEdges(ids: set<Id>, edges: seq<Edge>): (valid: seq<Edge>)
    ensures forall e :: e in valid <==> e in edges && ValidEdge(ids, e)
  {
    if edges == [] then []
    else
      assert edges == edges[..|edges| - 1] + [edges[|edges| - 1]];
      var e := edges[|edges| - 1];
      ValidEdges(ids, edges[..|edges| - 1]) + if ValidEdge(ids, e) then [e] else []
  }

  function Touched(edges: seq<Edge>): (ids: set<Id>)
    ensures forall x :: x in ids <==> exists e :: e in edges && (e.source == x || e.target == x)
  {
    (set e | e in edges :: e.source) + (set e | e in edges :: e.target)
  }

  function OrphanRows<C>(touched: set<Id>, nodes: seq<GraphNode<C>>): seq<CheckResult> {
    if nodes == [] then []
    else
      var n := nodes[|nodes| - 1];
      OrphanRows(touched, nodes[..|nodes| - 1])
      + if n.id in touched then [] else [CheckResult(Fail, Orphan(n.id))]
  }

  ghost function GraphEdges<C>(g: GraphDoc<C>): seq<Edge> {
    ValidEdges(NodeIds(g.nodes), g.edges)
  }

  /** Some node of kind Source reaches some node of kind Destination. */
  ghost predicate SourceReachesDestination<C>(nodes: seq<GraphNode<C>>, edges: seq<Edge>) {
    exists s, d :: s in nodes && d in nodes && s.kind == Source && d.kind == Destination && Reach(edges, s.id, d.id)
  }

  ghost function DagReport<C>(g: GraphDoc<C>): seq<CheckResult> {
    if g.nodes == [] then [CheckResult(Fail, NoNodes)]
    else if Defects(g) == [] then [CheckResult(Pass, CleanDag)]
    else Defects(g)
  }

  ghost function Defects<C>(g: GraphDoc<C>): seq<CheckResult> {
    EdgeRows(NodeIds(g.nodes), g.edges)
    + OrphanRows(Touched(GraphEdges(g)), g.nodes)
    + CycleRow(GraphEdges(g))
    + PathRow(g.nodes, GraphEdges(g))
  }

  ghost function CycleRow(edges: seq<Edge>): seq<CheckResult> {
    if HasCycle(edges) then [CheckResult(Fail, Cyclic)] else []
  }

  ghost function PathRow<C>(nodes: seq<GraphNode<C>>, edges: seq<Edge>): seq<CheckResult> {
    if SourceReachesDestination(nodes, edges) then [] else [CheckResult(Fail, NoPath)]
  }

  // ---- Three-colour depth-first search ----

  ghost function WhiteNodes(color: map<Id, Color>): set<Id> {
    set x | x in color && color[x] == White
  }

  lemma RecolourShrinks(color: map<Id, Color>, id: Id, c: Color)
    requires id in color && c != White
    ensures WhiteNodes(color[id := c]) == WhiteNodes(color) - {id}
  {
  }

  class ColouredSearch {
    const outAdj: Adjacency
    ghost const edges: seq<Edge>
    var color: map<Id, Color>
    var hasCycle: bool
    ghost var stack: seq<Id>     // the GRAY nodes, in call order
    ghost var finished: seq<Id>  // the BLACK nodes, in the order they finish

    ghost predicate Valid()
      reads this
    {
      && Represents(outAdj, edges)
      && (forall a, b :: Step(edges, a, b) ==> a in color && b in color)
      && (hasCycle ==> HasCycle(edges))
      && (!hasCycle ==> Coherent())
    }

    /** What the colours mean as long as no cycle has been found. */
    ghost predicate Coherent()
      reads this
    {
      && (stack != [] ==> IsWalk(edges, stack)) && NoRepeats(stack)
      && ReverseTopological(edges, finished)
      && (forall x :: x in stack <==> x in color && color[x] == Gray)
      && (forall x :: x in finished <==> x in color && color[x] == Black)
    }

    ghost function Whites(): set<Id>
      reads this
    {
      WhiteNodes(color)
    }

    constructor (nodeIds: seq<Id>, outAdj: Adjacency, ghost edges: seq<Edge>)
      requires Represents(outAdj, edges)
      requires forall a, b :: Step(edges, a, b) ==> a in nodeIds && b in nodeIds
      ensures Valid() && !hasCycle && stack == [] && finished == []
      ensures color == map x | x in nodeIds :: White
      ensures this.edges == edges
    {
      this.outAdj, this.edges := outAdj, edges;
      color := map x | x in nodeIds :: White;
      hasCycle, stack, finished := false, [], [];
    }

    static ghost predicate NoneGray(ids: seq<Id>, colors: map<Id, Color>) {
      forall j :: 0 <= j < |ids| ==> ids[j] in colors && colors[ids[j]] != Gray
    }

    /** Nodes that had been entered keep their colour. */
    static ghost predicate Kept(before: map<Id, Color>, after: map<Id, Color>) {
      forall n {:trigger before[n]} :: n in before && before[n] != White ==> n in after && after[n] == before[n]
    }

    method Dfs(id: Id)
      requires Valid()
      requires id in color && color[id] == White
      requires !hasCycle && stack != [] ==> Step(edges, stack[|stack| - 1], id)
      modifies this
      ensures Valid()
      ensures color.Keys == old(color.Keys) && Whites() <= old(Whites())
      ensures old(hasCycle) ==> hasCycle
      ensures Kept(old(color), color)
      ensures !hasCycle ==> stack == old(stack) && old(finished) <= finished && id in finished
      decreases Whites(), 1, 0
    {
      if hasCycle { return; }
      Enter(id);
      var cut := VisitTargets(id);
      if cut { return; }
      Finish(id);
    }

    method Enter(id: Id)
      requires Valid() && !hasCycle
      requires id in color && color[id] == White
      requires stack != [] ==> Step(edges, stack[|stack| - 1], id)
      modifies this
      ensures Valid() && !hasCycle
      ensures color == old(color)[id := Gray] && Whites() == old(Whites()) - {id}
      ensures stack == old(stack) + [id] && finished == old(finished)
    {
      RecolourShrinks(color, id, Gray);
      color := color[id := Gray];
      stack := stack + [id];
    }

    /** The loop over the targets of a GRAY node; true when it met another GRAY node and gave up. */
    method VisitTargets(id: Id) returns (cut: bool)
      requires Valid() && !hasCycle
      requires stack != [] && stack[|stack| - 1] == id
      modifies this
      ensures Valid()
      ensures color.Keys == old(color.Keys) && Whites() <= old(Whites())
      ensures Kept(old(color), color)
      ensures cut ==> hasCycle
      ensures !cut ==> NoneGray(Successors(outAdj, id), old(color))
      ensures !hasCycle ==> stack == old(stack) && old(finished) <= finished
      ensures !hasCycle ==> forall t :: Step(edges, id, t) ==> t in finished
      decreases Whites(), 2, 0
    {
      var targets := Successors(outAdj, id);
      for i := 0 to |targets|
        invariant Valid()
        invariant color.Keys == old(color.Keys) && Whites() <= old(Whites()) && Kept(old(color), color)
        invariant NoneGray(targets[..i], old(color))
        invariant !hasCycle ==> stack == old(stack) && old(finished) <= finished
        invariant !hasCycle ==> forall j :: 0 <= j < i ==> targets[j] in finished
      {
        var next := targets[i];
        assert Step(edges, id, next);
        if color[next] == Gray {
          if !hasCycle { ClosesCycle(next); }
          hasCycle := true;
          return true;
        }
        assert targets[..i + 1] == targets[..i] + [next];
        VisitTarget(next);
      }
      assert forall t :: Step(edges, id, t) ==> t in targets;
      return false;
    }

    /** A target that is not GRAY: entered unless it is finished already. */
    method VisitTarget(next: Id)
      requires Valid() && next in color && color[next] != Gray
      requires !hasCycle && stack != [] ==> Step(edges, stack[|stack| - 1], next)
      modifies this
      ensures Valid()
      ensures color.Keys == old(color.Keys) && Whites() <= old(Whites()) && Kept(old(color), color)
      ensures old(hasCycle) ==> hasCycle
      ensures !hasCycle ==> stack == old(stack) && old(finished) <= finished && next in finished
      decreases Whites(), 1, 1
    {
      if color[next] == White { Dfs(next); }
    }

    method Finish(id: Id)
      requires Valid() && id in color
      requires !hasCycle ==> stack != [] && stack[|stack| - 1] == id
      requires !hasCycle ==> forall t :: Step(edges, id, t) ==> t in finished
      modifies this
      ensures Valid() && hasCycle == old(hasCycle)
      ensures color == old(color)[id := Black] && Whites() <= old(Whites())
      ensures !hasCycle ==> stack == old(stack)[..|old(stack)| - 1] && finished == old(finished) + [id]
    {
      RecolourShrinks(color, id, Black);
      color := color[id := Black];
      if !hasCycle {
        FinishTop(stack, finished, id);
        stack := stack[..|stack| - 1];
        finished := finished + [id];
      }
    }

    /** Moving the top of the stack to the end of the finish order keeps both well formed. */
    lemma FinishTop(stack: seq<Id>, finished: seq<Id>, id: Id)
      requires stack != [] && IsWalk(edges, stack) && stack[|stack| - 1] == id && id !in finished
      requires ReverseTopological(edges, finished)
      requires forall t :: Step(edges, id, t) ==> t in finished
      ensures |stack| > 1 ==> IsWalk(edges, stack[..|stack| - 1])
      ensures ReverseTopological(edges, finished + [id])
    {
      forall i, b | 0 <= i < |finished| + 1 && Step(edges, (finished + [id])[i], b)
        ensures b in (finished + [id])[..i]
      {
        if i < |finished| {
          assert (finished + [id])[..i] == finished[..i];
        } else {
          assert (finished + [id])[..i] == finished;
        }
      }
    }

    /** A step from the top of the stack back into the stack closes a cycle. */
    lemma ClosesCycle(next: Id)
      requires stack != [] && IsWalk(edges, stack) && next in stack
      requires Step(edges, stack[|stack| - 1], next)
      ensures HasCycle(edges)
    {
      var k :| 0 <= k < |stack| && stack[k] == next;
      var p := stack[k..] + [next];
      forall i | 0 <= i < |p| - 1 ensures Step(edges, p[i], p[i + 1]) {
        if i + 1 < |stack| - k {
          assert Step(edges, stack[k + i], stack[k + i + 1]);
        }
      }
      assert IsCycle(edges, p);
    }
  }

  // ---- The worklist search, which marks a node when it is popped ----

  method PushAll(stack0: seq<Id>, targets: seq<Id>) returns (stack: seq<Id>)
    ensures stack == stack0 + targets
    ensures forall x :: x in stack <==> x in stack0 || x in targets
  {
    stack := stack0;
    for i := 0 to |targets|
      invariant stack == stack0 + targets[..i]
    {
      stack := stack + [targets[i]];
      assert targets[..i + 1] == targets[..i] + [targets[i]];
    }
    assert targets[..|targets|] == targets;
  }

  method SearchFrom(start: Id, destinations: set<Id>, outAdj: Adjacency, ghost edges: seq<Edge>, ghost ids: set<Id>)
    returns (found: bool)
    requires Represents(outAdj, edges)
    requires start in ids && forall a, b :: Step(edges, a, b) ==> b in ids
    ensures found <==> exists d :: d in destinations && Reach(edges, start, d)
  {
    var seen: set<Id> := {};
    var stack := [start];
    ReachRefl(edges, start);
    while stack != []
      invariant forall x :: x in stack ==> x in ids && Reach(edges, start, x)
      invariant seen <= ids && seen !! destinations
      invariant start in seen || start in stack
      invariant forall a, b :: a in seen && Step(edges, a, b) ==> b in seen || b in stack
      decreases ids - seen, |stack|
    {
      var cur := stack[|stack| - 1];
      ghost var before := stack;
      stack := stack[..|stack| - 1];
      assert forall x :: x in before ==> x in stack || x == cur;
      if cur in destinations { return true; }
      if cur in seen { continue; }
      seen := seen + {cur};
      stack := PushAll(stack, Successors(outAdj, cur));
      forall x | x in stack ensures x in ids && Reach(edges, start, x) {
        if Step(edges, cur, x) { ReachStep(edges, start, cur, x); }
      }
    }
    forall d | d in destinations && Reach(edges, start, d) ensures false {
      ClosedHoldsReachable(edges, seen, start, d);
    }
    return false;
  }

  // ---- The check itself ----

  method FilterEdges(ids: set<Id>, edges: seq<Edge>) returns (results: seq<CheckResult>, valid: seq<Edge>)
    ensures results == EdgeRows(ids, edges)
    ensures valid == ValidEdges(ids, edges)
  {
    results, valid := [], [];
    for i := 0 to |edges|
      invariant results == EdgeRows(ids, edges[..i])
      invariant valid == ValidEdges(ids, edges[..i])
    {
      var edge := edges[i];
      assert edges[..i + 1][..i] == edges[..i];
      var sourceOk := edge.source in ids;
      var targetOk := edge.target in ids;
      if !sourceOk { results := results + [CheckResult(Fail, MissingSource(edge.id, edge.source))]; }
      if !targetOk { results := results + [CheckResult(Fail, MissingTarget(edge.id, edge.target))]; }
      if sourceOk && targetOk { valid := valid + [edge]; }
    }
    assert edges[..|edges|] == edges;
  }

  method FindOrphans<C>(nodes: seq<GraphNode<C>>, edges: seq<Edge>) returns (results: seq<CheckResult>)
    ensures results == OrphanRows(Touched(edges), nodes)
  {
    var touched := {};
    for i := 0 to |edges|
      invariant touched == Touched(edges[..i])
    {
      touched := touched + {edges[i].source} + {edges[i].target};
      assert edges[..i + 1] == edges[..i] + [edges[i]];
    }
    assert edges[..|edges|] == edges;
    results := [];
    for i := 0 to |nodes|
      invariant results == OrphanRows(touched, nodes[..i])
    {
      assert nodes[..i + 1][..i] == nodes[..i];
      if nodes[i].id !in touched { results := results + [CheckResult(Fail, Orphan(nodes[i].id))]; }
    }
    assert nodes[..|nodes|] == nodes;
  }

  /** Runs the coloured search from every white node until one finds a cycle. When there is none, `order` is a reverse
      topological order of all nodes. */
  method DetectCycle(nodeIds: seq<Id>, outAdj: Adjacency, ghost edges: seq<Edge>)
    returns (hasCycle: bool, ghost order: seq<Id>)
    requires Represents(outAdj, edges)
    requires forall a, b :: Step(edges, a, b) ==> a in nodeIds && b in nodeIds
    ensures hasCycle <==> HasCycle(edges)
    ensures !hasCycle ==> ReverseTopological(edges, order) && forall x :: x in order <==> x in nodeIds
  {
    var search := new ColouredSearch(nodeIds, outAdj, edges);
    ghost var keys := search.color.Keys;
    for i := 0 to |nodeIds|
      invariant fresh(search) && search.Valid() && search.edges == edges && search.color.Keys == keys
      invariant !search.hasCycle && search.stack == []
      invariant forall j :: 0 <= j < i ==> nodeIds[j] in search.finished
    {
      if search.color[nodeIds[i]] == White { search.Dfs(nodeIds[i]); }
      if search.hasCycle { return true, []; }
    }
    ReverseTopologicalIsAcyclic(edges, search.finished);
    return false, search.finished;
  }

  /** A source reaches a destination: one fresh worklist search per source node. */
  method AnySourceReaches<C>(nodes: seq<GraphNode<C>>, outAdj: Adjacency, ghost edges: seq<Edge>)
    returns (pathFound: bool)
    requires Represents(outAdj, edges)
    requires forall a, b :: Step(edges, a, b) ==> b in NodeIds(nodes)
    ensures pathFound <==> SourceReachesDestination(nodes, edges)
  {
    var destinations := set i | 0 <= i < |nodes| && nodes[i].kind == Destination :: nodes[i].id;
    for i := 0 to |nodes|
      invariant forall j, d :: 0 <= j < i && nodes[j].kind == Source && d in destinations ==>
                                 !Reach(edges, nodes[j].id, d)
    {
      if nodes[i].kind == Source {
        var found := SearchFrom(nodes[i].id, destinations, outAdj, edges, NodeIds(nodes));
        if found {
          ghost var d :| d in destinations && Reach(edges, nodes[i].id, d);
          ghost var k :| 0 <= k < |nodes| && nodes[k].kind == Destination && nodes[k].id == d;
          assert nodes[i] in nodes && nodes[k] in nodes;
          return true;
        }
      }
    }
    forall s, d | s in nodes && d in nodes && s.kind == Source && d.kind == Destination
      ensures !Reach(edges, s.id, d.id)
    {
      assert d.id in destinations;
    }
    return false;
  }

  method CheckDag<C>(g: GraphDoc<C>) returns (results: seq<CheckResult>)
    ensures results == DagReport(g)
  {
    var nodeIds := NodeIds(g.nodes);
    if |g.nodes| == 0 {
      return [CheckResult(Fail, NoNodes)];
    }
    var validEdges;
    results, validEdges := FilterEdges(nodeIds, g.edges);
    var outAdj := BuildAdjacency(validEdges);
    var orphans := FindOrphans(g.nodes, validEdges);
    results := results + orphans;
    var ids := seq(|g.nodes|, i requires 0 <= i < |g.nodes| => g.nodes[i].id);
    EndsAreNodes(g, ids);
    var hasCycle, _ := DetectCycle(ids, outAdj, validEdges);
    if hasCycle { results := results + [CheckResult(Fail, Cyclic)]; }
    var pathFound := AnySourceReaches(g.nodes, outAdj, validEdges);
    if !pathFound { results := results + [CheckResult(Fail, NoPath)]; }
    if |results| == 0 {
      results := [CheckResult(Pass, CleanDag)];
    }
  }

  /** The kept edges run between nodes. */
  lemma EndsAreNodes<C>(g: GraphDoc<C>, ids: seq<Id>)
    requires |ids| == |g.nodes| && forall i :: 0 <= i < |ids| ==> ids[i] == g.nodes[i].id
    ensures forall a, b :: Step(ValidEdges(NodeIds(g.nodes), g.edges), a, b) ==> a in ids && b in ids
  {
    forall a, b | Step(ValidEdges(NodeIds(g.nodes), g.edges), a, b) ensures a in ids && b in ids {
      InIds(g.nodes, ids, a);
      InIds(g.nodes, ids, b);
    }
  }

  lemma InIds<C>(nodes: seq<GraphNode<C>>, ids: seq<Id>, x: Id)
    requires |ids| == |nodes| && forall i :: 0 <= i < |ids| ==> ids[i] == nodes[i].id
    requires x in NodeIds(nodes)
    ensures x in ids
  {
    var i :| 0 <= i < |nodes| && nodes[i].id == x;
    assert ids[i] == x;
  }

  // ---- What the report means ----

  ghost predicate AllFail(rows: seq<CheckResult>) {
    forall r :: r in rows ==> r.status == Fail
  }

  lemma EdgeRowsMeaning(ids: set<Id>, edges: seq<Edge>)
    ensures AllFail(EdgeRows(ids, edges))
    ensures EdgeRows(ids, edges) == [] <==> forall e :: e in edges ==> ValidEdge(ids, e)
    ensures EdgeRows(ids, edges) == [] ==> ValidEdges(ids, edges) == edges
  {
    EdgeRowsFail(ids, edges);
    NothingDropped(ids, edges);
  }

  lemma {:induction false} EdgeRowsFail(ids: set<Id>, edges: seq<Edge>)
    ensures AllFail(EdgeRows(ids, edges))
    ensures EdgeRows(ids, edges) == [] <==> forall e :: e in edges ==> ValidEdge(ids, e)
  {
    if edges != [] {
      var init, e := edges[..|edges| - 1], edges[|edges| - 1];
      EdgeRowsFail(ids, init);
      FindingsMeaning(ids, e);
      assert edges == init + [e];
    }
  }

  lemma {:induction false} NothingDropped(ids: set<Id>, edges: seq<Edge>)
    ensures (forall e :: e in edges ==> ValidEdge(ids, e)) ==> ValidEdges(ids, edges) == edges
  {
    if edges != [] {
      NothingDropped(ids, edges[..|edges| - 1]);
      assert edges == edges[..|edges| - 1] + [edges[|edges| - 1]];
    }
  }

  lemma FindingsMeaning(ids: set<Id>, e: Edge)
    ensures AllFail(EdgeFindings(ids, e))
    ensures EdgeFindings(ids, e) == [] <==> ValidEdge(ids, e)
  {
  }

  lemma {:induction false} OrphanRowsMeaning<C>(touched: set<Id>, nodes: seq<GraphNode<C>>)
    ensures AllFail(OrphanRows(touched, nodes))
    ensures OrphanRows(touched, nodes) == [] <==> forall n :: n in nodes ==> n.id in touched
  {
    if nodes != [] {
      OrphanRowsMeaning(touched, nodes[..|nodes| - 1]);
      assert nodes == nodes[..|nodes| - 1] + [nodes[|nodes| - 1]];
    }
  }

  ghost predicate NoDangling<C>(g: GraphDoc<C>) {
    forall e :: e in g.edges ==> ValidEdge(NodeIds(g.nodes), e)
  }

  ghost predicate NoneIsolated<C>(g: GraphDoc<C>) {
    forall n :: n in g.nodes ==> exists e :: e in g.edges && (e.source == n.id || e.target == n.id)
  }

  /** The graph deserves its pass row. */
  ghost predicate CleanGraph<C>(g: GraphDoc<C>) {
    && g.nodes != []
    && NoDangling(g)
    && NoneIsolated(g)
    && !HasCycle(g.edges)
    && SourceReachesDestination(g.nodes, g.edges)
  }

  lemma PassExactlyWhenClean<C>(g: GraphDoc<C>)
    ensures CleanGraph(g) ==> DagReport(g) == [CheckResult(Pass, CleanDag)]
    ensures !CleanGraph(g) ==> DagReport(g) != [] && AllFail(DagReport(g))
  {
    DefectsMeaning(g);
  }

  lemma DefectsMeaning<C>(g: GraphDoc<C>)
    ensures AllFail(Defects(g))
    ensures Defects(g) == [] <==>
            NoDangling(g) && NoneIsolated(g) && !HasCycle(g.edges) && SourceReachesDestination(g.nodes, g.edges)
  {
    var ids, edges := NodeIds(g.nodes), GraphEdges(g);
    var a, b := EdgeRows(ids, g.edges), OrphanRows(Touched(edges), g.nodes);
    var c, d := CycleRow(edges), PathRow(g.nodes, edges);
    EdgeRowsMeaning(ids, g.edges);
    OrphanRowsMeaning(Touched(edges), g.nodes);
    AllFailJoins(a, b, c, d);
    assert a == [] <==> NoDangling(g);
    if a == [] {
      assert edges == g.edges;
      assert b == [] <==> NoneIsolated(g) by { TouchedByEdges(g); }
    }
  }

  lemma AllFailJoins(a: seq<CheckResult>, b: seq<CheckResult>, c: seq<CheckResult>, d: seq<CheckResult>)
    requires AllFail(a) && AllFail(b) && AllFail(c) && AllFail(d)
    ensures AllFail(a + b + c + d)
    ensures a + b + c + d == [] <==> a == [] && b == [] && c == [] && d == []
  {
    assert |a + b + c + d| == |a| + |b| + |c| + |d|;
  }

  lemma TouchedByEdges<C>(g: GraphDoc<C>)
    ensures (forall n :: n in g.nodes ==> n.id in Touched(g.edges)) <==> NoneIsolated(g)
  {
  }

  /** Each kind of row appears exactly when the graph has the defect it names. */
  lemma RowsNameTheirDefects<C>(g: GraphDoc<C>, x: Id, e: Edge)
    requires g.nodes != []
    ensures CheckResult(Fail, MissingSource(e.id, e.source)) in DagReport(g) <==>
            e.source !in NodeIds(g.nodes) && HasSource(g.edges, e.id, e.source)
    ensures CheckResult(Fail, MissingTarget(e.id, e.target)) in DagReport(g) <==>
            e.target !in NodeIds(g.nodes) && HasTarget(g.edges, e.id, e.target)
    ensures CheckResult(Fail, Cyclic) in DagReport(g) <==> HasCycle(GraphEdges(g))
    ensures CheckResult(Fail, NoPath) in DagReport(g) <==> !SourceReachesDestination(g.nodes, GraphEdges(g))
    ensures CheckResult(Fail, Orphan(x)) in DagReport(g) <==>
            x in NodeIds(g.nodes) && x !in Touched(GraphEdges(g))
  {
    EdgeRowKinds(NodeIds(g.nodes), g.edges, e);
    OrphanRowKinds(Touched(GraphEdges(g)), g.nodes, x);
    RowsOfReport(g, CheckResult(Fail, MissingSource(e.id, e.source)));
    RowsOfReport(g, CheckResult(Fail, MissingTarget(e.id, e.target)));
    RowsOfReport(g, CheckResult(Fail, Cyclic));
    RowsOfReport(g, CheckResult(Fail, NoPath));
    RowsOfReport(g, CheckResult(Fail, Orphan(x)));
  }

  /** The row about missing nodes is the whole report of a graph without nodes, and in no other report. */
  lemma NoNodesRow<C>(g: GraphDoc<C>)
    ensures CheckResult(Fail, NoNodes) in DagReport(g) <==> g.nodes == []
    ensures g.nodes == [] ==> DagReport(g) == [CheckResult(Fail, NoNodes)]
  {
    if g.nodes != [] {
      var r := CheckResult(Fail, NoNodes);
      RowsOfReport(g, r);
      EdgeRowKinds(NodeIds(g.nodes), g.edges, Edge("", "", ""));
      OrphanRowKinds(Touched(GraphEdges(g)), g.nodes, "");
    }
  }

  /** A fail row is in the report when it is in one of its four parts. */
  lemma RowsOfReport<C>(g: GraphDoc<C>, r: CheckResult)
    requires g.nodes != [] && r.status == Fail
    ensures r in DagReport(g) <==>
            || r in EdgeRows(NodeIds(g.nodes), g.edges)
            || r in OrphanRows(Touched(GraphEdges(g)), g.nodes)
            || r in CycleRow(GraphEdges(g))
            || r in PathRow(g.nodes, GraphEdges(g))
  {
    InOneOfFour(EdgeRows(NodeIds(g.nodes), g.edges), OrphanRows(Touched(GraphEdges(g)), g.nodes),
                CycleRow(GraphEdges(g)), PathRow(g.nodes, GraphEdges(g)), r);
  }

  lemma InOneOfFour(a: seq<CheckResult>, b: seq<CheckResult>, c: seq<CheckResult>, d: seq<CheckResult>, r: CheckResult)
    ensures r in a + b + c + d <==> r in a || r in b || r in c || r in d
  {
  }

  /** Some edge of this id starts there. */
  ghost predicate HasSource(edges: seq<Edge>, id: string, source: Id) {
    exists f :: f in edges && f.id == id && f.source == source
  }

  /** Some edge of this id ends there. */
  ghost predicate HasTarget(edges: seq<Edge>, id: string, target: Id) {
    exists f :: f in edges && f.id == id && f.target == target
  }

  lemma {:induction false} EdgeRowKinds(ids: set<Id>, edges: seq<Edge>, e: Edge)
    ensures forall r :: r in EdgeRows(ids, edges) ==> r.finding.MissingSource? || r.finding.MissingTarget?
    ensures CheckResult(Fail, MissingSource(e.id, e.source)) in EdgeRows(ids, edges) <==>
            e.source !in ids && HasSource(edges, e.id, e.source)
    ensures CheckResult(Fail, MissingTarget(e.id, e.target)) in EdgeRows(ids, edges) <==>
            e.target !in ids && HasTarget(edges, e.id, e.target)
  {
    if edges != [] {
      var init, last := edges[..|edges| - 1], edges[|edges| - 1];
      EdgeRowKinds(ids, init, e);
      assert forall f :: f in edges <==> f in init || f == last;
    }
  }

  lemma {:induction false} OrphanRowKinds<C>(touched: set<Id>, nodes: seq<GraphNode<C>>, x: Id)
    ensures forall r :: r in OrphanRows(touched, nodes) ==> r.finding.Orphan?
    ensures CheckResult(Fail, Orphan(x)) in OrphanRows(touched, nodes) <==> x in NodeIds(nodes) && x !in touched
  {
    if nodes != [] {
      OrphanRowKinds(touched, nodes[..|nodes| - 1], x);
      assert nodes == nodes[..|nodes| - 1] + [nodes[|nodes| - 1]];
    }
  }
}
