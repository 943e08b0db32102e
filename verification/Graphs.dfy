/** Directed graphs given as edge lists: walks, reachability, cycles, and the adjacency map the programs build from an
    edge list. */
module Graphs {
  import opened Common

  type Id = string

  datatype Edge = Edge(id: string, source: Id, target: Id)

  type Adjacency = map<Id, seq<Id>>

  ghost predicate Step(edges: seq<Edge>, a: Id, b: Id) {
    exists e :: e in edges && e.source == a && e.target == b
  }

  ghost predicate IsWalk(edges: seq<Edge>, p: seq<Id>) {
    |p| > 0 && forall i :: 0 <= i < |p| - 1 ==> Step(edges, p[i], p[i + 1])
  }

  ghost predicate WalkBetween(edges: seq<Edge>, p: seq<Id>, a: Id, b: Id) {
    IsWalk(edges, p) && p[0] == a && p[|p| - 1] == b
  }

  ghost predicate Reach(edges: seq<Edge>, a: Id, b: Id) {
    exists p :: WalkBetween(edges, p, a, b)
  }

  ghost predicate IsCycle(edges: seq<Edge>, p: seq<Id>) {
    |p| > 1 && IsWalk(edges, p) && p[0] == p[|p| - 1]
  }

  ghost predicate HasCycle(edges: seq<Edge>) {
    exists p :: IsCycle(edges, p)
  }

  function Successors(adj: Adjacency, a: Id): seq<Id> {
    if a in adj then adj[a] else []
  }

  /** The adjacency map lists exactly the steps of the edge list. */
  ghost predicate Represents(adj: Adjacency, edges: seq<Edge>) {
    forall a, b :: b in Successors(adj, a) <==> Step(edges, a, b)
  }

  /** The loop both checkDag and the agent set-up use to index edges by their source. */
  method BuildAdjacency(edges: seq<Edge>) returns (adj: Adjacency)
    ensures Represents(adj, edges)
    ensures forall a :: Successors(adj, a) == TargetsFrom(edges, a)
  {
    adj := map[];
    for i := 0 to |edges|
      invariant forall a :: Successors(adj, a) == TargetsFrom(edges[..i], a)
    {
      var e := edges[i];
      assert edges[..i + 1][..i] == edges[..i];
      adj := adj[e.source := Successors(adj, e.source) + [e.target]];
    }
    assert edges[..|edges|] == edges;
    forall a, b ensures b in Successors(adj, a) <==> Step(edges, a, b) {
      TargetsFromIsStep(edges, a, b);
    }
  }

  /** The targets of the edges leaving `a`, in edge order. */
  ghost function TargetsFrom(edges: seq<Edge>, a: Id): seq<Id> {
    if edges == [] then []
    else
      var e := edges[|edges| - 1];
      TargetsFrom(edges[..|edges| - 1], a) + if e.source == a then [e.target] else []
  }

  lemma {:induction false} TargetsFromIsStep(edges: seq<Edge>, a: Id, b: Id)
    ensures b in TargetsFrom(edges, a) <==> Step(edges, a, b)
  {
    if edges != [] {
      var init, e := edges[..|edges| - 1], edges[|edges| - 1];
      TargetsFromIsStep(init, a, b);
      assert edges == init + [e];
      assert forall x :: x in edges <==> x in init || x == e;
    }
  }

  lemma ReachRefl(edges: seq<Edge>, a: Id)
    ensures Reach(edges, a, a)
  {
    assert WalkBetween(edges, [a], a, a);
  }

  lemma ReachStep(edges: seq<Edge>, a: Id, b: Id, c: Id)
    requires Reach(edges, a, b) && Step(edges, b, c)
    ensures Reach(edges, a, c)
  {
    var p :| WalkBetween(edges, p, a, b);
    assert WalkBetween(edges, p + [c], a, c);
  }

  /** A set that holds the start of a walk and is closed under steps holds every node of the walk. */
  lemma {:induction false} ClosedHoldsWalk(edges: seq<Edge>, closed: set<Id>, p: seq<Id>)
    requires IsWalk(edges, p) && p[0] in closed
    requires forall a, b :: a in closed && Step(edges, a, b) ==> b in closed
    ensures forall x :: x in p ==> x in closed
  {
    if |p| > 1 {
      assert Step(edges, p[0], p[1]);
      forall i | 0 <= i < |p| - 2 ensures Step(edges, p[1..][i], p[1..][i + 1]) {
        assert Step(edges, p[i + 1], p[i + 2]);
      }
      ClosedHoldsWalk(edges, closed, p[1..]);
    }
  }

  lemma ClosedHoldsReachable(edges: seq<Edge>, closed: set<Id>, a: Id, b: Id)
    requires a in closed && Reach(edges, a, b)
    requires forall x, y :: x in closed && Step(edges, x, y) ==> y in closed
    ensures b in closed
  {
    var p :| WalkBetween(edges, p, a, b);
    ClosedHoldsWalk(edges, closed, p);
  }

  /** Every step out of a listed node leads to a node listed earlier. */
  ghost predicate ReverseTopological(edges: seq<Edge>, order: seq<Id>) {
    && NoRepeats(order)
    && forall i, b :: 0 <= i < |order| && Step(edges, order[i], b) ==> b in order[..i]
  }

  /** A walk that starts at a listed node goes strictly down the list. */
  lemma {:induction false} WalkDescends(edges: seq<Edge>, order: seq<Id>, p: seq<Id>, i: nat) returns (j: nat)
    requires ReverseTopological(edges, order)
    requires IsWalk(edges, p) && i < |order| && order[i] == p[0]
    ensures j < |order| && order[j] == p[|p| - 1] && j <= i && (|p| > 1 ==> j < i)
    decreases |p|
  {
    if |p| == 1 {
      j := i;
    } else {
      assert Step(edges, p[0], p[1]);
      assert p[1] in order[..i];
      var k :| 0 <= k < i && order[k] == p[1];
      forall m | 0 <= m < |p| - 2 ensures Step(edges, p[1..][m], p[1..][m + 1]) {
        assert Step(edges, p[m + 1], p[m + 2]);
      }
      j := WalkDescends(edges, order, p[1..], k);
    }
  }

  /** A reverse topological order of all nodes with outgoing steps leaves no room for a cycle. */
  lemma ReverseTopologicalIsAcyclic(edges: seq<Edge>, order: seq<Id>)
    requires ReverseTopological(edges, order)
    requires forall a, b :: Step(edges, a, b) ==> a in order
    ensures !HasCycle(edges)
  {
    if HasCycle(edges) {
      var p :| IsCycle(edges, p);
      assert Step(edges, p[0], p[1]);
      var i :| 0 <= i < |order| && order[i] == p[0];
      var j := WalkDescends(edges, order, p, i);
      assert false;
    }
  }

  lemma WalkPrefix(edges: seq<Edge>, p: seq<Id>, n: nat)
    requires IsWalk(edges, p) && 0 < n <= |p|
    ensures IsWalk(edges, p[..n])
  {
    forall i | 0 <= i < n - 1 ensures Step(edges, p[..n][i], p[..n][i + 1]) {
      assert Step(edges, p[i], p[i + 1]);
    }
  }

  lemma WalkSuffix(edges: seq<Edge>, p: seq<Id>, n: nat)
    requires IsWalk(edges, p) && n < |p|
    ensures IsWalk(edges, p[n..])
  {
    forall i | 0 <= i < |p| - n - 1 ensures Step(edges, p[n..][i], p[n..][i + 1]) {
      assert Step(edges, p[n + i], p[n + i + 1]);
    }
  }

  lemma ReachTransitive(edges: seq<Edge>, a: Id, b: Id, c: Id)
    requires Reach(edges, a, b) && Reach(edges, b, c)
    ensures Reach(edges, a, c)
  {
    var p :| WalkBetween(edges, p, a, b);
    var q :| WalkBetween(edges, q, b, c);
    var r := p + q[1..];
    forall i | 0 <= i < |r| - 1 ensures Step(edges, r[i], r[i + 1]) {
      if i < |p| - 1 {
        assert Step(edges, p[i], p[i + 1]);
      } else {
        assert Step(edges, q[i + 1 - |p|], q[i + 2 - |p|]);
      }
    }
    assert WalkBetween(edges, r, a, c);
  }

  /** More edges, more walks. */
  lemma ReachMonotone(few: seq<Edge>, many: seq<Edge>, a: Id, b: Id)
    requires forall e :: e in few ==> e in many
    requires Reach(few, a, b)
    ensures Reach(many, a, b)
  {
    var p :| WalkBetween(few, p, a, b);
    forall i | 0 <= i < |p| - 1 ensures Step(many, p[i], p[i + 1]) {
      assert Step(few, p[i], p[i + 1]);
    }
    assert WalkBetween(many, p, a, b);
  }
}
