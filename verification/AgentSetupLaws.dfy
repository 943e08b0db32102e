/** What a derived job promises, in terms of the places of its path: which steps its filter stands for, which problem is
    reported for which fault, and exactly when there is a job at all. */
module AgentSetupLaws {
  import opened Common
  import opened Graphs
  import opened CheckDag
  import opened FilterExpr
  import opened AgentSetup

  // ---- The steps on a path ----

  /** A step of a transform node that stands on the path, at neither end. */
  ghost predicate StepOnPath(nodes: seq<Node>, path: seq<Id>, s: TransformStep) {
    exists i: nat, n :: TransformOnPath(nodes, path, i, n) && n.config.steps.Some? && s in n.config.steps.value
  }

  lemma NodesOnPath(nodes: seq<Node>, path: seq<Id>)
    ensures forall n :: n in TransformsOf(nodes, Inner(path)) <==> exists i: nat :: TransformOnPath(nodes, path, i, n)
  {
    TransformsAreInside(nodes, path);
    var at :| TransformsAt(nodes, path, 1, at, TransformsOf(nodes, Inner(path)));
    forall n ensures n in TransformsOf(nodes, Inner(path)) <==> exists i: nat :: TransformOnPath(nodes, path, i, n) {
      NodeAtAPlace(nodes, path, at, TransformsOf(nodes, Inner(path)), n);
    }
  }

  lemma NodeAtAPlace(nodes: seq<Node>, path: seq<Id>, at: seq<nat>, ts: seq<Node>, n: Node)
    requires TransformsAt(nodes, path, 1, at, ts)
    ensures n in ts <==> exists i: nat :: TransformOnPath(nodes, path, i, n)
  {
    if n in ts {
      var k :| 0 <= k < |ts| && ts[k] == n;
      assert TransformOnPath(nodes, path, at[k], n);
    }
    if i: nat :| TransformOnPath(nodes, path, i, n) {
      assert i in at;
      var k :| 0 <= k < |at| && at[k] == i;
      OneNodeAtAPlace(nodes, path, i, n, ts[k]);
    }
  }

  lemma OneNodeAtAPlace(nodes: seq<Node>, path: seq<Id>, i: nat, n: Node, m: Node)
    requires TransformOnPath(nodes, path, i, n) && TransformOnPath(nodes, path, i, m)
    ensures n == m
  {
    FoundIsFirst(nodes, path[i], n);
    FoundIsFirst(nodes, path[i], m);
  }

  lemma StepsOnPath(nodes: seq<Node>, path: seq<Id>)
    ensures forall s :: s in PathSteps(TransformsOf(nodes, Inner(path))) <==> StepOnPath(nodes, path, s)
  {
    var ts := TransformsOf(nodes, Inner(path));
    NodesOnPath(nodes, path);
    FlatMapMembers(ts, NodeSteps);
    forall s | s in PathSteps(ts) ensures StepOnPath(nodes, path, s) {
      var n :| n in ts && s in NodeSteps(n);
      var i: nat :| TransformOnPath(nodes, path, i, n);
    }
    forall s | StepOnPath(nodes, path, s) ensures s in PathSteps(ts) {
      var i: nat, n :| TransformOnPath(nodes, path, i, n) && n.config.steps.Some? && s in n.config.steps.value;
      assert n in ts && s in NodeSteps(n);
    }
  }

  // ---- What the filter stands for ----

  /** Every filter step on the path passes the row. */
  ghost predicate StepsPass(nodes: seq<Node>, path: seq<Id>, row: Row, rt: Runtime) {
    forall s :: StepOnPath(nodes, path, s) ==> s.FilterStep? && Passes(s.expr, row, rt)
  }

  /** Every `contains` needle in the steps on the path is text. */
  ghost predicate NeedlesAreText(nodes: seq<Node>, path: seq<Id>) {
    forall s :: StepOnPath(nodes, path, s) ==> s.FilterStep? && FaithfulFilter(s.expr)
  }

  /** The published filter holds of every row that passes every step of every transform node on the path, and of no
      other unless some `contains` needle is not text: then the steps pass no row at all. */
  lemma PublishedFilterMeaning(nodes: seq<Node>, src: Node, dst: Node, path: seq<Id>, row: Row, rt: Runtime)
    requires Derived(nodes, src, dst, path).Ok?
    ensures StepsPass(nodes, path, row, rt) <==>
            AllHold(Derived(nodes, src, dst, path).value.filter, row, rt) && NeedlesAreText(nodes, path)
  {
    var ts := TransformsOf(nodes, Inner(path));
    PathFaults(ts);
    StepsOnPath(nodes, path);
    FoldKeepsMeaning(PathSteps(ts), row, rt);
  }

  /** A setup for a Planometry table maps every key column, and no published mapping has an empty side. */
  lemma PublishedMappingIsComplete(nodes: seq<Node>, src: Node, dst: Node, path: seq<Id>)
    requires Derived(nodes, src, dst, path).Ok?
    ensures var setup := Derived(nodes, src, dst, path).value;
            && (forall m :: m in setup.mapping ==> m.from != "" && m.to != "")
            && (dst.config.manifestId == Some(PLANOMETRY_TABLE) ==>
                  forall c :: c in setup.columns && c.isKey ==> exists m :: m in setup.mapping && m.from == c.name)
  {
    EndpointFaults(src, dst);
  }

  /** Each end of a published job comes from its own node: connection, table, columns and parameters from the source,
      connection, mapping, mode and delivery settings from the destination. */
  lemma PublishedSetupTakesEachEnd(nodes: seq<Node>, src: Node, dst: Node, path: seq<Id>)
    requires Derived(nodes, src, dst, path).Ok?
    ensures src.config.sourceDest.Some? && dst.config.sourceDest.Some?
    ensures var setup := Derived(nodes, src, dst, path).value;
            var sc, dc := src.config.sourceDest.value, dst.config.sourceDest.value;
            && src.config.connectionId == Some(setup.sourceConnectionId) && setup.sourceConnectionId != ""
            && dst.config.connectionId == Some(setup.destinationConnectionId) && setup.destinationConnectionId != ""
            && (exists e :: sc.entity == Some(e) && setup.sourceTable == e.namespace + "." + e.name)
            && (sc.columns == Some(setup.columns) || (sc.columns == None && setup.columns == []))
            && (sc.params == Some(setup.params) || (sc.params == None && setup.params == map[]))
            && (dc.mapping == Some(setup.mapping) || (dc.mapping == None && setup.mapping == []))
            && dc.delivery == Some(Delivery(Some(setup.mode), setup.options))
  {
    EndpointFaults(src, dst);
    assert src.config.sourceDest.value.entity == Some(src.config.sourceDest.value.entity.value);
  }

  lemma KeysUnmapped(columns: seq<Column>, mapping: seq<MappingEntry>)
    ensures UnmappedKeyNames(columns, mapping) == [] <==>
            forall c :: c in columns && c.isKey ==> exists m :: m in mapping && m.from == c.name
  {
    var names := UnmappedKeyNames(columns, mapping);
    if names == [] {
      forall c | c in columns && c.isKey ensures exists m :: m in mapping && m.from == c.name {
        assert c.name !in names;
      }
    } else {
      assert names[0] in names;
    }
  }

  lemma EndpointFaults(src: Node, dst: Node)
    ensures EndpointProblems(src, dst) == [] <==>
            var sc, dc := src.config.sourceDest, dst.config.sourceDest;
            && Present(src.config.connectionId) && Present(dst.config.connectionId)
            && sc.Some? && sc.value.entity.Some? && dc.Some? && HasMode(dc.value)
            && (dst.config.manifestId == Some(PLANOMETRY_TABLE) ==>
                  forall c :: c in ColumnsOf(sc) && c.isKey ==> exists m :: m in MappingOf(dc) && m.from == c.name)
  {
    KeysUnmapped(ColumnsOf(src.config.sourceDest), MappingOf(dst.config.sourceDest));
  }

  // ---- Which problem stands for which fault ----

  /** The fault of a node or a step on the path that a problem reports. */
  ghost predicate PathFault(nodes: seq<Node>, path: seq<Id>, p: Problem) {
    match p
    case BadTransformConfig(id) =>
      exists i: nat, n :: TransformOnPath(nodes, path, i, n) && n.id == id && n.config.steps == None
    case OnlyFilterSteps(kind) => StepOnPath(nodes, path, OtherStep(kind))
    case NotFlatFilter => exists e :: StepOnPath(nodes, path, FilterStep(e)) && Conditions(e) == None
    case _ => false
  }

  /** The fault of one of the two ends that a problem reports. */
  ghost predicate EndFault(src: Node, dst: Node, p: Problem) {
    var sc, dc := src.config.sourceDest, dst.config.sourceDest;
    match p
    case BadSourceConfig => sc == None
    case BadDestinationConfig => dc == None
    case NoSourceConnection => src.config.connectionId == None || src.config.connectionId == Some("")
    case NoDestinationConnection => dst.config.connectionId == None || dst.config.connectionId == Some("")
    case NoSourceTable => sc.Some? && sc.value.entity == None
    case NoDeliveryMode => dc.Some? && (dc.value.delivery == None || dc.value.delivery.value.mode == None)
    case UnmappedKeys(names) =>
      && dst.config.manifestId == Some("planometry-table")
      && names != [] && names == UnmappedKeyNames(ColumnsOf(sc), MappingOf(dc))
    case _ => false
  }

  lemma PathProblemsAreFaults(nodes: seq<Node>, path: seq<Id>, p: Problem)
    ensures p in PathProblems(TransformsOf(nodes, Inner(path))) <==> PathFault(nodes, path, p)
  {
    var ts := TransformsOf(nodes, Inner(path));
    NodesOnPath(nodes, path);
    StepsOnPath(nodes, path);
    ProblemsOfNodes(ts, p);
  }

  lemma ProblemsOfNode(n: Node, p: Problem)
    ensures p in NodeProblems(n) <==>
            match p
            case BadTransformConfig(id) => n.id == id && n.config.steps == None
            case OnlyFilterSteps(kind) => OtherStep(kind) in NodeSteps(n)
            case NotFlatFilter => exists e :: FilterStep(e) in NodeSteps(n) && Conditions(e) == None
            case _ => false
  {
    FlatMapMembers(NodeSteps(n), StepProblems);
  }

  lemma ProblemsOfNodes(ts: seq<Node>, p: Problem)
    ensures p in PathProblems(ts) <==>
            match p
            case BadTransformConfig(id) => exists n :: n in ts && n.id == id && n.config.steps == None
            case OnlyFilterSteps(kind) => OtherStep(kind) in PathSteps(ts)
            case NotFlatFilter => exists e :: FilterStep(e) in PathSteps(ts) && Conditions(e) == None
            case _ => false
  {
    FlatMapMembers(ts, NodeProblems);
    FlatMapMembers(ts, NodeSteps);
    forall n ensures p in NodeProblems(n) <==>
        match p
        case BadTransformConfig(id) => n.id == id && n.config.steps == None
        case OnlyFilterSteps(kind) => OtherStep(kind) in NodeSteps(n)
        case NotFlatFilter => exists e :: FilterStep(e) in NodeSteps(n) && Conditions(e) == None
        case _ => false
    {
      ProblemsOfNode(n, p);
    }
  }

  lemma InEndpointProblems(src: Node, dst: Node, p: Problem)
    ensures var sc, dc := src.config.sourceDest, dst.config.sourceDest;
            var unmapped := UnmappedKeyNames(ColumnsOf(sc), MappingOf(dc));
            p in EndpointProblems(src, dst) <==>
            || (sc.None? && p == BadSourceConfig)
            || (dc.None? && p == BadDestinationConfig)
            || (!Present(src.config.connectionId) && p == NoSourceConnection)
            || (!Present(dst.config.connectionId) && p == NoDestinationConnection)
            || (sc.Some? && sc.value.entity.None? && p == NoSourceTable)
            || (dc.Some? && !HasMode(dc.value) && p == NoDeliveryMode)
            || (dst.config.manifestId == Some(PLANOMETRY_TABLE) && unmapped != [] && p == UnmappedKeys(unmapped))
  {
    var sc, dc := src.config.sourceDest, dst.config.sourceDest;
    var unmapped := UnmappedKeyNames(ColumnsOf(sc), MappingOf(dc));
    InOneOfSeven(When(sc.None?, BadSourceConfig), When(dc.None?, BadDestinationConfig),
                 When(!Present(src.config.connectionId), NoSourceConnection),
                 When(!Present(dst.config.connectionId), NoDestinationConnection),
                 When(sc.Some? && sc.value.entity.None?, NoSourceTable),
                 When(dc.Some? && !HasMode(dc.value), NoDeliveryMode),
                 When(dst.config.manifestId == Some(PLANOMETRY_TABLE) && unmapped != [], UnmappedKeys(unmapped)), p);
  }

  lemma InOneOfSeven<T>(a: seq<T>, b: seq<T>, c: seq<T>, d: seq<T>, e: seq<T>, f: seq<T>, g: seq<T>, x: T)
    ensures x in a + b + c + d + e + f + g <==>
            x in a || x in b || x in c || x in d || x in e || x in f || x in g
  {
  }

  lemma EndpointProblemsAreFaults(src: Node, dst: Node, p: Problem)
    ensures p in EndpointProblems(src, dst) <==> EndFault(src, dst, p)
  {
    InEndpointProblems(src, dst, p);
  }

  ghost predicate Faulty(nodes: seq<Node>, src: Node, dst: Node, path: seq<Id>, p: Problem) {
    PathFault(nodes, path, p) || EndFault(src, dst, p)
  }

  lemma ProblemsAreFaults(nodes: seq<Node>, src: Node, dst: Node, path: seq<Id>)
    ensures forall p :: p in PathProblems(TransformsOf(nodes, Inner(path))) + EndpointProblems(src, dst) <==>
              Faulty(nodes, src, dst, path, p)
  {
    forall p ensures p in PathProblems(TransformsOf(nodes, Inner(path))) + EndpointProblems(src, dst) <==>
                     Faulty(nodes, src, dst, path, p)
    {
      PathProblemsAreFaults(nodes, path, p);
      EndpointProblemsAreFaults(src, dst, p);
    }
  }

  /** Some mapping entry has an empty side. */
  ghost predicate EmptySide(dst: Node, k: nat) {
    var mapping := MappingOf(dst.config.sourceDest);
    k < |mapping| && (mapping[k].from == "" || mapping[k].to == "")
  }

  lemma {:induction false} IssuesAreEmptySides(mapping: seq<MappingEntry>, p: Problem)
    ensures p in SetupIssues(mapping) <==>
            p.EmptyMappingSide? && p.index < |mapping| && (mapping[p.index].from == "" || mapping[p.index].to == "")
  {
    if mapping != [] { IssuesAreEmptySides(mapping[..|mapping| - 1], p); }
  }

  /** Derivation over a path reports exactly the faults of the path and its ends; if there are none, the mapping entries
      with an empty side; and gives a job exactly when there are neither. */
  lemma DerivedReportsTheFaults(nodes: seq<Node>, src: Node, dst: Node, path: seq<Id>)
    ensures var r := Derived(nodes, src, dst, path);
            if exists p :: Faulty(nodes, src, dst, path, p) then
              r.Err? && forall p :: p in r.error <==> Faulty(nodes, src, dst, path, p)
            else if exists k :: EmptySide(dst, k) then
              r.Err? && forall p :: p in r.error <==> p.EmptyMappingSide? && EmptySide(dst, p.index)
            else r.Ok?
  {
    var ps := PathProblems(TransformsOf(nodes, Inner(path))) + EndpointProblems(src, dst);
    var issues := SetupIssues(MappingOf(dst.config.sourceDest));
    ProblemsAreFaults(nodes, src, dst, path);
    forall p ensures p in issues <==> p.EmptyMappingSide? && EmptySide(dst, p.index) {
      IssuesAreEmptySides(MappingOf(dst.config.sourceDest), p);
    }
    if ps == [] {
      assert EndpointProblems(src, dst) == [];
      assert src.config.sourceDest.Some? && dst.config.sourceDest.Some? by { EndpointFaults(src, dst); }
      assert Some(dst.config.sourceDest.value) == dst.config.sourceDest;
      if k :| EmptySide(dst, k) { assert EmptyMappingSide(k) in issues; }
      if issues != [] { assert issues[0] in issues; }
    } else {
      assert ps[0] in ps;
    }
  }

  /** There is a job exactly when all of this holds. */
  ghost predicate Publishable(nodes: seq<Node>, src: Node, dst: Node, path: seq<Id>) {
    var sc, dc := src.config.sourceDest, dst.config.sourceDest;
    && (forall i: nat, n :: TransformOnPath(nodes, path, i, n) ==> n.config.steps.Some?)
    && (forall s :: StepOnPath(nodes, path, s) ==> s.FilterStep? && Conditions(s.expr).Some?)
    && Present(src.config.connectionId) && Present(dst.config.connectionId)
    && sc.Some? && sc.value.entity.Some? && dc.Some? && HasMode(dc.value)
    && (forall m :: m in MappingOf(dc) ==> m.from != "" && m.to != "")
    && (dst.config.manifestId == Some(PLANOMETRY_TABLE) ==>
          forall c :: c in ColumnsOf(sc) && c.isKey ==> exists m :: m in MappingOf(dc) && m.from == c.name)
  }

  lemma DerivedExactlyWhenPublishable(nodes: seq<Node>, src: Node, dst: Node, path: seq<Id>)
    ensures Derived(nodes, src, dst, path).Ok? <==> Publishable(nodes, src, dst, path)
  {
    PathFaults(TransformsOf(nodes, Inner(path)));
    NodesOnPath(nodes, path);
    StepsOnPath(nodes, path);
    EndpointFaults(src, dst);
  }

  // ---- The two ends ----

  /** The first agent source and the first agent destination of the graph are its ends. */
  lemma EndsOfTheJob(nodes: seq<Node>, k: nat)
    requires k < |nodes|
    ensures FirstAt(nodes, IsAgentSource, k) ==> First(nodes, IsAgentSource) == Some(nodes[k])
    ensures FirstAt(nodes, IsAgentDestination, k) ==> First(nodes, IsAgentDestination) == Some(nodes[k])
    ensures IsAgentSource(nodes[k]) <==>
            nodes[k].kind == Source && nodes[k].config.manifestId == Some("sqlserver-agent")
    ensures IsAgentDestination(nodes[k]) <==>
            && nodes[k].kind == Destination
            && (nodes[k].config.manifestId == Some("planometry-table")
                || nodes[k].config.manifestId == Some("https-endpoint"))
  {
    if FirstAt(nodes, IsAgentSource, k) {
      var j := FirstIsFirst(nodes, IsAgentSource);
      OneFirst(nodes, IsAgentSource, j, k);
    }
    if FirstAt(nodes, IsAgentDestination, k) {
      var j := FirstIsFirst(nodes, IsAgentDestination);
      OneFirst(nodes, IsAgentDestination, j, k);
    }
  }
}
