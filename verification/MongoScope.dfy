/** Which collections a pipeline names, at its top and at any depth, and exactly when the scope check covers
    them all. */
module MongoScope {
  import opened Common
  import opened Json
  import opened MongoPipeline

  /** Some object of the tree names the collection in a `$lookup` or `$unionWith`, however deep. */
  ghost predicate Names(node: Json, t: Json) {
    match node
    case Arr(items) => exists i :: 0 <= i < |items| && Names(items[i], t)
    case Obj(es) => t in CollectionsReferenced(es) || exists i :: 0 <= i < |es| && Names(es[i].value, t)
    case _ => false
  }

  function StageTargets(): Json -> seq<Json> {
    (stage: Json) => if stage.Obj? then CollectionsReferenced(stage.entries) else []
  }

  /** The collections the stages name at their top. */
  function TopTargets(pipeline: seq<Json>): seq<Json> {
    FlatMap(pipeline, StageTargets())
  }

  ghost predicate NamesSomewhere(pipeline: seq<Json>, t: Json) {
    exists i :: 0 <= i < |pipeline| && Names(pipeline[i], t)
  }

  /** Every scope that accepts the query holds every collection the query names. */
  ghost predicate ScopeCoversAll(q: Payload)
    requires q.MongoQuery?
  {
    forall scope, t :: Acceptable(q, scope) && NamesSomewhere(q.pipeline, t) ==> InScope(scope, t)
  }

  /** Every collection is named at the top of some stage, or is the query's own. */
  ghost predicate NothingNamedDeeper(q: Payload)
    requires q.MongoQuery?
  {
    forall t :: NamesSomewhere(q.pipeline, t) ==> t in TopTargets(q.pipeline) || t == Str(q.collection)
  }

  /** Some target is no text, which no scope but the unlimited one lets through. */
  ghost predicate OddTarget(q: Payload)
    requires q.MongoQuery?
  {
    exists t :: t in TopTargets(q.pipeline) && !t.Str?
  }

  function Texts(ts: seq<Json>): (names: seq<string>)
    ensures forall s :: s in names <==> Str(s) in ts
  {
    if ts == [] then []
    else
      assert ts == [ts[0]] + ts[1..];
      (if ts[0].Str? then [ts[0].s] else []) + Texts(ts[1..])
  }

  lemma TopTargetsOfStages(pipeline: seq<Json>)
    ensures forall t :: t in TopTargets(pipeline) <==>
              exists i :: 0 <= i < |pipeline| && t in StageTargets()(pipeline[i])
  {
    FlatMapMembers(pipeline, StageTargets());
    forall t | t in TopTargets(pipeline)
      ensures exists i :: 0 <= i < |pipeline| && t in StageTargets()(pipeline[i])
    {
      var stage :| stage in pipeline && t in StageTargets()(stage);
      var i :| 0 <= i < |pipeline| && pipeline[i] == stage;
      assert t in StageTargets()(pipeline[i]);
    }
    forall t, i | 0 <= i < |pipeline| && t in StageTargets()(pipeline[i]) ensures t in TopTargets(pipeline) {
      assert pipeline[i] in pipeline;
    }
  }

  /** A query that an unlimited scope accepts is accepted by another exactly when that holds its collection and all
      targets at the top. */
  lemma AcceptedByScope(q: Payload, scope: Scope)
    requires q.MongoQuery? && Acceptable(q, Scope(None))
    ensures Acceptable(q, scope) <==>
            InScope(scope, Str(q.collection)) && forall t :: t in TopTargets(q.pipeline) ==> InScope(scope, t)
  {
    TopTargetsOfStages(q.pipeline);
    if InScope(scope, Str(q.collection)) && forall t :: t in TopTargets(q.pipeline) ==> InScope(scope, t) {
      forall i | 0 <= i < |q.pipeline| ensures GoodStage(q.pipeline[i], scope) {
        assert GoodStage(q.pipeline[i], Scope(None));
        assert StageTargets()(q.pipeline[i]) == CollectionsReferenced(q.pipeline[i].entries);
      }
    }
    if Acceptable(q, scope) {
      forall t | t in TopTargets(q.pipeline) ensures InScope(scope, t) {
        var i :| 0 <= i < |q.pipeline| && t in StageTargets()(q.pipeline[i]);
        assert GoodStage(q.pipeline[i], scope);
      }
    }
  }

  /** The scope check covers every collection a query names exactly when none is named deeper only, or the query passes
      under no scope with a list. */
  lemma ScopeCoversExactlyTheTop(q: Payload)
    requires q.MongoQuery? && Acceptable(q, Scope(None))
    ensures ScopeCoversAll(q) <==> NothingNamedDeeper(q) || OddTarget(q)
  {
    if NothingNamedDeeper(q) || OddTarget(q) {
      forall scope, t | Acceptable(q, scope) && NamesSomewhere(q.pipeline, t) ensures InScope(scope, t) {
        AcceptedByScope(q, scope);
      }
    } else {
      var t :| NamesSomewhere(q.pipeline, t) && t !in TopTargets(q.pipeline) && t != Str(q.collection);
      var scope := TightScope(q);
      AcceptedByScope(q, scope);
      forall u | u in TopTargets(q.pipeline) ensures InScope(scope, u) {
        assert u == Str(u.s);
      }
      assert !InScope(scope, t);
    }
  }

  /** The scope of just the collections the query may name at the top. */
  function TightScope(q: Payload): (scope: Scope)
    requires q.MongoQuery?
    ensures forall s :: InScope(scope, Str(s)) <==> s == q.collection || Str(s) in TopTargets(q.pipeline)
  {
    Scope(Some([q.collection] + Texts(TopTargets(q.pipeline))))
  }

  // ---- A query it does not cover ----

  const INNER: Json := Obj([Entry("$lookup", Obj([Entry("from", Str("prices"))]))])

  /** A `$lookup` inside a `$facet`. */
  const FACET: Json := Obj([Entry("$facet", Obj([Entry("all", Arr([INNER]))]))])

  lemma FacetNamesPrices()
    ensures Names(FACET, Str("prices")) && StageTargets()(FACET) == []
  {
    var es := [Entry("from", Str("prices"))];
    assert Lookup(es, "from") == Some(Str("prices"));
    assert Lookup(INNER.entries, "$lookup") == Some(Obj(es));
    assert LookupTargets(INNER.entries) == [Str("prices")];
    assert Names(INNER, Str("prices"));
    var branches := Obj([Entry("all", Arr([INNER]))]);
    assert Arr([INNER]).items[0] == INNER;
    assert Names(branches.entries[0].value, Str("prices"));
    assert Names(FACET.entries[0].value, Str("prices"));
    assert FACET.entries[1..] == [];
    assert Lookup(FACET.entries, "$lookup") == None && Lookup(FACET.entries, "$unionWith") == None;
  }

  lemma FacetIsAllowed()
    ensures AllowedStage(FACET) && !ForbiddenInside(FACET)
  {
    var es := [Entry("from", Str("prices"))];
    assert es[1..] == [] && INNER.entries[1..] == [] && FACET.entries[1..] == [];
    assert ScanEntries(es) == None;
    assert ScanEntries(INNER.entries) == None;
    assert [INNER][1..] == [] && ScanItems([INNER]) == None;
    var all := [Entry("all", Arr([INNER]))];
    assert all[1..] == [] && ScanEntries(all) == None;
    assert FACET.entries[0].value == Obj(all) && Scan(Obj(all)) == None;
    assert ScanEntries([]) == None && ScanEntries(FACET.entries) == None;
    ScanIsExact(FACET);
  }

  lemma NestedLookupIsNotCovered()
    ensures var q, scope := MongoQuery("orders", [FACET]), Scope(Some(["orders"]));
            Acceptable(q, scope) && NamesSomewhere(q.pipeline, Str("prices")) && !InScope(scope, Str("prices"))
  {
    FacetNamesPrices();
    FacetIsAllowed();
    assert [FACET][0] == FACET;
  }
}
