/** The aggregation-pipeline guardrail: stage list, forbidden operators at any depth, scope, and the row cap. */
module MongoPipeline {
  import opened Common
  import opened Json

  const ALLOWED_STAGES: set<string> :=
    {"$match", "$project", "$group", "$sort", "$limit", "$skip", "$unwind", "$lookup", "$addFields", "$set", "$count",
     "$facet", "$bucket", "$bucketAuto", "$sample", "$replaceRoot", "$replaceWith", "$unionWith", "$redact", "$geoNear"}

  const FORBIDDEN_OPERATORS: set<string> := {"$out", "$merge", "$function", "$where", "$accumulator", "$expr_write"}

  const MAX_ROWS := 1000

  /** The stage that is added, or put in place of a limit that is too high. */
  const CAP: Json := Obj([Entry("$limit", Num(1000.0))])

  // ---- The recursive scan ----

  function Scan(node: Json): Option<string>
    decreases node, 1
  {
    match node
    case Arr(items) => ScanItems(items)
    case Obj(es) => ScanEntries(es)
    case _ => None
  }

  function ScanItems(items: seq<Json>): Option<string>
    decreases items, 0
  {
    if items == [] then None
    else
      var hit := Scan(items[0]);
      if hit.Some? then hit else ScanItems(items[1..])
  }

  function ScanEntries(es: seq<Entry>): Option<string>
    decreases es, 0
  {
    if es == [] then None
    else if es[0].key in FORBIDDEN_OPERATORS then Some(es[0].key)
    else
      var hit := Scan(es[0].value);
      if hit.Some? then hit else ScanEntries(es[1..])
  }

  /** The key stands in some object of the tree, however deep. */
  ghost predicate KeyOccurs(k: string, node: Json) {
    match node
    case Arr(items) => exists i :: 0 <= i < |items| && KeyOccurs(k, items[i])
    case Obj(es) => exists i :: 0 <= i < |es| && (es[i].key == k || KeyOccurs(k, es[i].value))
    case _ => false
  }

  /** The operators that write or run code. */
  ghost predicate Forbidden(k: string) {
    k == "$out" || k == "$merge" || k == "$function" || k == "$where" || k == "$accumulator" || k == "$expr_write"
  }

  ghost predicate ForbiddenInside(node: Json) {
    exists k :: Forbidden(k) && KeyOccurs(k, node)
  }

  /** The scan finds a forbidden key exactly when there is one anywhere, and names one that is there. */
  lemma {:induction false} ScanIsExact(node: Json)
    ensures Scan(node).Some? <==> ForbiddenInside(node)
    ensures Scan(node).Some? ==> Forbidden(Scan(node).value) && KeyOccurs(Scan(node).value, node)
    decreases node, 1
  {
    match node {
      case Arr(items) =>
        ScanItemsIsExact(items);
        if ForbiddenInside(node) {
          var k :| Forbidden(k) && KeyOccurs(k, node);
          var i :| 0 <= i < |items| && KeyOccurs(k, items[i]);
          assert ForbiddenInside(items[i]);
        }
      case Obj(es) =>
        ScanEntriesIsExact(es);
        if ForbiddenInside(node) {
          var k :| Forbidden(k) && KeyOccurs(k, node);
          var i :| 0 <= i < |es| && (es[i].key == k || KeyOccurs(k, es[i].value));
          assert ForbiddenEntry(es[i]);
        }
      case _ =>
    }
  }

  lemma {:induction false} ScanItemsIsExact(items: seq<Json>)
    ensures ScanItems(items).None? ==> forall i :: 0 <= i < |items| ==> !ForbiddenInside(items[i])
    ensures ScanItems(items).Some? ==> Forbidden(ScanItems(items).value)
                                       && KeyOccurs(ScanItems(items).value, Arr(items))
    decreases items, 0
  {
    if items != [] {
      ScanIsExact(items[0]);
      ScanItemsIsExact(items[1..]);
      if ScanItems(items).Some? && Scan(items[0]).None? {
        var k := ScanItems(items).value;
        var i :| 0 <= i < |items[1..]| && KeyOccurs(k, items[1..][i]);
        assert KeyOccurs(k, items[i + 1]);
      }
    }
  }

  ghost predicate ForbiddenEntry(e: Entry) {
    Forbidden(e.key) || ForbiddenInside(e.value)
  }

  lemma {:induction false} ScanEntriesIsExact(es: seq<Entry>)
    ensures ScanEntries(es).None? ==> forall i :: 0 <= i < |es| ==> !ForbiddenEntry(es[i])
    ensures ScanEntries(es).Some? ==> Forbidden(ScanEntries(es).value)
                                      && KeyOccurs(ScanEntries(es).value, Obj(es))
    decreases es, 0
  {
    if es != [] {
      ScanIsExact(es[0].value);
      ScanEntriesIsExact(es[1..]);
      if !Forbidden(es[0].key) && Scan(es[0].value).None? && ScanEntries(es).Some? {
        var k := ScanEntries(es).value;
        var i :| 0 <= i < |es[1..]| && (es[1..][i].key == k || KeyOccurs(k, es[1..][i].value));
        assert es[i + 1] == es[1..][i];
      }
    }
  }

  // ---- Collections a stage names ----

  predicate Truthy(v: Json) {
    match v
    case Null => false
    case Bool(b) => b
    case Num(n) => n != 0.0
    case Str(s) => s != ""
    case _ => true
  }

  function LookupTargets(stage: seq<Entry>): seq<Json> {
    match Lookup(stage, "$lookup")
    case Some(Obj(es)) =>
      var from := Lookup(es, "from");
      if from.Some? && Truthy(from.value) then [from.value] else []
    case _ => []
  }

  function UnionTargets(stage: seq<Entry>): seq<Json> {
    match Lookup(stage, "$unionWith")
    case Some(Str(s)) => [Str(s)]
    case Some(Obj(es)) =>
      var coll := Lookup(es, "coll");
      if coll.Some? then [coll.value] else []
    case _ => []
  }

  function CollectionsReferenced(stage: seq<Entry>): seq<Json> {
    LookupTargets(stage) + UnionTargets(stage)
  }

  /** What the three shapes name: the `from` of a `$lookup` unless it is empty, a text `$unionWith`, and the `coll` of
      one that is an object. Any other stage names nothing. */
  lemma StagesName(v: Json, t: Json)
    ensures t in CollectionsReferenced([Entry("$lookup", v)]) <==>
            v.Obj? && Lookup(v.entries, "from") == Some(t) && Truthy(t)
    ensures t in CollectionsReferenced([Entry("$unionWith", v)]) <==>
            (v.Str? && t == v) || (v.Obj? && Lookup(v.entries, "coll") == Some(t))
    ensures forall k :: k != "$lookup" && k != "$unionWith" ==> CollectionsReferenced([Entry(k, v)]) == []
  {
    forall k ensures Lookup([Entry(k, v)], "$lookup") == if k == "$lookup" then Some(v) else None
             ensures Lookup([Entry(k, v)], "$unionWith") == if k == "$unionWith" then Some(v) else None
    {
      assert [Entry(k, v)][1..] == [];
    }
  }

  /** A text is left out when it is empty, a truth value when false, a number when 0, null always, anything else
      never. */
  lemma TruthyIs()
    ensures !Truthy(Null) && !Truthy(Bool(false)) && !Truthy(Num(0.0)) && !Truthy(Str(""))
    ensures Truthy(Bool(true)) && forall n :: n != 0.0 ==> Truthy(Num(n))
    ensures forall s :: s != "" ==> Truthy(Str(s))
    ensures (forall items :: Truthy(Arr(items))) && forall es :: Truthy(Obj(es))
  {
  }

  // ---- The validator ----

  datatype Scope = Scope(allowedTargets: Option<seq<string>>)

  /** Without a list of targets everything is in scope. */
  ghost predicate InScope(scope: Scope, target: Json) {
    scope.allowedTargets.Some? ==> target.Str? && target.s in scope.allowedTargets.value
  }

  datatype Payload = OtherPayload(kind: string) | MongoQuery(collection: string, pipeline: seq<Json>)

  datatype Refusal =
    | WrongKind(kind: string)
    | CollectionOutOfScope(collection: string)
    | NotAnObject(index: nat)
    | NotOneOperator(index: nat)
    | ForbiddenStage(name: string)
    | ForbiddenOperator(name: string)
    | TargetOutOfScope(target: Json)

  predicate StageNamed(stage: Json, name: string) {
    stage.Obj? && |stage.entries| == 1 && stage.entries[0].key == name
  }

  /** The stages that filter, reshape, group, order or join documents. */
  ghost predicate Allowed(name: string) {
    || name in {"$match", "$redact", "$sample", "$limit", "$skip", "$sort", "$geoNear"}
    || name in {"$project", "$addFields", "$set", "$replaceRoot", "$replaceWith", "$unwind"}
    || name in {"$group", "$count", "$bucket", "$bucketAuto", "$facet"}
    || name in {"$lookup", "$unionWith"}
  }

  ghost predicate AllowedStage(stage: Json) {
    stage.Obj? && |stage.entries| == 1 && Allowed(stage.entries[0].key)
  }

  ghost predicate GoodStage(stage: Json, scope: Scope) {
    && AllowedStage(stage)
    && !ForbiddenInside(stage)
    && forall t :: t in CollectionsReferenced(stage.entries) ==> InScope(scope, t)
  }

  ghost predicate Acceptable(q: Payload, scope: Scope)
    requires q.MongoQuery?
  {
    InScope(scope, Str(q.collection)) && forall i :: 0 <= i < |q.pipeline| ==> GoodStage(q.pipeline[i], scope)
  }

  /** The refusal is true of the stage it was raised at. */
  ghost predicate StageFault(stage: Json, i: nat, scope: Scope, why: Refusal) {
    match why
    case NotAnObject(j) => j == i && !stage.Obj?
    case NotOneOperator(j) => j == i && stage.Obj? && |stage.entries| != 1
    case ForbiddenStage(name) => StageNamed(stage, name) && !Allowed(name)
    case ForbiddenOperator(name) => Forbidden(name) && KeyOccurs(name, stage)
    case TargetOutOfScope(t) => stage.Obj? && t in CollectionsReferenced(stage.entries) && !InScope(scope, t)
    case _ => false
  }

  ghost predicate GoodUpTo(pipeline: seq<Json>, k: nat, scope: Scope) {
    k <= |pipeline| && forall j :: 0 <= j < k ==> GoodStage(pipeline[j], scope)
  }

  lemma GoodOneMore(pipeline: seq<Json>, k: nat, scope: Scope)
    requires GoodUpTo(pipeline, k, scope) && k < |pipeline| && GoodStage(pipeline[k], scope)
    ensures GoodUpTo(pipeline, k + 1, scope)
  {
  }

  /** The first stage that is not good is number i, and this is true of it. */
  ghost predicate FirstFaultAt(pipeline: seq<Json>, i: nat, scope: Scope, why: Refusal) {
    && i < |pipeline| && GoodUpTo(pipeline, i, scope) && !GoodStage(pipeline[i], scope)
    && StageFault(pipeline[i], i, scope, why)
  }

  /** The index of the last `$limit` stage, or -1. */
  function LastLimit(pipeline: seq<Json>): (i: int)
    ensures -1 <= i < |pipeline|
    ensures i >= 0 ==> StageNamed(pipeline[i], "$limit")
    ensures forall j :: i < j < |pipeline| ==> !StageNamed(pipeline[j], "$limit")
  {
    if pipeline == [] then -1
    else if StageNamed(pipeline[|pipeline| - 1], "$limit") then |pipeline| - 1
    else LastLimit(pipeline[..|pipeline| - 1])
  }

  lemma LastLimitStep(pipeline: seq<Json>, i: nat)
    requires i < |pipeline|
    ensures LastLimit(pipeline[..i + 1]) == if StageNamed(pipeline[i], "$limit") then i else LastLimit(pipeline[..i])
  {
    assert pipeline[..i + 1][..i] == pipeline[..i];
  }

  predicate WithinCap(stage: Json) {
    StageNamed(stage, "$limit") && stage.entries[0].value.Num? && stage.entries[0].value.n <= 1000.0
  }

  function Sanitized(pipeline: seq<Json>): seq<Json> {
    var i := LastLimit(pipeline);
    if i == -1 then pipeline + [CAP] else if WithinCap(pipeline[i]) then pipeline else pipeline[i := CAP]
  }

  method ValidateStage(stage: Json, idx: nat, scope: Scope) returns (fault: Option<Refusal>)
    ensures fault.None? <==> GoodStage(stage, scope)
    ensures fault.Some? ==> StageFault(stage, idx, scope, fault.value)
  {
    if !stage.Obj? { return Some(NotAnObject(idx)); }
    if |stage.entries| != 1 { return Some(NotOneOperator(idx)); }
    var stageName := stage.entries[0].key;
    if stageName !in ALLOWED_STAGES { return Some(ForbiddenStage(stageName)); }
    var forbidden := Scan(stage);
    ScanIsExact(stage);
    if forbidden.Some? { return Some(ForbiddenOperator(forbidden.value)); }
    var targets := CollectionsReferenced(stage.entries);
    for i := 0 to |targets|
      invariant forall j :: 0 <= j < i ==> InScope(scope, targets[j])
    {
      assert targets[i] in targets;
      if scope.allowedTargets.Some? {
        var allowed := scope.allowedTargets.value;
        if !targets[i].Str? || targets[i].s !in allowed { return Some(TargetOutOfScope(targets[i])); }
      }
    }
    return None;
  }

  method ValidateMongoPipeline(q: Payload, scope: Scope) returns (r: Result<Payload, Refusal>)
    ensures q.OtherPayload? ==> r == Err(WrongKind(q.kind))
    ensures q.MongoQuery? ==> (r.Ok? <==> Acceptable(q, scope))
    ensures q.MongoQuery? && r.Ok? ==> r.value == MongoQuery(q.collection, Sanitized(q.pipeline))
    ensures q.MongoQuery? && r.Err? ==>
              || (r.error == CollectionOutOfScope(q.collection) && !InScope(scope, Str(q.collection)))
              || exists i: nat :: FirstFaultAt(q.pipeline, i, scope, r.error)
  {
    if q.OtherPayload? { return Err(WrongKind(q.kind)); }
    if scope.allowedTargets.Some? && q.collection !in scope.allowedTargets.value {
      return Err(CollectionOutOfScope(q.collection));
    }
    var limitStageIdx := -1;
    for idx := 0 to |q.pipeline|
      invariant GoodUpTo(q.pipeline, idx, scope)
      invariant limitStageIdx == LastLimit(q.pipeline[..idx])
    {
      var fault := ValidateStage(q.pipeline[idx], idx, scope);
      if fault.Some? {
        assert FirstFaultAt(q.pipeline, idx, scope, fault.value);
        return Err(fault.value);
      }
      GoodOneMore(q.pipeline, idx, scope);
      LastLimitStep(q.pipeline, idx);
      if q.pipeline[idx].entries[0].key == "$limit" { limitStageIdx := idx; }
    }
    assert q.pipeline[..|q.pipeline|] == q.pipeline;
    var pipeline := q.pipeline;
    if limitStageIdx == -1 {
      pipeline := pipeline + [CAP];
    } else {
      var limit := pipeline[limitStageIdx].entries[0].value;
      if !limit.Num? || limit.n > 1000.0 {
        pipeline := pipeline[limitStageIdx := CAP];
      }
    }
    return Ok(MongoQuery(q.collection, pipeline));
  }

  // ---- What an accepted pipeline is ----

  lemma CapIsGood(scope: Scope)
    ensures GoodStage(CAP, scope) && WithinCap(CAP)
  {
    ScanIsExact(CAP);
    assert CAP.entries[1..] == [];
    assert Lookup(CAP.entries, "$lookup") == None && Lookup(CAP.entries, "$unionWith") == None;
  }

  /** Nothing forbidden at any depth, before or after sanitising. */
  lemma AcceptedHoldsNothingForbidden(q: Payload, scope: Scope, k: string)
    requires q.MongoQuery? && Acceptable(q, scope) && Forbidden(k)
    ensures forall i :: 0 <= i < |q.pipeline| ==> !KeyOccurs(k, q.pipeline[i])
    ensures forall i :: 0 <= i < |Sanitized(q.pipeline)| ==> !KeyOccurs(k, Sanitized(q.pipeline)[i])
  {
    CapIsGood(scope);
    forall i | 0 <= i < |Sanitized(q.pipeline)| ensures GoodStage(Sanitized(q.pipeline)[i], scope) {
      SanitizedStage(q.pipeline, i);
    }
  }

  lemma SanitizedStage(pipeline: seq<Json>, i: nat)
    requires i < |Sanitized(pipeline)|
    ensures Sanitized(pipeline)[i] == CAP || (i < |pipeline| && Sanitized(pipeline)[i] == pipeline[i])
  {
  }

  lemma LastLimitIs(pipeline: seq<Json>, i: nat)
    requires i < |pipeline| && StageNamed(pipeline[i], "$limit")
    requires forall j :: i < j < |pipeline| ==> !StageNamed(pipeline[j], "$limit")
    ensures LastLimit(pipeline) == i
  {
  }

  /** Only the last limit can change, and it ends up numeric and within the cap; without one, one is added at
      the end. */
  lemma SanitizingTouchesOnlyTheLastLimit(pipeline: seq<Json>)
    ensures var out, i := Sanitized(pipeline), LastLimit(pipeline);
            && LastLimit(out) == (if i == -1 then |pipeline| else i)
            && WithinCap(out[LastLimit(out)])
            && |out| == |pipeline| + (if i == -1 then 1 else 0)
            && forall j :: 0 <= j < |pipeline| && j != i ==> out[j] == pipeline[j]
  {
    var out, i := Sanitized(pipeline), LastLimit(pipeline);
    LastLimitIs(out, if i == -1 then |pipeline| else i);
  }

  /** Sanitising is a fixed point, and what it returns is accepted again. */
  lemma SanitizedIsStable(q: Payload, scope: Scope)
    requires q.MongoQuery? && Acceptable(q, scope)
    ensures Acceptable(MongoQuery(q.collection, Sanitized(q.pipeline)), scope)
    ensures Sanitized(Sanitized(q.pipeline)) == Sanitized(q.pipeline)
  {
    CapIsGood(scope);
    SanitizingTouchesOnlyTheLastLimit(q.pipeline);
    forall i | 0 <= i < |Sanitized(q.pipeline)| ensures GoodStage(Sanitized(q.pipeline)[i], scope) {
      SanitizedStage(q.pipeline, i);
    }
  }

  // ---- What it does to the documents ----

  /** The effect of a stage on the stream of documents; None when the query fails there. */
  type Stages = (Json, seq<Json>) -> Option<seq<Json>>

  function Take(docs: seq<Json>, n: nat): seq<Json> {
    if |docs| <= n then docs else docs[..n]
  }

  /** The limits a query can run with: positive whole numbers. */
  function LimitValue(x: Json): (n: Option<nat>)
    ensures n.Some? ==> x == Num(n.value as real) && n.value > 0
  {
    if x.Num? && x.n >= 1.0 && x.n.Floor as real == x.n then Some(x.n.Floor) else None
  }

  function ApplyLimit(x: Json, docs: seq<Json>): Option<seq<Json>> {
    match LimitValue(x)
    case None => None
    case Some(n) => Some(Take(docs, n))
  }

  /** The two allowed stages that can give more documents than they are given. */
  predicate Grows(stage: Json) {
    StageNamed(stage, "$unwind") || StageNamed(stage, "$unionWith")
  }

  ghost predicate Within(r: Option<seq<Json>>, bound: nat) {
    r.Some? ==> |r.value| <= bound
  }

  /** What is assumed of the stages: a limit keeps its number of documents or fails, and no allowed stage but the
      growing ones adds any, except that `$facet` gives one document even for none. */
  ghost predicate Faithful(apply: Stages) {
    && (forall x, docs :: apply(Obj([Entry("$limit", x)]), docs) == ApplyLimit(x, docs))
    && (forall stage, docs ::
          AllowedStage(stage) && !Grows(stage) ==> Within(apply(stage, docs), if |docs| > 1 then |docs| else 1))
  }

  /** Every stage is one the validator allows, as in each accepted pipeline. */
  ghost predicate AllowedPipeline(pipeline: seq<Json>) {
    forall j :: 0 <= j < |pipeline| ==> AllowedStage(pipeline[j])
  }

  lemma SanitizedIsAllowed(pipeline: seq<Json>)
    requires AllowedPipeline(pipeline)
    ensures AllowedPipeline(Sanitized(pipeline))
  {
    forall i | 0 <= i < |Sanitized(pipeline)| ensures AllowedStage(Sanitized(pipeline)[i]) {
      SanitizedStage(pipeline, i);
    }
  }

  function Then(r: Option<seq<Json>>, stage: Json, apply: Stages): Option<seq<Json>> {
    if r.None? then None else apply(stage, r.value)
  }

  function RunPipeline(pipeline: seq<Json>, docs: seq<Json>, apply: Stages): Option<seq<Json>> {
    if pipeline == [] then Some(docs)
    else Then(RunPipeline(pipeline[..|pipeline| - 1], docs, apply), pipeline[|pipeline| - 1], apply)
  }

  lemma CapTakes(docs: seq<Json>, apply: Stages)
    requires Faithful(apply)
    ensures apply(CAP, docs) == Some(Take(docs, 1000))
  {
    assert 1000.0.Floor == 1000;
    assert CAP == Obj([Entry("$limit", Num(1000.0))]);
  }

  lemma LimitStage(stage: Json, docs: seq<Json>, apply: Stages)
    requires Faithful(apply) && StageNamed(stage, "$limit")
    ensures apply(stage, docs) == ApplyLimit(stage.entries[0].value, docs)
  {
    assert stage == Obj([Entry("$limit", stage.entries[0].value)]);
  }

  function FirstRows(r: Option<seq<Json>>, n: nat): Option<seq<Json>> {
    if r.None? then None else Some(Take(r.value, n))
  }

  /** A pipeline without a limit gives exactly the first 1000 documents it would have given. */
  lemma UnlimitedIsTruncated(pipeline: seq<Json>, docs: seq<Json>, apply: Stages)
    requires Faithful(apply) && LastLimit(pipeline) == -1
    ensures RunPipeline(Sanitized(pipeline), docs, apply) == FirstRows(RunPipeline(pipeline, docs, apply), MAX_ROWS)
  {
    var out := pipeline + [CAP];
    assert out[..|out| - 1] == pipeline;
    if RunPipeline(pipeline, docs, apply).Some? { CapTakes(RunPipeline(pipeline, docs, apply).value, apply); }
  }

  /** A whole-number limit above the cap is cut to it: at that stage the documents are the first 1000 of those the
      original had there. */
  lemma HighLimitIsCut(pipeline: seq<Json>, docs: seq<Json>, apply: Stages, n: nat)
    requires Faithful(apply) && LastLimit(pipeline) >= 0 && n > MAX_ROWS
    requires pipeline[LastLimit(pipeline)] == Obj([Entry("$limit", Num(n as real))])
    ensures var i := LastLimit(pipeline);
            RunPipeline(Sanitized(pipeline)[..i + 1], docs, apply) ==
            FirstRows(RunPipeline(pipeline[..i + 1], docs, apply), MAX_ROWS)
  {
    var i, out := LastLimit(pipeline), Sanitized(pipeline);
    assert !WithinCap(pipeline[i]) && out[i] == CAP && out[..i] == pipeline[..i];
    var before := RunPipeline(pipeline[..i], docs, apply);
    RunStep(pipeline, i, docs, apply);
    RunStep(out, i, docs, apply);
    if before.Some? {
      CapTakes(before.value, apply);
      WholeLimit(n);
      LimitStage(pipeline[i], before.value, apply);
      TakeLess(before.value, n, MAX_ROWS);
    }
  }

  lemma TakeLess(docs: seq<Json>, n: nat, m: nat)
    requires m <= n
    ensures Take(Take(docs, n), m) == Take(docs, m)
  {
    if |docs| > n { assert docs[..n][..m] == docs[..m]; }
  }

  lemma RunStep(pipeline: seq<Json>, i: nat, docs: seq<Json>, apply: Stages)
    requires i < |pipeline|
    ensures RunPipeline(pipeline[..i + 1], docs, apply) ==
            Then(RunPipeline(pipeline[..i], docs, apply), pipeline[i], apply)
  {
    assert pipeline[..i + 1][..i] == pipeline[..i];
  }

  lemma WholeLimit(n: nat)
    requires n > 0
    ensures LimitValue(Num(n as real)) == Some(n)
  {
    assert (n as real).Floor == n;
  }

  // ---- When the row cap holds ----

  /** The number the last limit of the sanitised pipeline stops at, if it is one a query can run with. */
  function StopsAt(pipeline: seq<Json>): (n: Option<nat>)
    ensures n.Some? ==> 1 <= n.value <= MAX_ROWS
  {
    SanitizingTouchesOnlyTheLastLimit(pipeline);
    var out := Sanitized(pipeline);
    LimitValue(out[LastLimit(out)].entries[0].value)
  }

  predicate GrowsAfterTheLimit(pipeline: seq<Json>) {
    exists j :: LastLimit(pipeline) < j < |pipeline| && Grows(pipeline[j])
  }

  predicate LimitsRun(pipeline: seq<Json>) {
    forall j :: 0 <= j < |pipeline| && StageNamed(pipeline[j], "$limit") ==>
      LimitValue(pipeline[j].entries[0].value).Some?
  }

  lemma {:induction false} TailStaysWithin(pipeline: seq<Json>, i: nat, docs: seq<Json>, apply: Stages, bound: nat)
    requires Faithful(apply) && i <= |pipeline| && bound > 0
    requires forall j :: i <= j < |pipeline| ==> AllowedStage(pipeline[j]) && !Grows(pipeline[j])
    requires Within(RunPipeline(pipeline[..i], docs, apply), bound)
    ensures Within(RunPipeline(pipeline, docs, apply), bound)
    decreases |pipeline|
  {
    if i == |pipeline| {
      assert pipeline[..i] == pipeline;
    } else {
      var init := pipeline[..|pipeline| - 1];
      assert init[..i] == pipeline[..i];
      TailStaysWithin(init, i, docs, apply, bound);
    }
  }

  /** For every whole limit, the pipeline's own or the cap: as long as no growing stage follows it, at most that many
      documents come out, and so at most 1000. */
  lemma OutputIsCapped(pipeline: seq<Json>, docs: seq<Json>, apply: Stages)
    requires Faithful(apply) && AllowedPipeline(pipeline)
    requires !GrowsAfterTheLimit(Sanitized(pipeline)) && StopsAt(pipeline).Some?
    ensures Within(RunPipeline(Sanitized(pipeline), docs, apply), StopsAt(pipeline).value)
  {
    SanitizingTouchesOnlyTheLastLimit(pipeline);
    var out := Sanitized(pipeline);
    var i := LastLimit(out);
    RunStep(out, i, docs, apply);
    if RunPipeline(out[..i], docs, apply).Some? {
      LimitStage(out[i], RunPipeline(out[..i], docs, apply).value, apply);
    }
    SanitizedIsAllowed(pipeline);
    TailStaysWithin(out, i + 1, docs, apply, StopsAt(pipeline).value);
  }

  lemma {:induction false} BadLimitNeverRuns(pipeline: seq<Json>, docs: seq<Json>, apply: Stages)
    requires Faithful(apply) && !LimitsRun(pipeline)
    ensures RunPipeline(pipeline, docs, apply).None?
    decreases |pipeline|
  {
    var j :| 0 <= j < |pipeline| && StageNamed(pipeline[j], "$limit")
             && LimitValue(pipeline[j].entries[0].value).None?;
    var init := pipeline[..|pipeline| - 1];
    if j == |pipeline| - 1 {
      if RunPipeline(init, docs, apply).Some? {
        LimitStage(pipeline[j], RunPipeline(init, docs, apply).value, apply);
      }
    } else {
      assert init[j] == pipeline[j];
      BadLimitNeverRuns(init, docs, apply);
    }
  }

  /** Stages that add a thousand and one documents wherever they may add any, and otherwise none. */
  function Swelling(): Stages {
    (stage: Json, docs: seq<Json>) =>
      if StageNamed(stage, "$limit") then ApplyLimit(stage.entries[0].value, docs)
      else if Grows(stage) then Some(docs + seq(1001, _ => Null))
      else Some(docs)
  }

  lemma SwellingIsFaithful()
    ensures Faithful(Swelling())
  {
    forall x, docs ensures Swelling()(Obj([Entry("$limit", x)]), docs) == ApplyLimit(x, docs) {
      assert StageNamed(Obj([Entry("$limit", x)]), "$limit");
    }
    forall stage, docs | AllowedStage(stage) && !Grows(stage)
      ensures Within(Swelling()(stage, docs), if |docs| > 1 then |docs| else 1)
    {
      if StageNamed(stage, "$limit") {
        assert Within(ApplyLimit(stage.entries[0].value, docs), |docs|);
      }
    }
  }

  lemma {:induction false} SwellingRuns(pipeline: seq<Json>, docs: seq<Json>)
    requires LimitsRun(pipeline)
    ensures RunPipeline(pipeline, docs, Swelling()).Some?
    ensures GrowsAfterTheLimit(pipeline) ==> |RunPipeline(pipeline, docs, Swelling()).value| > MAX_ROWS
    decreases |pipeline|
  {
    if pipeline != [] {
      var init, stage := pipeline[..|pipeline| - 1], pipeline[|pipeline| - 1];
      assert forall j :: 0 <= j < |init| ==> init[j] == pipeline[j];
      SwellingRuns(init, docs);
      if GrowsAfterTheLimit(pipeline) && !Grows(stage) {
        var j :| LastLimit(pipeline) < j < |pipeline| && Grows(pipeline[j]);
        assert LastLimit(init) == LastLimit(pipeline);
        assert Grows(init[j]);
      }
    }
  }

  /** No run of the sanitised pipeline, whatever its stages do to the documents, gives more than 1000 documents. */
  ghost predicate AlwaysCapped(pipeline: seq<Json>) {
    forall apply, docs :: Faithful(apply) ==> Within(RunPipeline(Sanitized(pipeline), docs, apply), MAX_ROWS)
  }

  /** For a pipeline of allowed stages the row cap holds exactly when no `$unwind` or `$unionWith` follows the last
      limit, or the pipeline has a limit that lets no run succeed: the limit that is capped or added is the last one,
      not a trailing one. */
  lemma CappedExactlyWithoutGrowth(pipeline: seq<Json>)
    requires AllowedPipeline(pipeline)
    ensures AlwaysCapped(pipeline) <==>
            !GrowsAfterTheLimit(Sanitized(pipeline)) || !LimitsRun(Sanitized(pipeline))
  {
    var out := Sanitized(pipeline);
    SanitizingTouchesOnlyTheLastLimit(pipeline);
    if !LimitsRun(out) {
      forall apply, docs | Faithful(apply) ensures Within(RunPipeline(out, docs, apply), MAX_ROWS) {
        BadLimitNeverRuns(out, docs, apply);
      }
    } else if GrowsAfterTheLimit(out) {
      SwellingIsFaithful();
      SwellingRuns(out, []);
    } else {
      forall apply, docs | Faithful(apply) ensures Within(RunPipeline(out, docs, apply), MAX_ROWS) {
        OutputIsCapped(pipeline, docs, apply);
      }
    }
  }

  /** An accepted pipeline that is not capped: an `$unwind` behind a limit that is within the cap already. */
  lemma UnwindOutgrowsTheCap()
    ensures var pipeline := [CAP, Obj([Entry("$unwind", Str("$items"))])];
            && Acceptable(MongoQuery("orders", pipeline), Scope(None))
            && Sanitized(pipeline) == pipeline && !AlwaysCapped(pipeline)
  {
    var unwind := Obj([Entry("$unwind", Str("$items"))]);
    var pipeline := [CAP, unwind];
    CapIsGood(Scope(None));
    UnwindIsGood();
    assert pipeline[0] == CAP && pipeline[1] == unwind && |pipeline| == 2;
    assert LastLimit(pipeline) == 0 by { LastLimitIs(pipeline, 0); }
    assert WithinCap(CAP);
    assert Grows(pipeline[1]);
    assert LimitsRun(pipeline) by { WholeLimit(1000); }
    CappedExactlyWithoutGrowth(pipeline);
  }

  lemma UnwindIsGood()
    ensures GoodStage(Obj([Entry("$unwind", Str("$items"))]), Scope(None))
  {
    var unwind := Obj([Entry("$unwind", Str("$items"))]);
    ScanIsExact(unwind);
    assert unwind.entries[1..] == [];
  }
}
