/** From the canvas to the agent's query: the published conditions, converted by the agent, compiled to SQL, select
    the rows the filter steps pass. */
module PublishedFilter {
  import opened AgentSetup
  import opened AgentSetupLaws
  import opened CheckDag
  import opened Common
  import opened FilterCompiler
  import opened FilterExpr
  import opened Graphs
  import Layout
  import ParamSink
  import SqlWhere

  datatype Refused = CaseInsensitive(field: string) | NoContains(field: string) | NoValue(field: string)

  /** What the agent makes of one published condition. */
  function ConvertedCondition(c: Condition): Result<FilterCondition, Refused> {
    if c.caseInsensitive == Some(true) then Err(CaseInsensitive(c.field))
    else
      match c.operator
      case IsNull => Ok(NullTest(c.field, true))
      case IsNotNull => Ok(NullTest(c.field, false))
      case Contains => Err(NoContains(c.field))
      case Compare(cmp) =>
        if c.value.None? then Err(NoValue(c.field)) else Ok(FilterCondition.Compare(c.field, cmp, c.value.value))
  }

  /** All of them, or the first refusal. */
  function Converted(cs: seq<Condition>): (r: Result<seq<FilterCondition>, Refused>)
    ensures r.Ok? <==> forall i :: 0 <= i < |cs| ==> ConvertedCondition(cs[i]).Ok?
    ensures r.Ok? ==>
              && |r.value| == |cs|
              && forall i :: 0 <= i < |cs| ==> ConvertedCondition(cs[i]) == Ok(r.value[i])
  {
    if cs == [] then Ok([])
    else
      match Converted(cs[..|cs| - 1])
      case Err(e) => Err(e)
      case Ok(fs) =>
        match ConvertedCondition(cs[|cs| - 1])
        case Err(e) => Err(e)
        case Ok(f) => Ok(fs + [f])
  }

  method ConvertSetupFilter(cs: seq<Condition>) returns (r: Result<seq<FilterCondition>, Refused>)
    ensures r == Converted(cs)
  {
    var out := [];
    for i := 0 to |cs|
      invariant Converted(cs[..i]) == Ok(out)
    {
      var c := cs[i];
      assert cs[..i + 1][..i] == cs[..i];
      if c.caseInsensitive == Some(true) {
        FirstRefusal(cs, i + 1);
        return Err(CaseInsensitive(c.field));
      }
      match c.operator {
        case IsNull => out := out + [NullTest(c.field, true)];
        case IsNotNull => out := out + [NullTest(c.field, false)];
        case Contains =>
          FirstRefusal(cs, i + 1);
          return Err(NoContains(c.field));
        case Compare(cmp) =>
          if c.value.None? {
            FirstRefusal(cs, i + 1);
            return Err(NoValue(c.field));
          }
          out := out + [FilterCondition.Compare(c.field, cmp, c.value.value)];
      }
    }
    assert cs[..|cs|] == cs;
    return Ok(out);
  }

  lemma {:induction false} FirstRefusal(cs: seq<Condition>, k: nat)
    requires k <= |cs| && Converted(cs[..k]).Err?
    ensures Converted(cs) == Converted(cs[..k])
    decreases |cs|
  {
    if k < |cs| {
      assert cs[..|cs| - 1][..k] == cs[..k];
      FirstRefusal(cs[..|cs| - 1], k);
    } else {
      assert cs[..k] == cs;
    }
  }

  // ---- The same rows ----

  /** The row as the database sees it. */
  function Columns(row: FilterExpr.Row): SqlWhere.Row {
    (name: string) => FieldValue(row, name)
  }

  /** The database compares values as the expression evaluator does. */
  ghost predicate Agrees(rt: Runtime, db: SqlWhere.Database) {
    forall cmp, l, r :: db.compare(cmp, l, r) <==> Compares(cmp, l, r, rt)
  }

  lemma ConversionKeepsMeaning(c: Condition, f: FilterCondition, row: FilterExpr.Row, rt: Runtime,
                               db: SqlWhere.Database)
    requires ConvertedCondition(c) == Ok(f) && Agrees(rt, db)
    ensures SqlWhere.Satisfies(f, Columns(row), db) <==> Holds(c, row, rt)
    ensures !SqlWhere.EmptyIn(f)
  {
  }

  lemma ConvertedKeepsMeaning(cs: seq<Condition>, row: FilterExpr.Row, rt: Runtime, db: SqlWhere.Database)
    requires Converted(cs).Ok? && Agrees(rt, db)
    ensures (forall f :: f in Converted(cs).value ==> SqlWhere.Satisfies(f, Columns(row), db)) <==> AllHold(cs, row, rt)
    ensures SqlWhere.NoEmptyIn(Converted(cs).value)
  {
    var fs := Converted(cs).value;
    forall i | 0 <= i < |cs|
      ensures (SqlWhere.Satisfies(fs[i], Columns(row), db) <==> Holds(cs[i], row, rt)) && !SqlWhere.EmptyIn(fs[i])
    {
      ConversionKeepsMeaning(cs[i], fs[i], row, rt, db);
    }
  }

  /** Conditions the agent takes come from expressions without a `contains`, so every needle there is text. */
  lemma TakenFiltersAreFaithful(e: Expr, cs: seq<Condition>)
    requires Conditions(e) == Some(cs) && Converted(cs).Ok?
    ensures FaithfulFilter(e)
  {
    var nodes := Conjuncts(e);
    if e != Literal(TRUE) {
      AllConditionsPointwise(nodes);
      forall i | 0 <= i < |nodes| ensures TextNeedle(nodes[i]) {
        assert ConvertedCondition(cs[i]).Ok?;
      }
    }
  }

  lemma {:induction false} TakenStepsAreFaithful(steps: seq<TransformStep>)
    requires forall s :: s in steps ==> s.FilterStep? && Conditions(s.expr).Some?
    requires Converted(StepsConditions(steps)).Ok?
    ensures forall s :: s in steps ==> FaithfulFilter(s.expr)
  {
    if steps != [] {
      var first, rest := steps[0], steps[1..];
      var cs, others := StepConditions(first), StepsConditions(rest);
      assert steps == [first] + rest && StepsConditions(steps) == cs + others;
      forall i | 0 <= i < |cs| ensures ConvertedCondition(cs[i]).Ok? { assert (cs + others)[i] == cs[i]; }
      forall i | 0 <= i < |others| ensures ConvertedCondition(others[i]).Ok? {
        assert (cs + others)[|cs| + i] == others[i];
      }
      TakenFiltersAreFaithful(first.expr, cs);
      TakenStepsAreFaithful(rest);
    }
  }

  /** The WHERE text and parameters of a converted filter. */
  function WhereText(fs: seq<FilterCondition>): string {
    Layout.Fill(WhereChunks(fs, SqlWhere.SQL_SERVER), 1, SqlWhere.Placeholder)
  }

  /** A filter the agent takes holds of exactly the rows that pass the steps it came from. */
  lemma TakenFilterMeaning(
      nodes: seq<Node>, src: Node, dst: Node, path: seq<Id>, setup: JobSetup, row: FilterExpr.Row, rt: Runtime)
    requires Derived(nodes, src, dst, path) == Ok(setup) && Converted(setup.filter).Ok?
    ensures AllHold(setup.filter, row, rt) <==> StepsPass(nodes, path, row, rt)
  {
    PathFaults(TransformsOf(nodes, Inner(path)));
    StepsOnPath(nodes, path);
    PublishedFilterMeaning(nodes, src, dst, path, row, rt);
    TakenStepsAreFaithful(PathSteps(TransformsOf(nodes, Inner(path))));
  }

  /** From end to end: when a graph derives a setup and the agent takes its filter, the compiled query selects exactly
      the rows that pass every filter step of every transform node on the path. */
  lemma QuerySelectsWhatTheStepsPass(
      nodes: seq<Node>, src: Node, dst: Node, path: seq<Id>, setup: JobSetup, fs: seq<FilterCondition>,
      row: FilterExpr.Row, rt: Runtime, db: SqlWhere.Database)
    requires Derived(nodes, src, dst, path) == Ok(setup) && Converted(setup.filter) == Ok(fs)
    requires FirstError(fs) == None && Agrees(rt, db)
    ensures SqlWhere.Selects(WhereText(fs), AllBindings(fs, SqlWhere.SQL_SERVER), Columns(row), db) <==>
            StepsPass(nodes, path, row, rt)
  {
    TakenFilterMeaning(nodes, src, dst, path, setup, row, rt);
    ConvertedKeepsMeaning(setup.filter, row, rt, db);
    SqlWhere.CompiledWhereMeansTheFilter(fs, '\\', Columns(row), db);
  }

  lemma ConversionKeepsColumn(c: Condition, f: FilterCondition)
    requires ConvertedCondition(c) == Ok(f)
    ensures ConditionError(f) == None <==> ParamSink.TOKEN_CHAR !in c.field
  {
  }

  /** A converted filter compiles exactly when no field name holds the token delimiter. */
  lemma ConvertedCompiles(cs: seq<Condition>, fs: seq<FilterCondition>)
    requires Converted(cs) == Ok(fs)
    ensures FirstError(fs) == None <==> forall i :: 0 <= i < |cs| ==> ParamSink.TOKEN_CHAR !in cs[i].field
  {
    NoErrorMeansNone(fs);
    forall i | 0 <= i < |cs| ensures ConditionError(fs[i]) == None <==> ParamSink.TOKEN_CHAR !in cs[i].field {
      ConversionKeepsColumn(cs[i], fs[i]);
    }
  }
}
