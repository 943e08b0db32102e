/** Filter expressions, the flat condition lists they correspond to, and the evaluator that decides which rows pass. */
module FilterExpr {
  import opened Common

  datatype Connective = And | Or | Not

  /** The expression kinds a filter step may hold. `null` literals and missing fields are None. */
  datatype Expr =
    | Field(name: string)
    | Literal(value: Option<Scalar>)
    | Binary(arith: char, x: Expr, y: Expr)
    | Call(fn: string, args: seq<Expr>)
    | Comparison(cmp: Comparator, left: Expr, right: Expr)
    | Logical(connective: Connective, operands: seq<Expr>)
    | Conditional(whens: seq<Expr>, thens: seq<Expr>, otherwise: Expr)

  datatype ConditionOp = Compare(cmp: Comparator) | Contains | IsNull | IsNotNull

  datatype Condition =
    Condition(field: string, operator: ConditionOp, value: Option<Scalar>, caseInsensitive: Option<bool>)

  type Row = map<string, Option<Scalar>>

  /** What the evaluator takes from the runtime: number coercion in orderings and in arithmetic, number-to-text
      conversion, lower-casing, and the library of other call functions. */
  datatype Runtime = Runtime(
    order: (Scalar, Scalar) -> int,
    arithmetic: (char, Option<Scalar>, Option<Scalar>) -> Option<Scalar>,
    numberText: real -> string,
    lower: string -> string,
    call: (string, seq<Option<Scalar>>) -> Option<Scalar>)

  const TRUE: Option<Scalar> := Some(Boolean(true))

  function Truth(b: bool): Option<Scalar> {
    Some(Boolean(b))
  }

  predicate Truthy(v: Scalar) {
    match v
    case Text(s) => s != ""
    case Number(n) => n != 0.0
    case Boolean(b) => b
  }

  function ScalarText(v: Scalar, rt: Runtime): string {
    match v
    case Text(s) => s
    case Number(n) => rt.numberText(n)
    case Boolean(b) => if b then "true" else "false"
  }

  predicate Compares(cmp: Comparator, l: Scalar, r: Scalar, rt: Runtime) {
    match cmp
    case Eq => l == r
    case Neq => l != r
    case Gt => rt.order(l, r) > 0
    case Gte => rt.order(l, r) >= 0
    case Lt => rt.order(l, r) < 0
    case Lte => rt.order(l, r) <= 0
  }

  function EvalComparison(cmp: Comparator, l: Option<Scalar>, r: Option<Scalar>, rt: Runtime): Option<Scalar> {
    if l == None || r == None then None else Truth(Compares(cmp, l.value, r.value, rt))
  }

  function EvalContains(actual: Option<Scalar>, needle: Option<Scalar>, caseInsensitive: bool, rt: Runtime): bool {
    if actual.Some? && actual.value.Text? && needle.Some? && needle.value.Text? then
      if caseInsensitive then Includes(rt.lower(actual.value.text), rt.lower(needle.value.text))
      else Includes(actual.value.text, needle.value.text)
    else false
  }

  /** `null` is unknown; everything else is taken by its truthiness. */
  function TriState(v: Option<Scalar>): Option<bool> {
    if v.None? then None else Some(Truthy(v.value))
  }

  function EvalLogical(connective: Connective, vs: seq<Option<Scalar>>): Option<Scalar> {
    match connective
    case Not =>
      if vs == [] || TriState(vs[0]) == None then None else Truth(!TriState(vs[0]).value)
    case And =>
      if exists i :: 0 <= i < |vs| && TriState(vs[i]) == Some(false) then Truth(false)
      else if exists i :: 0 <= i < |vs| && TriState(vs[i]) == None then None
      else Truth(true)
    case Or =>
      if exists i :: 0 <= i < |vs| && TriState(vs[i]) == Some(true) then Truth(true)
      else if exists i :: 0 <= i < |vs| && TriState(vs[i]) == None then None
      else Truth(false)
  }

  function FieldValue(row: Row, name: string): Option<Scalar> {
    if name in row then row[name] else None
  }

  function Eval(e: Expr, row: Row, rt: Runtime): Option<Scalar>
    decreases e
  {
    match e
    case Field(name) => FieldValue(row, name)
    case Literal(v) => v
    case Binary(op, x, y) => rt.arithmetic(op, Eval(x, row, rt), Eval(y, row, rt))
    case Comparison(cmp, l, r) => EvalComparison(cmp, Eval(l, row, rt), Eval(r, row, rt), rt)
    case Logical(c, operands) =>
      EvalLogical(c, seq(|operands|, i requires 0 <= i < |operands| => Eval(operands[i], row, rt)))
    case Call(fn, args) => EvalCall(fn, seq(|args|, i requires 0 <= i < |args| => Eval(args[i], row, rt)), rt)
    case Conditional(whens, thens, otherwise) =>
      var tests := seq(|whens|, i requires 0 <= i < |whens| => Eval(whens[i], row, rt));
      var results := seq(|thens|, i requires 0 <= i < |thens| => Eval(thens[i], row, rt));
      FirstBranch(tests, results, Eval(otherwise, row, rt))
  }

  function EvalCall(fn: string, vs: seq<Option<Scalar>>, rt: Runtime): Option<Scalar> {
    if fn == "is_null" && |vs| > 0 then Truth(vs[0].None?)
    else if fn == "is_not_null" && |vs| > 0 then Truth(vs[0].Some?)
    else if fn == "contains" && |vs| > 1 then
      Truth(EvalContains(vs[0], vs[1], |vs| > 2 && vs[2] == TRUE, rt))
    else rt.call(fn, vs)
  }

  function FirstBranch(tests: seq<Option<Scalar>>, results: seq<Option<Scalar>>, otherwise: Option<Scalar>)
    : Option<Scalar>
  {
    if tests == [] || results == [] then otherwise
    else if TriState(tests[0]) == Some(true) then results[0]
    else FirstBranch(tests[1..], results[1..], otherwise)
  }

  /** A filter step keeps exactly the rows on which its expression is the boolean `true`. */
  predicate Passes(e: Expr, row: Row, rt: Runtime) {
    Eval(e, row, rt) == TRUE
  }

  // ---- Conditions to expressions ----

  function ToComparison(c: Condition, rt: Runtime): Expr {
    match c.operator
    case IsNull => Call("is_null", [Field(c.field)])
    case IsNotNull => Call("is_not_null", [Field(c.field)])
    case Contains =>
      Call("contains",
           [Field(c.field), Literal(Some(Text(Needle(c, rt))))]
           + if c.caseInsensitive == Some(true) then [Literal(TRUE)] else [])
    case Compare(cmp) =>
      Comparison(cmp, Field(c.field), Literal(if c.value.Some? then c.value else Some(Text(""))))
  }

  function ToComparisons(cs: seq<Condition>, rt: Runtime): (es: seq<Expr>)
    ensures |es| == |cs| && forall i :: 0 <= i < |cs| ==> es[i] == ToComparison(cs[i], rt)
  {
    seq(|cs|, i requires 0 <= i < |cs| => ToComparison(cs[i], rt))
  }

  function ConditionsToExpr(cs: seq<Condition>, rt: Runtime): Expr {
    if |cs| == 0 then Literal(TRUE)
    else if |cs| == 1 then ToComparison(cs[0], rt)
    else Logical(And, ToComparisons(cs, rt))
  }

  /** What a condition asks of a row. A comparison without a value compares with the empty text, and `contains` looks
      for the text form of its value. */
  predicate Holds(c: Condition, row: Row, rt: Runtime) {
    var v := FieldValue(row, c.field);
    match c.operator
    case IsNull => v.None?
    case IsNotNull => v.Some?
    case Compare(cmp) => v.Some? && Compares(cmp, v.value, if c.value.Some? then c.value.value else Text(""), rt)
    case Contains => EvalContains(v, Some(Text(Needle(c, rt))), c.caseInsensitive == Some(true), rt)
  }

  function Needle(c: Condition, rt: Runtime): string {
    if c.value.Some? then ScalarText(c.value.value, rt) else ""
  }

  predicate AllHold(cs: seq<Condition>, row: Row, rt: Runtime) {
    forall i :: 0 <= i < |cs| ==> Holds(cs[i], row, rt)
  }

  // ---- Expressions to conditions ----

  predicate IsLiteral(e: Expr) {
    e.Literal? && e.value.Some?
  }

  function ToCondition(node: Expr): Option<Condition> {
    match node
    case Comparison(cmp, Field(f), Literal(Some(v))) => Some(Condition(f, Compare(cmp), Some(v), None))
    case Call(fn, args) =>
      if (fn == "is_null" || fn == "is_not_null") && |args| > 0 && args[0].Field? then
        Some(Condition(args[0].name, if fn == "is_null" then IsNull else IsNotNull, None, None))
      else if fn == "contains" && |args| > 1 && args[0].Field? && IsLiteral(args[1]) then
        if |args| == 2 then Some(Condition(args[0].name, Contains, args[1].value, None))
        else if |args| == 3 && IsLiteral(args[2]) && args[2].value.value.Boolean? then
          Some(Condition(args[0].name, Contains, args[1].value, Some(args[2].value.value.truth)))
        else None
      else None
    case _ => None
  }

  function Conjuncts(e: Expr): seq<Expr> {
    if e.Logical? && e.connective == And then e.operands else [e]
  }

  function AllConditions(nodes: seq<Expr>): Option<seq<Condition>> {
    if nodes == [] then Some([])
    else
      match (AllConditions(nodes[..|nodes| - 1]), ToCondition(nodes[|nodes| - 1]))
      case (Some(cs), Some(c)) => Some(cs + [c])
      case _ => None
  }

  function Conditions(e: Expr): Option<seq<Condition>> {
    if e == Literal(TRUE) then Some([]) else AllConditions(Conjuncts(e))
  }

  method ExprToConditions(e: Expr) returns (r: Option<seq<Condition>>)
    ensures r == Conditions(e)
  {
    if e == Literal(TRUE) { return Some([]); }
    var flat := if e.Logical? && e.connective == And then e.operands else [e];
    var out := [];
    for i := 0 to |flat|
      invariant AllConditions(flat[..i]) == Some(out)
    {
      assert flat[..i + 1][..i] == flat[..i];
      match ToCondition(flat[i]) {
        case Some(c) => out := out + [c];
        case None =>
          AllConditionsPrefix(flat, i + 1);
          return None;
      }
    }
    assert flat[..|flat|] == flat;
    return Some(out);
  }

  lemma {:induction false} AllConditionsPrefix(nodes: seq<Expr>, k: nat)
    requires k <= |nodes| && AllConditions(nodes[..k]) == None
    ensures AllConditions(nodes) == None
    decreases |nodes|
  {
    if k < |nodes| {
      assert nodes[..|nodes| - 1][..k] == nodes[..k];
      AllConditionsPrefix(nodes[..|nodes| - 1], k);
    } else {
      assert nodes[..k] == nodes;
    }
  }

  lemma {:induction false} AllConditionsPointwise(nodes: seq<Expr>)
    ensures AllConditions(nodes).Some? <==> forall i :: 0 <= i < |nodes| ==> ToCondition(nodes[i]).Some?
    ensures AllConditions(nodes).Some? ==>
              && |AllConditions(nodes).value| == |nodes|
              && forall i :: 0 <= i < |nodes| ==> ToCondition(nodes[i]) == Some(AllConditions(nodes).value[i])
  {
    if nodes != [] {
      AllConditionsPointwise(nodes[..|nodes| - 1]);
    }
  }

  // ---- Meaning ----

  /** The needle of a `contains` call is text, the only needle the evaluator ever finds. */
  predicate TextNeedle(node: Expr) {
    node.Call? && node.fn == "contains" && |node.args| > 1 && IsLiteral(node.args[1]) ==>
      node.args[1].value.value.Text?
  }

  /** The arguments of a call, evaluated. */
  function Values(args: seq<Expr>, row: Row, rt: Runtime): (vs: seq<Option<Scalar>>)
    ensures |vs| == |args| && forall i :: 0 <= i < |args| ==> vs[i] == Eval(args[i], row, rt)
  {
    seq(|args|, i requires 0 <= i < |args| => Eval(args[i], row, rt))
  }

  lemma CallMeaning(fn: string, args: seq<Expr>, row: Row, rt: Runtime)
    ensures Eval(Call(fn, args), row, rt) == EvalCall(fn, Values(args, row, rt), rt)
  {
    assert Values(args, row, rt) == seq(|args|, i requires 0 <= i < |args| => Eval(args[i], row, rt));
  }

  lemma LeavesMean(args: seq<Expr>, row: Row, rt: Runtime)
    ensures forall i :: 0 <= i < |args| && args[i].Literal? ==> Values(args, row, rt)[i] == args[i].value
    ensures forall i :: 0 <= i < |args| && args[i].Field? ==>
              Values(args, row, rt)[i] == FieldValue(row, args[i].name)
  {
  }

  lemma ComparisonOfLeaves(node: Expr, row: Row, rt: Runtime)
    requires node.Comparison? && node.left.Field? && node.right.Literal?
    ensures Eval(node, row, rt) == EvalComparison(node.cmp, FieldValue(row, node.left.name), node.right.value, rt)
  {
    assert Eval(node.left, row, rt) == FieldValue(row, node.left.name) && Eval(node.right, row, rt) == node.right.value;
  }

  /** A flattened node passes exactly the rows its condition holds on, if its needle is text, and no row otherwise. */
  lemma ConditionMeaning(node: Expr, c: Condition, row: Row, rt: Runtime)
    requires ToCondition(node) == Some(c)
    ensures Passes(node, row, rt) <==> TextNeedle(node) && Holds(c, row, rt)
    ensures TriState(Eval(node, row, rt)) == Some(true) <==> Passes(node, row, rt)
  {
    if node.Call? {
      CallMeaning(node.fn, node.args, row, rt);
      LeavesMean(node.args, row, rt);
    } else {
      ComparisonOfLeaves(node, row, rt);
    }
  }

  /** Packed into an expression, a condition passes exactly the rows it holds on. */
  lemma ComparisonMeaning(c: Condition, row: Row, rt: Runtime)
    ensures Passes(ToComparison(c, rt), row, rt) <==> Holds(c, row, rt)
  {
    var node := ToComparison(c, rt);
    if node.Call? {
      CallMeaning(node.fn, node.args, row, rt);
      LeavesMean(node.args, row, rt);
    } else {
      ComparisonOfLeaves(node, row, rt);
    }
  }

  /** Every `contains` needle of the expression is text. */
  predicate FaithfulFilter(e: Expr) {
    forall node :: node in Conjuncts(e) ==> TextNeedle(node)
  }

  /** A row passes an expression that flattens exactly when all its conditions hold and every `contains` needle is
      text: with any other needle it passes no row at all. */
  lemma ConditionsKeepMeaning(e: Expr, cs: seq<Condition>, row: Row, rt: Runtime)
    requires Conditions(e) == Some(cs)
    ensures Passes(e, row, rt) <==> FaithfulFilter(e) && AllHold(cs, row, rt)
  {
    var nodes := Conjuncts(e);
    if e != Literal(TRUE) {
      AllConditionsPointwise(nodes);
      forall i | 0 <= i < |nodes|
        ensures TriState(Eval(nodes[i], row, rt)) == Some(true) <==> TextNeedle(nodes[i]) && Holds(cs[i], row, rt)
      {
        ConditionMeaning(nodes[i], cs[i], row, rt);
      }
      if e.Logical? && e.connective == And {
        OperandsDecide(e, row, rt);
      } else {
        ConditionMeaning(e, cs[0], row, rt);
      }
      assert FaithfulFilter(e) <==> forall i :: 0 <= i < |nodes| ==> TextNeedle(nodes[i]);
    }
  }

  /** A row passes a conjunction exactly when it passes each operand. */
  lemma OperandsDecide(e: Expr, row: Row, rt: Runtime)
    requires e.Logical? && e.connective == And
    ensures Passes(e, row, rt) <==>
            forall i :: 0 <= i < |e.operands| ==> TriState(Eval(e.operands[i], row, rt)) == Some(true)
  {
    var vs := seq(|e.operands|, i requires 0 <= i < |e.operands| => Eval(e.operands[i], row, rt));
    assert Eval(e, row, rt) == EvalLogical(And, vs);
    assert forall i :: 0 <= i < |e.operands| ==> vs[i] == Eval(e.operands[i], row, rt);
  }

  lemma IncludesItself(s: string)
    ensures Includes(s, s)
  {
    assert s[0..] == s;
    assert IsPrefix(s, s[0..]);
  }

  /** A `contains` call and the condition it flattens to agree on every row exactly when the needle is text: any other
      needle never matches in the expression but is matched as text by the condition. */
  lemma ContainsAgreesExactlyOnText(node: Expr, c: Condition, rt: Runtime)
    requires ToCondition(node) == Some(c) && c.operator == Contains
    ensures TextNeedle(node) <==> forall row :: Passes(node, row, rt) <==> Holds(c, row, rt)
  {
    if TextNeedle(node) {
      forall row ensures Passes(node, row, rt) <==> Holds(c, row, rt) {
        ConditionMeaning(node, c, row, rt);
      }
    } else {
      var row: Row := map[c.field := Some(Text(Needle(c, rt)))];
      ConditionMeaning(node, c, row, rt);
      IncludesItself(Needle(c, rt));
      IncludesItself(rt.lower(Needle(c, rt)));
      assert Holds(c, row, rt) && !Passes(node, row, rt);
    }
  }

  /** What flattening gives back for a condition: values it ignores are dropped, values it needs are filled in. */
  function Normalised(c: Condition, rt: Runtime): Condition {
    match c.operator
    case IsNull => Condition(c.field, IsNull, None, None)
    case IsNotNull => Condition(c.field, IsNotNull, None, None)
    case Contains =>
      Condition(c.field, Contains, Some(Text(Needle(c, rt))),
                if c.caseInsensitive == Some(true) then Some(true) else None)
    case Compare(cmp) =>
      Condition(c.field, Compare(cmp), Some(if c.value.Some? then c.value.value else Text("")), None)
  }

  lemma NormalisedIsStable(c: Condition, rt: Runtime)
    ensures ToCondition(ToComparison(c, rt)) == Some(Normalised(c, rt))
    ensures ToComparison(Normalised(c, rt), rt) == ToComparison(c, rt)
    ensures Normalised(Normalised(c, rt), rt) == Normalised(c, rt)
  {
  }

  function AllNormalised(cs: seq<Condition>, rt: Runtime): seq<Condition> {
    seq(|cs|, i requires 0 <= i < |cs| => Normalised(cs[i], rt))
  }

  /** Packing conditions into one expression and flattening it again returns the same conditions, normalised. */
  lemma ConditionsRoundTrip(cs: seq<Condition>, rt: Runtime)
    ensures Conditions(ConditionsToExpr(cs, rt)) == Some(AllNormalised(cs, rt))
  {
    var e := ConditionsToExpr(cs, rt);
    var nodes := Conjuncts(e);
    if |cs| > 0 {
      assert e != Literal(TRUE) && nodes == ToComparisons(cs, rt);
      forall i | 0 <= i < |cs| ensures ToCondition(nodes[i]) == Some(AllNormalised(cs, rt)[i]) {
        NormalisedIsStable(cs[i], rt);
      }
      ConditionsOfEach(nodes, AllNormalised(cs, rt));
    } else {
      assert AllNormalised(cs, rt) == [];
    }
  }

  lemma ConditionsOfEach(nodes: seq<Expr>, cs: seq<Condition>)
    requires |nodes| == |cs| && forall i :: 0 <= i < |cs| ==> ToCondition(nodes[i]) == Some(cs[i])
    ensures AllConditions(nodes) == Some(cs)
  {
    AllConditionsPointwise(nodes);
    assert forall i :: 0 <= i < |nodes| ==> Some(AllConditions(nodes).value[i]) == ToCondition(nodes[i]);
    assert AllConditions(nodes).value == cs;
  }

  /** The packed expression passes exactly the rows on which every condition holds. */
  lemma PackedMeaning(cs: seq<Condition>, row: Row, rt: Runtime)
    ensures Passes(ConditionsToExpr(cs, rt), row, rt) <==> AllHold(cs, row, rt)
  {
    ConditionsRoundTrip(cs, rt);
    PackedNeedles(cs, rt);
    ConditionsKeepMeaning(ConditionsToExpr(cs, rt), AllNormalised(cs, rt), row, rt);
    NormalisingKeepsMeaning(cs, row, rt);
  }

  lemma PackedNeedles(cs: seq<Condition>, rt: Runtime)
    ensures FaithfulFilter(ConditionsToExpr(cs, rt))
  {
  }

  lemma NormalisingKeepsMeaning(cs: seq<Condition>, row: Row, rt: Runtime)
    ensures AllHold(AllNormalised(cs, rt), row, rt) <==> AllHold(cs, row, rt)
  {
    var back := AllNormalised(cs, rt);
    forall i | 0 <= i < |cs| ensures Holds(back[i], row, rt) <==> Holds(cs[i], row, rt) {
      ComparisonMeaning(cs[i], row, rt);
      ComparisonMeaning(back[i], row, rt);
      NormalisedIsStable(cs[i], rt);
    }
    assert AllHold(back, row, rt) <==> forall i :: 0 <= i < |cs| ==> Holds(back[i], row, rt);
  }
}
