/** What the expression evaluator computes, stated without it: comparisons of numbers, containment of text, three-valued
    logic, branches; and which expressions flatten at all. */
module ExprLaws {
  import opened Common
  import opened FilterExpr

  // ---- Comparisons ----

  /** The runtime's ordering of two numbers is that of their values. */
  ghost predicate OrdersNumbers(rt: Runtime) {
    forall x, y :: (rt.order(Number(x), Number(y)) > 0 <==> x > y) && (rt.order(Number(x), Number(y)) < 0 <==> x < y)
  }

  /** Two numbers compare as numbers do; with a null on either side nothing passes. */
  lemma ComparisonsOfNumbers(cmp: Comparator, x: real, y: real, row: Row, rt: Runtime)
    requires OrdersNumbers(rt)
    ensures Passes(Comparison(cmp, Literal(Some(Number(x))), Literal(Some(Number(y)))), row, rt) <==>
            match cmp
            case Eq => x == y
            case Neq => x != y
            case Gt => x > y
            case Gte => x >= y
            case Lt => x < y
            case Lte => x <= y
    ensures !Passes(Comparison(cmp, Literal(None), Literal(Some(Number(y)))), row, rt)
    ensures !Passes(Comparison(cmp, Literal(Some(Number(x))), Literal(None)), row, rt)
  {
    assert Eval(Literal(Some(Number(x))), row, rt) == Some(Number(x));
    assert Eval(Literal(Some(Number(y))), row, rt) == Some(Number(y));
    assert Eval(Literal(None), row, rt) == None;
  }

  // ---- Containment ----

  /** The needle with something before it and something behind it. */
  ghost predicate Surrounded(s: string, needle: string) {
    exists before, behind :: s == before + needle + behind
  }

  lemma IncludesIsSurrounded(s: string, needle: string)
    ensures Includes(s, needle) <==> Surrounded(s, needle)
  {
    if Includes(s, needle) {
      var i :| 0 <= i <= |s| && IsPrefix(needle, s[i..]);
      assert s == s[..i] + needle + s[i..][|needle|..];
    }
    if Surrounded(s, needle) {
      var before, behind :| s == before + needle + behind;
      assert s[|before|..] == needle + behind;
      assert IsPrefix(needle, s[|before|..]);
    }
  }

  /** `contains` finds its needle anywhere in the text; with a third argument `true`, in the lower-cased texts. */
  lemma ContainsFindsTheNeedle(s: string, needle: string, third: Option<Scalar>, row: Row, rt: Runtime)
    ensures var args := [Literal(Some(Text(s))), Literal(Some(Text(needle)))];
            && (Passes(Call("contains", args), row, rt) <==> Surrounded(s, needle))
            && (Passes(Call("contains", args + [Literal(third)]), row, rt) <==>
                if third == Some(Boolean(true)) then Surrounded(rt.lower(s), rt.lower(needle))
                else Surrounded(s, needle))
  {
    var two := [Literal(Some(Text(s))), Literal(Some(Text(needle)))];
    var three := two + [Literal(third)];
    CallMeaning("contains", two, row, rt);
    CallMeaning("contains", three, row, rt);
    LeavesMean(two, row, rt);
    LeavesMean(three, row, rt);
    IncludesIsSurrounded(s, needle);
    IncludesIsSurrounded(rt.lower(s), rt.lower(needle));
  }

  // ---- Three-valued logic ----

  /** False, unknown and true as 0, 1 and 2. */
  ghost function Rank(v: Option<Scalar>): int {
    if v == None then 1
    else if v.value in {Text(""), Number(0.0), Boolean(false)} then 0
    else 2
  }

  ghost predicate IsLeast(n: int, vs: seq<Option<Scalar>>) {
    (forall i :: 0 <= i < |vs| ==> n <= Rank(vs[i])) && (n == 2 || exists i :: 0 <= i < |vs| && n == Rank(vs[i]))
  }

  ghost predicate IsGreatest(n: int, vs: seq<Option<Scalar>>) {
    (forall i :: 0 <= i < |vs| ==> Rank(vs[i]) <= n) && (n == 0 || exists i :: 0 <= i < |vs| && n == Rank(vs[i]))
  }

  ghost predicate Ranked(v: Option<Scalar>) {
    Rank(v) == match TriState(v) case None => 1 case Some(b) => if b then 2 else 0
  }

  lemma TriStateIsRank(v: Option<Scalar>)
    ensures Ranked(v)
  {
  }

  /** Kleene's logic: AND is the least of its operands, OR the greatest, NOT the mirror image of its own. */
  lemma LogicIsKleene(vs: seq<Option<Scalar>>)
    ensures IsLeast(Rank(EvalLogical(And, vs)), vs) && IsGreatest(Rank(EvalLogical(Or, vs)), vs)
    ensures |vs| == 1 ==> Rank(EvalLogical(Not, vs)) == 2 - Rank(vs[0])
  {
    forall i | 0 <= i < |vs| ensures Ranked(vs[i]) {
      TriStateIsRank(vs[i]);
    }
  }

  // ---- Branches ----

  /** A conditional gives the result of its first branch whose test is truthy, or else what stands behind them. */
  lemma {:induction false} FirstTruthyBranch(
      tests: seq<Option<Scalar>>, results: seq<Option<Scalar>>, otherwise: Option<Scalar>, k: nat)
    requires |tests| == |results| && k <= |tests|
    requires forall i :: 0 <= i < k ==> Rank(tests[i]) < 2
    requires k < |tests| ==> Rank(tests[k]) == 2
    ensures FirstBranch(tests, results, otherwise) == if k < |tests| then results[k] else otherwise
  {
    if tests != [] {
      TriStateIsRank(tests[0]);
      if k > 0 { FirstTruthyBranch(tests[1..], results[1..], otherwise, k - 1); }
    }
  }

  // ---- What flattens ----

  /** The shapes a condition can be written in: a field against a value, a null test of a field, and a search in a field
      for a value, with or without the case flag. */
  ghost predicate Flat(node: Expr) {
    match node
    case Comparison(_, left, right) => left.Field? && right.Literal? && right.value.Some?
    case Call(fn, args) =>
      || (fn in {"is_null", "is_not_null"} && |args| >= 1 && args[0].Field?)
      || (fn == "contains" && 2 <= |args| <= 3 && args[0].Field? && args[1].Literal? && args[1].value.Some?
          && (|args| == 3 ==> args[2] in {Literal(Some(Boolean(true))), Literal(Some(Boolean(false)))}))
    case _ => false
  }

  /** An expression flattens exactly when it is `true`, one such node, or a conjunction of them. */
  lemma FlattensExactly(e: Expr)
    ensures Conditions(e).Some? <==>
            || e == Literal(Some(Boolean(true)))
            || Flat(e)
            || (e.Logical? && e.connective == And && forall i :: 0 <= i < |e.operands| ==> Flat(e.operands[i]))
  {
    AllConditionsPointwise(Conjuncts(e));
    forall node ensures ToCondition(node).Some? <==> Flat(node) {
    }
  }

  /** What a `contains` condition looks for: its value as text. */
  lemma NeedlesAsText(c: Condition, rt: Runtime)
    ensures Needle(c, rt) == match c.value
                             case None => ""
                             case Some(Text(s)) => s
                             case Some(Number(n)) => rt.numberText(n)
                             case Some(Boolean(b)) => if !b then "false" else "true"
  {
  }
}
