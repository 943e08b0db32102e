/** The WHERE-clause compiler: AND-joined filter conditions to parameterised SQL text, through a parameter sink. */
module FilterCompiler {
  import opened Common
  import opened ParamSink
  import opened Layout
  import Like

  datatype FilterCondition =
    | Compare(column: string, cmp: Comparator, value: Scalar)
    | StartsWith(column: string, value: Scalar)
    | InList(column: string, values: seq<Scalar>)
    | Between(column: string, low: Scalar, high: Scalar)
    | NullTest(column: string, isNull: bool)
    | UnknownOp(column: string, operator: string)

  datatype CompileError =
    | UnsafeIdentifier(column: string)
    | InvalidFilter(column: string)
    | UnknownOperator(operator: string)

  datatype Adapter = Adapter(quoteIdent: string -> string, likeEscapeChar: char)

  /** What the compiler throws on a condition: a column holding the token delimiter, then a non-text prefix or an
      operator outside the list. */
  function ConditionError(c: FilterCondition): Option<CompileError> {
    if TOKEN_CHAR in c.column then Some(UnsafeIdentifier(c.column))
    else
      match c
      case StartsWith(column, v) => if v.Text? then None else Some(InvalidFilter(column))
      case UnknownOp(_, op) => Some(UnknownOperator(op))
      case _ => None
  }

  function FirstError(filter: seq<FilterCondition>): Option<CompileError> {
    if filter == [] then None
    else if ConditionError(filter[0]).Some? then ConditionError(filter[0])
    else FirstError(filter[1..])
  }

  lemma {:induction false} NoErrorMeansNone(filter: seq<FilterCondition>)
    ensures FirstError(filter) == None <==> forall c :: c in filter ==> ConditionError(c) == None
  {
    if filter != [] {
      NoErrorMeansNone(filter[1..]);
      assert filter == [filter[0]] + filter[1..];
    }
  }

  // ---- What a condition compiles to ----

  /** The values a condition binds, in text order. */
  function Bindings(c: FilterCondition, a: Adapter): seq<Scalar> {
    match c
    case Compare(_, _, v) => [v]
    case StartsWith(_, Text(v)) => [Text(Like.PrefixPattern(v, a.likeEscapeChar))]
    case InList(_, vs) => vs
    case Between(_, low, high) => [low, high]
    case _ => []
  }

  function BindingsBy(a: Adapter): FilterCondition -> seq<Scalar> {
    c => Bindings(c, a)
  }

  function AllBindings(filter: seq<FilterCondition>, a: Adapter): seq<Scalar> {
    FlatMap(filter, BindingsBy(a))
  }

  function Operator(cmp: Comparator): string {
    match cmp
    case Eq => " = "
    case Neq => " <> "
    case Gt => " > "
    case Gte => " >= "
    case Lt => " < "
    case Lte => " <= "
  }

  function HoleList(count: nat): seq<Chunk> {
    if count == 0 then [] else if count == 1 then [Slot] else [Slot, Lit(", ")] + HoleList(count - 1)
  }

  /** What stands between the column and the first value. */
  function Keyword(c: FilterCondition): string {
    match c
    case NullTest(_, isNull) => if isNull then " IS NULL" else " IS NOT NULL"
    case Compare(_, cmp, _) => Operator(cmp)
    case Between(_, _, _) => " BETWEEN "
    case InList(_, _) => " IN ("
    case StartsWith(_, _) => " LIKE "
    case UnknownOp(_, _) => ""
  }

  /** The rest of a compiled condition: a slot for each bound value, and the text around them. */
  function Operands(c: FilterCondition, esc: char): seq<Chunk> {
    match c
    case Compare(_, _, _) => [Slot]
    case Between(_, _, _) => [Slot, Lit(" AND "), Slot]
    case InList(_, vs) => HoleList(|vs|) + [Lit(")")]
    case StartsWith(_, _) => [Slot, Lit(EscapeClause(esc))]
    case _ => []
  }

  function EscapeClause(esc: char): string {
    " ESCAPE '" + [esc, '\'']
  }

  function Fragment(c: FilterCondition, a: Adapter): seq<Chunk> {
    [Lit(a.quoteIdent(c.column) + Keyword(c))] + Operands(c, a.likeEscapeChar)
  }

  function TextBy(a: Adapter): (FilterCondition, nat) -> string {
    (c: FilterCondition, n: nat) => Fill(Fragment(c, a), n, NthToken)
  }

  /** The raw fragments, each with its own run of tokens, the runs following one another. */
  function Fragments(filter: seq<FilterCondition>, a: Adapter, n: nat): seq<string> {
    Numbered(filter, n, TextBy(a), BindingsBy(a))
  }

  function Numbered<C, V>(xs: seq<C>, n: nat, text: (C, nat) -> string, values: C -> seq<V>): (r: seq<string>)
    ensures |r| == |xs|
  {
    if xs == [] then [] else [text(xs[0], n)] + Numbered(xs[1..], n + |values(xs[0])|, text, values)
  }

  /** The texts of the first items, each at the number its predecessors' values leave. */
  ghost predicate NumberedSoFar<C, V>(
      r: seq<string>, xs: seq<C>, n: nat, text: (C, nat) -> string, values: C -> seq<V>) {
    |r| <= |xs| && forall j :: 0 <= j < |r| ==> r[j] == text(xs[j], n + |FlatMap(xs[..j], values)|)
  }

  lemma NumberedOneMore<C, V>(
      r: seq<string>, xs: seq<C>, n: nat, next: string, text: (C, nat) -> string, values: C -> seq<V>)
    requires NumberedSoFar(r, xs, n, text, values) && |r| < |xs|
    requires next == text(xs[|r|], n + |FlatMap(xs[..|r|], values)|)
    ensures NumberedSoFar(r + [next], xs, n, text, values)
  {
  }

  lemma {:induction false} NumberedThroughout<C, V>(
      r: seq<string>, xs: seq<C>, n: nat, text: (C, nat) -> string, values: C -> seq<V>)
    requires |r| == |xs| && NumberedSoFar(r, xs, n, text, values)
    ensures r == Numbered(xs, n, text, values)
  {
    if xs != [] {
      var rest, next := xs[1..], n + |values(xs[0])|;
      forall j | 0 <= j < |r| - 1 ensures r[1..][j] == text(rest[j], next + |FlatMap(rest[..j], values)|) {
        assert xs[..j + 1] == [xs[0]] + rest[..j];
        assert xs[..j + 1][1..] == rest[..j];
        assert r[j + 1] == text(xs[j + 1], n + |FlatMap(xs[..j + 1], values)|);
      }
      NumberedThroughout(r[1..], rest, next, text, values);
    }
  }

  function FragmentBy(a: Adapter): FilterCondition -> seq<Chunk> {
    c => Fragment(c, a)
  }

  function Conjunction(filter: seq<FilterCondition>, a: Adapter): seq<Chunk> {
    Chained(filter, FragmentBy(a), " AND ")
  }

  /** What `show` makes of each item, with a separator between. */
  function Chained<C>(xs: seq<C>, show: C -> seq<Chunk>, sep: string): seq<Chunk> {
    if xs == [] then []
    else if |xs| == 1 then show(xs[0])
    else show(xs[0]) + ([Lit(sep)] + Chained(xs[1..], show, sep))
  }

  /** The WHERE part of a query: nothing at all when there is no condition. */
  function WhereChunks(filter: seq<FilterCondition>, a: Adapter): seq<Chunk> {
    if filter == [] then [] else [Lit(" WHERE ")] + Conjunction(filter, a)
  }

  // ---- Slots, values and text ----

  lemma {:induction false} FillHoleList(count: nat, n: nat)
    ensures Fill(HoleList(count), n, NthToken) == Join(TokenRun(n, count), ", ")
    ensures Slots(HoleList(count)) == count
    decreases count
  {
    if count == 1 {
      FillOne(Slot, n, NthToken);
    } else if count > 1 {
      FillTwo(Slot, Lit(", "), n, NthToken);
      FillOne(Slot, n, NthToken);
      FillOne(Lit(", "), n, NthToken);
      FillHoleList(count - 1, n + 1);
      FillConcat([Slot, Lit(", ")], HoleList(count - 1), n, NthToken);
      assert TokenRun(n, count)[1..] == TokenRun(n + 1, count - 1);
    }
  }

  /** There is a slot for every bound value. */
  lemma OperandSlots(c: FilterCondition, a: Adapter)
    requires ConditionError(c) == None
    ensures Slots(Operands(c, a.likeEscapeChar)) == |Bindings(c, a)|
  {
    match c {
      case Compare(_, _, _) => FillOne(Slot, 0, NthToken);
      case Between(_, _, _) => BetweenText(0, NthToken);
      case InList(_, vs) => ListText(|vs|, 0, NthToken);
      case StartsWith(_, _) => EscapeText(a.likeEscapeChar, 0, NthToken);
      case NullTest(_, _) =>
    }
  }

  lemma BetweenText(n: nat, fill: nat -> string)
    ensures Fill([Slot, Lit(" AND "), Slot], n, fill) == fill(n) + (" AND " + fill(n + 1))
    ensures Slots([Slot, Lit(" AND "), Slot]) == 2
  {
    FillOne(Slot, n, fill);
    FillTwo(Lit(" AND "), Slot, n + 1, fill);
    FillOne(Lit(" AND "), n + 1, fill);
    FillConcat([Slot], [Lit(" AND "), Slot], n, fill);
    assert [Slot] + [Lit(" AND "), Slot] == [Slot, Lit(" AND "), Slot];
  }

  lemma EscapeText(esc: char, n: nat, fill: nat -> string)
    ensures Fill([Slot, Lit(EscapeClause(esc))], n, fill) == fill(n) + EscapeClause(esc)
    ensures Slots([Slot, Lit(EscapeClause(esc))]) == 1
  {
    FillTwo(Slot, Lit(EscapeClause(esc)), n, fill);
    FillOne(Slot, n, fill);
    FillOne(Lit(EscapeClause(esc)), n + 1, fill);
  }

  lemma ListText(count: nat, n: nat, fill: nat -> string)
    ensures Fill(HoleList(count) + [Lit(")")], n, fill) == Fill(HoleList(count), n, fill) + ")"
    ensures Slots(HoleList(count) + [Lit(")")]) == count
  {
    FillHoleList(count, n);
    FillOne(Lit(")"), n + count, fill);
    FillConcat(HoleList(count), [Lit(")")], n, fill);
  }

  lemma FragmentText(c: FilterCondition, a: Adapter, n: nat, fill: nat -> string)
    requires ConditionError(c) == None
    ensures Slots(Fragment(c, a)) == |Bindings(c, a)|
    ensures Fill(Fragment(c, a), n, fill) ==
            a.quoteIdent(c.column) + Keyword(c) + Fill(Operands(c, a.likeEscapeChar), n, fill)
  {
    var head := Lit(a.quoteIdent(c.column) + Keyword(c));
    OperandSlots(c, a);
    FillOne(head, n, fill);
    FillConcat([head], Operands(c, a.likeEscapeChar), n, fill);
  }

  lemma ChainedText<C>(xs: seq<C>, show: C -> seq<Chunk>, sep: string, n: nat, fill: nat -> string)
    requires |xs| > 1
    ensures Fill(Chained(xs, show, sep), n, fill) ==
            Fill(show(xs[0]), n, fill) + (sep + Fill(Chained(xs[1..], show, sep), n + Slots(show(xs[0])), fill))
    ensures Slots(Chained(xs, show, sep)) == Slots(show(xs[0])) + Slots(Chained(xs[1..], show, sep))
  {
    var first, rest := show(xs[0]), Chained(xs[1..], show, sep);
    FillOne(Lit(sep), n + Slots(first), fill);
    FillConcat([Lit(sep)], rest, n + Slots(first), fill);
    FillConcat(first, [Lit(sep)] + rest, n, fill);
  }

  /** The item's raw text and values fit the chunks that show it. */
  ghost predicate Fits<C, V>(x: C, show: C -> seq<Chunk>, text: (C, nat) -> string, values: C -> seq<V>) {
    Slots(show(x)) == |values(x)| && forall m: nat :: text(x, m) == Fill(show(x), m, NthToken)
  }

  lemma {:induction false} ChainedIsJoined<C, V>(
      xs: seq<C>, sep: string, n: nat, show: C -> seq<Chunk>, text: (C, nat) -> string, values: C -> seq<V>)
    requires forall i :: 0 <= i < |xs| ==> Fits(xs[i], show, text, values)
    ensures Fill(Chained(xs, show, sep), n, NthToken) == Join(Numbered(xs, n, text, values), sep)
    ensures Slots(Chained(xs, show, sep)) == |FlatMap(xs, values)|
  {
    ChainedSlots(xs, sep, show, text, values);
    if xs != [] {
      var first, rest, next := text(xs[0], n), xs[1..], n + |values(xs[0])|;
      assert Fits(xs[0], show, text, values);
      ChainedIsJoined(rest, sep, next, show, text, values);
      JoinStep(first, Numbered(rest, next, text, values), sep);
      if rest != [] { ChainedText(xs, show, sep, n, NthToken); }
    }
  }

  lemma {:induction false} ChainedSlots<C, V>(
      xs: seq<C>, sep: string, show: C -> seq<Chunk>, text: (C, nat) -> string, values: C -> seq<V>)
    requires forall i :: 0 <= i < |xs| ==> Fits(xs[i], show, text, values)
    ensures Slots(Chained(xs, show, sep)) == |FlatMap(xs, values)|
  {
    if xs != [] {
      assert Fits(xs[0], show, text, values);
      ChainedSlots(xs[1..], sep, show, text, values);
      if |xs| > 1 { ChainedText(xs, show, sep, 0, NthToken); }
    }
  }

  lemma ConjunctionText(filter: seq<FilterCondition>, a: Adapter, n: nat)
    requires FirstError(filter) == None
    ensures Fill(Conjunction(filter, a), n, NthToken) == Join(Fragments(filter, a, n), " AND ")
    ensures Slots(Conjunction(filter, a)) == |AllBindings(filter, a)|
  {
    NoErrorMeansNone(filter);
    forall i | 0 <= i < |filter| ensures Fits(filter[i], FragmentBy(a), TextBy(a), BindingsBy(a)) {
      FragmentText(filter[i], a, 0, NthToken);
    }
    ChainedIsJoined(filter, " AND ", n, FragmentBy(a), TextBy(a), BindingsBy(a));
  }

  // ---- The compiler ----

  method CompileCondition(c: FilterCondition, a: Adapter, sink: Sink<Scalar>) returns (r: Result<string, CompileError>)
    requires sink.Valid()
    modifies sink
    ensures sink.Valid()
    ensures r.Err? ==> Some(r.error) == ConditionError(c)
    ensures r.Ok? ==>
              && ConditionError(c) == None
              && r.value == Fill(Fragment(c, a), |old(sink.pushed)|, NthToken)
              && sink.pushed == old(sink.pushed) + Bindings(c, a)
  {
    if TOKEN_CHAR in c.column { return Err(UnsafeIdentifier(c.column)); }
    var target := a.quoteIdent(c.column);
    ghost var n := |sink.pushed|;
    var operands := "";
    match c {
      case NullTest(_, _) =>
      case Compare(_, _, v) =>
        operands := sink.Push(v);
        FillOne(Slot, n, NthToken);
      case Between(_, low, high) =>
        var lowToken := sink.Push(low);
        var highToken := sink.Push(high);
        operands := lowToken + (" AND " + highToken);
        BetweenText(n, NthToken);
      case InList(_, vs) =>
        var tokens := PushAll(vs, sink);
        operands := Join(tokens, ", ") + ")";
        FillHoleList(|vs|, n);
        ListText(|vs|, n, NthToken);
      case StartsWith(column, v) =>
        if !v.Text? { return Err(InvalidFilter(column)); }
        var token := sink.Push(Text(Like.PrefixPattern(v.text, a.likeEscapeChar)));
        operands := token + EscapeClause(a.likeEscapeChar);
        EscapeText(a.likeEscapeChar, n, NthToken);
      case UnknownOp(_, op) =>
        return Err(UnknownOperator(op));
    }
    FragmentText(c, a, n, NthToken);
    return Ok(target + Keyword(c) + operands);
  }

  method PushAll(vs: seq<Scalar>, sink: Sink<Scalar>) returns (tokens: seq<string>)
    requires sink.Valid()
    modifies sink
    ensures sink.Valid() && sink.pushed == old(sink.pushed) + vs
    ensures tokens == TokenRun(|old(sink.pushed)|, |vs|)
  {
    tokens := [];
    for i := 0 to |vs|
      invariant sink.Valid() && sink.pushed == old(sink.pushed) + vs[..i]
      invariant tokens == TokenRun(|old(sink.pushed)|, i)
    {
      var token := sink.Push(vs[i]);
      tokens := tokens + [token];
    }
  }

  method CompileWhereClause(filter: seq<FilterCondition>, a: Adapter, sink: Sink<Scalar>)
    returns (r: Result<seq<string>, CompileError>)
    requires sink.Valid()
    modifies sink
    ensures sink.Valid()
    ensures r.Err? ==> Some(r.error) == FirstError(filter)
    ensures r.Ok? ==>
              && FirstError(filter) == None
              && r.value == Fragments(filter, a, |old(sink.pushed)|)
              && sink.pushed == old(sink.pushed) + AllBindings(filter, a)
  {
    var fragments := [];
    ghost var start := sink.pushed;
    for i := 0 to |filter|
      invariant sink.Valid()
      invariant FirstError(filter[..i]) == None
      invariant |fragments| == i && FragmentsSoFar(fragments, filter, |start|, a)
      invariant sink.pushed == start + AllBindings(filter[..i], a)
    {
      FirstErrorStep(filter, i);
      ghost var before := sink.pushed;
      var fragment := CompileCondition(filter[i], a, sink);
      if fragment.Err? { return Err(fragment.error); }
      BindingsStep(filter, i, start, a);
      FragmentsStep(fragments, filter, |start|, |before|, fragment.value, a);
      fragments := fragments + [fragment.value];
    }
    assert filter[..|filter|] == filter;
    FragmentsThroughout(fragments, filter, |start|, a);
    return Ok(fragments);
  }

  lemma {:induction false} FirstErrorStep(filter: seq<FilterCondition>, i: nat)
    requires i < |filter| && FirstError(filter[..i]) == None
    ensures FirstError(filter[..i + 1]) == ConditionError(filter[i])
    ensures ConditionError(filter[i]).Some? ==> FirstError(filter) == ConditionError(filter[i])
  {
    if i > 0 {
      assert filter[..i][1..] == filter[1..][..i - 1] && filter[..i + 1][1..] == filter[1..][..i];
      FirstErrorStep(filter[1..], i - 1);
    } else {
      assert filter[..1][1..] == [];
    }
  }

  lemma BindingsStep(filter: seq<FilterCondition>, i: nat, start: seq<Scalar>, a: Adapter)
    requires i < |filter|
    ensures start + AllBindings(filter[..i], a) + Bindings(filter[i], a) == start + AllBindings(filter[..i + 1], a)
  {
    FlatMapStep(filter, i, BindingsBy(a));
  }

  ghost predicate FragmentsSoFar(fragments: seq<string>, filter: seq<FilterCondition>, n: nat, a: Adapter) {
    NumberedSoFar(fragments, filter, n, TextBy(a), BindingsBy(a))
  }

  lemma FragmentsStep(fragments: seq<string>, filter: seq<FilterCondition>, n: nat, next: nat, text: string, a: Adapter)
    requires FragmentsSoFar(fragments, filter, n, a) && |fragments| < |filter|
    requires next == n + |AllBindings(filter[..|fragments|], a)|
    requires text == Fill(Fragment(filter[|fragments|], a), next, NthToken)
    ensures FragmentsSoFar(fragments + [text], filter, n, a)
  {
    NumberedOneMore(fragments, filter, n, text, TextBy(a), BindingsBy(a));
  }

  lemma FragmentsThroughout(fragments: seq<string>, filter: seq<FilterCondition>, n: nat, a: Adapter)
    requires |fragments| == |filter| && FragmentsSoFar(fragments, filter, n, a)
    ensures fragments == Fragments(filter, a, n)
  {
    NumberedThroughout(fragments, filter, n, TextBy(a), BindingsBy(a));
  }

  // ---- Resolution always succeeds ----

  /** The adapter adds no token delimiter of its own. */
  ghost predicate SafeAdapter(a: Adapter) {
    && a.likeEscapeChar != TOKEN_CHAR
    && forall name: string :: TOKEN_CHAR !in name ==> TOKEN_CHAR !in a.quoteIdent(name)
  }

  lemma {:induction false} HoleListClean(count: nat)
    ensures CleanChunks(HoleList(count))
  {
    if count > 1 { HoleListClean(count - 1); }
  }

  lemma CleanTogether(a: seq<Chunk>, b: seq<Chunk>)
    requires CleanChunks(a) && CleanChunks(b)
    ensures CleanChunks(a + b)
  {
  }

  lemma KeywordClean(c: FilterCondition)
    ensures TOKEN_CHAR !in Keyword(c)
  {
  }

  lemma OperandsClean(c: FilterCondition, esc: char)
    requires esc != TOKEN_CHAR
    ensures CleanChunks(Operands(c, esc))
  {
    if c.InList? {
      HoleListClean(|c.values|);
      CleanTogether(HoleList(|c.values|), [Lit(")")]);
    }
  }

  lemma FragmentClean(c: FilterCondition, a: Adapter)
    requires SafeAdapter(a) && ConditionError(c) == None
    ensures CleanChunks(Fragment(c, a))
  {
    KeywordClean(c);
    OperandsClean(c, a.likeEscapeChar);
    CleanTogether([Lit(a.quoteIdent(c.column) + Keyword(c))], Operands(c, a.likeEscapeChar));
  }

  lemma {:induction false} ChainedClean<C>(xs: seq<C>, show: C -> seq<Chunk>, sep: string)
    requires TOKEN_CHAR !in sep && forall x :: x in xs ==> CleanChunks(show(x))
    ensures CleanChunks(Chained(xs, show, sep))
  {
    if xs != [] { ChainedClean(xs[1..], show, sep); }
  }

  lemma ConjunctionClean(filter: seq<FilterCondition>, a: Adapter)
    requires SafeAdapter(a) && FirstError(filter) == None
    ensures CleanChunks(Conjunction(filter, a))
  {
    NoErrorMeansNone(filter);
    forall c | c in filter ensures CleanChunks(FragmentBy(a)(c)) {
      FragmentClean(c, a);
    }
    ChainedClean(filter, FragmentBy(a), " AND ");
  }

  /** Create a sink, compile, join, resolve: it fails exactly when some condition is one the compiler refuses. */
  method BuildWhere(filter: seq<FilterCondition>, a: Adapter, placeholder: nat -> string)
    returns (r: Result<Resolved<Scalar>, CompileError>)
    requires SafeAdapter(a)
    ensures r.Err? ==> Some(r.error) == FirstError(filter)
    ensures r.Ok? ==>
              && FirstError(filter) == None
              && r.value.sql == Fill(WhereChunks(filter, a), 1, placeholder)
              && r.value.params == AllBindings(filter, a)
  {
    var sink := new Sink<Scalar>();
    var fragments := CompileWhereClause(filter, a, sink);
    if fragments.Err? { return Err(fragments.error); }
    var whereSql := if |fragments.value| > 0 then " WHERE " + Join(fragments.value, " AND ") else "";
    WhereText(filter, a);
    RecordedHoldsAll(sink.pushed);
    LayoutResolves(WhereChunks(filter, a), sink.recorded, sink.pushed, placeholder);
    var resolved := ResolveParamSink(sink.recorded, whereSql, placeholder);
    return Ok(resolved.value);
  }

  lemma WhereText(filter: seq<FilterCondition>, a: Adapter)
    requires SafeAdapter(a) && FirstError(filter) == None
    ensures CleanChunks(WhereChunks(filter, a))
    ensures Slots(WhereChunks(filter, a)) == |AllBindings(filter, a)|
    ensures Fill(WhereChunks(filter, a), 0, NthToken) ==
            if filter == [] then "" else " WHERE " + Join(Fragments(filter, a, 0), " AND ")
  {
    ConjunctionClean(filter, a);
    ConjunctionText(filter, a, 0);
    FillOne(Lit(" WHERE "), 0, NthToken);
    FillConcat([Lit(" WHERE ")], Conjunction(filter, a), 0, NthToken);
  }
}
