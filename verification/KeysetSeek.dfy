/** The seek condition of a keyset-paged read, an OR of ANDs without row values, joined to the filter's own conditions:
    the text it compiles to, how that text parses, and that it means "behind the cursor in the order of the key". */
module KeysetSeek {
  import opened Common
  import opened ParamSink
  import opened Layout
  import opened FilterCompiler
  import opened QuotedNames
  import opened SqlWhere

  datatype Keyset = Keyset(key: seq<string>, cursor: seq<Scalar>)

  datatype SelectError = BadCondition(error: CompileError) | CursorLength(values: nat, columns: nat)

  // ---- The branches ----

  /** One branch: equal on the first i key columns and greater on the next. */
  function Branch(key: seq<string>, cursor: seq<Scalar>, i: nat): (branch: seq<FilterCondition>)
    requires i < |key| == |cursor|
    ensures |branch| == i + 1
    ensures forall j :: 0 <= j <= i ==> branch[j] == Compare(key[j], if j < i then Eq else Gt, cursor[j])
  {
    seq(i + 1, j requires 0 <= j <= i => Compare(key[j], if j < i then Eq else Gt, cursor[j]))
  }

  function Branches(key: seq<string>, cursor: seq<Scalar>): (branches: seq<seq<FilterCondition>>)
    requires |key| == |cursor|
    ensures |branches| == |key| && forall i :: 0 <= i < |key| ==> branches[i] == Branch(key, cursor, i)
  {
    seq(|key|, i requires 0 <= i < |key| => Branch(key, cursor, i))
  }

  function FirstUnsafe(key: seq<string>): Option<CompileError> {
    if key == [] then None
    else if TOKEN_CHAR in key[0] then Some(UnsafeIdentifier(key[0]))
    else FirstUnsafe(key[1..])
  }

  /** What building the WHERE part throws: a bad condition, then a bad key column, then a cursor of the wrong length. */
  function SelectFault(filter: seq<FilterCondition>, keyset: Option<Keyset>): Option<SelectError> {
    if FirstError(filter).Some? then Some(BadCondition(FirstError(filter).value))
    else
      match keyset
      case None => None
      case Some(Keyset(key, cursor)) =>
        if FirstUnsafe(key).Some? then Some(BadCondition(FirstUnsafe(key).value))
        else if |cursor| != |key| then Some(CursorLength(|cursor|, |key|))
        else None
  }

  // ---- Layout ----

  function Values(a: Adapter): seq<FilterCondition> -> seq<Scalar> {
    branch => AllBindings(branch, a)
  }

  function InParens(a: Adapter): seq<FilterCondition> -> seq<Chunk> {
    branch => [Lit("(")] + Conjunction(branch, a) + [Lit(")")]
  }

  /** A single branch stands as it is, several stand in parentheses with OR between. */
  function SeekChunks(branches: seq<seq<FilterCondition>>, a: Adapter): seq<Chunk> {
    if |branches| == 1 then Conjunction(branches[0], a) else Chained(branches, InParens(a), " OR ")
  }

  function SeekPart(branches: seq<seq<FilterCondition>>, a: Adapter): seq<Chunk> {
    [Lit("(")] + SeekChunks(branches, a) + [Lit(")")]
  }

  function SeekValues(branches: seq<seq<FilterCondition>>, a: Adapter): seq<Scalar> {
    FlatMap(branches, Values(a))
  }

  /** The filter's conditions, then the seek condition in parentheses. */
  function SelectChunks(filter: seq<FilterCondition>, branches: seq<seq<FilterCondition>>, a: Adapter): seq<Chunk> {
    [Lit(" WHERE ")] + (Front(filter, a) + SeekPart(branches, a))
  }

  function Front(filter: seq<FilterCondition>, a: Adapter): seq<Chunk> {
    if filter == [] then [] else Conjunction(filter, a) + [Lit(" AND ")]
  }

  predicate SafeBranch(branch: seq<FilterCondition>) {
    branch != [] && FirstError(branch) == None && NoEmptyIn(branch)
  }

  ghost predicate SafeBranches(branches: seq<seq<FilterCondition>>) {
    forall i :: 0 <= i < |branches| ==> SafeBranch(branches[i])
  }

  lemma {:induction false} NoneUnsafe(key: seq<string>)
    ensures FirstUnsafe(key) == None <==> forall k :: k in key ==> TOKEN_CHAR !in k
  {
    if key != [] {
      NoneUnsafe(key[1..]);
      assert key == [key[0]] + key[1..];
    }
  }

  lemma BranchesAreSafe(key: seq<string>, cursor: seq<Scalar>)
    requires |key| == |cursor| && FirstUnsafe(key) == None
    ensures SafeBranches(Branches(key, cursor))
  {
    NoneUnsafe(key);
    forall i | 0 <= i < |key| ensures SafeBranch(Branch(key, cursor, i)) {
      NoErrorMeansNone(Branch(key, cursor, i));
    }
  }

  lemma AroundText(open: string, inner: seq<Chunk>, close: string, n: nat, fill: nat -> string)
    ensures Fill([Lit(open)] + inner + [Lit(close)], n, fill) == open + Fill(inner, n, fill) + close
    ensures Slots([Lit(open)] + inner + [Lit(close)]) == Slots(inner)
  {
    FillOne(Lit(open), n, fill);
    FillOne(Lit(close), n + Slots(inner), fill);
    FillConcat([Lit(open)], inner, n, fill);
    FillConcat([Lit(open)] + inner, [Lit(close)], n, fill);
  }

  // ---- The text the code builds ----

  function RawBranch(a: Adapter): (seq<FilterCondition>, nat) -> string {
    (branch: seq<FilterCondition>, n: nat) => Join(Fragments(branch, a, n), " AND ")
  }

  function RawInParens(a: Adapter): (seq<FilterCondition>, nat) -> string {
    (branch: seq<FilterCondition>, n: nat) => Wrapped(RawBranch(a)(branch, n))
  }

  lemma BranchFits(branch: seq<FilterCondition>, a: Adapter)
    requires FirstError(branch) == None
    ensures Fits(branch, InParens(a), RawInParens(a), Values(a))
  {
    forall n: nat ensures RawInParens(a)(branch, n) == Fill(InParens(a)(branch), n, NthToken) {
      AroundText("(", Conjunction(branch, a), ")", n, NthToken);
      ConjunctionText(branch, a, n);
      assert RawInParens(a)(branch, n) == "(" + RawBranch(a)(branch, n) + ")";
    }
    AroundText("(", Conjunction(branch, a), ")", 0, NthToken);
    ConjunctionText(branch, a, 0);
  }

  lemma SeekText(branches: seq<seq<FilterCondition>>, a: Adapter, n: nat)
    requires SafeBranches(branches)
    ensures Slots(SeekChunks(branches, a)) == |SeekValues(branches, a)|
    ensures Fill(SeekChunks(branches, a), n, NthToken) == SeekRaw(branches, a, n)
  {
    if |branches| == 1 {
      ConjunctionText(branches[0], a, n);
      FlatMapOne(branches[0], Values(a));
      assert branches == [branches[0]];
    } else {
      forall i | 0 <= i < |branches| ensures Fits(branches[i], InParens(a), RawInParens(a), Values(a)) {
        BranchFits(branches[i], a);
      }
      ChainedIsJoined(branches, " OR ", n, InParens(a), RawInParens(a), Values(a));
    }
  }

  function SeekRaw(branches: seq<seq<FilterCondition>>, a: Adapter, n: nat): string {
    if |branches| == 1 then RawBranch(a)(branches[0], n)
    else Join(Numbered(branches, n, RawInParens(a), Values(a)), " OR ")
  }

  lemma ComparisonText(column: string, cmp: Comparator, v: Scalar, a: Adapter, n: nat)
    ensures Fill(Fragment(Compare(column, cmp, v), a), n, NthToken) ==
            a.quoteIdent(column) + Operator(cmp) + NthToken(n)
  {
    FillTwo(Lit(a.quoteIdent(column) + Operator(cmp)), Slot, n, NthToken);
  }

  lemma PartStep(parts: seq<string>, branch: seq<FilterCondition>, n: nat, next: nat, part: string, a: Adapter)
    requires |parts| < |branch| && FragmentsSoFar(parts, branch, n, a) && branch[|parts|].Compare?
    requires next == n + |AllBindings(branch[..|parts|], a)|
    requires part == a.quoteIdent(branch[|parts|].column) + Operator(branch[|parts|].cmp) + NthToken(next)
    ensures FragmentsSoFar(parts + [part], branch, n, a)
  {
    var c := branch[|parts|];
    ComparisonText(c.column, c.cmp, c.value, a, next);
    FragmentsStep(parts, branch, n, next, part, a);
  }

  /** One branch: an equality for each earlier key column, then the comparison that goes on. */
  method BuildBranch(key: seq<string>, cursor: seq<Scalar>, i: nat, a: Adapter, sink: Sink<Scalar>)
    returns (text: string)
    requires i < |key| == |cursor| && sink.Valid()
    modifies sink
    ensures sink.Valid() && sink.pushed == old(sink.pushed) + AllBindings(Branch(key, cursor, i), a)
    ensures text == RawBranch(a)(Branch(key, cursor, i), |old(sink.pushed)|)
  {
    ghost var branch, start := Branch(key, cursor, i), sink.pushed;
    var parts := [];
    for j := 0 to i + 1
      invariant sink.Valid() && sink.pushed == start + AllBindings(branch[..j], a)
      invariant |parts| == j && FragmentsSoFar(parts, branch, |start|, a)
    {
      ghost var before := sink.pushed;
      var token := sink.Push(cursor[j]);
      var part := a.quoteIdent(key[j]) + (if j < i then " = " else " > ") + token;
      BindingsStep(branch, j, start, a);
      PartStep(parts, branch, |start|, |before|, part, a);
      parts := parts + [part];
    }
    assert branch[..i + 1] == branch;
    FragmentsThroughout(parts, branch, |start|, a);
    return Join(parts, " AND ");
  }

  ghost predicate TextsSoFar(texts: seq<string>, branches: seq<seq<FilterCondition>>, n: nat, a: Adapter) {
    NumberedSoFar(texts, branches, n, RawBranch(a), Values(a))
  }

  lemma TextsStep(texts: seq<string>, branches: seq<seq<FilterCondition>>, start: seq<Scalar>, next: nat, text: string,
                  a: Adapter)
    requires |texts| < |branches| && TextsSoFar(texts, branches, |start|, a)
    requires next == |start| + |SeekValues(branches[..|texts|], a)|
    requires text == RawBranch(a)(branches[|texts|], next)
    ensures TextsSoFar(texts + [text], branches, |start|, a)
  {
    NumberedOneMore(texts, branches, |start|, text, RawBranch(a), Values(a));
  }

  lemma SeekStep(branches: seq<seq<FilterCondition>>, i: nat, start: seq<Scalar>, a: Adapter)
    requires i < |branches|
    ensures start + SeekValues(branches[..i], a) + AllBindings(branches[i], a) ==
            start + SeekValues(branches[..i + 1], a)
  {
    FlatMapStep(branches, i, Values(a));
  }

  function Wrapped(text: string): string {
    "(" + text + ")"
  }

  lemma WrapAll(texts: seq<string>, branches: seq<seq<FilterCondition>>, n: nat, a: Adapter)
    requires |texts| == |branches| && TextsSoFar(texts, branches, n, a)
    ensures SeekRaw(branches, a, n) == if |texts| == 1 then texts[0] else Join(Map(texts, Wrapped), " OR ")
  {
    if |texts| == 1 {
      assert branches[..0] == [];
    } else {
      WrapEach(texts, branches, n, RawBranch(a), RawInParens(a), Values(a));
      NumberedThroughout(Map(texts, Wrapped), branches, n, RawInParens(a), Values(a));
    }
  }

  lemma WrapEach<C, V>(texts: seq<string>, xs: seq<C>, n: nat, text: (C, nat) -> string, wrapped: (C, nat) -> string,
                       values: C -> seq<V>)
    requires NumberedSoFar(texts, xs, n, text, values)
    requires forall x, m: nat :: wrapped(x, m) == Wrapped(text(x, m))
    ensures NumberedSoFar(Map(texts, Wrapped), xs, n, wrapped, values)
  {
    forall j | 0 <= j < |texts| ensures Map(texts, Wrapped)[j] == wrapped(xs[j], n + |FlatMap(xs[..j], values)|) {
      assert texts[j] == text(xs[j], n + |FlatMap(xs[..j], values)|);
    }
  }

  method BuildKeysetWhere(key: seq<string>, cursor: seq<Scalar>, a: Adapter, sink: Sink<Scalar>)
    returns (r: Result<string, SelectError>)
    requires sink.Valid()
    modifies sink
    ensures sink.Valid()
    ensures r.Err? ==> |cursor| != |key| && r.error == CursorLength(|cursor|, |key|)
    ensures r.Ok? ==>
              && |cursor| == |key|
              && r.value == SeekRaw(Branches(key, cursor), a, |old(sink.pushed)|)
              && sink.pushed == old(sink.pushed) + SeekValues(Branches(key, cursor), a)
  {
    if |cursor| != |key| { return Err(CursorLength(|cursor|, |key|)); }
    ghost var n := |sink.pushed|;
    var texts := BuildBranches(key, cursor, a, sink);
    WrapAll(texts, Branches(key, cursor), n, a);
    if |texts| == 1 { return Ok(texts[0]); }
    return Ok(Join(Map(texts, Wrapped), " OR "));
  }

  method BuildBranches(key: seq<string>, cursor: seq<Scalar>, a: Adapter, sink: Sink<Scalar>)
    returns (texts: seq<string>)
    requires |key| == |cursor| && sink.Valid()
    modifies sink
    ensures sink.Valid() && sink.pushed == old(sink.pushed) + SeekValues(Branches(key, cursor), a)
    ensures |texts| == |key| && TextsSoFar(texts, Branches(key, cursor), |old(sink.pushed)|, a)
  {
    ghost var branches, start := Branches(key, cursor), sink.pushed;
    texts := [];
    for i := 0 to |key|
      invariant sink.Valid() && sink.pushed == start + SeekValues(branches[..i], a)
      invariant |texts| == i && TextsSoFar(texts, branches, |start|, a)
    {
      ghost var next := |sink.pushed|;
      var text := BuildBranch(key, cursor, i, a, sink);
      SeekStep(branches, i, start, a);
      TextsStep(texts, branches, start, next, text, a);
      texts := texts + [text];
    }
    assert branches[..|key|] == branches;
  }

  // ---- Sink, compile, seek, resolve ----

  function WholeChunks(filter: seq<FilterCondition>, keyset: Option<Keyset>, a: Adapter): seq<Chunk>
    requires SelectFault(filter, keyset) == None
  {
    match keyset
    case None => WhereChunks(filter, a)
    case Some(Keyset(key, cursor)) => SelectChunks(filter, Branches(key, cursor), a)
  }

  function WholeValues(filter: seq<FilterCondition>, keyset: Option<Keyset>, a: Adapter): seq<Scalar>
    requires SelectFault(filter, keyset) == None
  {
    match keyset
    case None => AllBindings(filter, a)
    case Some(Keyset(key, cursor)) => AllBindings(filter, a) + SeekValues(Branches(key, cursor), a)
  }

  lemma {:induction false} JoinLast(parts: seq<string>, last: string, sep: string)
    ensures Join(parts + [last], sep) == if parts == [] then last else Join(parts, sep) + (sep + last)
  {
    if parts == [] {
      assert parts + [last] == [last];
    } else {
      assert parts == [parts[0]] + parts[1..];
      assert parts + [last] == [parts[0]] + (parts[1..] + [last]);
      JoinLast(parts[1..], last, sep);
      JoinStep(parts[0], parts[1..] + [last], sep);
      JoinStep(parts[0], parts[1..], sep);
      if parts[1..] != [] {
        Regroup(parts[0], sep, Join(parts[1..], sep), sep + last);
      }
    }
  }

  lemma Regroup(a: string, b: string, c: string, d: string)
    ensures a + (b + (c + d)) == a + (b + c) + d
  {
  }

  function FrontText(filter: seq<FilterCondition>, a: Adapter, n: nat, fill: nat -> string): string {
    if filter == [] then "" else Fill(Conjunction(filter, a), n, fill) + " AND "
  }

  lemma FrontFill(filter: seq<FilterCondition>, a: Adapter, n: nat, fill: nat -> string)
    requires FirstError(filter) == None
    ensures Slots(Front(filter, a)) == |AllBindings(filter, a)|
    ensures Fill(Front(filter, a), n, fill) == FrontText(filter, a, n, fill)
  {
    ConjunctionText(filter, a, n);
    FillOne(Lit(" AND "), n + |AllBindings(filter, a)|, fill);
    FillConcat(Conjunction(filter, a), [Lit(" AND ")], n, fill);
  }

  lemma SeekPartSlots(branches: seq<seq<FilterCondition>>, a: Adapter)
    requires SafeBranches(branches)
    ensures Slots(SeekPart(branches, a)) == |SeekValues(branches, a)|
  {
    SeekText(branches, a, 0);
    AroundText("(", SeekChunks(branches, a), ")", 0, NthToken);
  }

  lemma SelectText(filter: seq<FilterCondition>, branches: seq<seq<FilterCondition>>, a: Adapter, n: nat,
                   fill: nat -> string, part: string)
    requires FirstError(filter) == None
    requires Fill(SeekPart(branches, a), n + |AllBindings(filter, a)|, fill) == part
    ensures Fill(SelectChunks(filter, branches, a), n, fill) == " WHERE " + (FrontText(filter, a, n, fill) + part)
  {
    FrontFill(filter, a, n, fill);
    FillConcat(Front(filter, a), SeekPart(branches, a), n, fill);
    FillOne(Lit(" WHERE "), n, fill);
    FillConcat([Lit(" WHERE ")], Front(filter, a) + SeekPart(branches, a), n, fill);
  }

  lemma SelectSlots(filter: seq<FilterCondition>, branches: seq<seq<FilterCondition>>, a: Adapter)
    requires FirstError(filter) == None && SafeBranches(branches)
    ensures Slots(SelectChunks(filter, branches, a)) == |AllBindings(filter, a)| + |SeekValues(branches, a)|
  {
    SeekPartSlots(branches, a);
    FrontFill(filter, a, 0, NthToken);
    FillConcat(Front(filter, a), SeekPart(branches, a), 0, NthToken);
    FillOne(Lit(" WHERE "), 0, NthToken);
    FillConcat([Lit(" WHERE ")], Front(filter, a) + SeekPart(branches, a), 0, NthToken);
  }

  lemma CleanAround(open: string, inner: seq<Chunk>, close: string)
    requires TOKEN_CHAR !in open && TOKEN_CHAR !in close && CleanChunks(inner)
    ensures CleanChunks([Lit(open)] + inner + [Lit(close)])
  {
  }

  lemma SeekIsClean(branches: seq<seq<FilterCondition>>, a: Adapter)
    requires SafeAdapter(a) && SafeBranches(branches)
    ensures CleanChunks(SeekPart(branches, a))
  {
    forall i | 0 <= i < |branches|
      ensures CleanChunks(Conjunction(branches[i], a)) && CleanChunks(InParens(a)(branches[i]))
    {
      ConjunctionClean(branches[i], a);
      CleanAround("(", Conjunction(branches[i], a), ")");
    }
    ChainedClean(branches, InParens(a), " OR ");
    CleanAround("(", SeekChunks(branches, a), ")");
  }

  lemma SelectIsClean(filter: seq<FilterCondition>, branches: seq<seq<FilterCondition>>, a: Adapter)
    requires SafeAdapter(a) && FirstError(filter) == None && SafeBranches(branches)
    ensures CleanChunks(SelectChunks(filter, branches, a))
  {
    ConjunctionClean(filter, a);
    SeekIsClean(branches, a);
    CleanTogether(Conjunction(filter, a), [Lit(" AND ")]);
    CleanTogether(Front(filter, a), SeekPart(branches, a));
    CleanTogether([Lit(" WHERE ")], Front(filter, a) + SeekPart(branches, a));
  }

  lemma SeekPartText(branches: seq<seq<FilterCondition>>, a: Adapter, n: nat)
    requires SafeBranches(branches)
    ensures Fill(SeekPart(branches, a), n, NthToken) == "(" + SeekRaw(branches, a, n) + ")"
  {
    SeekText(branches, a, n);
    AroundText("(", SeekChunks(branches, a), ")", n, NthToken);
  }

  /** What the code joins is the layout filled with tokens. */
  lemma SelectIsJoined(filter: seq<FilterCondition>, branches: seq<seq<FilterCondition>>, a: Adapter, part: string)
    requires FirstError(filter) == None
    requires part == Fill(SeekPart(branches, a), |AllBindings(filter, a)|, NthToken)
    ensures Fill(SelectChunks(filter, branches, a), 0, NthToken) ==
            " WHERE " + Join(Fragments(filter, a, 0) + [part], " AND ")
  {
    SelectText(filter, branches, a, 0, NthToken, part);
    FrontIsJoined(filter, a, part);
  }

  lemma FrontIsJoined(filter: seq<FilterCondition>, a: Adapter, last: string)
    requires FirstError(filter) == None
    ensures Join(Fragments(filter, a, 0) + [last], " AND ") == FrontText(filter, a, 0, NthToken) + last
  {
    ConjunctionText(filter, a, 0);
    JoinAround(Fragments(filter, a, 0), last);
  }

  lemma JoinAround(parts: seq<string>, last: string)
    ensures Join(parts + [last], " AND ") == (if parts == [] then "" else Join(parts, " AND ") + " AND ") + last
  {
    JoinLast(parts, last, " AND ");
    if parts == [] {
      assert "" + last == last;
    } else {
      Associate(Join(parts, " AND "), " AND ", last);
    }
  }

  /** The WHERE part of a query, with the seek condition when there is a cursor. */
  method BuildSelectWhere(filter: seq<FilterCondition>, keyset: Option<Keyset>, a: Adapter, placeholder: nat -> string)
    returns (r: Result<Resolved<Scalar>, SelectError>)
    requires SafeAdapter(a)
    ensures r.Err? ==> Some(r.error) == SelectFault(filter, keyset)
    ensures r.Ok? ==>
              && SelectFault(filter, keyset) == None
              && r.value.sql == Fill(WholeChunks(filter, keyset, a), 1, placeholder)
              && r.value.params == WholeValues(filter, keyset, a)
  {
    var sink := new Sink<Scalar>();
    var built := BuildParts(filter, keyset, a, sink);
    if built.Err? { return Err(built.error); }
    var parts := built.value;
    RecordedHoldsAll(sink.pushed);
    var whereSql := if |parts| > 0 then " WHERE " + Join(parts, " AND ") else "";
    WholeResolves(filter, keyset, a, parts, sink.recorded, placeholder);
    var resolved := ResolveParamSink(sink.recorded, whereSql, placeholder);
    return Ok(resolved.value);
  }

  /** The conditions of the filter, then the seek condition. */
  method BuildParts(filter: seq<FilterCondition>, keyset: Option<Keyset>, a: Adapter, sink: Sink<Scalar>)
    returns (r: Result<seq<string>, SelectError>)
    requires sink.Valid() && sink.pushed == []
    modifies sink
    ensures sink.Valid()
    ensures r.Err? ==> Some(r.error) == SelectFault(filter, keyset)
    ensures r.Ok? ==>
              && SelectFault(filter, keyset) == None
              && r.value == RawParts(filter, keyset, a)
              && sink.pushed == WholeValues(filter, keyset, a)
  {
    var fragments := CompileWhereClause(filter, a, sink);
    if fragments.Err? { return Err(BadCondition(fragments.error)); }
    assert [] + AllBindings(filter, a) == AllBindings(filter, a);
    if keyset.None? { return Ok(fragments.value); }
    var unsafe := CheckKey(keyset.value.key);
    if unsafe.Some? { return Err(BadCondition(unsafe.value)); }
    var seek := BuildKeysetWhere(keyset.value.key, keyset.value.cursor, a, sink);
    if seek.Err? { return Err(seek.error); }
    BranchesAreSafe(keyset.value.key, keyset.value.cursor);
    SeekPartText(Branches(keyset.value.key, keyset.value.cursor), a, |AllBindings(filter, a)|);
    return Ok(fragments.value + ["(" + seek.value + ")"]);
  }

  method CheckKey(key: seq<string>) returns (fault: Option<CompileError>)
    ensures fault == FirstUnsafe(key)
  {
    for i := 0 to |key|
      invariant FirstUnsafe(key) == FirstUnsafe(key[i..])
    {
      if TOKEN_CHAR in key[i] { return Some(UnsafeIdentifier(key[i])); }
    }
    return None;
  }

  function RawParts(filter: seq<FilterCondition>, keyset: Option<Keyset>, a: Adapter): seq<string>
    requires SelectFault(filter, keyset) == None
  {
    match keyset
    case None => Fragments(filter, a, 0)
    case Some(Keyset(key, cursor)) =>
      Fragments(filter, a, 0) + [Fill(SeekPart(Branches(key, cursor), a), |AllBindings(filter, a)|, NthToken)]
  }

  lemma WholeText(filter: seq<FilterCondition>, keyset: Option<Keyset>, a: Adapter)
    requires SafeAdapter(a) && SelectFault(filter, keyset) == None
    ensures CleanChunks(WholeChunks(filter, keyset, a))
    ensures Slots(WholeChunks(filter, keyset, a)) == |WholeValues(filter, keyset, a)|
    ensures Fill(WholeChunks(filter, keyset, a), 0, NthToken) ==
            var parts := RawParts(filter, keyset, a); if |parts| > 0 then " WHERE " + Join(parts, " AND ") else ""
  {
    match keyset {
      case None => WhereText(filter, a);
      case Some(Keyset(key, cursor)) =>
        var branches := Branches(key, cursor);
        BranchesAreSafe(key, cursor);
        SelectSlots(filter, branches, a);
        SelectIsClean(filter, branches, a);
        SelectIsJoined(filter, branches, a, Fill(SeekPart(branches, a), |AllBindings(filter, a)|, NthToken));
    }
  }

  lemma WholeResolves(filter: seq<FilterCondition>, keyset: Option<Keyset>, a: Adapter, parts: seq<string>,
                      recorded: map<string, Scalar>, placeholder: nat -> string)
    requires SafeAdapter(a) && SelectFault(filter, keyset) == None && parts == RawParts(filter, keyset, a)
    requires Records(recorded, WholeValues(filter, keyset, a))
    ensures var pieces := Scan(if |parts| > 0 then " WHERE " + Join(parts, " AND ") else "");
            && ExactlyOnce(recorded, Tokens(pieces))
            && Bound(recorded, Tokens(pieces)) == WholeValues(filter, keyset, a)
            && Substitute(pieces, 0, placeholder) == Fill(WholeChunks(filter, keyset, a), 1, placeholder)
  {
    WholeText(filter, keyset, a);
    LayoutResolves(WholeChunks(filter, keyset, a), recorded, WholeValues(filter, keyset, a), placeholder);
  }

  // ---- Reading the seek condition back ----

  lemma ParenthesesHold(inner: string, parts: seq<Formula>, tail: string)
    requires ParseAny(inner + (")" + tail)) == Got(parts, ")" + tail)
    ensures ParsePart("(" + (inner + (")" + tail))) == Got(AnyOf(parts), tail)
  {
    AfterPrefix("(", inner + (")" + tail));
    AfterPrefix(")", tail);
  }

  predicate NoAnd(tail: string) {
    After(tail, " AND ").None?
  }

  lemma BareBranchReadsBack(branch: seq<FilterCondition>, esc: char, n: nat, tail: string)
    requires SafeBranch(branch)
    ensures ReadBack(branch, esc, n).Some?
    ensures ParseAny(Fill(Conjunction(branch, Adapter(QuoteIdent, esc)), n, Placeholder) + (")" + tail)) ==
            Got([AllOf(ReadBack(branch, esc, n).value)], ")" + tail)
  {
    var text := Fill(Conjunction(branch, Adapter(QuoteIdent, esc)), n, Placeholder);
    ReadBackIsComplete(branch, esc, n);
    ConjunctionReadsBack(branch, esc, n, ")" + tail);
    StartsOtherwise(")" + tail, " AND ");
    StartsOtherwise(")" + tail, " OR ");
    var parts := ReadBack(branch, esc, n).value;
    assert parts + [] == parts;
    AloneInAny(text + (")" + tail), parts, ")" + tail);
  }

  function BranchFormula(esc: char): (seq<FilterCondition>, nat) -> Option<Formula> {
    (branch: seq<FilterCondition>, n: nat) =>
      match ReadBack(branch, esc, n)
      case None => None
      case Some(parts) => Some(AllOf([AnyOf([AllOf(parts)])]))
  }

  lemma PartAlone(s: string, part: Formula, tail: string)
    requires ParsePart(s) == Got(part, tail) && NoAnd(tail)
    ensures ParseAll(s) == Got([part], tail)
    ensures ParseAny(s) == Ahead(Some(AllOf([part])), Continued(ParseAny, " OR ", tail))
  {
    assert [part] + [] == [part];
  }

  lemma BranchIsRead(branch: seq<FilterCondition>, esc: char)
    requires SafeBranch(branch)
    ensures var a := Adapter(QuoteIdent, esc);
            ReadsItem(ParseAny, " OR ", NoAnd, branch, InParens(a), BranchFormula(esc), Values(a))
  {
    var a := Adapter(QuoteIdent, esc);
    BranchFits(branch, a);
    forall n: nat, tail | NoAnd(tail)
      ensures ParseAny(Fill(InParens(a)(branch), n, Placeholder) + tail) ==
              Ahead(BranchFormula(esc)(branch, n), Continued(ParseAny, " OR ", tail))
    {
      WrappedBranchReadsBack(branch, esc, n, tail);
    }
  }

  lemma WrappedBranchReadsBack(branch: seq<FilterCondition>, esc: char, n: nat, tail: string)
    requires SafeBranch(branch) && NoAnd(tail)
    ensures ParseAny(Fill(InParens(Adapter(QuoteIdent, esc))(branch), n, Placeholder) + tail) ==
            Ahead(BranchFormula(esc)(branch, n), Continued(ParseAny, " OR ", tail))
  {
    var asked := Conjunction(branch, Adapter(QuoteIdent, esc));
    var inner := Fill(asked, n, Placeholder);
    AroundText("(", asked, ")", n, Placeholder);
    BareBranchReadsBack(branch, esc, n, tail);
    var parts := [AllOf(ReadBack(branch, esc, n).value)];
    ParenthesesHold(inner, parts, tail);
    OpenThenClose(inner, tail);
    PartAlone("(" + (inner + (")" + tail)), AnyOf(parts), tail);
  }

  lemma OpenThenClose(inner: string, tail: string)
    ensures "(" + inner + ")" + tail == "(" + (inner + (")" + tail))
  {
  }

  /** What the seek condition must read back as. */
  function SeekAlternatives(branches: seq<seq<FilterCondition>>, esc: char, n: nat): Option<seq<Formula>> {
    if |branches| == 1 then
      match ReadBack(branches[0], esc, n) case None => None case Some(parts) => Some([AllOf(parts)])
    else ReadEach(branches, n, BranchFormula(esc), Values(Adapter(QuoteIdent, esc)))
  }

  lemma {:induction false} BranchesAreComplete(branches: seq<seq<FilterCondition>>, esc: char, n: nat)
    requires SafeBranches(branches)
    ensures ReadEach(branches, n, BranchFormula(esc), Values(Adapter(QuoteIdent, esc))).Some?
  {
    if branches != [] {
      var b := branches[0];
      ReadBackIsComplete(b, esc, n);
      BranchesAreComplete(branches[1..], esc, n + |Values(Adapter(QuoteIdent, esc))(b)|);
    }
  }

  lemma SeekReadsBack(branches: seq<seq<FilterCondition>>, esc: char, n: nat, tail: string)
    requires branches != [] && SafeBranches(branches)
    ensures SeekAlternatives(branches, esc, n).Some?
    ensures ParseAny(Fill(SeekChunks(branches, Adapter(QuoteIdent, esc)), n, Placeholder) + (")" + tail)) ==
            Got(SeekAlternatives(branches, esc, n).value, ")" + tail)
  {
    var a := Adapter(QuoteIdent, esc);
    if |branches| == 1 {
      BareBranchReadsBack(branches[0], esc, n, tail);
    } else {
      forall i | 0 <= i < |branches|
        ensures ReadsItem(ParseAny, " OR ", NoAnd, branches[i], InParens(a), BranchFormula(esc), Values(a))
      {
        BranchIsRead(branches[i], esc);
      }
      forall more ensures NoAnd(" OR " + more) {
        assert (" OR " + more)[1] == 'O';
      }
      StartsOtherwise(")" + tail, " AND ");
      StartsOtherwise(")" + tail, " OR ");
      BranchesAreComplete(branches, esc, n);
      ChainReadsBack(branches, n, ")" + tail, ParseAny, " OR ", NoAnd, InParens(a), BranchFormula(esc), Values(a));
      var alternatives := SeekAlternatives(branches, esc, n).value;
      assert alternatives + [] == alternatives;
    }
  }

  lemma SeekPartReadsBack(branches: seq<seq<FilterCondition>>, esc: char, n: nat)
    requires branches != [] && SafeBranches(branches)
    ensures SeekAlternatives(branches, esc, n).Some?
    ensures ParseAll("(" + Fill(SeekChunks(branches, Adapter(QuoteIdent, esc)), n, Placeholder) + ")") ==
            Got([AnyOf(SeekAlternatives(branches, esc, n).value)], "")
  {
    var inner := Fill(SeekChunks(branches, Adapter(QuoteIdent, esc)), n, Placeholder);
    SeekReadsBack(branches, esc, n, "");
    ParenthesesHold(inner, SeekAlternatives(branches, esc, n).value, "");
    OpenThenClose(inner, "");
    assert "(" + inner + ")" + "" == "(" + inner + ")";
    PartAlone("(" + inner + ")", AnyOf(SeekAlternatives(branches, esc, n).value), "");
  }

  /** Without a branch the parentheses are empty, which is not SQL. */
  lemma EmptyParentheses()
    ensures ParseAll("()") == Fail
  {
    AfterPrefix("(", ")");
    StartsOtherwise(")", "(");
    assert ParsePart(")") == Fail;
    assert "()" == "(" + ")";
  }

  /** The parts in front and the seek condition behind them. */
  lemma PartsThenSeek(filter: seq<FilterCondition>, esc: char, part: string, seek: Parsed<seq<Formula>>)
    requires FirstError(filter) == None && ParseAll(part) == seek && (seek.Got? ==> seek.rest == "")
    ensures ParseAll(FrontText(filter, Adapter(QuoteIdent, esc), 1, Placeholder) + part) ==
            Onto(ReadBack(filter, esc, 1), seek)
  {
    if filter == [] {
      assert "" + part == part;
      OntoStep(None, None, seek);
    } else {
      var asked := Fill(Conjunction(filter, Adapter(QuoteIdent, esc)), 1, Placeholder);
      assert (" AND " + part)[0] == ' ';
      ConjunctionReadsBack(filter, esc, 1, " AND " + part);
      AfterPrefix(" AND ", part);
      Associate(asked, " AND ", part);
    }
  }

  lemma AllThenEnd(s: string)
    requires s != "" && (ParseAll(s).Got? ==> ParseAll(s).rest == "")
    ensures ParseWhere(" WHERE " + s) ==
            match ParseAll(s) case Fail => None case Got(parts, _) => Some(AnyOf([AllOf(parts)]))
  {
    AfterPrefix(" WHERE ", s);
    match ParseAll(s) {
      case Fail =>
      case Got(parts, rest) => AloneInAny(s, parts, rest);
    }
  }

  /** The formula the whole WHERE part must read back as: none for an empty IN list or an empty key. */
  function WholeFormula(filter: seq<FilterCondition>, keyset: Option<Keyset>, esc: char): Option<Formula>
    requires SelectFault(filter, keyset) == None
  {
    match keyset
    case None => WhereFormula(filter, esc)
    case Some(Keyset(key, cursor)) =>
      var asked := ReadBack(filter, esc, 1);
      var seek := SeekAlternatives(Branches(key, cursor), esc, |AllBindings(filter, Adapter(QuoteIdent, esc))| + 1);
      if key == [] || asked.None? || seek.None? then None
      else Some(AnyOf([AllOf(asked.value + [AnyOf(seek.value)])]))
  }

  predicate Parses(filter: seq<FilterCondition>, keyset: Option<Keyset>) {
    NoEmptyIn(filter) && (keyset.Some? ==> keyset.value.key != [])
  }

  lemma WholeReadsBack(filter: seq<FilterCondition>, keyset: Option<Keyset>, esc: char)
    requires SelectFault(filter, keyset) == None
    ensures ParseWhere(Fill(WholeChunks(filter, keyset, Adapter(QuoteIdent, esc)), 1, Placeholder)) ==
            WholeFormula(filter, keyset, esc)
    ensures WholeFormula(filter, keyset, esc).Some? <==> Parses(filter, keyset)
  {
    match keyset {
      case None => WhereReadsBack(filter, esc);
      case Some(Keyset(key, cursor)) =>
        BranchesAreSafe(key, cursor);
        ReadBackIsComplete(filter, esc, 1);
        SelectReadsBack(filter, Branches(key, cursor), esc);
    }
  }

  lemma SelectReadsBack(filter: seq<FilterCondition>, branches: seq<seq<FilterCondition>>, esc: char)
    requires FirstError(filter) == None && SafeBranches(branches)
    ensures var a := Adapter(QuoteIdent, esc);
            var seek := SeekAlternatives(branches, esc, |AllBindings(filter, a)| + 1);
            && (branches != [] ==> seek.Some?)
            && ParseWhere(Fill(SelectChunks(filter, branches, a), 1, Placeholder)) ==
               if branches == [] || ReadBack(filter, esc, 1).None? || seek.None? then None
               else Some(AnyOf([AllOf(ReadBack(filter, esc, 1).value + [AnyOf(seek.value)])]))
  {
    var a := Adapter(QuoteIdent, esc);
    var n := |AllBindings(filter, a)| + 1;
    var part := "(" + Fill(SeekChunks(branches, a), n, Placeholder) + ")";
    AroundText("(", SeekChunks(branches, a), ")", n, Placeholder);
    SelectText(filter, branches, a, 1, Placeholder, part);
    if branches == [] {
      EmptyParentheses();
      assert part == "()";
      WhereThenSeek(filter, esc, part, Fail);
    } else {
      SeekPartReadsBack(branches, esc, n);
      WhereThenSeek(filter, esc, part, Got([AnyOf(SeekAlternatives(branches, esc, n).value)], ""));
    }
  }

  lemma WhereThenSeek(filter: seq<FilterCondition>, esc: char, part: string, seek: Parsed<seq<Formula>>)
    requires FirstError(filter) == None && part != ""
    requires ParseAll(part) == seek && (seek.Got? ==> seek.rest == "")
    ensures ParseWhere(" WHERE " + (FrontText(filter, Adapter(QuoteIdent, esc), 1, Placeholder) + part)) ==
            if ReadBack(filter, esc, 1).None? || seek.Fail? then None
            else Some(AnyOf([AllOf(ReadBack(filter, esc, 1).value + seek.value)]))
  {
    PartsThenSeek(filter, esc, part, seek);
    AllThenEnd(FrontText(filter, Adapter(QuoteIdent, esc), 1, Placeholder) + part);
  }

  // ---- What the seek condition means ----

  predicate SatisfiesAll(filter: seq<FilterCondition>, row: Row, db: Database) {
    forall c :: c in filter ==> Satisfies(c, row, db)
  }

  /** The row's key stands behind the cursor, column by column; a row with NULL where it matters never does. */
  predicate Behind(row: Row, key: seq<string>, cursor: seq<Scalar>, db: Database)
    requires |key| == |cursor|
  {
    && key != []
    && row(key[0]).Some?
    && var v := row(key[0]).value;
       db.compare(Gt, v, cursor[0]) || (db.compare(Eq, v, cursor[0]) && Behind(row, key[1..], cursor[1..], db))
  }

  lemma LaterBranch(key: seq<string>, cursor: seq<Scalar>, i: nat, row: Row, db: Database)
    requires 0 < i < |key| == |cursor|
    ensures SatisfiesAll(Branch(key, cursor, i), row, db) <==>
            && Satisfies(Compare(key[0], Eq, cursor[0]), row, db)
            && SatisfiesAll(Branch(key[1..], cursor[1..], i - 1), row, db)
  {
    assert Branch(key, cursor, i) == [Compare(key[0], Eq, cursor[0])] + Branch(key[1..], cursor[1..], i - 1);
  }

  /** The OR of ANDs is exactly the order of the key, on every row and every database. */
  lemma {:induction false} SomeBranchIsBehind(key: seq<string>, cursor: seq<Scalar>, row: Row, db: Database)
    requires |key| == |cursor|
    ensures Behind(row, key, cursor, db) <==>
            exists i :: 0 <= i < |key| && SatisfiesAll(Branch(key, cursor, i), row, db)
  {
    if key != [] {
      var key', cursor' := key[1..], cursor[1..];
      SomeBranchIsBehind(key', cursor', row, db);
      assert Branch(key, cursor, 0) == [Compare(key[0], Gt, cursor[0])];
      if Behind(row, key, cursor, db) && !SatisfiesAll(Branch(key, cursor, 0), row, db) {
        var i :| 0 <= i < |key'| && SatisfiesAll(Branch(key', cursor', i), row, db);
        LaterBranch(key, cursor, i + 1, row, db);
      }
      if i :| 0 <= i < |key| && SatisfiesAll(Branch(key, cursor, i), row, db) {
        if i > 0 {
          LaterBranch(key, cursor, i, row, db);
        } else {
          assert Satisfies(Branch(key, cursor, 0)[0], row, db);
        }
      }
    }
  }

  // ---- What the text selects ----

  ghost predicate SomeSatisfied(branches: seq<seq<FilterCondition>>, row: Row, db: Database) {
    exists b :: b in branches && SatisfiesAll(b, row, db)
  }

  lemma {:induction false} EvalAllConcat(fs: seq<Formula>, f: Formula, params: seq<Scalar>, row: Row, db: Database)
    ensures EvalAll(fs + [f], params, row, db) == True <==>
            EvalAll(fs, params, row, db) == True && EvalFormula(f, params, row, db) == True
  {
    if fs == [] {
      assert [f][1..] == [];
      assert [] + [f] == [f];
    } else {
      assert (fs + [f])[1..] == fs[1..] + [f];
      EvalAllConcat(fs[1..], f, params, row, db);
    }
  }

  lemma BranchMeaning(branch: seq<FilterCondition>, esc: char, before: seq<Scalar>, after: seq<Scalar>, row: Row,
                      db: Database)
    requires FirstError(branch) == None && NoEmptyIn(branch) && esc != '%' && esc != '_'
    ensures var a := Adapter(QuoteIdent, esc);
            var parts := ReadBack(branch, esc, |before| + 1);
            && parts.Some?
            && (EvalAll(parts.value, before + AllBindings(branch, a) + after, row, db) == True
                <==> SatisfiesAll(branch, row, db))
  {
    ReadBackIsComplete(branch, esc, |before| + 1);
    ReadBackMeaning(branch, esc, before, after, row, db);
  }

  lemma BranchFormulaMeaning(branch: seq<FilterCondition>, esc: char, before: seq<Scalar>, after: seq<Scalar>, row: Row,
                             db: Database)
    requires FirstError(branch) == None && NoEmptyIn(branch) && esc != '%' && esc != '_'
    ensures var a := Adapter(QuoteIdent, esc);
            var f := BranchFormula(esc)(branch, |before| + 1);
            && f.Some?
            && (EvalFormula(f.value, before + AllBindings(branch, a) + after, row, db) == True
                <==> SatisfiesAll(branch, row, db))
  {
    var params := before + AllBindings(branch, Adapter(QuoteIdent, esc)) + after;
    BranchMeaning(branch, esc, before, after, row, db);
    var parts := ReadBack(branch, esc, |before| + 1).value;
    OneAlternative(parts, params, row, db);
    OnePart(AnyOf([AllOf(parts)]), params, row, db);
  }

  lemma OnePart(f: Formula, params: seq<Scalar>, row: Row, db: Database)
    ensures EvalFormula(AllOf([f]), params, row, db) == True <==> EvalFormula(f, params, row, db) == True
  {
    assert [f][1..] == [];
    assert EvalAll([], params, row, db) == True;
  }

  lemma {:induction false} AlternativesMeaning(branches: seq<seq<FilterCondition>>, esc: char, before: seq<Scalar>,
                                               after: seq<Scalar>, row: Row, db: Database)
    requires SafeBranches(branches) && esc != '%' && esc != '_'
    ensures var a := Adapter(QuoteIdent, esc);
            var fs := ReadEach(branches, |before| + 1, BranchFormula(esc), Values(a));
            && fs.Some?
            && (EvalAny(fs.value, before + SeekValues(branches, a) + after, row, db) == True
                <==> SomeSatisfied(branches, row, db))
  {
    if branches != [] {
      var a := Adapter(QuoteIdent, esc);
      var b, others := branches[0], branches[1..];
      var bound, later := AllBindings(b, a), SeekValues(others, a);
      SplitParams(before, bound, later, after);
      assert SeekValues(branches, a) == bound + later;
      BranchFormulaMeaning(b, esc, before, later + after, row, db);
      AlternativesMeaning(others, esc, before + bound, after, row, db);
      SatisfiedByOne(b, others, row, db);
      assert branches == [b] + others;
    }
  }

  lemma SatisfiedByOne(b: seq<FilterCondition>, others: seq<seq<FilterCondition>>, row: Row, db: Database)
    ensures SomeSatisfied([b] + others, row, db) <==> SatisfiesAll(b, row, db) || SomeSatisfied(others, row, db)
  {
    assert b in [b] + others;
  }

  lemma SplitParams(before: seq<Scalar>, bound: seq<Scalar>, others: seq<Scalar>, after: seq<Scalar>)
    ensures before + (bound + others) + after == before + bound + (others + after)
    ensures before + (bound + others) + after == before + bound + others + after
  {
  }

  lemma SeekMeaning(branches: seq<seq<FilterCondition>>, esc: char, before: seq<Scalar>, row: Row, db: Database)
    requires SafeBranches(branches) && esc != '%' && esc != '_'
    ensures var a := Adapter(QuoteIdent, esc);
            var fs := SeekAlternatives(branches, esc, |before| + 1);
            && fs.Some?
            && (EvalAny(fs.value, before + SeekValues(branches, a), row, db) == True
                <==> SomeSatisfied(branches, row, db))
  {
    var a := Adapter(QuoteIdent, esc);
    var params := before + SeekValues(branches, a);
    assert params + [] == params;
    if |branches| == 1 {
      var b := branches[0];
      assert branches == [b];
      FlatMapOne(b, Values(a));
      BranchMeaning(b, esc, before, [], row, db);
      OneAlternative(ReadBack(b, esc, |before| + 1).value, params, row, db);
    } else {
      AlternativesMeaning(branches, esc, before, [], row, db);
    }
  }

  /** What a read with a filter and a keyset asks of a row. */
  predicate Asked(filter: seq<FilterCondition>, keyset: Option<Keyset>, row: Row, db: Database)
    requires SelectFault(filter, keyset) == None
  {
    && SatisfiesAll(filter, row, db)
    && (keyset.Some? ==> Behind(row, keyset.value.key, keyset.value.cursor, db))
  }

  lemma SeekIsBehind(key: seq<string>, cursor: seq<Scalar>, row: Row, db: Database)
    requires |key| == |cursor|
    ensures SomeSatisfied(Branches(key, cursor), row, db) <==> Behind(row, key, cursor, db)
  {
    SomeBranchIsBehind(key, cursor, row, db);
    if i :| 0 <= i < |key| && SatisfiesAll(Branch(key, cursor, i), row, db) {
      assert Branches(key, cursor)[i] in Branches(key, cursor);
    }
  }

  lemma KeysetMeaning(filter: seq<FilterCondition>, keyset: Keyset, esc: char, row: Row, db: Database)
    requires SelectFault(filter, Some(keyset)) == None && Parses(filter, Some(keyset)) && esc != '%' && esc != '_'
    requires WholeFormula(filter, Some(keyset), esc).Some?
    ensures EvalFormula(WholeFormula(filter, Some(keyset), esc).value,
                        WholeValues(filter, Some(keyset), Adapter(QuoteIdent, esc)), row, db) == True
            <==> Asked(filter, Some(keyset), row, db)
  {
    var a := Adapter(QuoteIdent, esc);
    var branches, before := Branches(keyset.key, keyset.cursor), AllBindings(filter, a);
    var params := before + SeekValues(branches, a);
    BranchesAreSafe(keyset.key, keyset.cursor);
    BranchMeaning(filter, esc, [], SeekValues(branches, a), row, db);
    assert [] + before + SeekValues(branches, a) == params;
    SeekMeaning(branches, esc, before, row, db);
    SeekIsBehind(keyset.key, keyset.cursor, row, db);
    var asked, seek := ReadBack(filter, esc, 1).value, AnyOf(SeekAlternatives(branches, esc, |before| + 1).value);
    EvalAllConcat(asked, seek, params, row, db);
    OneAlternative(asked + [seek], params, row, db);
  }

  /** The text with its parameters selects exactly the rows asked for, on every database and every row. */
  lemma SelectMeansWhatIsAsked(filter: seq<FilterCondition>, keyset: Option<Keyset>, esc: char, row: Row, db: Database)
    requires SelectFault(filter, keyset) == None && esc != '%' && esc != '_'
    ensures var a := Adapter(QuoteIdent, esc);
            var sql := Fill(WholeChunks(filter, keyset, a), 1, Placeholder);
            && (ParseWhere(sql).Some? <==> Parses(filter, keyset))
            && (Parses(filter, keyset) ==>
                  (Selects(sql, WholeValues(filter, keyset, a), row, db) <==> Asked(filter, keyset, row, db)))
  {
    WholeReadsBack(filter, keyset, esc);
    if Parses(filter, keyset) {
      var a := Adapter(QuoteIdent, esc);
      if keyset.None? {
        FilterMeaning(filter, esc, row, db);
      } else {
        KeysetMeaning(filter, keyset.value, esc, row, db);
      }
      SelectsAsParsed(Fill(WholeChunks(filter, keyset, a), 1, Placeholder), WholeFormula(filter, keyset, esc).value,
                      WholeValues(filter, keyset, a), row, db);
    }
  }

  /** The WHERE part of a SQL Server read, end to end. */
  method SelectForSqlServer(filter: seq<FilterCondition>, keyset: Option<Keyset>)
    returns (r: Result<Resolved<Scalar>, SelectError>)
    ensures r.Err? ==> Some(r.error) == SelectFault(filter, keyset)
    ensures r.Ok? ==>
              && SelectFault(filter, keyset) == None
              && (ParseWhere(r.value.sql).Some? <==> Parses(filter, keyset))
              && (Parses(filter, keyset) ==>
                    forall row, db ::
                      Selects(r.value.sql, r.value.params, row, db) <==> Asked(filter, keyset, row, db))
  {
    SqlServerIsSafe();
    r := BuildSelectWhere(filter, keyset, SQL_SERVER, Placeholder);
    if r.Ok? {
      WholeReadsBack(filter, keyset, '\\');
      forall row, db | Parses(filter, keyset)
        ensures Selects(r.value.sql, r.value.params, row, db) <==> Asked(filter, keyset, row, db)
      {
        SelectMeansWhatIsAsked(filter, keyset, '\\', row, db);
      }
    }
  }
}
