/** Reading the finished WHERE text back: a parser and a three-valued evaluator for the SQL Server fragment language,
    and the proof that the compiled text means the AND of the original conditions. */
module SqlWhere {
  import opened Common
  import opened Layout
  import opened FilterCompiler
  import opened QuotedNames
  import ParamSink
  import Like

  // ---- The SQL Server dialect ----

  /** Bracket quoting, with any closing bracket doubled. */
  function QuoteIdent(name: string): string {
    "[" + Like.PerChar(name, Like.Swap(']', "]]")) + "]"
  }

  const SQL_SERVER := Adapter(QuoteIdent, '\\')

  function Placeholder(n: nat): string {
    "@p" + Decimal(n)
  }

  // ---- Parsing ----

  datatype Predicate =
    | PCompare(column: string, cmp: Comparator, param: nat)
    | PBetween(column: string, low: nat, high: nat)
    | PIn(column: string, params: seq<nat>)
    | PLike(column: string, param: nat, esc: char)
    | PNull(column: string, isNull: bool)

  datatype Verb = KNull(isNull: bool) | KCompare(cmp: Comparator) | KBetween | KIn | KLike

  /** The comparison operators of the SQL standard. */
  function OperatorSpelling(cmp: Comparator): string {
    match cmp
    case Eq => " = "
    case Neq => " <> "
    case Gt => " > "
    case Gte => " >= "
    case Lt => " < "
    case Lte => " <= "
  }

  /** How the language spells each verb; what the compiler prints is held against this. */
  function Spelling(k: Verb): string {
    match k
    case KNull(isNull) => if isNull then " IS NULL" else " IS NOT NULL"
    case KCompare(cmp) => OperatorSpelling(cmp)
    case KBetween => " BETWEEN "
    case KIn => " IN ("
    case KLike => " LIKE "
  }

  function ParseIdent(s: string): (r: Parsed<string>)
    ensures r.Got? ==> |r.rest| < |s|
  {
    ReadQuoted('[', ']', s)
  }

  function ParseKeywordFrom(s: string, keywords: seq<Verb>): (r: Parsed<Verb>)
    ensures r.Got? ==> |r.rest| <= |s|
  {
    if keywords == [] then Fail
    else
      match After(s, Spelling(keywords[0]))
      case Some(rest) => Got(keywords[0], rest)
      case None => ParseKeywordFrom(s, keywords[1..])
  }

  const KEYWORDS: seq<Verb> :=
    [KNull(true), KNull(false), KCompare(Eq), KCompare(Neq), KCompare(Gt), KCompare(Gte), KCompare(Lt), KCompare(Lte),
     KBetween, KIn, KLike]

  function ParseParam(s: string): (r: Parsed<nat>)
    ensures r.Got? ==> |r.rest| < |s|
  {
    match After(s, "@p")
    case None => Fail
    case Some(rest) =>
      var k := DigitRun(rest);
      if k == 0 then Fail else Got(DecimalValue(rest[..k]), rest[k..])
  }

  /** One or more parameters, then the closing parenthesis. */
  function ParseParamList(s: string): (r: Parsed<seq<nat>>)
    ensures r.Got? ==> |r.rest| < |s|
    decreases |s|
  {
    match ParseParam(s)
    case Fail => Fail
    case Got(n, rest) =>
      if After(rest, ")").Some? then Got([n], After(rest, ")").value)
      else if After(rest, ", ").Some? then
        match ParseParamList(After(rest, ", ").value)
        case Fail => Fail
        case Got(ns, rest') => Got([n] + ns, rest')
      else Fail
  }

  function ParsePredicate(s: string): (r: Parsed<Predicate>)
    ensures r.Got? ==> |r.rest| < |s|
  {
    match ParseIdent(s)
    case Fail => Fail
    case Got(column, afterColumn) =>
      match ParseKeywordFrom(afterColumn, KEYWORDS)
      case Fail => Fail
      case Got(k, rest) => ParseOperands(column, k, rest)
  }

  function ParseOperands(column: string, k: Verb, s: string): (r: Parsed<Predicate>)
    ensures r.Got? ==> |r.rest| <= |s|
  {
    match k
    case KNull(isNull) => Got(PNull(column, isNull), s)
    case KCompare(cmp) =>
      (match ParseParam(s)
       case Fail => Fail
       case Got(n, rest) => Got(PCompare(column, cmp, n), rest))
    case KBetween =>
      (match ParseParam(s)
       case Fail => Fail
       case Got(low, rest) =>
         match After(rest, " AND ")
         case None => Fail
         case Some(rest') =>
           match ParseParam(rest')
           case Fail => Fail
           case Got(high, rest'') => Got(PBetween(column, low, high), rest''))
    case KIn =>
      (match ParseParamList(s)
       case Fail => Fail
       case Got(ns, rest) => Got(PIn(column, ns), rest))
    case KLike =>
      (match ParseParam(s)
       case Fail => Fail
       case Got(n, rest) =>
         match After(rest, " ESCAPE '")
         case None => Fail
         case Some(q) => if |q| > 1 && q[1] == '\'' then Got(PLike(column, n, q[0]), q[2..]) else Fail)
  }

  /** A WHERE formula: AND binds closer than OR, and parentheses hold a whole formula. */
  datatype Formula = Atom(p: Predicate) | AllOf(parts: seq<Formula>) | AnyOf(parts: seq<Formula>)

  type Parser = string -> Parsed<seq<Formula>>

  /** One reading in front of the others, if both succeeded. */
  function Ahead(f: Option<Formula>, r: Parsed<seq<Formula>>): (r': Parsed<seq<Formula>>)
    ensures r'.Got? ==> r.Got? && r'.rest == r.rest
  {
    if f.None? || r.Fail? then Fail else Got([f.value] + r.value, r.rest)
  }

  /** Alternatives joined with OR. */
  function ParseAny(s: string): (r: Parsed<seq<Formula>>)
    ensures r.Got? ==> |r.rest| < |s|
    decreases |s|, 2
  {
    match ParseAll(s)
    case Fail => Fail
    case Got(parts, rest) =>
      Ahead(Some(AllOf(parts)), match After(rest, " OR ")
                                case None => Got([], rest)
                                case Some(more) => ParseAny(more))
  }

  /** Parts joined with AND. */
  function ParseAll(s: string): (r: Parsed<seq<Formula>>)
    ensures r.Got? ==> |r.rest| < |s|
    decreases |s|, 1
  {
    match ParsePart(s)
    case Fail => Fail
    case Got(part, rest) =>
      Ahead(Some(part), match After(rest, " AND ")
                        case None => Got([], rest)
                        case Some(more) => ParseAll(more))
  }

  /** A predicate, or a formula in parentheses. */
  function ParsePart(s: string): (r: Parsed<Formula>)
    ensures r.Got? ==> |r.rest| < |s|
    decreases |s|, 0
  {
    match After(s, "(")
    case None => (match ParsePredicate(s) case Fail => Fail case Got(p, rest) => Got(Atom(p), rest))
    case Some(inside) =>
      match ParseAny(inside)
      case Fail => Fail
      case Got(parts, rest) =>
        match After(rest, ")")
        case None => Fail
        case Some(rest') => Got(AnyOf(parts), rest')
  }

  /** A query without a WHERE part filters nothing. */
  function ParseWhere(s: string): Option<Formula> {
    if s == "" then Some(AllOf([]))
    else
      match After(s, " WHERE ")
      case None => None
      case Some(body) =>
        var r := ParseAny(body);
        if r.Got? && r.rest == "" then Some(AnyOf(r.value)) else None
  }

  // ---- Reading back what the compiler prints ----

  function ParamRun(n: nat, count: nat): (ns: seq<nat>)
    ensures |ns| == count && forall k :: 0 <= k < count ==> ns[k] == n + k
  {
    seq(count, k requires 0 <= k < count => n + k)
  }

  /** The predicate a condition should be read back as when its first placeholder is number n. */
  function PredicateOf(c: FilterCondition, esc: char, n: nat): Predicate
    requires !c.UnknownOp?
  {
    match c
    case NullTest(column, isNull) => PNull(column, isNull)
    case Compare(column, cmp, _) => PCompare(column, cmp, n)
    case Between(column, _, _) => PBetween(column, n, n + 1)
    case InList(column, vs) => PIn(column, ParamRun(n, |vs|))
    case StartsWith(column, _) => PLike(column, n, esc)
  }

  lemma {:induction false} ParseQuotedBody(name: string, rest: string)
    requires rest == "" || rest[0] != ']'
    ensures ReadBody(']', Like.PerChar(name, Like.Swap(']', "]]")) + ("]" + rest)) == Got(name, rest)
  {
    var twice := Like.Swap(']', "]]");
    var s := Like.PerChar(name, twice) + ("]" + rest);
    if name == "" {
      assert s == "]" + rest;
      assert s[1..] == rest;
    } else {
      var tail := Like.PerChar(name[1..], twice) + ("]" + rest);
      ParseQuotedBody(name[1..], rest);
      Associate(twice(name[0]), Like.PerChar(name[1..], twice), "]" + rest);
      assert s == twice(name[0]) + tail;
      ParseCharacter(name[0], tail);
      assert name == [name[0]] + name[1..];
    }
  }

  lemma ParseCharacter(c: char, tail: string)
    ensures ReadBody(']', Like.Swap(']', "]]")(c) + tail) == Consing(c, ReadBody(']', tail))
  {
    if c == ']' {
      assert ("]]" + tail)[2..] == tail;
    } else {
      assert ([c] + tail)[1..] == tail;
    }
  }

  lemma ParseQuoted(name: string, rest: string)
    requires rest == "" || rest[0] != ']'
    ensures ParseIdent(QuoteIdent(name) + rest) == Got(name, rest)
  {
    ParseQuotedBody(name, rest);
    var body := Like.PerChar(name, Like.Swap(']', "]]"));
    assert (QuoteIdent(name) + rest)[1..] == body + ("]" + rest);
  }

  /** A text that shows one spelling cannot also start with a different one: no spelling extends another. */
  lemma SpellingsAreDistinct(k: Verb, j: Verb, rest: string)
    requires k != j
    ensures After(Spelling(k) + rest, Spelling(j)) == None
  {
    var i := if Spelling(k)[1] != Spelling(j)[1] then 1 else if Spelling(k)[2] != Spelling(j)[2] then 2 else 5;
    assert i < |Spelling(k)| && i < |Spelling(j)| && Spelling(k)[i] != Spelling(j)[i];
  }

  lemma {:induction false} ParseSpelled(k: Verb, rest: string, keywords: seq<Verb>)
    requires k in keywords
    ensures ParseKeywordFrom(Spelling(k) + rest, keywords) == Got(k, rest)
  {
    if keywords[0] == k {
      AfterPrefix(Spelling(k), rest);
    } else {
      SpellingsAreDistinct(k, keywords[0], rest);
      ParseSpelled(k, rest, keywords[1..]);
    }
  }

  lemma EveryKeyword(k: Verb)
    ensures k in KEYWORDS
  {
    var i :=
      match k
      case KNull(isNull) => if isNull then 0 else 1
      case KCompare(cmp) => (match cmp case Eq => 2 case Neq => 3 case Gt => 4 case Gte => 5 case Lt => 6 case Lte => 7)
      case KBetween => 8
      case KIn => 9
      case KLike => 10;
    assert KEYWORDS[i] == k;
  }

  predicate NotDigitFirst(s: string) {
    s == "" || !IsDigit(s[0])
  }

  lemma ParsePlaceholder(n: nat, rest: string)
    requires NotDigitFirst(rest)
    ensures ParseParam(Placeholder(n) + rest) == Got(n, rest)
  {
    assert Placeholder(n) + rest == "@p" + (Decimal(n) + rest);
    AfterPrefix("@p", Decimal(n) + rest);
    DigitRunStops(Decimal(n), rest);
    DecimalRoundTrip(n);
    assert (Decimal(n) + rest)[..|Decimal(n)|] == Decimal(n);
  }

  lemma HoleListText(n: nat, count: nat)
    requires count > 0
    ensures Fill(HoleList(count), n, Placeholder) ==
            Placeholder(n) + if count == 1 then "" else ", " + Fill(HoleList(count - 1), n + 1, Placeholder)
  {
    FillOne(Slot, n, Placeholder);
    if count > 1 {
      FillTwo(Slot, Lit(", "), n, Placeholder);
      FillConcat([Slot, Lit(", ")], HoleList(count - 1), n, Placeholder);
      FillOne(Lit(", "), n + 1, Placeholder);
    }
  }

  lemma ListStep(n: nat, more: string)
    ensures ParseParamList(Placeholder(n) + (", " + more)) ==
            match ParseParamList(more) case Fail => Fail case Got(ns, rest) => Got([n] + ns, rest)
  {
    ListStepOf(Placeholder(n) + (", " + more), n, more) by { ParsePlaceholder(n, ", " + more); }
  }

  lemma ListStepOf(text: string, n: nat, more: string)
    requires ParseParam(text) == Got(n, ", " + more)
    ensures ParseParamList(text) ==
            match ParseParamList(more) case Fail => Fail case Got(ns, rest) => Got([n] + ns, rest)
  {
    StartsOtherwise(", " + more, ")");
    AfterPrefix(", ", more);
  }

  lemma ListEnd(n: nat, rest: string)
    ensures ParseParamList(Placeholder(n) + (")" + rest)) == Got([n], rest)
  {
    ParsePlaceholder(n, ")" + rest);
    AfterPrefix(")", rest);
  }

  /** `count` placeholders from number n, as the IN list shows them. */
  lemma {:induction false} ParsePrintedList(n: nat, count: nat, rest: string)
    requires count > 0
    ensures ParseParamList(Fill(HoleList(count), n, Placeholder) + (")" + rest)) == Got(ParamRun(n, count), rest)
    decreases count
  {
    HoleListText(n, count);
    if count == 1 {
      ListEnd(n, rest);
      assert Placeholder(n) + "" == Placeholder(n) && ParamRun(n, 1) == [n];
    } else {
      var more := Fill(HoleList(count - 1), n + 1, Placeholder);
      ListStep(n, more + (")" + rest));
      ParsePrintedList(n + 1, count - 1, rest);
      RegroupText(Placeholder(n), ", ", more, ")" + rest);
      ParamRunStep(n, count);
    }
  }

  lemma ParamRunStep(n: nat, count: nat)
    requires count > 0
    ensures ParamRun(n, count) == [n] + ParamRun(n + 1, count - 1)
  {
  }

  function VerbOf(c: FilterCondition): (k: Verb)
    requires !c.UnknownOp?
    ensures Spelling(k) == Keyword(c)
  {
    match c
    case NullTest(_, isNull) => KNull(isNull)
    case Compare(_, cmp, _) => KCompare(cmp)
    case Between(_, _, _) => KBetween
    case InList(_, _) => KIn
    case StartsWith(_, _) => KLike
  }

  function OperandText(c: FilterCondition, esc: char, n: nat): string {
    Fill(Operands(c, esc), n, Placeholder)
  }

  predicate EmptyIn(c: FilterCondition) {
    c.InList? && c.values == []
  }

  lemma BetweenReadsBack(column: string, n: nat, rest: string)
    requires NotDigitFirst(rest)
    ensures ParseOperands(column, KBetween, Placeholder(n) + (" AND " + (Placeholder(n + 1) + rest))) ==
            Got(PBetween(column, n, n + 1), rest)
  {
    var second := Placeholder(n + 1) + rest;
    ParsePlaceholder(n, " AND " + second);
    AfterPrefix(" AND ", second);
    ParsePlaceholder(n + 1, rest);
  }

  lemma LikeReadsBack(column: string, n: nat, esc: char, rest: string)
    ensures ParseOperands(column, KLike, Placeholder(n) + (EscapeClause(esc) + rest)) ==
            Got(PLike(column, n, esc), rest)
  {
    var quoted := [esc, '\''] + rest;
    assert EscapeClause(esc) + rest == " ESCAPE '" + quoted;
    ParsePlaceholder(n, " ESCAPE '" + quoted);
    AfterPrefix(" ESCAPE '", quoted);
    assert quoted[2..] == rest;
  }

  lemma InReadsBack(column: string, n: nat, count: nat, rest: string)
    ensures ParseOperands(column, KIn, Fill(HoleList(count), n, Placeholder) + (")" + rest)) ==
            if count == 0 then Fail else Got(PIn(column, ParamRun(n, count)), rest)
  {
    if count == 0 {
      assert Fill(HoleList(0), n, Placeholder) + (")" + rest) == ")" + rest;
      StartsOtherwise(")" + rest, "@p");
    } else {
      ParsePrintedList(n, count, rest);
    }
  }

  lemma OperandsReadBack(c: FilterCondition, esc: char, n: nat, rest: string)
    requires ConditionError(c) == None && NotDigitFirst(rest)
    ensures ParseOperands(c.column, VerbOf(c), OperandText(c, esc, n) + rest) ==
            if EmptyIn(c) then Fail else Got(PredicateOf(c, esc, n), rest)
  {
    match c {
      case NullTest(_, _) => assert OperandText(c, esc, n) + rest == rest;
      case Compare(_, _, _) =>
        FillOne(Slot, n, Placeholder);
        ParsePlaceholder(n, rest);
      case Between(column, _, _) =>
        BetweenText(n, Placeholder);
        RegroupText(Placeholder(n), " AND ", Placeholder(n + 1), rest);
        BetweenReadsBack(column, n, rest);
      case InList(column, vs) =>
        ListText(|vs|, n, Placeholder);
        Associate(Fill(HoleList(|vs|), n, Placeholder), ")", rest);
        InReadsBack(column, n, |vs|, rest);
      case StartsWith(column, _) =>
        EscapeText(esc, n, Placeholder);
        Associate(Placeholder(n), EscapeClause(esc), rest);
        LikeReadsBack(column, n, esc, rest);
    }
  }

  lemma PredicateReadsBack(column: string, k: Verb, operands: string)
    ensures ParsePredicate(QuoteIdent(column) + (Spelling(k) + operands)) == ParseOperands(column, k, operands)
  {
    assert Spelling(k)[0] == ' ';
    ParseQuoted(column, Spelling(k) + operands);
    EveryKeyword(k);
    ParseSpelled(k, operands, KEYWORDS);
  }

  /** A printed condition reads back as itself, except that an empty IN list does not read back at all. */
  lemma ConditionReadsBack(c: FilterCondition, esc: char, n: nat, rest: string)
    requires ConditionError(c) == None && NotDigitFirst(rest)
    ensures ParsePredicate(Fill(Fragment(c, Adapter(QuoteIdent, esc)), n, Placeholder) + rest) ==
            if EmptyIn(c) then Fail else Got(PredicateOf(c, esc, n), rest)
  {
    FragmentText(c, Adapter(QuoteIdent, esc), n, Placeholder);
    Associate(QuoteIdent(c.column), Keyword(c), OperandText(c, esc, n));
    RegroupText(QuoteIdent(c.column), Keyword(c), OperandText(c, esc, n), rest);
    PredicateReadsBack(c.column, VerbOf(c), OperandText(c, esc, n) + rest);
    OperandsReadBack(c, esc, n, rest);
  }

  lemma RegroupText(a: string, b: string, c: string, d: string)
    ensures a + (b + c) + d == a + (b + (c + d))
  {
  }

  predicate NoEmptyIn(filter: seq<FilterCondition>) {
    forall c :: c in filter ==> !EmptyIn(c)
  }

  function MeaningBy(esc: char): (FilterCondition, nat) -> Option<Formula> {
    (c: FilterCondition, n: nat) => if c.UnknownOp? || EmptyIn(c) then None else Some(Atom(PredicateOf(c, esc, n)))
  }

  /** What a conjunction must read back as. */
  function ReadBack(filter: seq<FilterCondition>, esc: char, n: nat): Option<seq<Formula>> {
    ReadEach(filter, n, MeaningBy(esc), BindingsBy(Adapter(QuoteIdent, esc)))
  }

  /** The meanings of the items, if each has one. */
  function ReadEach<C, V>(xs: seq<C>, n: nat, meaning: (C, nat) -> Option<Formula>, values: C -> seq<V>)
    : Option<seq<Formula>>
  {
    if xs == [] then Some([])
    else
      var first, others := meaning(xs[0], n), ReadEach(xs[1..], n + |values(xs[0])|, meaning, values);
      if first.None? || others.None? then None else Some([first.value] + others.value)
  }

  /** All of them in front of what follows. */
  function Onto(fs: Option<seq<Formula>>, r: Parsed<seq<Formula>>): Parsed<seq<Formula>> {
    if fs.None? || r.Fail? then Fail else Got(fs.value + r.value, r.rest)
  }

  /** What a list parser makes of the text behind an item. */
  function Continued(parse: Parser, sep: string, tail: string): Parsed<seq<Formula>> {
    match After(tail, sep)
    case None => Got([], tail)
    case Some(more) => parse(more)
  }

  lemma OntoStep(f: Option<Formula>, fs: Option<seq<Formula>>, r: Parsed<seq<Formula>>)
    ensures Onto(if f.None? || fs.None? then None else Some([f.value] + fs.value), r) == Ahead(f, Onto(fs, r))
    ensures Onto(Some([]), r) == r
  {
    if f.Some? && fs.Some? && r.Got? {
      assert [f.value] + fs.value + r.value == [f.value] + (fs.value + r.value);
    }
    if r.Got? { assert [] + r.value == r.value; }
  }

  /** The parser reads the item rightly in front of anything that may follow. */
  ghost predicate ReadsItem<C, V>(
      parse: Parser, sep: string, follows: string -> bool, x: C, show: C -> seq<Chunk>,
      meaning: (C, nat) -> Option<Formula>, values: C -> seq<V>) {
    && Slots(show(x)) == |values(x)|
    && forall n: nat, tail {:trigger parse(Fill(show(x), n, Placeholder) + tail)} ::
         follows(tail) ==>
           parse(Fill(show(x), n, Placeholder) + tail) == Ahead(meaning(x, n), Continued(parse, sep, tail))
  }

  lemma ReadsOn(
      parse: Parser, sep: string, f: Option<Formula>, first: string, others: string, tail: string,
      rest: Parsed<seq<Formula>>)
    requires parse(others + tail) == rest
    requires var t := sep + (others + tail); parse(first + t) == Ahead(f, Continued(parse, sep, t))
    ensures parse(first + (sep + others) + tail) == Ahead(f, rest)
  {
    Associate(first, sep + others, tail);
    Associate(sep, others, tail);
    AfterPrefix(sep, others + tail);
  }

  /** Then it reads every list of such items rightly. */
  lemma {:induction false} ChainReadsBack<C, V>(
      xs: seq<C>, n: nat, tail: string, parse: Parser, sep: string, follows: string -> bool, show: C -> seq<Chunk>,
      meaning: (C, nat) -> Option<Formula>, values: C -> seq<V>)
    requires xs != [] && follows(tail) && forall more :: follows(sep + more)
    requires forall i :: 0 <= i < |xs| ==> ReadsItem(parse, sep, follows, xs[i], show, meaning, values)
    ensures parse(Fill(Chained(xs, show, sep), n, Placeholder) + tail) ==
            Onto(ReadEach(xs, n, meaning, values), Continued(parse, sep, tail))
  {
    var f, m, rest := meaning(xs[0], n), n + |values(xs[0])|, Continued(parse, sep, tail);
    var fs := ReadEach(xs[1..], m, meaning, values);
    OntoStep(f, fs, rest);
    if |xs| == 1 {
      UseItem(parse, sep, follows, xs[0], n, tail, show, meaning, values);
    } else {
      ChainReadsBack(xs[1..], m, tail, parse, sep, follows, show, meaning, values);
      ChainStep(xs, n, tail, parse, sep, follows, show, meaning, values, Onto(fs, rest));
    }
  }

  lemma UseItem<C, V>(
      parse: Parser, sep: string, follows: string -> bool, x: C, n: nat, tail: string, show: C -> seq<Chunk>,
      meaning: (C, nat) -> Option<Formula>, values: C -> seq<V>)
    requires ReadsItem(parse, sep, follows, x, show, meaning, values) && follows(tail)
    ensures parse(Fill(show(x), n, Placeholder) + tail) == Ahead(meaning(x, n), Continued(parse, sep, tail))
  {
  }

  lemma ChainStep<C, V>(
      xs: seq<C>, n: nat, tail: string, parse: Parser, sep: string, follows: string -> bool, show: C -> seq<Chunk>,
      meaning: (C, nat) -> Option<Formula>, values: C -> seq<V>, others: Parsed<seq<Formula>>)
    requires |xs| > 1 && ReadsItem(parse, sep, follows, xs[0], show, meaning, values)
    requires forall more :: follows(sep + more)
    requires parse(Fill(Chained(xs[1..], show, sep), n + |values(xs[0])|, Placeholder) + tail) == others
    ensures parse(Fill(Chained(xs, show, sep), n, Placeholder) + tail) == Ahead(meaning(xs[0], n), others)
  {
    var text := Fill(Chained(xs[1..], show, sep), n + |values(xs[0])|, Placeholder);
    ChainedText(xs, show, sep, n, Placeholder);
    UseItem(parse, sep, follows, xs[0], n, sep + (text + tail), show, meaning, values);
    ReadsOn(parse, sep, meaning(xs[0], n), Fill(show(xs[0]), n, Placeholder), text, tail, others);
  }

  lemma ConjunctionReadsBack(filter: seq<FilterCondition>, esc: char, n: nat, tail: string)
    requires filter != [] && FirstError(filter) == None && NotDigitFirst(tail)
    ensures ParseAll(Fill(Conjunction(filter, Adapter(QuoteIdent, esc)), n, Placeholder) + tail) ==
            Onto(ReadBack(filter, esc, n), Continued(ParseAll, " AND ", tail))
  {
    var a := Adapter(QuoteIdent, esc);
    NoErrorMeansNone(filter);
    forall i | 0 <= i < |filter|
      ensures ReadsItem(ParseAll, " AND ", NotDigitFirst, filter[i], FragmentBy(a), MeaningBy(esc), BindingsBy(a))
    {
      ConditionIsRead(filter[i], esc);
    }
    forall more ensures NotDigitFirst(" AND " + more) {
      assert (" AND " + more)[0] == ' ';
    }
    ChainReadsBack(filter, n, tail, ParseAll, " AND ", NotDigitFirst, FragmentBy(a), MeaningBy(esc), BindingsBy(a));
  }

  lemma ConditionIsRead(c: FilterCondition, esc: char)
    requires ConditionError(c) == None
    ensures var a := Adapter(QuoteIdent, esc);
            ReadsItem(ParseAll, " AND ", NotDigitFirst, c, FragmentBy(a), MeaningBy(esc), BindingsBy(a))
  {
    var a := Adapter(QuoteIdent, esc);
    FragmentText(c, a, 0, Placeholder);
    forall n: nat, tail | NotDigitFirst(tail)
      ensures ParseAll(Fill(FragmentBy(a)(c), n, Placeholder) + tail) ==
              Ahead(MeaningBy(esc)(c, n), Continued(ParseAll, " AND ", tail))
    {
      FirstReadsBack(c, esc, n, tail);
    }
  }

  lemma FirstReadsBack(c: FilterCondition, esc: char, n: nat, tail: string)
    requires ConditionError(c) == None && NotDigitFirst(tail)
    ensures ParseAll(Fill(Fragment(c, Adapter(QuoteIdent, esc)), n, Placeholder) + tail) ==
            Ahead(MeaningBy(esc)(c, n), Continued(ParseAll, " AND ", tail))
  {
    var text := Fill(Fragment(c, Adapter(QuoteIdent, esc)), n, Placeholder);
    FragmentText(c, Adapter(QuoteIdent, esc), n, Placeholder);
    assert (text + tail)[0] == '[';
    StartsOtherwise(text + tail, "(");
    ConditionReadsBack(c, esc, n, tail);
  }

  lemma {:induction false} ReadBackIsComplete(filter: seq<FilterCondition>, esc: char, n: nat)
    requires FirstError(filter) == None
    ensures ReadBack(filter, esc, n).Some? <==> NoEmptyIn(filter)
  {
    if filter != [] {
      ReadBackIsComplete(filter[1..], esc, n + |Bindings(filter[0], Adapter(QuoteIdent, esc))|);
      assert filter == [filter[0]] + filter[1..];
    }
  }

  /** The whole formula of a filter. */
  function WhereFormula(filter: seq<FilterCondition>, esc: char): Option<Formula> {
    if filter == [] then Some(AllOf([]))
    else
      match ReadBack(filter, esc, 1)
      case None => None
      case Some(parts) => Some(AnyOf([AllOf(parts)]))
  }

  /** A list of parts with nothing behind it is one alternative. */
  lemma AloneInAny(s: string, parts: seq<Formula>, tail: string)
    requires ParseAll(s) == Got(parts, tail) && After(tail, " OR ") == None
    ensures ParseAny(s) == Got([AllOf(parts)], tail)
  {
    assert [AllOf(parts)] + [] == [AllOf(parts)];
  }

  /** The finished WHERE text parses exactly when no IN list is empty, and then says what was asked. */
  lemma WhereReadsBack(filter: seq<FilterCondition>, esc: char)
    requires FirstError(filter) == None
    ensures ParseWhere(Fill(WhereChunks(filter, Adapter(QuoteIdent, esc)), 1, Placeholder)) == WhereFormula(filter, esc)
    ensures WhereFormula(filter, esc).Some? <==> NoEmptyIn(filter)
  {
    var a := Adapter(QuoteIdent, esc);
    ReadBackIsComplete(filter, esc, 1);
    if filter != [] {
      var body, parts := Fill(Conjunction(filter, a), 1, Placeholder), ReadBack(filter, esc, 1);
      FillOne(Lit(" WHERE "), 1, Placeholder);
      FillConcat([Lit(" WHERE ")], Conjunction(filter, a), 1, Placeholder);
      AfterPrefix(" WHERE ", body);
      ConjunctionReadsBack(filter, esc, 1, "");
      assert body + "" == body;
      if parts.Some? {
        assert parts.value + [] == parts.value;
        AloneInAny(body, parts.value, "");
      }
    }
  }

  // ---- Three-valued evaluation ----

  datatype Truth = True | False | Unknown

  /** A row: every column has a value or is NULL. */
  type Row = string -> Option<Scalar>

  /** The database's own comparison of scalars and its text form of them. */
  datatype Database = Database(compare: (Comparator, Scalar, Scalar) -> bool, asText: Scalar -> string)

  function Known(b: bool): Truth {
    if b then True else False
  }

  function And3(x: Truth, y: Truth): Truth {
    if x == False || y == False then False else if x == True && y == True then True else Unknown
  }

  function Or3(x: Truth, y: Truth): Truth {
    if x == True || y == True then True else if x == False && y == False then False else Unknown
  }

  function Param(params: seq<Scalar>, n: nat): Option<Scalar> {
    if 1 <= n <= |params| then Some(params[n - 1]) else None
  }

  function Compare3(cmp: Comparator, x: Option<Scalar>, y: Option<Scalar>, db: Database): Truth {
    if x.Some? && y.Some? then Known(db.compare(cmp, x.value, y.value)) else Unknown
  }

  function AnyEqual3(x: Option<Scalar>, ns: seq<nat>, params: seq<Scalar>, db: Database): Truth {
    if ns == [] then False else Or3(Compare3(Eq, x, Param(params, ns[0]), db), AnyEqual3(x, ns[1..], params, db))
  }

  function EvalPredicate(p: Predicate, params: seq<Scalar>, row: Row, db: Database): Truth {
    match p
    case PNull(column, isNull) => Known(row(column).None? == isNull)
    case PCompare(column, cmp, n) => Compare3(cmp, row(column), Param(params, n), db)
    case PBetween(column, low, high) =>
      And3(Compare3(Gte, row(column), Param(params, low), db), Compare3(Lte, row(column), Param(params, high), db))
    case PIn(column, ns) => AnyEqual3(row(column), ns, params, db)
    case PLike(column, n, esc) =>
      var x, pattern := row(column), Param(params, n);
      if x.Some? && pattern.Some? && pattern.value.Text? then
        Known(Like.Like(db.asText(x.value), pattern.value.text, esc))
      else Unknown
  }

  function EvalFormula(f: Formula, params: seq<Scalar>, row: Row, db: Database): Truth {
    match f
    case Atom(p) => EvalPredicate(p, params, row, db)
    case AllOf(parts) => EvalAll(parts, params, row, db)
    case AnyOf(parts) => EvalAny(parts, params, row, db)
  }

  function EvalAll(fs: seq<Formula>, params: seq<Scalar>, row: Row, db: Database): Truth {
    if fs == [] then True else And3(EvalFormula(fs[0], params, row, db), EvalAll(fs[1..], params, row, db))
  }

  function EvalAny(fs: seq<Formula>, params: seq<Scalar>, row: Row, db: Database): Truth {
    if fs == [] then False else Or3(EvalFormula(fs[0], params, row, db), EvalAny(fs[1..], params, row, db))
  }

  /** A WHERE part keeps the rows it is true of; false and unknown both drop a row. */
  predicate Selects(sql: string, params: seq<Scalar>, row: Row, db: Database) {
    var f := ParseWhere(sql);
    f.Some? && EvalFormula(f.value, params, row, db) == True
  }

  /** What a condition asks of a row. */
  predicate Satisfies(c: FilterCondition, row: Row, db: Database) {
    match c
    case NullTest(column, isNull) => row(column).None? == isNull
    case Compare(column, cmp, v) => row(column).Some? && db.compare(cmp, row(column).value, v)
    case Between(column, low, high) =>
      row(column).Some? && db.compare(Gte, row(column).value, low) && db.compare(Lte, row(column).value, high)
    case InList(column, vs) => row(column).Some? && exists v :: v in vs && db.compare(Eq, row(column).value, v)
    case StartsWith(column, v) => row(column).Some? && v.Text? && IsPrefix(v.text, db.asText(row(column).value))
    case UnknownOp(_, _) => false
  }

  // ---- Meaning ----

  lemma {:induction false} AnyEqualMeaning(x: Option<Scalar>, before: seq<Scalar>, vs: seq<Scalar>, after: seq<Scalar>,
                                           db: Database)
    ensures AnyEqual3(x, ParamRun(|before| + 1, |vs|), before + vs + after, db) == True <==>
            x.Some? && exists v :: v in vs && db.compare(Eq, x.value, v)
    decreases |vs|
  {
    if vs != [] {
      var params := before + vs + after;
      ParamRunStep(|before| + 1, |vs|);
      assert params[|before|] == vs[0];
      AnyEqualMeaning(x, before + [vs[0]], vs[1..], after, db);
      assert before + [vs[0]] + vs[1..] + after == params;
      assert vs == [vs[0]] + vs[1..];
      assert ParamRun(|before| + 1, |vs|)[1..] == ParamRun(|before| + 2, |vs| - 1);
    }
  }

  lemma ConditionMeaning(c: FilterCondition, esc: char, before: seq<Scalar>, after: seq<Scalar>, row: Row, db: Database)
    requires ConditionError(c) == None && esc != '%' && esc != '_'
    ensures var bound := Bindings(c, Adapter(QuoteIdent, esc));
            EvalPredicate(PredicateOf(c, esc, |before| + 1), before + bound + after, row, db) == True
            <==> Satisfies(c, row, db)
  {
    var params := before + Bindings(c, Adapter(QuoteIdent, esc)) + after;
    match c {
      case NullTest(_, _) =>
      case Compare(_, _, v) => assert params[|before|] == v;
      case Between(_, low, high) => assert params[|before|] == low && params[|before| + 1] == high;
      case InList(column, vs) => AnyEqualMeaning(row(column), before, vs, after, db);
      case StartsWith(column, v) =>
        assert params[|before|] == Text(Like.PrefixPattern(v.text, esc));
        if row(column).Some? { Like.PrefixPatternIsExact(v.text, db.asText(row(column).value), esc); }
    }
  }

  lemma {:induction false} ReadBackMeaning(filter: seq<FilterCondition>, esc: char, before: seq<Scalar>,
                                           after: seq<Scalar>, row: Row, db: Database)
    requires FirstError(filter) == None && NoEmptyIn(filter) && esc != '%' && esc != '_'
    requires ReadBack(filter, esc, |before| + 1).Some?
    ensures EvalAll(ReadBack(filter, esc, |before| + 1).value,
                    before + AllBindings(filter, Adapter(QuoteIdent, esc)) + after, row, db) == True
            <==> forall c :: c in filter ==> Satisfies(c, row, db)
  {
    if filter != [] {
      var a := Adapter(QuoteIdent, esc);
      var c, others, bound := filter[0], filter[1..], Bindings(filter[0], a);
      var later := AllBindings(others, a) + after;
      assert before + AllBindings(filter, a) + after == before + bound + later;
      assert before + bound + later == before + bound + AllBindings(others, a) + after;
      ConditionMeaning(c, esc, before, later, row, db);
      ReadBackMeaning(others, esc, before + bound, after, row, db);
      assert filter == [c] + others;
    }
  }

  /** The compiled text with its parameters keeps exactly the rows that satisfy every condition, on every database and
      every row, whenever no IN list is empty; an empty IN list compiles to text that is not SQL. */
  lemma CompiledWhereMeansTheFilter(filter: seq<FilterCondition>, esc: char, row: Row, db: Database)
    requires FirstError(filter) == None && esc != '%' && esc != '_'
    ensures var a := Adapter(QuoteIdent, esc);
            var sql := Fill(WhereChunks(filter, a), 1, Placeholder);
            && (ParseWhere(sql).Some? <==> NoEmptyIn(filter))
            && (NoEmptyIn(filter) ==>
                  (Selects(sql, AllBindings(filter, a), row, db)
                   <==> forall c :: c in filter ==> Satisfies(c, row, db)))
  {
    WhereReadsBack(filter, esc);
    if NoEmptyIn(filter) {
      var a := Adapter(QuoteIdent, esc);
      FilterMeaning(filter, esc, row, db);
      SelectsAsParsed(Fill(WhereChunks(filter, a), 1, Placeholder), WhereFormula(filter, esc).value,
                      AllBindings(filter, a), row, db);
    }
  }

  lemma SelectsAsParsed(sql: string, f: Formula, params: seq<Scalar>, row: Row, db: Database)
    requires ParseWhere(sql) == Some(f)
    ensures Selects(sql, params, row, db) <==> EvalFormula(f, params, row, db) == True
  {
  }

  lemma FilterMeaning(filter: seq<FilterCondition>, esc: char, row: Row, db: Database)
    requires FirstError(filter) == None && NoEmptyIn(filter) && esc != '%' && esc != '_'
    requires WhereFormula(filter, esc).Some?
    ensures EvalFormula(WhereFormula(filter, esc).value, AllBindings(filter, Adapter(QuoteIdent, esc)), row, db) == True
            <==> forall c :: c in filter ==> Satisfies(c, row, db)
  {
    if filter != [] {
      var values := AllBindings(filter, Adapter(QuoteIdent, esc));
      ReadBackMeaning(filter, esc, [], [], row, db);
      assert [] + values + [] == values;
      OneAlternative(ReadBack(filter, esc, 1).value, values, row, db);
    }
  }

  lemma OneAlternative(parts: seq<Formula>, params: seq<Scalar>, row: Row, db: Database)
    ensures EvalFormula(AnyOf([AllOf(parts)]), params, row, db) == True <==> EvalAll(parts, params, row, db) == True
  {
    var all := AllOf(parts);
    assert [all][1..] == [];
    assert EvalAny([], params, row, db) == False;
    assert EvalFormula(all, params, row, db) == EvalAll(parts, params, row, db);
  }

  lemma {:induction false} QuotingAddsNoToken(name: string)
    requires ParamSink.TOKEN_CHAR !in name
    ensures ParamSink.TOKEN_CHAR !in QuoteIdent(name)
  {
    if name != "" {
      QuotingAddsNoToken(name[1..]);
      var f := Like.Swap(']', "]]");
      assert QuoteIdent(name) == "[" + (f(name[0]) + Like.PerChar(name[1..], f)) + "]";
      assert QuoteIdent(name[1..]) == "[" + Like.PerChar(name[1..], f) + "]";
    }
  }

  lemma SqlServerIsSafe()
    ensures SafeAdapter(SQL_SERVER)
  {
    forall name: string | ParamSink.TOKEN_CHAR !in name ensures ParamSink.TOKEN_CHAR !in SQL_SERVER.quoteIdent(name) {
      QuotingAddsNoToken(name);
    }
  }

  /** Compilation for SQL Server, end to end. */
  method CompileForSqlServer(filter: seq<FilterCondition>)
    returns (r: Result<ParamSink.Resolved<Scalar>, CompileError>)
    ensures r.Err? ==> Some(r.error) == FirstError(filter)
    ensures r.Ok? ==> FirstError(filter) == None && (ParseWhere(r.value.sql).Some? <==> NoEmptyIn(filter))
    ensures r.Ok? && NoEmptyIn(filter) ==>
              forall row, db :: Selects(r.value.sql, r.value.params, row, db)
                                <==> forall c :: c in filter ==> Satisfies(c, row, db)
  {
    SqlServerIsSafe();
    r := BuildWhere(filter, SQL_SERVER, Placeholder);
    if r.Ok? {
      WhereReadsBack(filter, '\\');
      forall row, db ensures NoEmptyIn(filter) ==>
          (Selects(r.value.sql, r.value.params, row, db) <==> forall c :: c in filter ==> Satisfies(c, row, db)) {
        CompiledWhereMeansTheFilter(filter, '\\', row, db);
      }
    }
  }
}
