/** The structured-query gate in front of the compiler, the catalog check beside it, and what the gate guarantees. */
module StructuredGuard {
  import opened Common
  import opened FilterCompiler
  import ParamSink
  import SqlWhere

  const MAX_IDENTIFIER_LENGTH := 128
  const MAX_ROWS := 1000
  const MAX_IN_VALUES := 1000

  datatype Cursor = Cursor(column: string)

  datatype StructuredQuery = StructuredQuery(
    table: string,
    columns: seq<string>,
    filter: seq<FilterCondition>,
    cursor: Option<Cursor>,
    limit: int)

  datatype Payload = OtherPayload(kind: string) | Structured(query: StructuredQuery)

  datatype Refusal =
    | WrongKind(kind: string)
    | BadTable
    | BadColumn(column: string)
    | BadFilterColumn(column: string)
    | BadOperator(operator: string)
    | EmptyInList(column: string)
    | LongInList(column: string)
    | BadCursor(column: string)
    | LimitTooHigh(limit: int)

  predicate ControlCharacter(c: char) {
    c as int <= 0x1f || c as int == 0x7f
  }

  predicate SafeIdentifier(s: string) {
    1 <= |s| <= 128 && forall i :: 0 <= i < |s| ==> !ControlCharacter(s[i])
  }

  method IsSafeIdentifier(value: string) returns (safe: bool)
    ensures safe <==> SafeIdentifier(value)
  {
    if |value| == 0 || |value| > MAX_IDENTIFIER_LENGTH { return false; }
    for i := 0 to |value|
      invariant forall j :: 0 <= j < i ==> !ControlCharacter(value[j])
    {
      var code := value[i] as int;
      if code <= 0x1f || code == 0x7f { return false; }
    }
    return true;
  }

  predicate InListLengthOk(c: FilterCondition) {
    c.InList? ==> 1 <= |c.values| <= 1000
  }

  predicate AcceptableCondition(c: FilterCondition) {
    SafeIdentifier(c.column) && !c.UnknownOp? && InListLengthOk(c)
  }

  /** The refusal is true of the condition, and no earlier test was. */
  predicate ConditionRefused(c: FilterCondition, why: Refusal) {
    match why
    case BadFilterColumn(column) => column == c.column && !SafeIdentifier(column)
    case BadOperator(op) => SafeIdentifier(c.column) && c.UnknownOp? && op == c.operator
    case EmptyInList(column) => SafeIdentifier(c.column) && c.InList? && column == c.column && c.values == []
    case LongInList(column) =>
      SafeIdentifier(c.column) && c.InList? && column == c.column && |c.values| > 1000
    case _ => false
  }

  method ValidateCondition(c: FilterCondition) returns (error: Option<Refusal>)
    ensures error.None? <==> AcceptableCondition(c)
    ensures error.Some? ==> ConditionRefused(c, error.value)
  {
    var safe := IsSafeIdentifier(c.column);
    if !safe { return Some(BadFilterColumn(c.column)); }
    if c.UnknownOp? { return Some(BadOperator(c.operator)); }
    if c.InList? {
      if |c.values| == 0 { return Some(EmptyInList(c.column)); }
      if |c.values| > MAX_IN_VALUES { return Some(LongInList(c.column)); }
    }
    return None;
  }

  predicate GoodColumns(q: StructuredQuery, upTo: nat)
    requires upTo <= |q.columns|
  {
    SafeIdentifier(q.table) && forall i :: 0 <= i < upTo ==> SafeIdentifier(q.columns[i])
  }

  predicate GoodFilter(q: StructuredQuery, upTo: nat)
    requires upTo <= |q.filter|
  {
    GoodColumns(q, |q.columns|) && forall i :: 0 <= i < upTo ==> AcceptableCondition(q.filter[i])
  }

  predicate GoodCursor(q: StructuredQuery) {
    q.cursor.Some? ==> SafeIdentifier(q.cursor.value.column)
  }

  predicate Acceptable(q: StructuredQuery) {
    GoodFilter(q, |q.filter|) && GoodCursor(q) && q.limit <= 1000
  }

  /** The refusal names the first thing wrong with the query, in the order table, columns, filter, cursor, limit. */
  ghost predicate FirstFault(q: StructuredQuery, why: Refusal) {
    match why
    case WrongKind(_) => false
    case BadTable => !SafeIdentifier(q.table)
    case BadColumn(column) =>
      exists i :: 0 <= i < |q.columns| && GoodColumns(q, i) && q.columns[i] == column && !SafeIdentifier(column)
    case BadCursor(column) =>
      GoodFilter(q, |q.filter|) && !GoodCursor(q) && column == q.cursor.value.column
    case LimitTooHigh(limit) => GoodFilter(q, |q.filter|) && GoodCursor(q) && limit == q.limit > 1000
    case _ => exists i :: 0 <= i < |q.filter| && GoodFilter(q, i) && ConditionRefused(q.filter[i], why)
  }

  method ValidateStructuredQuery(payload: Payload) returns (r: Result<StructuredQuery, Refusal>)
    ensures payload.OtherPayload? ==> r == Err(WrongKind(payload.kind))
    ensures payload.Structured? ==> (r.Ok? <==> Acceptable(payload.query))
    ensures payload.Structured? && r.Ok? ==> r.value == payload.query
    ensures payload.Structured? && r.Err? ==> FirstFault(payload.query, r.error)
  {
    if payload.OtherPayload? { return Err(WrongKind(payload.kind)); }
    var q := payload.query;
    var tableOk := IsSafeIdentifier(q.table);
    if !tableOk { return Err(BadTable); }
    for i := 0 to |q.columns|
      invariant GoodColumns(q, i)
    {
      var columnOk := IsSafeIdentifier(q.columns[i]);
      if !columnOk { return Err(BadColumn(q.columns[i])); }
    }
    for i := 0 to |q.filter|
      invariant GoodFilter(q, i)
    {
      var error := ValidateCondition(q.filter[i]);
      if error.Some? { return Err(error.value); }
    }
    if q.cursor.Some? {
      var cursorOk := IsSafeIdentifier(q.cursor.value.column);
      if !cursorOk { return Err(BadCursor(q.cursor.value.column)); }
    }
    if q.limit > MAX_ROWS { return Err(LimitTooHigh(q.limit)); }
    return Ok(q);
  }

  // ---- What the gate guarantees the compiler ----

  predicate TextPrefix(c: FilterCondition) {
    c.StartsWith? ==> c.value.Text?
  }

  /** Every accepted query has a filter that compiles to well-formed SQL, except for one thing the gate does not look
      at: it compiles exactly when the values of its startsWith conditions are text. */
  lemma AcceptedCompiles(q: StructuredQuery)
    requires Acceptable(q)
    ensures FirstError(q.filter) == None <==> forall c :: c in q.filter ==> TextPrefix(c)
    ensures SqlWhere.NoEmptyIn(q.filter)
  {
    NoErrorMeansNone(q.filter);
    forall c | c in q.filter
      ensures AcceptableCondition(c)
      ensures ConditionError(c) == None <==> TextPrefix(c)
    {
      var i :| 0 <= i < |q.filter| && q.filter[i] == c;
      assert AcceptableCondition(q.filter[i]);
      assert ControlCharacter(ParamSink.TOKEN_CHAR);
    }
  }

  /** A query the gate accepts and the compiler refuses: a numeric prefix. */
  lemma GateAdmitsNumericPrefix()
    ensures var c := StartsWith("name", Number(1.0));
            Acceptable(StructuredQuery("t", ["name"], [c], None, 10)) && FirstError([c]) == Some(InvalidFilter("name"))
  {
  }

  // ---- The catalog check ----

  datatype CatalogTable = CatalogTable(name: string, columns: seq<string>)

  datatype ExtractRequest = ExtractRequest(table: string, columns: seq<string>, filter: seq<FilterCondition>)

  datatype ExtractError =
    | UnknownTable(table: string)
    | UnknownColumn(column: string)
    | UnknownFilterOperator(operator: string)
    | BadInList(column: string)

  function FindTable(tables: seq<CatalogTable>, name: string): (t: Option<CatalogTable>)
    ensures t.None? <==> forall i :: 0 <= i < |tables| ==> tables[i].name != name
    ensures t.Some? ==> exists i :: 0 <= i < |tables| && tables[i] == t.value && tables[i].name == name
                                    && forall j :: 0 <= j < i ==> tables[j].name != name
  {
    if tables == [] then None
    else if tables[0].name == name then Some(tables[0])
    else
      var rest := FindTable(tables[1..], name);
      assert forall i :: 0 < i < |tables| ==> tables[i] == tables[1..][i - 1];
      assert rest.Some? ==> forall i :: 0 <= i < |tables| - 1 ==> tables[1..][i] == tables[i + 1];
      rest
  }

  predicate ResolvableCondition(t: CatalogTable, c: FilterCondition) {
    c.column in t.columns && !c.UnknownOp? && InListLengthOk(c)
  }

  /** The error is true of this condition of the request, and no earlier test was. */
  predicate Unresolvable(t: CatalogTable, c: FilterCondition, why: ExtractError) {
    match why
    case UnknownColumn(column) => column == c.column && column !in t.columns
    case UnknownFilterOperator(op) => c.column in t.columns && c.UnknownOp? && op == c.operator
    case BadInList(column) =>
      c.column in t.columns && c.InList? && column == c.column && !(1 <= |c.values| <= 1000)
    case UnknownTable(_) => false
  }

  predicate KnownColumns(t: CatalogTable, columns: seq<string>) {
    forall i :: 0 <= i < |columns| ==> columns[i] in t.columns
  }

  predicate Resolvable(t: CatalogTable, filter: seq<FilterCondition>) {
    forall i :: 0 <= i < |filter| ==> ResolvableCondition(t, filter[i])
  }

  /** The error names the first thing wrong with the request: a selected column, or else a condition. */
  ghost predicate FirstUnresolved(t: CatalogTable, request: ExtractRequest, why: ExtractError) {
    if KnownColumns(t, request.columns) then
      exists i :: 0 <= i < |request.filter| && Resolvable(t, request.filter[..i])
                  && Unresolvable(t, request.filter[i], why)
    else
      exists i :: 0 <= i < |request.columns| && KnownColumns(t, request.columns[..i])
                  && request.columns[i] !in t.columns && why == UnknownColumn(request.columns[i])
  }

  /** Succeeds exactly when every name in the request is the catalog's own and every condition is well formed; the
      selected columns are the requested ones, or all of them. */
  method ValidateExtractRequest(tables: seq<CatalogTable>, request: ExtractRequest)
    returns (r: Result<(CatalogTable, seq<string>), ExtractError>)
    ensures FindTable(tables, request.table).None? ==> r == Err(UnknownTable(request.table))
    ensures FindTable(tables, request.table).Some? ==>
              var t := FindTable(tables, request.table).value;
              && (r.Ok? <==> KnownColumns(t, request.columns) && Resolvable(t, request.filter))
              && (r.Ok? ==> r.value == (t, if request.columns == [] then t.columns else request.columns))
              && (r.Ok? ==> forall c :: c in r.value.1 ==> c in t.columns)
              && (r.Err? ==> FirstUnresolved(t, request, r.error))
  {
    var found := FindTable(tables, request.table);
    if found.None? { return Err(UnknownTable(request.table)); }
    var t := found.value;
    for i := 0 to |request.columns|
      invariant KnownColumns(t, request.columns[..i])
    {
      var column := request.columns[i];
      if column !in t.columns { return Err(UnknownColumn(column)); }
    }
    for i := 0 to |request.filter|
      invariant Resolvable(t, request.filter[..i])
    {
      var c := request.filter[i];
      if c.column !in t.columns { return Err(UnknownColumn(c.column)); }
      if c.UnknownOp? { return Err(UnknownFilterOperator(c.operator)); }
      if c.InList? && (|c.values| == 0 || |c.values| > MAX_IN_VALUES) { return Err(BadInList(c.column)); }
    }
    return Ok((t, if |request.columns| > 0 then request.columns else t.columns));
  }
}
