/** Destination contracts: building one, its diff against an existing table, what the suggested ALTERs do to that
    diff, and its canonical form. */
module DestinationContract {
  import opened AlterStatements
  import opened Common
  import opened FieldNames
  import opened NativeTypes
  import opened StableSort
  import Json

  datatype ContractColumn = ContractColumn(
    sourcePath: string,
    destinationName: string,
    niaType: Json.Json,
    nativeType: string,
    fidelity: string,
    isKey: bool,
    nullable: bool,
    nestedFieldStrategy: string)

  datatype Contract =
    Contract(dialect: Dialect, entity: Entity, columns: seq<ContractColumn>, unknownFieldPolicy: string)

  // ---- Building a contract ----

  datatype SourceField = SourceField(niaType: Json.Json, nullable: bool)

  datatype MappingEntry = MappingEntry(from: string, to: string)

  datatype NativeType = NativeType(text: string, fidelity: string)

  datatype BuildError = UnknownSourceField(field: string)

  /** `native` is the dialect's type function. */
  datatype BuildInput = BuildInput(
    dialect: Dialect,
    entity: Entity,
    fields: map<string, SourceField>,
    mapping: seq<MappingEntry>,
    keySourcePaths: seq<string>,
    unknownFieldPolicy: Option<string>,
    native: Json.Json -> NativeType)

  ghost predicate DistinctNames(columns: seq<ContractColumn>) {
    forall i, j :: 0 <= i < j < |columns| ==> columns[i].destinationName != columns[j].destinationName
  }

  ghost function NamesOf(columns: seq<ContractColumn>): set<string> {
    set i | 0 <= i < |columns| :: columns[i].destinationName
  }

  /** What the column of one mapping entry must say when these names are taken. */
  ghost predicate ColumnSays(input: BuildInput, entry: MappingEntry, taken: set<string>, col: ContractColumn) {
    && entry.from in input.fields
    && var field := input.fields[entry.from];
       && col.sourcePath == entry.from
       && FirstFree(Clean(entry.to), taken, col.destinationName)
       && col.niaType == field.niaType
       && NativeType(col.nativeType, col.fidelity) == input.native(field.niaType)
       && col.isKey == (entry.from in input.keySourcePaths)
       && col.nullable == (!col.isKey && field.nullable)
       && col.nestedFieldStrategy == "json"
  }

  ghost predicate ColumnFor(input: BuildInput, i: nat, columns: seq<ContractColumn>)
    requires i < |input.mapping| && i < |columns|
  {
    ColumnSays(input, input.mapping[i], NamesOf(columns[..i]), columns[i])
  }

  /** The columns of the first entries. */
  ghost predicate BuiltSoFar(input: BuildInput, columns: seq<ContractColumn>) {
    && |columns| <= |input.mapping| && DistinctNames(columns)
    && forall i :: 0 <= i < |columns| ==> ColumnFor(input, i, columns)
  }

  /** The columns of a built contract. */
  ghost predicate Built(input: BuildInput, columns: seq<ContractColumn>) {
    |columns| == |input.mapping| && BuiltSoFar(input, columns)
  }

  method BuildColumn(input: BuildInput, entry: MappingEntry, seen0: set<string>)
    returns (r: Result<ContractColumn, BuildError>, seen: set<string>)
    ensures r.Ok? <==> entry.from in input.fields
    ensures r.Err? ==> r.error.field == entry.from
    ensures r.Ok? ==>
              && ColumnSays(input, entry, seen0, r.value)
              && r.value.destinationName !in seen0 && seen == seen0 + {r.value.destinationName}
  {
    if entry.from !in input.fields { return Err(UnknownSourceField(entry.from)), seen0; }
    var field := input.fields[entry.from];
    var destinationName;
    destinationName, seen := PickName(Clean(entry.to), seen0);
    var native := input.native(field.niaType);
    var isKey := entry.from in input.keySourcePaths;
    r := Ok(ContractColumn(entry.from, destinationName, field.niaType, native.text, native.fidelity, isKey,
                           if isKey then false else field.nullable, "json"));
  }

  /** The first entry whose source field does not exist. */
  ghost predicate FirstUnknown(input: BuildInput, i: nat) {
    && i < |input.mapping| && input.mapping[i].from !in input.fields
    && forall j :: 0 <= j < i ==> input.mapping[j].from in input.fields
  }

  method BuildColumns(input: BuildInput) returns (r: Result<seq<ContractColumn>, BuildError>)
    ensures r.Ok? ==> Built(input, r.value)
    ensures r.Err? ==> exists i: nat :: FirstUnknown(input, i) && r.error.field == input.mapping[i].from
  {
    var seen: set<string> := {};
    var columns: seq<ContractColumn> := [];
    for i := 0 to |input.mapping|
      invariant |columns| == i && seen == NamesOf(columns) && BuiltSoFar(input, columns)
    {
      var column;
      column, seen := BuildColumn(input, input.mapping[i], seen);
      if column.Err? {
        assert FirstUnknown(input, i) by {
          forall j | 0 <= j < i ensures input.mapping[j].from in input.fields { assert ColumnFor(input, j, columns); }
        }
        return Err(column.error);
      }
      OneMoreColumn(input, columns, column.value);
      columns := columns + [column.value];
    }
    return Ok(columns);
  }

  method BuildDestinationContract(input: BuildInput) returns (r: Result<Contract, BuildError>)
    ensures r.Ok? <==> forall e :: e in input.mapping ==> e.from in input.fields
    ensures r.Err? ==> exists i: nat :: FirstUnknown(input, i) && r.error.field == input.mapping[i].from
    ensures r.Ok? ==>
              var c := r.value;
              && c.dialect == input.dialect && c.entity == input.entity
              && c.unknownFieldPolicy ==
                 (if input.unknownFieldPolicy.Some? then input.unknownFieldPolicy.value else "count")
              && Built(input, c.columns)
  {
    var columns := BuildColumns(input);
    if columns.Err? { return Err(columns.error); }
    AllFieldsKnown(input, columns.value);
    return Ok(Contract(input.dialect, input.entity, columns.value,
                       if input.unknownFieldPolicy.Some? then input.unknownFieldPolicy.value else "count"));
  }

  lemma AllFieldsKnown(input: BuildInput, columns: seq<ContractColumn>)
    requires Built(input, columns)
    ensures forall e :: e in input.mapping ==> e.from in input.fields
  {
    forall e | e in input.mapping ensures e.from in input.fields {
      var i :| 0 <= i < |input.mapping| && input.mapping[i] == e;
      assert ColumnFor(input, i, columns);
    }
  }

  lemma OneMoreColumn(input: BuildInput, columns: seq<ContractColumn>, c: ContractColumn)
    requires BuiltSoFar(input, columns) && |columns| < |input.mapping|
    requires c.destinationName !in NamesOf(columns)
    requires ColumnSays(input, input.mapping[|columns|], NamesOf(columns), c)
    ensures BuiltSoFar(input, columns + [c])
    ensures NamesOf(columns + [c]) == NamesOf(columns) + {c.destinationName}
  {
    var after := columns + [c];
    assert after[..|columns|] == columns;
    assert forall i :: 0 <= i < |columns| ==> after[i] == columns[i] && after[..i] == columns[..i];
    forall i | 0 <= i < |after| ensures ColumnFor(input, i, after) {
      if i < |columns| { assert ColumnFor(input, i, columns); }
    }
    assert after[|columns|] == c;
  }

  /** Names that are already distinct once cleaned are taken over as they are. */
  lemma CleanDistinctNamesAreKept(input: BuildInput, columns: seq<ContractColumn>, i: nat)
    requires i < |columns| == |input.mapping| && forall j :: 0 <= j < |columns| ==> ColumnFor(input, j, columns)
    requires forall j, k :: 0 <= j < k < |columns| ==> Clean(input.mapping[j].to) != Clean(input.mapping[k].to)
    ensures columns[i].destinationName == Clean(input.mapping[i].to)
    decreases i
  {
    forall j | 0 <= j < i ensures columns[j].destinationName != Clean(input.mapping[i].to) {
      CleanDistinctNamesAreKept(input, columns, j);
    }
    assert ColumnFor(input, i, columns);
    assert Clean(input.mapping[i].to) !in NamesOf(columns[..i]);
  }

  /** Building again from the names a contract ended up with gives the same names, when cleaning keeps each of them. */
  lemma RebuildingKeepsNames(again: BuildInput, columns: seq<ContractColumn>, columns': seq<ContractColumn>, i: nat)
    requires DistinctNames(columns) && Built(again, columns') && i < |columns| == |again.mapping|
    requires forall j :: 0 <= j < |columns| ==>
               again.mapping[j].to == columns[j].destinationName && Clean(again.mapping[j].to) == again.mapping[j].to
    ensures columns'[i].destinationName == columns[i].destinationName
  {
    CleanDistinctNamesAreKept(again, columns', i);
  }

  // ---- Comparing with an existing table ----

  datatype Field = Field(name: string, fieldType: string)

  datatype Diff = Diff(kind: DiffKind, column: string, nativeType: string, alterStatement: Option<string>)

  /** The type recorded last under a name, as a map built from the list would hold it. */
  function TypeOf(fields: seq<Field>, name: string): Option<string> {
    if fields == [] then None
    else
      var last := fields[|fields| - 1];
      if last.name == name then Some(last.fieldType) else TypeOf(fields[..|fields| - 1], name)
  }

  function DiffFor(d: Dialect, e: Entity, col: ContractColumn, existing: Option<string>): seq<Diff> {
    if existing.None? then
      [Diff(MissingColumn, col.destinationName, col.nativeType,
            BuildAlterStatement(d, e, MissingColumn, col.destinationName, col.nativeType))]
    else if CanonicalizeNativeType(d, existing.value) != CanonicalizeNativeType(d, col.nativeType) then
      [Diff(TypeMismatch, col.destinationName, col.nativeType,
            BuildAlterStatement(d, e, TypeMismatch, col.destinationName, col.nativeType))]
    else []
  }

  function DiffBy(d: Dialect, e: Entity, fields: seq<Field>): ContractColumn -> seq<Diff> {
    (col: ContractColumn) => DiffFor(d, e, col, TypeOf(fields, col.destinationName))
  }

  /** One diff for each contract column that is missing or has another type, in contract order. */
  function Diffs(c: Contract, fields: seq<Field>): seq<Diff> {
    FlatMap(c.columns, DiffBy(c.dialect, c.entity, fields))
  }

  function TypesByName(fields: seq<Field>): (m: map<string, string>)
    ensures forall n :: TypeOf(fields, n) == if n in m then Some(m[n]) else None
  {
    if fields == [] then map[]
    else
      var last := fields[|fields| - 1];
      TypesByName(fields[..|fields| - 1])[last.name := last.fieldType]
  }

  method CompareContractToExisting(c: Contract, fields: seq<Field>) returns (diffs: seq<Diff>)
    ensures diffs == Diffs(c, fields)
  {
    var existingByName := TypesByName(fields);
    diffs := [];
    for i := 0 to |c.columns|
      invariant diffs == FlatMap(c.columns[..i], DiffBy(c.dialect, c.entity, fields))
    {
      var col := c.columns[i];
      FlatMapStep(c.columns, i, DiffBy(c.dialect, c.entity, fields));
      if col.destinationName !in existingByName {
        var alter := BuildAlterStatement(c.dialect, c.entity, MissingColumn, col.destinationName, col.nativeType);
        diffs := diffs + [Diff(MissingColumn, col.destinationName, col.nativeType, alter)];
        continue;
      }
      var existingType := existingByName[col.destinationName];
      if CanonicalizeNativeType(c.dialect, existingType) != CanonicalizeNativeType(c.dialect, col.nativeType) {
        var alter := BuildAlterStatement(c.dialect, c.entity, TypeMismatch, col.destinationName, col.nativeType);
        diffs := diffs + [Diff(TypeMismatch, col.destinationName, col.nativeType, alter)];
      }
    }
    assert c.columns[..|c.columns|] == c.columns;
  }

  /** The existing table has the column with the contract's type, whatever spelling either side uses. */
  predicate Conforms(c: Contract, fields: seq<Field>, col: ContractColumn) {
    var t := TypeOf(fields, col.destinationName);
    t.Some? && CanonicalizeNativeType(c.dialect, t.value) == CanonicalizeNativeType(c.dialect, col.nativeType)
  }

  lemma NoDiffsExactlyWhenConforming(c: Contract, fields: seq<Field>)
    ensures Diffs(c, fields) == [] <==> forall col :: col in c.columns ==> Conforms(c, fields, col)
  {
    FlatMapMembers(c.columns, DiffBy(c.dialect, c.entity, fields));
    assert forall col :: DiffBy(c.dialect, c.entity, fields)(col) == [] <==> Conforms(c, fields, col);
  }

  // ---- Repair ----

  /** How the database spells a type when it is introspected later. */
  type Reporter = string -> string

  /** The database reports the type in a spelling of the same identity. */
  predicate ReportsTruly(d: Dialect, report: Reporter, nativeType: string) {
    CanonicalizeNativeType(d, report(nativeType)) == CanonicalizeNativeType(d, nativeType)
  }

  /** It does so for every type the diffs are about. */
  ghost predicate ReportsDiffsTruly(d: Dialect, report: Reporter, diffs: seq<Diff>) {
    forall i :: 0 <= i < |diffs| ==> ReportsTruly(d, report, diffs[i].nativeType)
  }

  /** Adds a column at the end, or changes the type of the columns of that name. */
  function Apply(fields: seq<Field>, change: Change, report: Reporter): seq<Field> {
    if change.kind == MissingColumn then fields + [Field(change.column, report(change.nativeType))]
    else Map(fields, (f: Field) => if f.name == change.column then Field(f.name, report(change.nativeType)) else f)
  }

  /** The contract's table after running the suggested statements one after the other, as their text reads; a statement
      that addresses another table, or none, leaves this one alone. */
  function RunAlters(c: Contract, diffs: seq<Diff>, fields: seq<Field>, report: Reporter): seq<Field> {
    if diffs == [] then fields
    else
      var stmt := diffs[0].alterStatement;
      var alter := if stmt.Some? then ReadAlter(c.dialect, stmt.value) else None;
      var here := alter.Some? && alter.value.table == TableOf(c.dialect, c.entity);
      RunAlters(c, diffs[1..], if here then Apply(fields, alter.value.change, report) else fields, report)
  }

  lemma {:induction false} TypeOfMapped(fields: seq<Field>, change: Change, report: Reporter, name: string)
    requires change.kind == TypeMismatch
    ensures TypeOf(Apply(fields, change, report), name) ==
            if TypeOf(fields, name).Some? && name == change.column then Some(report(change.nativeType))
            else TypeOf(fields, name)
  {
    if fields != [] {
      var init := fields[..|fields| - 1];
      TypeOfMapped(init, change, report, name);
      assert Apply(fields, change, report)[..|fields| - 1] == Apply(init, change, report);
    }
  }

  /** A change sets the type of its column and no other; a type change needs the column to be there. */
  lemma TypeAfterChange(fields: seq<Field>, change: Change, report: Reporter, name: string)
    requires change.kind == MissingColumn || TypeOf(fields, change.column).Some?
    ensures TypeOf(Apply(fields, change, report), name) ==
            if name == change.column then Some(report(change.nativeType)) else TypeOf(fields, name)
  {
    if change.kind == MissingColumn {
      var added := fields + [Field(change.column, report(change.nativeType))];
      assert added[..|added| - 1] == fields;
    } else {
      TypeOfMapped(fields, change, report, name);
    }
  }

  /** The diff's statement reads as the change it reports, on a column that is there if it is to be altered. */
  ghost predicate Repairs(d: Dialect, e: Entity, diff: Diff, fields: seq<Field>) {
    && diff.alterStatement.Some?
    && ReadAlter(d, diff.alterStatement.value) ==
       Some(Alter(TableOf(d, e), Change(diff.kind, diff.column, diff.nativeType)))
    && (diff.kind == TypeMismatch ==> TypeOf(fields, diff.column).Some?)
  }

  /** Distinct columns, and each statement repairs. */
  ghost predicate Repairing(c: Contract, diffs: seq<Diff>, fields: seq<Field>) {
    DistinctDiffs(diffs) && forall i :: 0 <= i < |diffs| ==> Repairs(c.dialect, c.entity, diffs[i], fields)
  }

  ghost predicate Touches(diffs: seq<Diff>, name: string) {
    exists i :: 0 <= i < |diffs| && diffs[i].column == name
  }

  /** After all statements every diffed column has its diff's type, and every other column what it had. */
  lemma {:induction false} TypeAfterAlters(c: Contract, diffs: seq<Diff>, fields: seq<Field>, report: Reporter,
                                           name: string)
    requires Repairing(c, diffs, fields)
    ensures !Touches(diffs, name) ==> TypeOf(RunAlters(c, diffs, fields, report), name) == TypeOf(fields, name)
    ensures forall i :: 0 <= i < |diffs| && diffs[i].column == name ==>
              TypeOf(RunAlters(c, diffs, fields, report), name) == Some(report(diffs[i].nativeType))
    decreases |diffs|
  {
    if diffs != [] {
      var change, rest := Change(diffs[0].kind, diffs[0].column, diffs[0].nativeType), diffs[1..];
      var next := Apply(fields, change, report);
      forall i | 0 <= i < |rest| ensures diffs[i + 1] == rest[i] {}
      TypeAfterChange(fields, change, report, name);
      forall i | 0 <= i < |rest| ensures rest[i].kind == TypeMismatch ==> TypeOf(next, rest[i].column).Some? {
        assert rest[i] == diffs[i + 1];
        TypeAfterChange(fields, change, report, rest[i].column);
      }
      TypeAfterAlters(c, rest, next, report, name);
      if Touches(rest, name) {
        var i :| 0 <= i < |rest| && rest[i].column == name;
        assert diffs[i + 1].column == name;
      }
      if Touches(diffs, name) && diffs[0].column != name {
        var i :| 0 <= i < |diffs| && diffs[i].column == name;
        assert rest[i - 1].column == name;
      }
    }
  }

  /** No name in the contract's statements holds the dialect's quote character. */
  ghost predicate QuotableNames(c: Contract) {
    QuotableTable(c.dialect, c.entity) && forall col :: col in c.columns ==> Quotable(c.dialect, col.destinationName)
  }

  ghost predicate DistinctDiffs(ds: seq<Diff>) {
    forall i, j :: 0 <= i < j < |ds| ==> ds[i].column != ds[j].column
  }

  lemma DiffNamesItsColumn(d: Dialect, e: Entity, fields: seq<Field>, col: ContractColumn)
    ensures |DiffBy(d, e, fields)(col)| <= 1
    ensures forall x :: x in DiffBy(d, e, fields)(col) ==> x.column == col.destinationName
  {
  }

  lemma DistinctAhead(first: seq<Diff>, others: seq<Diff>)
    requires |first| <= 1 && DistinctDiffs(others)
    requires forall x, y :: x in first && y in others ==> x.column != y.column
    ensures DistinctDiffs(first + others)
  {
    var ds := first + others;
    forall i, j | 0 <= i < j < |ds| ensures ds[i].column != ds[j].column {
      assert j >= |first| && ds[j] in others;
      if i < |first| { assert ds[i] in first; }
    }
  }

  lemma {:induction false} DiffsOfColumns(cols: seq<ContractColumn>, d: Dialect, e: Entity, fields: seq<Field>)
    requires DistinctNames(cols)
    ensures DistinctDiffs(FlatMap(cols, DiffBy(d, e, fields)))
  {
    if cols != [] {
      var diffBy, rest := DiffBy(d, e, fields), cols[1..];
      DiffsOfColumns(rest, d, e, fields);
      DiffNamesItsColumn(d, e, fields, cols[0]);
      FlatMapMembers(rest, diffBy);
      forall y: Diff | y in FlatMap(rest, diffBy) ensures y.column != cols[0].destinationName {
        var col :| col in rest && y in diffBy(col);
        DiffNamesItsColumn(d, e, fields, col);
        var k :| 0 <= k < |rest| && rest[k] == col;
        assert cols[k + 1] == col;
      }
      DistinctAhead(diffBy(cols[0]), FlatMap(rest, diffBy));
    }
  }

  lemma DiffOfColumnRepairs(d: Dialect, e: Entity, fields: seq<Field>, col: ContractColumn)
    requires d != Mongo && QuotableTable(d, e) && Quotable(d, col.destinationName)
    ensures forall x :: x in DiffBy(d, e, fields)(col) ==> Repairs(d, e, x, fields)
  {
    forall x | x in DiffBy(d, e, fields)(col) ensures Repairs(d, e, x, fields) {
      StatementRepairs(d, e, x, fields);
    }
  }

  lemma StatementRepairs(d: Dialect, e: Entity, x: Diff, fields: seq<Field>)
    requires d != Mongo && QuotableTable(d, e) && Quotable(d, x.column)
    requires x.alterStatement == BuildAlterStatement(d, e, x.kind, x.column, x.nativeType)
    requires x.kind == TypeMismatch ==> TypeOf(fields, x.column).Some?
    ensures Repairs(d, e, x, fields)
  {
    AlterReadsBackExactly(d, e, x.kind, x.column, x.nativeType);
  }

  lemma DiffsRepair(c: Contract, fields: seq<Field>)
    requires c.dialect != Mongo && DistinctNames(c.columns) && QuotableNames(c)
    ensures Repairing(c, Diffs(c, fields), fields)
  {
    DiffsOfColumns(c.columns, c.dialect, c.entity, fields);
    forall x | x in Diffs(c, fields) ensures Repairs(c.dialect, c.entity, x, fields) {
      var col := ColumnOfDiff(c, fields, x);
      DiffOfColumnRepairs(c.dialect, c.entity, fields, col);
    }
  }

  lemma ColumnOfDiff(c: Contract, fields: seq<Field>, x: Diff) returns (col: ContractColumn)
    requires x in Diffs(c, fields)
    ensures col in c.columns && x in DiffBy(c.dialect, c.entity, fields)(col) && x.column == col.destinationName
  {
    var diffBy := DiffBy(c.dialect, c.entity, fields);
    FlatMapMembers(c.columns, diffBy);
    col :| col in c.columns && x in diffBy(col);
    DiffNamesItsColumn(c.dialect, c.entity, fields, col);
  }

  /** Running every suggested ALTER leaves nothing to report, exactly when the database reports each altered type in a
      spelling of the same identity; and it changes no column that was not reported. */
  lemma AltersCloseTheDiff(c: Contract, fields: seq<Field>, report: Reporter)
    requires c.dialect != Mongo && DistinctNames(c.columns) && QuotableNames(c)
    ensures var after := RunAlters(c, Diffs(c, fields), fields, report);
            && (Diffs(c, after) == [] <==> ReportsDiffsTruly(c.dialect, report, Diffs(c, fields)))
            && forall name :: !Touches(Diffs(c, fields), name) ==> TypeOf(after, name) == TypeOf(fields, name)
  {
    var ds := Diffs(c, fields);
    var after := RunAlters(c, ds, fields, report);
    DiffsRepair(c, fields);
    forall name ensures !Touches(ds, name) ==> TypeOf(after, name) == TypeOf(fields, name) {
      TypeAfterAlters(c, ds, fields, report, name);
    }
    NoDiffsExactlyWhenConforming(c, after);
    if ReportsDiffsTruly(c.dialect, report, ds) {
      forall col | col in c.columns ensures Conforms(c, after, col) {
        ColumnConformsAfter(c, fields, report, col);
      }
    }
    if Diffs(c, after) == [] {
      forall i | 0 <= i < |ds| ensures ReportsTruly(c.dialect, report, ds[i].nativeType) {
        DiffConformsAfter(c, fields, report, i);
      }
    }
  }

  /** A diff that is gone was closed by a type that is reported truly. */
  lemma DiffConformsAfter(c: Contract, fields: seq<Field>, report: Reporter, i: nat)
    requires c.dialect != Mongo && DistinctNames(c.columns) && QuotableNames(c) && i < |Diffs(c, fields)|
    requires Diffs(c, RunAlters(c, Diffs(c, fields), fields, report)) == []
    ensures ReportsTruly(c.dialect, report, Diffs(c, fields)[i].nativeType)
  {
    var ds := Diffs(c, fields);
    var after := RunAlters(c, ds, fields, report);
    assert ds[i] in ds;
    var col := ColumnOfDiff(c, fields, ds[i]);
    DiffsRepair(c, fields);
    TypeAfterAlters(c, ds, fields, report, ds[i].column);
    NoDiffsExactlyWhenConforming(c, after);
    assert Conforms(c, after, col);
  }

  /** Statements that address another table, or none, change nothing here. */
  lemma {:induction false} MisaddressedAltersDoNothing(c: Contract, diffs: seq<Diff>, fields: seq<Field>,
                                                       report: Reporter)
    requires c.dialect != Mongo && !QuotableTable(c.dialect, c.entity)
    requires forall x :: x in diffs ==>
               x.alterStatement == BuildAlterStatement(c.dialect, c.entity, x.kind, x.column, x.nativeType)
    ensures RunAlters(c, diffs, fields, report) == fields
    decreases |diffs|
  {
    if diffs != [] {
      var x := diffs[0];
      StatementAddresses(c.dialect, c.entity, x.kind, x.column, x.nativeType);
      MisaddressedAltersDoNothing(c, diffs[1..], fields, report);
    }
  }

  lemma DiffsCarryTheirStatements(c: Contract, fields: seq<Field>)
    ensures forall x :: x in Diffs(c, fields) ==>
              x.alterStatement == BuildAlterStatement(c.dialect, c.entity, x.kind, x.column, x.nativeType)
  {
    forall x | x in Diffs(c, fields)
      ensures x.alterStatement == BuildAlterStatement(c.dialect, c.entity, x.kind, x.column, x.nativeType)
    {
      var col := ColumnOfDiff(c, fields, x);
    }
  }

  /** The ALTERs of a built contract close its diff exactly when there is nothing to close, or the names of its table
      can be quoted as they are and the types in the diff are reported truly; its column names can always be quoted.
      Either way no column is changed that was not reported. */
  lemma BuiltContractsAreRepaired(input: BuildInput, c: Contract, fields: seq<Field>, report: Reporter)
    requires c.dialect != Mongo && Built(input, c.columns)
    ensures var ds := Diffs(c, fields);
            var after := RunAlters(c, ds, fields, report);
            && (Diffs(c, after) == [] <==>
                ds == [] || (QuotableTable(c.dialect, c.entity) && ReportsDiffsTruly(c.dialect, report, ds)))
            && forall name :: !Touches(Diffs(c, fields), name) ==> TypeOf(after, name) == TypeOf(fields, name)
  {
    if QuotableTable(c.dialect, c.entity) {
      BuiltNamesAreQuotable(input, c);
      AltersCloseTheDiff(c, fields, report);
    } else {
      DiffsCarryTheirStatements(c, fields);
      MisaddressedAltersDoNothing(c, Diffs(c, fields), fields, report);
    }
  }

  lemma BuiltNamesAreQuotable(input: BuildInput, c: Contract)
    requires Built(input, c.columns)
    ensures forall col :: col in c.columns ==> Quotable(c.dialect, col.destinationName)
  {
    forall i | 0 <= i < |c.columns| ensures Quotable(c.dialect, c.columns[i].destinationName) {
      assert ColumnFor(input, i, c.columns);
      PickedName(input.mapping[i].to, NamesOf(c.columns[..i]), c.columns[i].destinationName);
    }
  }

  lemma ColumnConformsAfter(c: Contract, fields: seq<Field>, report: Reporter, col: ContractColumn)
    requires c.dialect != Mongo && DistinctNames(c.columns) && QuotableNames(c) && col in c.columns
    requires ReportsDiffsTruly(c.dialect, report, Diffs(c, fields))
    ensures Conforms(c, RunAlters(c, Diffs(c, fields), fields, report), col)
  {
    var ds, diffBy := Diffs(c, fields), DiffBy(c.dialect, c.entity, fields);
    DiffsRepair(c, fields);
    TypeAfterAlters(c, ds, fields, report, col.destinationName);
    if diffBy(col) == [] {
      OtherColumnCannotTouch(c, fields, col);
    } else {
      DiffIsListed(c, fields, col);
    }
  }

  lemma DiffIsListed(c: Contract, fields: seq<Field>, col: ContractColumn)
    requires col in c.columns && DiffBy(c.dialect, c.entity, fields)(col) != []
    ensures exists i :: 0 <= i < |Diffs(c, fields)|
                        && Diffs(c, fields)[i].column == col.destinationName
                        && Diffs(c, fields)[i].nativeType == col.nativeType
  {
    var diffBy := DiffBy(c.dialect, c.entity, fields);
    FlatMapMembers(c.columns, diffBy);
    assert diffBy(col)[0] in Diffs(c, fields);
  }

  lemma OtherColumnCannotTouch(c: Contract, fields: seq<Field>, col: ContractColumn)
    requires DistinctNames(c.columns) && col in c.columns
    requires DiffBy(c.dialect, c.entity, fields)(col) == []
    ensures !Touches(Diffs(c, fields), col.destinationName)
  {
    forall x | x in Diffs(c, fields) ensures x.column != col.destinationName {
      var other := ColumnOfDiff(c, fields, x);
      SameNameSameColumn(c.columns, col, other);
    }
  }

  lemma SameNameSameColumn(columns: seq<ContractColumn>, x: ContractColumn, y: ContractColumn)
    requires DistinctNames(columns) && x in columns && y in columns
    ensures x.destinationName == y.destinationName ==> x == y
  {
    var j :| 0 <= j < |columns| && columns[j] == x;
    var k :| 0 <= k < |columns| && columns[k] == y;
  }

  /** Two contract columns of one name and different types cannot both be met, by any table. */
  lemma ClashingNamesNeverConform(c: Contract, i: nat, j: nat, fields: seq<Field>)
    requires i < |c.columns| && j < |c.columns|
    requires c.columns[i].destinationName == c.columns[j].destinationName
    requires CanonicalizeNativeType(c.dialect, c.columns[i].nativeType)
             != CanonicalizeNativeType(c.dialect, c.columns[j].nativeType)
    ensures Diffs(c, fields) != []
  {
    NoDiffsExactlyWhenConforming(c, fields);
    assert c.columns[i] in c.columns && c.columns[j] in c.columns;
  }

  // ---- The canonical form of a contract ----

  /** A column without its fidelity, which does not count. */
  function Projected(): ContractColumn -> ContractColumn {
    (c: ContractColumn) => c.(fidelity := "")
  }

  function ByDestination(less: (string, string) -> bool): (ContractColumn, ContractColumn) -> bool {
    (x: ContractColumn, y: ContractColumn) => less(x.destinationName, y.destinationName)
  }

  function CanonicalizeContractForHash(c: Contract, less: (string, string) -> bool): Contract {
    c.(columns := Sort(Map(c.columns, Projected()), ByDestination(less)))
  }

  lemma ByDestinationIsAnOrder(less: (string, string) -> bool)
    requires StrictWeakOrder(less)
    ensures StrictWeakOrder(ByDestination(less))
  {
    var order := ByDestination(less);
    forall x ensures !order(x, x) { assert !less(x.destinationName, x.destinationName); }
    forall x, y, z | order(x, y) && order(y, z) ensures order(x, z) {
      assert less(x.destinationName, y.destinationName) && less(y.destinationName, z.destinationName);
    }
    forall x, y, z | !order(x, y) && !order(y, z) ensures !order(x, z) {
      assert !less(x.destinationName, y.destinationName) && !less(y.destinationName, z.destinationName);
    }
  }

  /** The same dialect, entity and policy and, in any order, the same columns but for the fidelity. */
  ghost predicate SameContract(a: Contract, b: Contract) {
    && a.dialect == b.dialect && a.entity == b.entity && a.unknownFieldPolicy == b.unknownFieldPolicy
    && multiset(Map(a.columns, Projected())) == multiset(Map(b.columns, Projected()))
  }

  ghost predicate HashesAlike(a: Contract, b: Contract, less: (string, string) -> bool) {
    CanonicalizeContractForHash(a, less) == CanonicalizeContractForHash(b, less)
  }

  /** The form of a contract tells it from every contract that says something else, and from no other, exactly when the
      order tells any two different columns of it apart by their names. */
  lemma ContractFormDecides(a: Contract, less: (string, string) -> bool)
    requires StrictWeakOrder(less)
    ensures (forall b :: HashesAlike(a, b, less) <==> SameContract(a, b))
            <==> Separates(Map(a.columns, Projected()), ByDestination(less))
  {
    var us := Map(a.columns, Projected());
    ByDestinationIsAnOrder(less);
    if Separates(us, ByDestination(less)) {
      forall b ensures HashesAlike(a, b, less) <==> SameContract(a, b) {
        SortIsCanonical(us, Map(b.columns, Projected()), ByDestination(less));
      }
    } else {
      var vs := TieWitness(us, ByDestination(less));
      ProjectedAlready(us, vs);
      var b := a.(columns := vs);
      assert SameContract(a, b) && !HashesAlike(a, b, less);
    }
  }

  lemma ProjectedAlready(us: seq<ContractColumn>, vs: seq<ContractColumn>)
    requires multiset(us) == multiset(vs) && forall x :: x in us ==> x.fidelity == ""
    ensures Map(vs, Projected()) == vs
  {
    forall i | 0 <= i < |vs| ensures vs[i].fidelity == "" {
      assert vs[i] in multiset(us);
    }
  }

  /** So for a built contract, whose names are distinct, it is enough that the order tells its own names apart. */
  lemma BuiltContractFormDecides(input: BuildInput, a: Contract, less: (string, string) -> bool)
    requires StrictWeakOrder(less) && Built(input, a.columns)
    ensures (forall b :: HashesAlike(a, b, less) <==> SameContract(a, b))
            <==> forall i, j :: 0 <= i < j < |a.columns| ==>
                   less(a.columns[i].destinationName, a.columns[j].destinationName)
                   || less(a.columns[j].destinationName, a.columns[i].destinationName)
  {
    ContractFormDecides(a, less);
    var us := Map(a.columns, Projected());
    if Separates(us, ByDestination(less)) {
      forall i, j | 0 <= i < j < |a.columns|
        ensures less(a.columns[i].destinationName, a.columns[j].destinationName)
                || less(a.columns[j].destinationName, a.columns[i].destinationName)
      {
        assert us[i] in us && us[j] in us;
        assert us[i].destinationName != us[j].destinationName;
      }
    } else {
      var i, j := TiedPair(us, ByDestination(less));
      assert us[i].destinationName == a.columns[i].destinationName;
    }
  }

  lemma TiedPair<T(!new)>(us: seq<T>, less: (T, T) -> bool) returns (i: nat, j: nat)
    requires !Separates(us, less)
    ensures i < j < |us| && !less(us[i], us[j]) && !less(us[j], us[i])
  {
    var x, y :| x in us && y in us && x != y && !less(x, y) && !less(y, x);
    i :| 0 <= i < |us| && us[i] == x;
    j :| 0 <= j < |us| && us[j] == y;
    if i > j { i, j := j, i; }
  }
}
