/** The suggested ALTER statements, read back from their text: which table they address and what they ask of it. */
module AlterStatements {
  import opened Common
  import opened NativeTypes
  import opened QuotedNames

  datatype Entity = Entity(namespace: string, name: string)

  datatype DiffKind = MissingColumn | TypeMismatch

  function QuoteChar(d: Dialect): char {
    if d == Postgres then '"' else '`'
  }

  function Quoted(d: Dialect, name: string): string {
    [QuoteChar(d)] + (name + [QuoteChar(d)])
  }

  function TableName(d: Dialect, e: Entity): string {
    if d == Postgres then Quoted(d, e.namespace) + ("." + Quoted(d, e.name)) else Quoted(d, e.name)
  }

  function Action(d: Dialect, kind: DiffKind): string {
    if kind == MissingColumn then " ADD COLUMN " else if d == Postgres then " ALTER COLUMN " else " MODIFY COLUMN "
  }

  function TypeWord(d: Dialect, kind: DiffKind): string {
    if kind == TypeMismatch && d == Postgres then " TYPE " else " "
  }

  function ColumnText(d: Dialect, kind: DiffKind, column: string, nativeType: string): string {
    Quoted(d, column) + (TypeWord(d, kind) + (nativeType + ";"))
  }

  function BuildAlterStatement(d: Dialect, e: Entity, kind: DiffKind, column: string, nativeType: string)
    : Option<string>
  {
    if d == Mongo then None
    else Some("ALTER TABLE " + (TableName(d, e) + (Action(d, kind) + ColumnText(d, kind, column, nativeType))))
  }

  // ---- Reading a statement ----

  /** A table as a statement names it; a MySQL statement names no namespace. */
  datatype Table = Table(namespace: Option<string>, name: string)

  datatype Change = Change(kind: DiffKind, column: string, nativeType: string)

  datatype Alter = Alter(table: Table, change: Change)

  function TableOf(d: Dialect, e: Entity): Table {
    Table(if d == Postgres then Some(e.namespace) else None, e.name)
  }

  function ReadName(d: Dialect, s: string): Parsed<string> {
    ReadQuoted(QuoteChar(d), QuoteChar(d), s)
  }

  function ReadNamespace(s: string): Parsed<string> {
    match ReadName(Postgres, s)
    case Fail => Fail
    case Got(namespace, rest) =>
      if After(rest, ".").Some? then Got(namespace, After(rest, ".").value) else Fail
  }

  function ReadTable(d: Dialect, s: string): Parsed<Table> {
    if d == Postgres then
      match ReadNamespace(s)
      case Fail => Fail
      case Got(namespace, more) => InNamespace(Some(namespace), ReadName(d, more))
    else InNamespace(None, ReadName(d, s))
  }

  function InNamespace(namespace: Option<string>, name: Parsed<string>): Parsed<Table> {
    match name
    case Fail => Fail
    case Got(n, rest) => Got(Table(namespace, n), rest)
  }

  /** A column and, behind the word given, a type up to the semicolon that ends the statement. */
  function ReadColumn(d: Dialect, kind: DiffKind, word: string, s: string): Option<Change> {
    match ReadName(d, s)
    case Fail => None
    case Got(column, rest) =>
      match After(rest, word)
      case None => None
      case Some(t) =>
        if t != "" && t[|t| - 1] == ';' then Some(Change(kind, column, t[..|t| - 1])) else None
  }

  /** ADD COLUMN adds one; ALTER COLUMN with TYPE in PostgreSQL, and MODIFY COLUMN in MySQL, change the type of one. */
  function ReadChange(d: Dialect, s: string): Option<Change> {
    if After(s, " ADD COLUMN ").Some? then ReadColumn(d, MissingColumn, " ", After(s, " ADD COLUMN ").value)
    else if d == Postgres && After(s, " ALTER COLUMN ").Some? then
      ReadColumn(d, TypeMismatch, " TYPE ", After(s, " ALTER COLUMN ").value)
    else if d == MySql && After(s, " MODIFY COLUMN ").Some? then
      ReadColumn(d, TypeMismatch, " ", After(s, " MODIFY COLUMN ").value)
    else None
  }

  /** The table a statement addresses and the change it makes there. */
  function ReadAlter(d: Dialect, s: string): Option<Alter> {
    match After(s, "ALTER TABLE ")
    case None => None
    case Some(t) =>
      match ReadTable(d, t)
      case Fail => None
      case Got(table, rest) =>
        match ReadChange(d, rest)
        case None => None
        case Some(change) => Some(Alter(table, change))
  }

  // ---- Names ----

  predicate Quotable(d: Dialect, name: string) {
    QuoteChar(d) !in name
  }

  /** The names of the table can be put between quotes as they are. */
  predicate QuotableTable(d: Dialect, e: Entity) {
    Quotable(d, e.name) && (d == Postgres ==> Quotable(d, e.namespace))
  }

  lemma NameReadsBackExactly(d: Dialect, name: string, rest: string)
    requires rest == "" || rest[0] != QuoteChar(d)
    ensures Quotable(d, name) ==> ReadName(d, Quoted(d, name) + rest) == Got(name, rest)
    ensures !Quotable(d, name) ==> var r := ReadName(d, Quoted(d, name) + rest); r.Got? ==> r.value != name
  {
    var s := Quoted(d, name) + rest;
    assert s[1..] == name + ([QuoteChar(d)] + rest);
    BareReadsBackExactly(QuoteChar(d), name, rest);
  }

  lemma NamespaceReadsBackExactly(namespace: string, rest: string)
    ensures var s := Quoted(Postgres, namespace) + ("." + rest);
            && (Quotable(Postgres, namespace) ==> ReadNamespace(s) == Got(namespace, rest))
            && (!Quotable(Postgres, namespace) && ReadNamespace(s).Got? ==> ReadNamespace(s).value != namespace)
  {
    NameReadsBackExactly(Postgres, namespace, "." + rest);
    AfterPrefix(".", rest);
  }

  /** The table part of a statement reads back as the table that was meant exactly when its names can be quoted as they
      are: otherwise the statement addresses another table, or none. */
  lemma TableReadsBackExactly(d: Dialect, e: Entity, rest: string)
    requires d != Mongo && rest != "" && rest[0] == ' '
    ensures var r := ReadTable(d, TableName(d, e) + rest);
            && (QuotableTable(d, e) ==> r == Got(TableOf(d, e), rest))
            && (!QuotableTable(d, e) && r.Got? ==> r.value != TableOf(d, e))
  {
    NameReadsBackExactly(d, e.name, rest);
    if d == Postgres {
      var s := Quoted(d, e.namespace) + ("." + (Quoted(d, e.name) + rest));
      assert TableName(d, e) + rest == s;
      NamespaceReadsBackExactly(e.namespace, Quoted(d, e.name) + rest);
    }
  }

  // ---- Changes ----

  lemma OtherActions(rest: string)
    ensures After(" ALTER COLUMN " + rest, " ADD COLUMN ") == None
    ensures After(" MODIFY COLUMN " + rest, " ADD COLUMN ") == None
  {
    var s, t := " ALTER COLUMN " + rest, " MODIFY COLUMN " + rest;
    assert s[2] == 'L' && s[..12][2] == s[2];
    assert t[1] == 'M' && t[..12][1] == t[1];
  }

  lemma ColumnReadsBackExactly(d: Dialect, kind: DiffKind, column: string, nativeType: string)
    ensures ReadColumn(d, kind, TypeWord(d, kind), ColumnText(d, kind, column, nativeType)) ==
            Some(Change(kind, column, nativeType))
            <==> Quotable(d, column)
  {
    var rest := TypeWord(d, kind) + (nativeType + ";");
    assert rest[0] == ' ';
    NameReadsBackExactly(d, column, rest);
    AfterPrefix(TypeWord(d, kind), nativeType + ";");
  }

  lemma ChangeReadsBackExactly(d: Dialect, kind: DiffKind, column: string, nativeType: string)
    requires d != Mongo
    ensures ReadChange(d, Action(d, kind) + ColumnText(d, kind, column, nativeType)) ==
            Some(Change(kind, column, nativeType))
            <==> Quotable(d, column)
  {
    var text := ColumnText(d, kind, column, nativeType);
    AfterPrefix(Action(d, kind), text);
    OtherActions(text);
    ColumnReadsBackExactly(d, kind, column, nativeType);
  }

  /** A suggested statement reads back as the change it was built for, on the table it was built for, exactly when
      none of the names in it holds the dialect's quote character; the type text may be anything. */
  lemma AlterReadsBackExactly(d: Dialect, e: Entity, kind: DiffKind, column: string, nativeType: string)
    requires d != Mongo
    ensures BuildAlterStatement(d, e, kind, column, nativeType).Some?
    ensures ReadAlter(d, BuildAlterStatement(d, e, kind, column, nativeType).value) ==
            Some(Alter(TableOf(d, e), Change(kind, column, nativeType)))
            <==> QuotableTable(d, e) && Quotable(d, column)
  {
    StatementAddresses(d, e, kind, column, nativeType);
    ChangeReadsBackExactly(d, kind, column, nativeType);
  }

  /** With a quote in a table name the statement never addresses the table that was meant. */
  lemma StatementAddresses(d: Dialect, e: Entity, kind: DiffKind, column: string, nativeType: string)
    requires d != Mongo
    ensures var r := ReadAlter(d, BuildAlterStatement(d, e, kind, column, nativeType).value);
            var change := ReadChange(d, Action(d, kind) + ColumnText(d, kind, column, nativeType));
            && (QuotableTable(d, e) ==> r == if change.Some? then Some(Alter(TableOf(d, e), change.value)) else None)
            && (!QuotableTable(d, e) && r.Some? ==> r.value.table != TableOf(d, e))
  {
    var rest := Action(d, kind) + ColumnText(d, kind, column, nativeType);
    AfterPrefix("ALTER TABLE ", TableName(d, e) + rest);
    assert rest[0] == ' ';
    TableReadsBackExactly(d, e, rest);
  }

  /** One that addresses another table: two quotes in a row in the namespace read as one. */
  lemma DoubledQuoteNamesAnotherTable(name: string, kind: DiffKind, column: string, nativeType: string)
    requires Quotable(Postgres, name) && Quotable(Postgres, column)
    ensures var statement := BuildAlterStatement(Postgres, Entity("a\"\"b", name), kind, column, nativeType).value;
            ReadAlter(Postgres, statement) ==
            Some(Alter(Table(Some("a\"b"), name), Change(kind, column, nativeType)))
  {
    var e := Entity("a\"\"b", name);
    var rest := Action(Postgres, kind) + ColumnText(Postgres, kind, column, nativeType);
    AfterPrefix("ALTER TABLE ", TableName(Postgres, e) + rest);
    assert rest[0] == ' ';
    DoubledTableReadsAsAnother(e, rest);
    ChangeReadsBackExactly(Postgres, kind, column, nativeType);
  }

  lemma DoubledTableReadsAsAnother(e: Entity, rest: string)
    requires e.namespace == "a\"\"b" && Quotable(Postgres, e.name) && rest != "" && rest[0] == ' '
    ensures ReadTable(Postgres, TableName(Postgres, e) + rest) == Got(Table(Some("a\"b"), e.name), rest)
  {
    var more := Quoted(Postgres, e.name) + rest;
    assert TableName(Postgres, e) + rest == Quoted(Postgres, e.namespace) + ("." + more);
    DoubledQuoteReadsAsOne("." + more);
    AfterPrefix(".", more);
    NameReadsBackExactly(Postgres, e.name, rest);
  }

  lemma DoubledQuoteReadsAsOne(rest: string)
    requires rest != "" && rest[0] != '"'
    ensures ReadName(Postgres, Quoted(Postgres, "a\"\"b") + rest) == Got("a\"b", rest)
  {
    var s := "a\"\"b" + ("\"" + rest);
    assert (Quoted(Postgres, "a\"\"b") + rest)[1..] == s;
    var tail := "b" + ("\"" + rest);
    PlainBody('"', "b", rest);
    assert s[1..] == "\"\"" + tail && ("\"\"" + tail)[2..] == tail;
    assert ReadBody('"', s[1..]) == Consing('"', ReadBody('"', tail));
    assert ReadBody('"', s) == Consing('a', ReadBody('"', s[1..]));
    assert "a\"b" == ['a'] + (['"'] + "b");
  }
}
