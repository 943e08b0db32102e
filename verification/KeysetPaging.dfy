/** Keyset-paged reads of a table: one batch behind a cursor, and the task that reads batch after batch. */
module KeysetPaging {
  import opened Common
  import opened StableSort
  import ParamSink
  import opened FilterCompiler
  import opened SqlWhere
  import opened KeysetSeek
  import opened ShownColumns
  import opened KeyOrder
  import opened ReadTask

  /** One batch: its rows, and where the next one starts unless this was the last. */
  datatype Batch = Batch(rows: seq<Row>, nextCursor: Option<seq<Scalar>>, isLast: bool)

  datatype ReadError =
    | NoPrimaryKey
    | NoNativeType(column: string)
    | BadSelect(error: SelectError)
    | BadLimit(limit: int)
    | BadQuery

  // ---- One batch ----

  function SelectedBy(sql: string, params: seq<Scalar>, db: Database): Row -> bool {
    (row: Row) => Selects(sql, params, row, db)
  }

  function AskedBy(filter: seq<FilterCondition>, keyset: Option<Keyset>, db: Database): Row -> bool
    requires SelectFault(filter, keyset) == None
  {
    (row: Row) => Asked(filter, keyset, row, db)
  }

  /** The database's answer over a table listed in the order answers have: the selected rows, cut at the limit. */
  function RunSelect(table: seq<Row>, sql: string, params: seq<Scalar>, limit: nat, db: Database): seq<Row> {
    Take(Filter(table, SelectedBy(sql, params, db)), limit)
  }

  function At(key: seq<string>, cursor: Option<seq<Scalar>>): Option<Keyset> {
    match cursor
    case None => None
    case Some(values) => Some(Keyset(key, values))
  }

  /** The rows a read still has to deliver. */
  function Pending(table: seq<Row>, filter: seq<FilterCondition>, key: seq<string>, cursor: Option<seq<Scalar>>,
                   db: Database): seq<Row>
    requires SelectFault(filter, At(key, cursor)) == None
  {
    Filter(table, AskedBy(filter, At(key, cursor), db))
  }

  /** The next cursor is read back from the answer, which shows the key. */
  function BatchOf(s: Server, pending: seq<Row>, key: seq<string>, limit: nat): Batch
    requires AllHaveKey(pending, key)
  {
    var rows := Take(pending, limit);
    var isLast := |rows| < limit;
    Batch(rows, if isLast || rows == [] then None else Some(CursorOf(s, rows[|rows| - 1], key)), isLast)
  }

  /** What selecting the key columns throws. */
  function ColumnFault(types: map<string, string>, key: seq<string>): Option<ReadError> {
    if key == [] then None
    else if key[0] !in types || types[key[0]] == "" then Some(NoNativeType(key[0]))
    else if ParamSink.TOKEN_CHAR in key[0] then Some(BadSelect(BadCondition(UnsafeIdentifier(key[0]))))
    else ColumnFault(types, key[1..])
  }

  /** What a batch read throws, in order. */
  function ReadFault(s: Server, filter: seq<FilterCondition>, key: seq<string>, cursor: Option<seq<Scalar>>, limit: int)
    : Option<ReadError>
  {
    if key == [] then Some(NoPrimaryKey)
    else if ColumnFault(s.types, key).Some? then ColumnFault(s.types, key)
    else if SelectFault(filter, At(key, cursor)).Some? then
      Some(BadSelect(SelectFault(filter, At(key, cursor)).value))
    else if limit <= 0 then Some(BadLimit(limit))
    else if !NoEmptyIn(filter) then Some(BadQuery)
    else None
  }

  lemma {:induction false} SelectedKeysAreSafe(types: map<string, string>, key: seq<string>)
    ensures ColumnFault(types, key) == None ==> FirstUnsafe(key) == None
  {
    if key != [] { SelectedKeysAreSafe(types, key[1..]); }
  }

  method SelectKey(types: map<string, string>, key: seq<string>) returns (fault: Option<ReadError>)
    ensures fault == ColumnFault(types, key)
  {
    for i := 0 to |key|
      invariant ColumnFault(types, key) == ColumnFault(types, key[i..])
    {
      if key[i] !in types || types[key[i]] == "" { return Some(NoNativeType(key[i])); }
      if ParamSink.TOKEN_CHAR in key[i] { return Some(BadSelect(BadCondition(UnsafeIdentifier(key[i])))); }
    }
    return None;
  }

  method ExtractKeysetBatch(s: Server, table: seq<Row>, filter: seq<FilterCondition>, key: seq<string>,
                            cursor: Option<seq<Scalar>>, limit: int)
    returns (r: Result<Batch, ReadError>)
    requires AllHaveKey(table, key)
    ensures r.Err? ==> Some(r.error) == ReadFault(s, filter, key, cursor, limit)
    ensures r.Ok? ==>
              && ReadFault(s, filter, key, cursor, limit) == None
              && r.value == BatchOf(s, Pending(table, filter, key, cursor, s.db), key, limit)
  {
    if key == [] { return Err(NoPrimaryKey); }
    var fault := SelectKey(s.types, key);
    if fault.Some? { return Err(fault.value); }
    var answer := SelectBatch(table, filter, At(key, cursor), limit, s.db);
    if answer.Err? { return Err(answer.error); }
    var rows := answer.value;
    var isLast := |rows| < limit;
    var nextCursor := if isLast || |rows| == 0 then None else Some(CursorOf(s, rows[|rows| - 1], key));
    return Ok(Batch(rows, nextCursor, isLast));
  }

  /** Builds the query and runs it. */
  method SelectBatch(table: seq<Row>, filter: seq<FilterCondition>, keyset: Option<Keyset>, limit: int, db: Database)
    returns (r: Result<seq<Row>, ReadError>)
    requires keyset.Some? ==> keyset.value.key != []
    ensures r.Err? ==>
              var fault := SelectFault(filter, keyset);
              Some(r.error) == if fault.Some? then Some(BadSelect(fault.value))
                               else if limit <= 0 then Some(BadLimit(limit))
                               else if !NoEmptyIn(filter) then Some(BadQuery)
                               else None
    ensures r.Ok? ==>
              && SelectFault(filter, keyset) == None && limit > 0 && NoEmptyIn(filter)
              && r.value == Take(Filter(table, AskedBy(filter, keyset, db)), limit)
  {
    var built := SelectForSqlServer(filter, keyset);
    if built.Err? { return Err(BadSelect(built.error)); }
    if limit <= 0 { return Err(BadLimit(limit)); }
    var sql, params := built.value.sql, built.value.params;
    if ParseWhere(sql).None? { return Err(BadQuery); }
    SameRows(table, SelectedBy(sql, params, db), AskedBy(filter, keyset, db));
    return Ok(RunSelect(table, sql, params, limit, db));
  }

  lemma {:induction false} SameRows(rows: seq<Row>, keep: Row -> bool, keep': Row -> bool)
    requires forall row :: row in rows ==> keep(row) == keep'(row)
    ensures Filter(rows, keep) == Filter(rows, keep')
  {
    if rows != [] {
      assert rows == [rows[0]] + rows[1..];
      SameRows(rows[1..], keep, keep');
    }
  }

  // ---- The next batch starts where the last one ended ----

  lemma {:induction false} FilterKeepsKeyOrder(s: Server, rows: seq<Row>, keep: Row -> bool, key: seq<string>)
    requires InKeyOrder(s, rows, key)
    ensures InKeyOrder(s, Filter(rows, keep), key)
  {
    if rows != [] {
      var first, rest := rows[0], Filter(rows[1..], keep);
      assert rows == [first] + rows[1..];
      FilterKeepsKeyOrder(s, rows[1..], keep, key);
      forall j | 0 <= j < |rest| ensures Follows(s, rest[j], first, key) {
        assert rest[j] in rest;
        var k :| 0 <= k < |rows[1..]| && rows[1..][k] == rest[j];
        assert rows[k + 1] == rest[j];
      }
    }
  }

  lemma NotBehindALaterOne(s: Server, rows: seq<Row>, i: nat, j: nat, key: seq<string>, domain: Domain)
    requires i <= j < |rows| && OrdersKey(s, key, domain) && GoodRows(rows, key, domain) && InKeyOrder(s, rows, key)
    ensures rows[i] in rows && rows[j] in rows
    ensures !Follows(s, rows[i], rows[j], key)
  {
    var first, last := rows[i], rows[j];
    assert first in rows && last in rows;
    NotBehindItself(s, last, key, domain);
    if i < j && Follows(s, first, last, key) {
      BehindIsTransitive(s, last, first, key, KeyOf(last, key), domain);
    }
  }

  /** The rows behind the k-th of a list in key order are those after it. */
  lemma BehindTheKth(s: Server, rows: seq<Row>, k: nat, keep: Row -> bool, key: seq<string>, domain: Domain)
    requires 0 < k <= |rows| && OrdersKey(s, key, domain) && GoodRows(rows, key, domain) && InKeyOrder(s, rows, key)
    requires forall i :: 0 <= i < |rows| ==> (keep(rows[i]) <==> Follows(s, rows[i], rows[k - 1], key))
    ensures Filter(rows, keep) == rows[k..]
  {
    forall i | 0 <= i < |rows| ensures keep(rows[i]) <==> k <= i {
      FollowsTheKth(s, rows, k, i, key, domain);
    }
    FilterFrom(rows, k, keep);
  }

  lemma FollowsTheKth(s: Server, rows: seq<Row>, k: nat, i: nat, key: seq<string>, domain: Domain)
    requires 0 < k <= |rows| && i < |rows|
    requires OrdersKey(s, key, domain) && GoodRows(rows, key, domain) && InKeyOrder(s, rows, key)
    ensures Follows(s, rows[i], rows[k - 1], key) <==> k <= i
  {
    if i < k { NotBehindALaterOne(s, rows, i, k - 1, key, domain); }
  }

  /** What is behind a pending row was pending already. */
  lemma FurtherIsPending(s: Server, row: Row, last: Row, filter: seq<FilterCondition>, key: seq<string>,
                         cursor: Option<seq<Scalar>>, domain: Domain)
    requires OrdersKey(s, key, domain) && GoodRow(row, key, domain) && GoodRow(last, key, domain)
    requires SelectFault(filter, At(key, cursor)) == None
    requires cursor.Some? ==> IsCursor(s, key, cursor.value, domain)
    requires Asked(filter, At(key, cursor), last, s.db)
    requires SatisfiesAll(filter, row, s.db) && Follows(s, row, last, key)
    ensures Asked(filter, At(key, cursor), row, s.db)
  {
    if cursor.Some? {
      var values :| FromDomain(key, values, domain) && cursor.value == ShownKey(s, key, values);
      BehindIsTransitive(s, row, last, key, values, domain);
    }
  }

  lemma PendingBehind(s: Server, table: seq<Row>, last: Row, filter: seq<FilterCondition>, key: seq<string>,
                      cursor: Option<seq<Scalar>>, domain: Domain)
    requires OrdersKey(s, key, domain) && GoodRows(table, key, domain)
    requires SelectFault(filter, At(key, cursor)) == None
    requires cursor.Some? ==> IsCursor(s, key, cursor.value, domain)
    requires FirstUnsafe(key) == None && last in Pending(table, filter, key, cursor, s.db)
    ensures SelectFault(filter, At(key, Some(CursorOf(s, last, key)))) == None
    ensures Pending(table, filter, key, Some(CursorOf(s, last, key)), s.db) ==
            Filter(Pending(table, filter, key, cursor, s.db),
                   AskedBy(filter, At(key, Some(CursorOf(s, last, key))), s.db))
  {
    var next := At(key, Some(CursorOf(s, last, key)));
    var wide, keep := AskedBy(filter, At(key, cursor), s.db), AskedBy(filter, next, s.db);
    forall row | row in table && keep(row) ensures wide(row) {
      FurtherIsPending(s, row, last, filter, key, cursor, domain);
    }
    FilterTwice(table, wide, keep);
  }

  /** Where answers come in key order, reading on from the k-th pending row as it was shown leaves exactly the pending
      rows after it. */
  lemma ReadingOnSkipsNothing(s: Server, table: seq<Row>, filter: seq<FilterCondition>, key: seq<string>,
                              cursor: Option<seq<Scalar>>, k: nat, domain: Domain)
    requires OrdersKey(s, key, domain) && GoodRows(table, key, domain) && InKeyOrder(s, table, key)
    requires SelectFault(filter, At(key, cursor)) == None
    requires cursor.Some? ==> IsCursor(s, key, cursor.value, domain)
    requires FirstUnsafe(key) == None && 0 < k <= |Pending(table, filter, key, cursor, s.db)|
    ensures var pending := Pending(table, filter, key, cursor, s.db);
            && pending[k - 1] in pending
            && var next := Some(CursorOf(s, pending[k - 1], key));
               SelectFault(filter, At(key, next)) == None && Pending(table, filter, key, next, s.db) == pending[k..]
  {
    var pending := Pending(table, filter, key, cursor, s.db);
    var last := pending[k - 1];
    assert last in pending;
    PendingBehind(s, table, last, filter, key, cursor, domain);
    FilterKeepsKeyOrder(s, table, AskedBy(filter, At(key, cursor), s.db), key);
    forall i | 0 <= i < |pending| ensures SatisfiesAll(filter, pending[i], s.db) {
      assert pending[i] in pending;
    }
    BehindTheKth(s, pending, k, AskedBy(filter, At(key, Some(CursorOf(s, last, key))), s.db), key, domain);
  }
}
