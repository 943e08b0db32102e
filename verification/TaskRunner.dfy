/** The read task (`runReadBatchTaskBody`): it reads and uploads batch after batch, each from the cursor the last one
    showed, until the last batch or until it has read as many as it may. */
module TaskRunner {
  import opened Common
  import opened StableSort
  import opened FilterCompiler
  import opened SqlWhere
  import opened KeysetSeek
  import opened ShownColumns
  import opened KeyOrder
  import opened KeysetPaging
  import opened ReadTask

  function FromWire(cursor: Option<Scalar>): Option<seq<Scalar>> {
    match cursor
    case None => None
    case Some(v) => Some([v])
  }

  /** The wire has room for the first key column only, as it was shown. */
  function ToWire(s: Server, key: seq<string>): Row -> Option<Scalar>
    requires key != []
  {
    (row: Row) => s.ShownCell(row, key[0])
  }

  lemma WireHoldsTheCursor(s: Server, row: Row, key: seq<string>)
    requires |key| == 1 && HasKey(row, key)
    ensures FromWire(ToWire(s, key)(row)) == Some(CursorOf(s, row, key))
  {
    assert key[0] in key && row(key[0]).Some?;
    var shown := s.Show(key[0], row(key[0]).value);
    assert s.ShownCell(row, key[0]) == Some(shown);
    assert ToWire(s, key)(row) == Some(shown);
    assert CursorOf(s, row, key) == [shown];
  }

  function PagingBy(s: Server, key: seq<string>, limit: nat): Paging<Row>
    requires key != []
  {
    Paging(ToWire(s, key), |key| > 1, limit)
  }

  /** A read task as it arrives: where to start, how large a batch may be and how many to read. */
  datatype Task = Task(s: Server, table: seq<Row>, filter: seq<FilterCondition>, key: seq<string>,
                       cursor: Option<Scalar>, limit: int, batchCount: nat)
  {
    function Fault(wire: Option<Scalar>): Option<ReadError> {
      ReadFault(s, filter, key, FromWire(wire), limit)
    }

    /** The rows a query from this cursor selects, as listed. */
    function Left(wire: Option<Scalar>): seq<Row>
      requires Fault(wire) == None
    {
      Pending(table, filter, key, FromWire(wire), s.db)
    }

    /** What is uploaded next. */
    function Next(wire: Option<Scalar>): Upload<Row>
      requires Fault(wire) == None
    {
      UploadOf(PagingBy(s, key, limit), Left(wire), wire)
    }

    /** What so many rounds upload: each queries anew. */
    function Rounds(wire: Option<Scalar>, count: nat): seq<Upload<Row>>
      requires AllHaveKey(table, key) && Fault(wire) == None
      decreases count
    {
      if count == 0 then []
      else
        var u := Next(wire);
        if u.isLast then [u]
        else
          NextRoundIsFree(wire);
          [u] + Rounds(u.nextCursor, count - 1)
    }

    lemma NextRoundIsFree(wire: Option<Scalar>)
      requires AllHaveKey(table, key) && Fault(wire) == None && !Next(wire).isLast
      ensures |Left(wire)| >= limit && Left(wire)[limit - 1] in Left(wire) && |key| == 1
      ensures FromWire(Next(wire).nextCursor) == Some(CursorOf(s, Left(wire)[limit - 1], key))
      ensures FromWire(Next(wire).nextCursor) == BatchOf(s, Left(wire), key, limit).nextCursor
      ensures Fault(Next(wire).nextCursor) == None
    {
      var last := Left(wire)[limit - 1];
      assert last in Left(wire);
      SelectedKeysAreSafe(s.types, key);
      WireHoldsTheCursor(s, last, key);
    }

    /** What has been uploaded and what is still to come make up the rounds; a fault shows before any upload. */
    ghost predicate OnCourse(uploads: seq<Upload<Row>>, wire: Option<Scalar>, i: nat)
      requires AllHaveKey(table, key)
    {
      if Fault(cursor).Some? then i == 0 && uploads == [] && wire == cursor
      else
        && i <= batchCount && Fault(wire) == None
        && Rounds(cursor, batchCount) == uploads + Rounds(wire, batchCount - i)
    }

    lemma RoundDone(uploads: seq<Upload<Row>>, wire: Option<Scalar>, i: nat)
      requires AllHaveKey(table, key) && i < batchCount && OnCourse(uploads, wire, i) && Fault(wire) == None
      ensures Fault(cursor) == None
      ensures if Next(wire).isLast then Rounds(cursor, batchCount) == uploads + [Next(wire)]
              else OnCourse(uploads + [Next(wire)], Next(wire).nextCursor, i + 1)
    {
      var u := Next(wire);
      if !u.isLast {
        NextRoundIsFree(wire);
        var later := Rounds(u.nextCursor, batchCount - i - 1);
        assert uploads + ([u] + later) == uploads + [u] + later;
      }
    }
  }

  /** One round: read a batch, upload it. */
  method ReadOne(task: Task, wire: Option<Scalar>, here: Option<seq<Scalar>>)
    returns (r: Result<Upload<Row>, ReadError>, next: Option<seq<Scalar>>)
    requires AllHaveKey(task.table, task.key) && here == FromWire(wire)
    ensures r.Err? ==> Some(r.error) == task.Fault(wire)
    ensures r.Ok? ==>
              && task.Fault(wire) == None && r.value == task.Next(wire)
              && (!r.value.isLast ==> next == FromWire(r.value.nextCursor))
  {
    var batch := ExtractKeysetBatch(task.s, task.table, task.filter, task.key, here, task.limit);
    if batch.Err? { return Err(batch.error), None; }
    var last := |task.key| > 1 || batch.value.isLast;
    if last { return Ok(Upload(wire, batch.value.rows, None, true)), None; }
    task.NextRoundIsFree(wire);
    return Ok(Upload(wire, batch.value.rows, Some(batch.value.nextCursor.value[0]), false)), batch.value.nextCursor;
  }

  method ReadBatches(task: Task) returns (uploads: seq<Upload<Row>>, failure: Option<ReadError>)
    requires AllHaveKey(task.table, task.key)
    ensures failure == if task.key == [] || task.batchCount > 0 then task.Fault(task.cursor) else None
    ensures failure.Some? || task.batchCount == 0 ==> uploads == []
    ensures failure.None? && task.batchCount > 0 ==> uploads == task.Rounds(task.cursor, task.batchCount)
  {
    uploads := [];
    if task.key == [] { return [], Some(NoPrimaryKey); }
    var wire, here := task.cursor, FromWire(task.cursor);
    for i := 0 to task.batchCount
      invariant i == 0 ==> uploads == []
      invariant i > 0 ==> task.Fault(task.cursor) == None
      invariant here == FromWire(wire) && task.OnCourse(uploads, wire, i)
    {
      var read, next := ReadOne(task, wire, here);
      if read.Err? { return [], Some(read.error); }
      task.RoundDone(uploads, wire, i);
      if read.value.isLast { return uploads + [read.value], None; }
      uploads := uploads + [read.value];
      wire, here := read.value.nextCursor, next;
    }
    return uploads, None;
  }

  // ---- What a task delivers ----

  ghost predicate GoodWire(s: Server, key: seq<string>, wire: Option<Scalar>, domain: Domain) {
    wire.Some? && |key| == 1 ==> IsCursor(s, key, [wire.value], domain)
  }

  /** The task comes over a table with a primary key, from a cursor that some key was shown as, and asks for
      something. */
  ghost predicate Sound(task: Task, domain: Domain) {
    && Listed(task.s, task.table, task.key, domain) && GoodWire(task.s, task.key, task.cursor, domain)
    && task.Fault(task.cursor) == None && task.batchCount > 0
  }

  /** Where answers come in key order, querying anew for each batch is cutting one list into batches. */
  lemma {:induction false} RoundsCutOneList(task: Task, wire: Option<Scalar>, count: nat, domain: Domain)
    requires OrdersKey(task.s, task.key, domain) && GoodRows(task.table, task.key, domain)
    requires |task.key| > 1 || InKeyOrder(task.s, task.table, task.key)
    requires GoodWire(task.s, task.key, wire, domain) && task.Fault(wire) == None
    ensures task.Rounds(wire, count) ==
            Uploads(PagingBy(task.s, task.key, task.limit), task.Left(wire), wire, count)
    decreases count
  {
    if count > 0 {
      if !task.Next(wire).isLast {
        NextListIsTheRest(task, wire, domain);
        RoundsCutOneList(task, task.Next(wire).nextCursor, count - 1, domain);
      }
      OneMoreCut(task, wire, count);
    }
  }

  lemma OneMoreCut(task: Task, wire: Option<Scalar>, count: nat)
    requires AllHaveKey(task.table, task.key) && task.Fault(wire) == None && count > 0
    requires !task.Next(wire).isLast ==>
               var next := task.Next(wire).nextCursor;
               && task.Fault(next) == None && |task.Left(wire)| >= task.limit
               && task.Rounds(next, count - 1) ==
                  Uploads(PagingBy(task.s, task.key, task.limit), task.Left(wire)[task.limit..], next, count - 1)
    ensures task.Rounds(wire, count) ==
            Uploads(PagingBy(task.s, task.key, task.limit), task.Left(wire), wire, count)
  {
    RoundsStep(task, wire, count);
    UploadsStep(PagingBy(task.s, task.key, task.limit), task.Left(wire), wire, count);
  }

  lemma NextListIsTheRest(task: Task, wire: Option<Scalar>, domain: Domain)
    requires OrdersKey(task.s, task.key, domain) && GoodRows(task.table, task.key, domain)
    requires |task.key| > 1 || InKeyOrder(task.s, task.table, task.key)
    requires GoodWire(task.s, task.key, wire, domain) && task.Fault(wire) == None && !task.Next(wire).isLast
    ensures var next := task.Next(wire).nextCursor;
            && task.Fault(next) == None && GoodWire(task.s, task.key, next, domain)
            && |task.Left(wire)| >= task.limit && task.Left(next) == task.Left(wire)[task.limit..]
  {
    task.NextRoundIsFree(wire);
    SelectedKeysAreSafe(task.s.types, task.key);
    var last := task.Left(wire)[task.limit - 1];
    ReadingOnSkipsNothing(task.s, task.table, task.filter, task.key, FromWire(wire), task.limit, domain);
    assert FromDomain(task.key, KeyOf(last, task.key), domain);
  }

  /** Pending at its start are the rows that pass the filter and stand behind the cursor. For as many batches as it may
      read the task delivers the first of these in the order of the key, each once and without a gap; and it reports the
      end exactly when that is all of them. */
  ghost predicate DeliversExactly(task: Task)
    requires AllHaveKey(task.table, task.key) && task.Fault(task.cursor) == None
  {
    var pending, uploads := task.Left(task.cursor), task.Rounds(task.cursor, task.batchCount);
    && uploads != []
    && ArePending(task, pending) && InKeyOrder(task.s, pending, task.key)
    && Delivered(uploads) == Take(pending, task.limit * task.batchCount)
    && (uploads[|uploads| - 1].isLast <==> |pending| < task.limit * task.batchCount)
  }

  /** The rows of the table that pass the filter and stand behind the cursor, and no others. */
  ghost predicate ArePending(task: Task, rows: seq<Row>)
    requires task.Fault(task.cursor) == None
  {
    var asked := AskedBy(task.filter, At(task.key, FromWire(task.cursor)), task.s.db);
    forall row :: row in rows <==> row in task.table && asked(row)
  }

  lemma OrderedTaskDelivers(task: Task, domain: Domain)
    requires Sound(task, domain) && |task.key| == 1 && InKeyOrder(task.s, task.table, task.key)
    ensures DeliversExactly(task)
  {
    var paging := PagingBy(task.s, task.key, task.limit);
    RoundsCutOneList(task, task.cursor, task.batchCount, domain);
    EndIsReportedWhenReached(paging, task.Left(task.cursor), task.cursor, task.batchCount);
    FilterKeepsKeyOrder(task.s, task.table, AskedBy(task.filter, At(task.key, FromWire(task.cursor)), task.s.db),
                        task.key);
  }

  /** A task over a key of this one column. */
  ghost predicate ReadsBy(task: Task, s: Server, column: string, domain: Domain) {
    task.s == s && task.key == [column] && Sound(task, domain)
  }

  /** Every task over every table of the column's values delivers exactly what it should, at every limit, exactly when
      the column's values are shown in the order the seek condition has for them. */
  lemma TasksDeliverExactlyWhenShownInOrder(s: Server, column: string, domain: Domain)
    requires Orders(s, column, domain(column)) && ColumnFault(s.types, [column]) == None
    ensures (forall task :: ReadsBy(task, s, column, domain) ==> DeliversExactly(task)) <==>
            ShownInOrder(s, column, domain(column))
  {
    OneColumnKey(s, column, domain);
    if ShownInOrder(s, column, domain(column)) {
      forall task | ReadsBy(task, s, column, domain) ensures DeliversExactly(task) {
        ListingIsInKeyOrder(s, task.table, [column], domain);
        OrderedTaskDelivers(task, domain);
      }
    } else {
      var x, y :| x in domain(column) && y in domain(column) && Exceeds(s, column, x, y)
                  && !s.db.compare(Gt, s.Show(column, x), s.Show(column, y));
      var task := OutOfOrderTask(s, column, x, y, domain);
      assert ReadsBy(task, s, column, domain) && !DeliversExactly(task);
    }
  }

  /** Two rows shown against the order of their keys, read one at a time: the second is never read, and the end is
      reported all the same. */
  lemma OutOfOrderTask(s: Server, column: string, x: Scalar, y: Scalar, domain: Domain) returns (task: Task)
    requires Orders(s, column, domain(column)) && ColumnFault(s.types, [column]) == None
    requires x in domain(column) && y in domain(column) && Exceeds(s, column, x, y)
    requires !s.db.compare(Gt, s.Show(column, x), s.Show(column, y))
    ensures ReadsBy(task, s, column, domain) && !DeliversExactly(task)
    ensures task == Task(s, [RowWith(column, x), RowWith(column, y)], [], [column], None, 1, 2)
    ensures var uploads := task.Rounds(None, 2);
            uploads[|uploads| - 1].isLast && Delivered(uploads) == [RowWith(column, x)]
  {
    var first, second, key := RowWith(column, x), RowWith(column, y), [column];
    task := Task(s, [first, second], [], key, None, 1, 2);
    OneColumnRow(s, first, second, column);
    PairIsListed(s, first, second, key, domain);
    NotBehindItself(s, first, key, domain);
    SelectedKeysAreSafe(s.types, key);
    FirstOfTwo(task, first, second);
    NothingBehind(task, first, second);
    TwoRounds(task);
    assert Take(task.Left(None), 2) == [first, second];
  }

  lemma TwoRounds(task: Task)
    requires AllHaveKey(task.table, task.key) && task.Fault(None) == None && !task.Next(None).isLast
    requires var next := task.Next(None).nextCursor; task.Fault(next) == None && task.Next(next).isLast
    ensures var u, v := task.Next(None), task.Next(task.Next(None).nextCursor);
            task.Rounds(None, 2) == [u, v] && Delivered([u, v]) == u.rows + v.rows
  {
    var u, v := task.Next(None), task.Next(task.Next(None).nextCursor);
    assert task.Rounds(u.nextCursor, 1) == [v];
    assert Delivered([u, v]) == u.rows + Delivered([v]) && Delivered([v]) == v.rows + Delivered<Row>([]);
  }

  lemma FirstOfTwo(task: Task, first: Row, second: Row)
    requires task.table == [first, second] && task.filter == [] && task.limit == 1 && |task.key| == 1
    requires AllHaveKey(task.table, task.key) && task.Fault(None) == None
    ensures task.Left(None) == [first, second]
    ensures task.Next(None) == Upload(None, [first], ToWire(task.s, task.key)(first), false)
  {
    FilterAll(task.table, AskedBy(task.filter, At(task.key, None), task.s.db));
    assert Take([first, second], 1) == [first];
  }

  /** If neither row follows the first, the second round finds nothing. */
  lemma NothingBehind(task: Task, first: Row, second: Row)
    requires task.table == [first, second] && task.filter == [] && task.limit == 1 && |task.key| == 1
    requires AllHaveKey(task.table, task.key) && task.Fault(None) == None && !task.Next(None).isLast
    requires task.Next(None).nextCursor == ToWire(task.s, task.key)(first) && HasKey(first, task.key)
    requires !Follows(task.s, first, first, task.key) && !Follows(task.s, second, first, task.key)
    ensures var next := task.Next(None).nextCursor;
            task.Fault(next) == None && task.Left(next) == [] && task.Next(next) == Upload(next, [], None, true)
  {
    var next := task.Next(None).nextCursor;
    task.NextRoundIsFree(None);
    WireHoldsTheCursor(task.s, first, task.key);
    FilterAll(task.table, AskedBy(task.filter, At(task.key, FromWire(next)), task.s.db));
  }

  /** A key of one column that is not read as text, which the catalog tells, is always read exactly. */
  lemma PlainKeyTasksDeliver(task: Task, domain: Domain)
    requires Sound(task, domain) && |task.key| == 1 && PlainKey(task.s, task.key)
    ensures DeliversExactly(task)
  {
    PlainKeysAreShownInOrder(task.s, task.key, domain);
    ListingIsInKeyOrder(task.s, task.table, task.key, domain);
    OrderedTaskDelivers(task, domain);
  }

  /** A reported end means that everything was delivered, exactly for a key of one column or rows that fit one batch:
      with a composite key a task reads one batch, in whatever order it comes, and reports the end. */
  lemma TaskDelivers(task: Task, domain: Domain)
    requires Sound(task, domain) && (|task.key| > 1 || InKeyOrder(task.s, task.table, task.key))
    ensures var pending, uploads := task.Left(task.cursor), task.Rounds(task.cursor, task.batchCount);
            && uploads != []
            && Delivered(uploads) == Take(pending, task.limit * |uploads|)
            && ((uploads[|uploads| - 1].isLast ==> Delivered(uploads) == pending) <==>
                |task.key| == 1 || |pending| <= task.limit)
  {
    var paging := PagingBy(task.s, task.key, task.limit);
    RoundsCutOneList(task, task.cursor, task.batchCount, domain);
    DeliversAPrefix(paging, task.Left(task.cursor), task.cursor, task.batchCount);
    EndMeansEverything(paging, task.Left(task.cursor), task.cursor, task.batchCount);
  }

  // ---- Cutting a read into tasks ----

  /** The task that reads on where the uploads of this one end. */
  function ReadOn(task: Task, uploads: seq<Upload<Row>>, batchCount: nat): Task
    requires uploads != []
  {
    task.(cursor := uploads[|uploads| - 1].nextCursor, batchCount := batchCount)
  }

  lemma {:induction false} RoundsOfReadOn(task: Task, later: Task, wire: Option<Scalar>, count: nat)
    requires later == task.(cursor := later.cursor, batchCount := later.batchCount)
    requires AllHaveKey(task.table, task.key) && task.Fault(wire) == None
    ensures later.Fault(wire) == None && later.Rounds(wire, count) == task.Rounds(wire, count)
    decreases count
  {
    if count > 0 && !task.Next(wire).isLast {
      task.NextRoundIsFree(wire);
      RoundsOfReadOn(task, later, task.Next(wire).nextCursor, count - 1);
    }
  }

  /** All the uploads are the first ones, and unless these end with the last, those of n rounds more. */
  ghost predicate GoesOn(task: Task, uploads: seq<Upload<Row>>, all: seq<Upload<Row>>, n: nat)
    requires AllHaveKey(task.table, task.key)
  {
    && uploads != []
    && var last := uploads[|uploads| - 1];
       if last.isLast then all == uploads
       else task.Fault(last.nextCursor) == None && all == uploads + task.Rounds(last.nextCursor, n)
  }

  lemma GoesOnBehind(task: Task, u: Upload<Row>, uploads: seq<Upload<Row>>, all: seq<Upload<Row>>, n: nat)
    requires AllHaveKey(task.table, task.key) && GoesOn(task, uploads, all, n)
    ensures GoesOn(task, [u] + uploads, [u] + all, n)
  {
    var last := uploads[|uploads| - 1];
    assert ([u] + uploads)[|uploads|] == last;
    if !last.isLast {
      assert [u] + (uploads + task.Rounds(last.nextCursor, n)) == [u] + uploads + task.Rounds(last.nextCursor, n);
    }
  }

  lemma GoesOnAtOnce(task: Task, wire: Option<Scalar>, n: nat)
    requires AllHaveKey(task.table, task.key) && task.Fault(wire) == None
    ensures task.Rounds(wire, 1) == [task.Next(wire)]
    ensures GoesOn(task, task.Rounds(wire, 1), task.Rounds(wire, n + 1), n)
  {
    var u := task.Next(wire);
    if !u.isLast {
      task.NextRoundIsFree(wire);
      assert task.Rounds(u.nextCursor, 0) == [];
    }
  }

  /** Reading m + n batches from a cursor, or first m and then n from the last cursor, uploads the same, in whatever
      order the answers come. */
  lemma {:induction false} RoundsGoOn(task: Task, wire: Option<Scalar>, m: nat, n: nat)
    requires AllHaveKey(task.table, task.key) && task.Fault(wire) == None && m > 0
    ensures GoesOn(task, task.Rounds(wire, m), task.Rounds(wire, m + n), n)
    decreases m
  {
    if m == 1 {
      GoesOnAtOnce(task, wire, n);
    } else {
      RoundsStep(task, wire, m);
      RoundsStep(task, wire, m + n);
      var u := task.Next(wire);
      if !u.isLast {
        RoundsGoOn(task, u.nextCursor, m - 1, n);
        GoesOnBehind(task, u, task.Rounds(u.nextCursor, m - 1), task.Rounds(u.nextCursor, m - 1 + n), n);
      }
    }
  }

  lemma RoundsStep(task: Task, wire: Option<Scalar>, count: nat)
    requires AllHaveKey(task.table, task.key) && task.Fault(wire) == None && count > 0
    ensures var u := task.Next(wire);
            if u.isLast then task.Rounds(wire, count) == [u]
            else
              && task.Fault(u.nextCursor) == None
              && task.Rounds(wire, count) == [u] + task.Rounds(u.nextCursor, count - 1)
  {
    if !task.Next(wire).isLast { task.NextRoundIsFree(wire); }
  }

  /** So a read can be cut into tasks anywhere, each starting at the last cursor of the one before. */
  lemma NextTaskReadsOn(task: Task, m: nat, n: nat)
    requires AllHaveKey(task.table, task.key) && task.Fault(task.cursor) == None && m > 0
    ensures var uploads, all := task.Rounds(task.cursor, m), task.Rounds(task.cursor, m + n);
            && uploads != []
            && if uploads[|uploads| - 1].isLast then all == uploads
               else
                 var later := ReadOn(task, uploads, n);
                 later.Fault(later.cursor) == None && all == uploads + later.Rounds(later.cursor, n)
  {
    RoundsGoOn(task, task.cursor, m, n);
    var uploads := task.Rounds(task.cursor, m);
    if !uploads[|uploads| - 1].isLast {
      var later := ReadOn(task, uploads, n);
      RoundsOfReadOn(task, later, later.cursor, n);
    }
  }
}
