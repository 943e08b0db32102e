/** A list of rows cut into uploads, batch after batch, until the last one or until there are as many as allowed. */
module ReadTask {
  import opened Common

  /** One batch on the wire, where a cursor is a single value. */
  datatype Upload<R> = Upload(cursor: Option<Scalar>, rows: seq<R>, nextCursor: Option<Scalar>, isLast: bool)

  /** How a table is paged: the value of a row that fits on the wire, whether the key has more, the batch size. */
  datatype Paging<!R> = Paging(wire: R -> Option<Scalar>, composite: bool, limit: nat)

  function Take<T>(s: seq<T>, n: nat): (r: seq<T>)
    ensures |r| <= n && |r| <= |s| && r == s[..|r|] && (|r| < n ==> r == s)
  {
    if |s| <= n then s else s[..n]
  }

  /** The next batch of the pending rows; with a composite key it is always reported as the last. */
  function UploadOf<R>(p: Paging<R>, pending: seq<R>, cursor: Option<Scalar>): (u: Upload<R>)
    requires p.limit > 0
    ensures u.isLast <==> p.composite || |pending| < p.limit
  {
    var last := p.composite || |pending| < p.limit;
    Upload(cursor, Take(pending, p.limit), if last then None else p.wire(pending[p.limit - 1]), last)
  }

  /** The uploads of a task that may read so many batches. */
  function Uploads<R>(p: Paging<R>, pending: seq<R>, cursor: Option<Scalar>, count: nat): seq<Upload<R>>
    requires p.limit > 0
    decreases count
  {
    if count == 0 then []
    else
      var u := UploadOf(p, pending, cursor);
      if u.isLast then [u] else [u] + Uploads(p, pending[p.limit..], u.nextCursor, count - 1)
  }

  lemma UploadsStep<R>(p: Paging<R>, pending: seq<R>, cursor: Option<Scalar>, count: nat)
    requires p.limit > 0 && count > 0
    ensures var u := UploadOf(p, pending, cursor);
            Uploads(p, pending, cursor, count) ==
            if u.isLast then [u] else [u] + Uploads(p, pending[p.limit..], u.nextCursor, count - 1)
  {
  }

  /** The size of k full batches. */
  function Times(limit: nat, k: nat): nat {
    if k == 0 then 0 else limit + Times(limit, k - 1)
  }

  lemma {:induction false} TimesIsProduct(limit: nat, k: nat)
    ensures Times(limit, k) == limit * k
  {
    if k > 0 {
      TimesIsProduct(limit, k - 1);
      assert limit * k == limit + limit * (k - 1);
    }
  }

  lemma {:induction false} TimesGrows(limit: nat, j: nat, k: nat)
    requires j <= k
    ensures Times(limit, j) <= Times(limit, k)
  {
    if j < k { TimesGrows(limit, j, k - 1); }
  }

  // ---- What they deliver ----

  function Delivered<R>(uploads: seq<Upload<R>>): seq<R> {
    if uploads == [] then [] else uploads[0].rows + Delivered(uploads[1..])
  }

  lemma TakeSum<T>(s: seq<T>, m: nat, n: nat)
    ensures Take(s, m + n) == Take(s, m) + Take(s[|Take(s, m)|..], n)
  {
  }

  lemma DeliversOneMore<R>(pending: seq<R>, u: Upload<R>, rest: seq<Upload<R>>, limit: nat)
    requires u.rows == Take(pending, limit)
    requires Delivered(rest) == Take(pending[|u.rows|..], Times(limit, |rest|))
    ensures Delivered([u] + rest) == Take(pending, Times(limit, |[u] + rest|))
  {
    assert ([u] + rest)[1..] == rest;
    TakeSum(pending, limit, Times(limit, |rest|));
  }

  lemma {:induction false} DeliversBatches<R>(p: Paging<R>, pending: seq<R>, cursor: Option<Scalar>, count: nat)
    requires p.limit > 0
    ensures var uploads := Uploads(p, pending, cursor, count);
            Delivered(uploads) == Take(pending, Times(p.limit, |uploads|))
    decreases count
  {
    if count > 0 {
      var u := UploadOf(p, pending, cursor);
      if u.isLast {
        DeliversOneMore(pending, u, [], p.limit);
        assert [u] + [] == [u];
      } else {
        DeliversBatches(p, pending[p.limit..], u.nextCursor, count - 1);
        DeliversOneMore(pending, u, Uploads(p, pending[p.limit..], u.nextCursor, count - 1), p.limit);
      }
    }
  }

  /** A task delivers the pending rows from the first on, each once and in order, as many as fit its uploads. */
  lemma DeliversAPrefix<R>(p: Paging<R>, pending: seq<R>, cursor: Option<Scalar>, count: nat)
    requires p.limit > 0
    ensures var uploads := Uploads(p, pending, cursor, count);
            Delivered(uploads) == Take(pending, p.limit * |uploads|)
  {
    DeliversBatches(p, pending, cursor, count);
    TimesIsProduct(p.limit, |Uploads(p, pending, cursor, count)|);
  }

  // ---- When they end ----

  /** How far a list of uploads gets through so many pending rows: it stops early only at a reported end, and with a
      key of one column the end is reported exactly when the last batch is not full. */
  ghost predicate StopsRightly<R>(uploads: seq<Upload<R>>, pending: nat, composite: bool, limit: nat, count: nat) {
    && 0 < |uploads| <= count
    && var last := uploads[|uploads| - 1].isLast;
       && (last || |uploads| == count)
       && if composite then last && |uploads| == 1
          else Times(limit, |uploads| - 1) <= pending && (last <==> pending < Times(limit, |uploads|))
  }

  lemma StopsAtFirst<R>(u: Upload<R>, pending: nat, composite: bool, limit: nat, count: nat)
    requires count > 0 && (u.isLast <==> composite || pending < limit) && (u.isLast || count == 1)
    ensures StopsRightly([u], pending, composite, limit, count)
  {
    assert Times(limit, 1) == limit + Times(limit, 0);
  }

  lemma StopsOneLater<R>(u: Upload<R>, rest: seq<Upload<R>>, pending: nat, limit: nat, count: nat)
    requires limit <= pending && StopsRightly(rest, pending - limit, false, limit, count)
    ensures StopsRightly([u] + rest, pending, false, limit, count + 1)
  {
    assert ([u] + rest)[|rest|] == rest[|rest| - 1];
  }

  lemma {:induction false} TasksStopRightly<R>(p: Paging<R>, pending: seq<R>, cursor: Option<Scalar>, count: nat)
    requires p.limit > 0 && count > 0
    ensures StopsRightly(Uploads(p, pending, cursor, count), |pending|, p.composite, p.limit, count)
    decreases count
  {
    var u := UploadOf(p, pending, cursor);
    if !u.isLast && count > 1 {
      TasksStopRightly(p, pending[p.limit..], u.nextCursor, count - 1);
      var rest := Uploads(p, pending[p.limit..], u.nextCursor, count - 1);
      StopsOneLater(u, rest, |pending|, p.limit, count - 1);
    } else {
      StopsAtFirst(u, |pending|, p.composite, p.limit, count);
      assert [u] + [] == [u];
    }
  }

  /** With a key of one column a task delivers everything, and says so, exactly when its batches suffice. */
  lemma EndIsReportedWhenReached<R>(p: Paging<R>, pending: seq<R>, cursor: Option<Scalar>, count: nat)
    requires !p.composite && p.limit > 0 && count > 0
    ensures var uploads := Uploads(p, pending, cursor, count);
            && uploads != []
            && (uploads[|uploads| - 1].isLast <==> |pending| < p.limit * count)
            && Delivered(uploads) == Take(pending, p.limit * count)
  {
    var k := |Uploads(p, pending, cursor, count)|;
    TasksStopRightly(p, pending, cursor, count);
    DeliversBatches(p, pending, cursor, count);
    TimesGrows(p.limit, k, count);
    TimesIsProduct(p.limit, count);
  }

  /** A reported end means that everything was delivered, exactly for a key of one column or rows that fit one batch. */
  lemma EndMeansEverything<R>(p: Paging<R>, pending: seq<R>, cursor: Option<Scalar>, count: nat)
    requires p.limit > 0 && count > 0
    ensures var uploads := Uploads(p, pending, cursor, count);
            && uploads != []
            && ((uploads[|uploads| - 1].isLast ==> Delivered(uploads) == pending) <==>
                !p.composite || |pending| <= p.limit)
  {
    TasksStopRightly(p, pending, cursor, count);
    DeliversBatches(p, pending, cursor, count);
    assert Times(p.limit, 1) == p.limit + Times(p.limit, 0);
  }
}
