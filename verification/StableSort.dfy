/** The stable sort behind every canonical form, and when its result is determined by the elements alone. */
module StableSort {
  import opened Common

  /** What a comparison-based sort may assume of "comes before": ties are allowed, cycles are not. */
  ghost predicate StrictWeakOrder<T(!new)>(less: (T, T) -> bool) {
    && (forall x :: !less(x, x))
    && (forall x, y, z :: less(x, y) && less(y, z) ==> less(x, z))
    && (forall x, y, z :: !less(x, y) && !less(y, z) ==> !less(x, z))
  }

  ghost predicate Sorted<T>(s: seq<T>, less: (T, T) -> bool) {
    forall i, j :: 0 <= i < j < |s| ==> !less(s[j], s[i])
  }

  /** Puts x in front of everything it does not come after. */
  function Insert<T>(x: T, s: seq<T>, less: (T, T) -> bool): (r: seq<T>)
    ensures multiset(r) == multiset{x} + multiset(s)
    ensures |r| == |s| + 1
  {
    if s == [] || !less(s[0], x) then [x] + s
    else
      assert s == [s[0]] + s[1..];
      [s[0]] + Insert(x, s[1..], less)
  }

  function Sort<T(!new)>(s: seq<T>, less: (T, T) -> bool): (r: seq<T>)
    ensures multiset(r) == multiset(s) && |r| == |s|
    ensures forall x :: x in r <==> x in s
  {
    if s == [] then []
    else
      assert s == [s[0]] + s[1..];
      var r := Insert(s[0], Sort(s[1..], less), less);
      assert forall x :: x in r <==> x in multiset(r);
      assert forall x :: x in s <==> x in multiset(s);
      r
  }

  lemma {:induction false} InsertKeepsSorted<T(!new)>(x: T, s: seq<T>, less: (T, T) -> bool)
    requires StrictWeakOrder(less) && Sorted(s, less)
    ensures Sorted(Insert(x, s, less), less)
  {
    if s != [] {
      if less(s[0], x) {
        var rest := Insert(x, s[1..], less);
        InsertKeepsSorted(x, s[1..], less);
        forall j | 0 <= j < |rest| ensures !less(rest[j], s[0]) {
          assert rest[j] in multiset(rest);
          assert rest[j] == x || rest[j] in s[1..];
        }
      } else {
        forall j | 0 <= j < |s| ensures !less(s[j], x) {
          assert !less(s[j], s[0]) || j == 0;
        }
      }
    }
  }

  lemma {:induction false} SortSorts<T(!new)>(s: seq<T>, less: (T, T) -> bool)
    requires StrictWeakOrder(less)
    ensures Sorted(Sort(s, less), less)
  {
    if s != [] {
      SortSorts(s[1..], less);
      InsertKeepsSorted(s[0], Sort(s[1..], less), less);
    }
  }

  /** Any two different elements are ordered one way or the other. */
  ghost predicate Separates<T>(s: seq<T>, less: (T, T) -> bool) {
    forall x, y :: x in s && y in s && x != y ==> less(x, y) || less(y, x)
  }

  /** Without ties there is one sorted arrangement of the same elements. */
  lemma {:induction false} SortedIsUnique<T>(a: seq<T>, b: seq<T>, less: (T, T) -> bool)
    requires multiset(a) == multiset(b)
    requires Sorted(a, less) && Sorted(b, less) && Separates(a, less)
    ensures a == b
  {
    assert |multiset(a)| == |a| && |multiset(b)| == |b|;
    if a != [] {
      SameFirst(a, b, less);
      assert a == [a[0]] + a[1..] && b == [a[0]] + b[1..];
      assert multiset(a) == multiset(a[1..]) + multiset{a[0]};
      assert multiset(b) == multiset(b[1..]) + multiset{a[0]};
      CancelOne(multiset(a[1..]), multiset(b[1..]), a[0]);
      SortedIsUnique(a[1..], b[1..], less);
    }
  }

  lemma SameFirst<T>(a: seq<T>, b: seq<T>, less: (T, T) -> bool)
    requires multiset(a) == multiset(b) && a != [] && b != []
    requires Sorted(a, less) && Sorted(b, less) && Separates(a, less)
    ensures a[0] == b[0]
  {
    assert a[0] in multiset(b) && b[0] in multiset(a);
    var i :| 0 <= i < |b| && b[i] == a[0];
    var j :| 0 <= j < |a| && a[j] == b[0];
  }

  /** So the sorted form of a tie-free list depends on its elements only, and tells them. */
  lemma SortIsCanonical<T(!new)>(a: seq<T>, b: seq<T>, less: (T, T) -> bool)
    requires StrictWeakOrder(less) && Separates(a, less)
    ensures Sort(a, less) == Sort(b, less) <==> multiset(a) == multiset(b)
  {
    if multiset(a) == multiset(b) {
      SortSorts(a, less);
      SortSorts(b, less);
      SortedIsUnique(Sort(a, less), Sort(b, less), less);
    }
  }

  /** A sorted list is left as it is. */
  lemma {:induction false} SortOfSorted<T(!new)>(s: seq<T>, less: (T, T) -> bool)
    requires Sorted(s, less)
    ensures Sort(s, less) == s
  {
    if s != [] {
      SortOfSorted(s[1..], less);
      assert s == [s[0]] + s[1..];
      assert |s| > 1 ==> s[1..][0] == s[1] && !less(s[1], s[0]);
    }
  }

  // ---- Filtering ----

  function Filter<T(!new)>(s: seq<T>, keep: T -> bool): (r: seq<T>)
    ensures forall x :: x in r <==> x in s && keep(x)
  {
    if s == [] then []
    else
      assert s == [s[0]] + s[1..];
      (if keep(s[0]) then [s[0]] else []) + Filter(s[1..], keep)
  }

  lemma {:induction false} FilterCounts<T(!new)>(s: seq<T>, keep: T -> bool)
    ensures forall x :: multiset(Filter(s, keep))[x] == if keep(x) then multiset(s)[x] else 0
  {
    if s != [] {
      FilterCounts(s[1..], keep);
      assert s == [s[0]] + s[1..];
    }
  }

  lemma FilterOfSame<T(!new)>(a: seq<T>, b: seq<T>, keep: T -> bool)
    requires multiset(a) == multiset(b)
    ensures multiset(Filter(a, keep)) == multiset(Filter(b, keep))
  {
    FilterCounts(a, keep);
    FilterCounts(b, keep);
  }

  lemma {:induction false} FilterKeepsSorted<T(!new)>(s: seq<T>, keep: T -> bool, less: (T, T) -> bool)
    requires Sorted(s, less)
    ensures Sorted(Filter(s, keep), less)
  {
    if s != [] {
      var rest := Filter(s[1..], keep);
      FilterKeepsSorted(s[1..], keep, less);
      forall j | 0 <= j < |rest| ensures !less(rest[j], s[0]) {
        assert rest[j] in rest;
        var k :| 0 <= k < |s[1..]| && s[1..][k] == rest[j];
        assert s[k + 1] == rest[j];
      }
    }
  }

  lemma {:induction false} FilterConcat<T(!new)>(a: seq<T>, b: seq<T>, keep: T -> bool)
    ensures Filter(a + b, keep) == Filter(a, keep) + Filter(b, keep)
  {
    if a == [] {
      assert a + b == b;
    } else {
      assert (a + b)[1..] == a[1..] + b;
      FilterConcat(a[1..], b, keep);
    }
  }

  /** Filtering by the wider condition first makes no difference. */
  lemma {:induction false} FilterTwice<T(!new)>(s: seq<T>, wide: T -> bool, keep: T -> bool)
    requires forall x :: x in s && keep(x) ==> wide(x)
    ensures Filter(Filter(s, wide), keep) == Filter(s, keep)
  {
    if s != [] {
      FilterTwice(s[1..], wide, keep);
      FilterConcat(if wide(s[0]) then [s[0]] else [], Filter(s[1..], wide), keep);
      FilterOfOne(s[0], keep);
    }
  }

  lemma FilterOfOne<T(!new)>(x: T, keep: T -> bool)
    ensures Filter([x], keep) == if keep(x) then [x] else []
  {
    assert [x][1..] == [];
  }

  lemma {:induction false} FilterAll<T(!new)>(s: seq<T>, keep: T -> bool)
    ensures (forall x :: x in s ==> keep(x)) ==> Filter(s, keep) == s
    ensures (forall x :: x in s ==> !keep(x)) ==> Filter(s, keep) == []
  {
    if s != [] {
      FilterAll(s[1..], keep);
      assert s == [s[0]] + s[1..];
    }
  }

  lemma FilterSkips<T(!new)>(a: seq<T>, b: seq<T>, keep: T -> bool)
    requires forall x :: x in a ==> !keep(x)
    ensures Filter(a + b, keep) == Filter(b, keep)
  {
    FilterConcat(a, b, keep);
    FilterAll(a, keep);
  }

  /** A condition that holds from some place on keeps the rest. */
  lemma FilterFrom<T(!new)>(s: seq<T>, k: nat, keep: T -> bool)
    requires k <= |s| && forall i :: 0 <= i < |s| ==> (keep(s[i]) <==> k <= i)
    ensures Filter(s, keep) == s[k..]
  {
    assert s == s[..k] + s[k..];
    FilterSkips(s[..k], s[k..], keep);
    FilterAll(s[k..], keep);
  }

  // ---- Sorting and filtering commute ----

  lemma FilterFirst<T(!new)>(x: T, s: seq<T>, keep: T -> bool)
    ensures Filter([x] + s, keep) == if keep(x) then [x] + Filter(s, keep) else Filter(s, keep)
  {
    assert ([x] + s)[1..] == s;
  }

  lemma InsertFirst<T(!new)>(x: T, y: T, s: seq<T>, less: (T, T) -> bool)
    ensures Insert(x, [y] + s, less) == if less(y, x) then [y] + Insert(x, s, less) else [x] + ([y] + s)
  {
    assert ([y] + s)[1..] == s;
  }

  lemma InsertInFront<T(!new)>(x: T, s: seq<T>, less: (T, T) -> bool)
    requires forall y :: y in s ==> !less(y, x)
    ensures Insert(x, s, less) == [x] + s
  {
  }

  lemma {:induction false} FilterOfInsert<T(!new)>(x: T, s: seq<T>, keep: T -> bool, less: (T, T) -> bool)
    requires StrictWeakOrder(less) && Sorted(s, less)
    ensures Filter(Insert(x, s, less), keep) ==
            if keep(x) then Insert(x, Filter(s, keep), less) else Filter(s, keep)
  {
    if s == [] {
      FilterOfOne(x, keep);
    } else {
      var y, rest := s[0], s[1..];
      assert s == [y] + rest;
      InsertFirst(x, y, rest, less);
      FilterFirst(y, rest, keep);
      if less(y, x) {
        FilterOfInsert(x, rest, keep, less);
        FilterFirst(y, Insert(x, rest, less), keep);
        InsertFirst(x, y, Filter(rest, keep), less);
      } else {
        FilterBehindFirst(x, s, keep, less);
      }
    }
  }

  lemma FilterBehindFirst<T(!new)>(x: T, s: seq<T>, keep: T -> bool, less: (T, T) -> bool)
    requires StrictWeakOrder(less) && Sorted(s, less) && s != [] && !less(s[0], x)
    ensures Filter([x] + s, keep) == if keep(x) then Insert(x, Filter(s, keep), less) else Filter(s, keep)
  {
    FilterFirst(x, s, keep);
    NothingBefore(x, s, less);
    InsertInFront(x, Filter(s, keep), less);
  }

  lemma NothingBefore<T(!new)>(x: T, s: seq<T>, less: (T, T) -> bool)
    requires StrictWeakOrder(less) && Sorted(s, less) && s != [] && !less(s[0], x)
    ensures forall y :: y in s ==> !less(y, x)
  {
    forall y | y in s ensures !less(y, x) {
      var k :| 0 <= k < |s| && s[k] == y;
      assert !less(y, s[0]);
    }
  }

  lemma {:induction false} FilterOfSort<T(!new)>(s: seq<T>, keep: T -> bool, less: (T, T) -> bool)
    requires StrictWeakOrder(less)
    ensures Filter(Sort(s, less), keep) == Sort(Filter(s, keep), less)
  {
    if s != [] {
      var x, rest := s[0], s[1..];
      FilterOfSort(rest, keep, less);
      SortSorts(rest, less);
      FilterOfInsert(x, Sort(rest, less), keep, less);
      SortFirst(x, rest, less);
      SortFirst(x, Filter(rest, keep), less);
      FilterFirst(x, rest, keep);
      assert s == [x] + rest;
    }
  }

  lemma SortFirst<T(!new)>(x: T, s: seq<T>, less: (T, T) -> bool)
    ensures Sort([x] + s, less) == Insert(x, Sort(s, less), less)
  {
    assert ([x] + s)[1..] == s;
  }

  /** Elements that tie with each other stay in the order they came in. */
  lemma TiesStay<T(!new)>(s: seq<T>, keep: T -> bool, less: (T, T) -> bool)
    requires StrictWeakOrder(less)
    requires forall x, y :: x in s && y in s && keep(x) && keep(y) ==> !less(x, y)
    ensures Filter(Sort(s, less), keep) == Filter(s, keep)
  {
    var kept := Filter(s, keep);
    FilterOfSort(s, keep, less);
    forall i, j | 0 <= i < j < |kept| ensures !less(kept[j], kept[i]) {
      assert kept[i] in kept && kept[j] in kept;
    }
    SortOfSorted(kept, less);
  }

  // ---- Exactly when the sorted form is canonical ----

  /** The same elements with number i in front. */
  function MoveToFront<T>(s: seq<T>, i: nat): (r: seq<T>)
    requires i < |s|
    ensures |r| == |s| && multiset(r) == multiset(s)
  {
    assert s == s[..i] + [s[i]] + s[i + 1..];
    [s[i]] + (s[..i] + s[i + 1..])
  }

  lemma FrontIsKept<T(!new)>(s: seq<T>, i: nat, keep: T -> bool)
    requires i < |s| && keep(s[i])
    ensures Filter(MoveToFront(s, i), keep) != [] && Filter(MoveToFront(s, i), keep)[0] == s[i]
  {
    FilterConcat([s[i]], s[..i] + s[i + 1..], keep);
    FilterOfOne(s[i], keep);
  }

  function Either<T(==)>(x: T, y: T): T -> bool {
    z => z == x || z == y
  }

  /** Two different elements that tie give the same elements two sorted forms. */
  lemma TiesShow<T(!new)>(s: seq<T>, i: nat, j: nat, less: (T, T) -> bool)
    requires StrictWeakOrder(less) && i < |s| && j < |s|
    requires s[i] != s[j] && !less(s[i], s[j]) && !less(s[j], s[i])
    ensures Sort(MoveToFront(s, i), less) != Sort(MoveToFront(s, j), less)
  {
    var keep := Either(s[i], s[j]);
    FrontIsKept(s, i, keep);
    FrontIsKept(s, j, keep);
    TiesStay(MoveToFront(s, i), keep, less);
    TiesStay(MoveToFront(s, j), keep, less);
  }

  lemma TieWitness<T(!new)>(a: seq<T>, less: (T, T) -> bool) returns (b: seq<T>)
    requires StrictWeakOrder(less) && !Separates(a, less)
    ensures multiset(b) == multiset(a) && Sort(b, less) != Sort(a, less)
  {
    var x, y :| x in a && y in a && x != y && !less(x, y) && !less(y, x);
    var i :| 0 <= i < |a| && a[i] == x;
    var j :| 0 <= j < |a| && a[j] == y;
    TiesShow(a, i, j, less);
    b := if Sort(MoveToFront(a, i), less) != Sort(a, less) then MoveToFront(a, i) else MoveToFront(a, j);
  }

  /** The sorted form of a list tells it from every other list, up to order, exactly when no two of its elements tie. */
  lemma SortDecidesExactly<T(!new)>(a: seq<T>, less: (T, T) -> bool)
    requires StrictWeakOrder(less)
    ensures (forall b :: Sort(a, less) == Sort(b, less) <==> multiset(a) == multiset(b)) <==> Separates(a, less)
  {
    if Separates(a, less) {
      forall b ensures Sort(a, less) == Sort(b, less) <==> multiset(a) == multiset(b) {
        SortIsCanonical(a, b, less);
      }
    } else {
      var b := TieWitness(a, less);
      assert multiset(a) == multiset(b);
    }
  }

  // ---- Pairs ----

  lemma SortOfPair<T(!new)>(x: T, y: T, less: (T, T) -> bool)
    requires !less(y, x)
    ensures Sort([x, y], less) == [x, y]
  {
    assert [x, y][1..] == [y] && [y][1..] == [];
    assert Sort([y], less) == [y];
  }

  lemma FilterOfPair<T(!new)>(x: T, y: T, keep: T -> bool)
    requires keep(x) == keep(y)
    ensures Filter([x, y], keep) == if keep(x) then [x, y] else []
  {
    assert [x, y][1..] == [y] && [y][1..] == [];
    assert Filter([y], keep) == if keep(y) then [y] else [];
  }
}
