/** `sortKeysForHash` and the canonical forms of cleaning steps and source schemas. */
module CanonicalForm {
  import opened Common
  import opened Json
  import opened StableSort

  /** "Comes before" of the locale's string comparison. */
  type KeyOrder = (string, string) -> bool

  // ---- The order in which a rebuilt object lists its keys ----

  /** Keys that are array indices: canonical numerals below 2^32 - 1. */
  predicate IsIndexKey(k: string) {
    k != "" && AllDigits(k) && (|k| > 1 ==> k[0] != '0') && DecimalValue(k) < 4294967295
  }

  function IndexOf(k: string): nat {
    if AllDigits(k) then DecimalValue(k) else 0
  }

  function Indexed(): Entry -> bool {
    (e: Entry) => IsIndexKey(e.key)
  }

  function Named(): Entry -> bool {
    (e: Entry) => !IsIndexKey(e.key)
  }

  function ByIndex(): (Entry, Entry) -> bool {
    (x: Entry, y: Entry) => IndexOf(x.key) < IndexOf(y.key)
  }

  function ByKey(less: KeyOrder): (Entry, Entry) -> bool {
    (x: Entry, y: Entry) => less(x.key, y.key)
  }

  /** An object built from entries lists its index keys first, in numeric order, then the others as they came. */
  function FromEntries(es: seq<Entry>): seq<Entry> {
    Sort(Filter(es, Indexed()), ByIndex()) + Filter(es, Named())
  }

  function SortKeysForHash(j: Json, less: KeyOrder): Json {
    match j
    case Arr(items) => Arr(seq(|items|, i requires 0 <= i < |items| => SortKeysForHash(items[i], less)))
    case Obj(es) =>
      var sorted := Sort(es, ByKey(less));
      Obj(FromEntries(
        seq(|sorted|, i requires 0 <= i < |sorted| =>
          assert sorted[i] in es;
          Entry(sorted[i].key, SortKeysForHash(sorted[i].value, less)))))
    case _ => j
  }

  // ---- Rearrangement ----

  lemma FromEntriesRearranges(es: seq<Entry>)
    ensures multiset(FromEntries(es)) == multiset(es)
  {
    FilterCounts(es, Indexed());
    FilterCounts(es, Named());
    assert multiset(Filter(es, Indexed())) + multiset(Filter(es, Named())) == multiset(es);
  }

  lemma {:induction false} InsertThenMap<T, U>(x: T, s: seq<T>, f: T -> U, less: (T, T) -> bool, less': (U, U) -> bool)
    requires forall y, z :: less'(f(y), f(z)) <==> less(y, z)
    ensures Map(Insert(x, s, less), f) == Insert(f(x), Map(s, f), less')
  {
    if s != [] {
      MapStep(s, f);
      if less(s[0], x) {
        InsertThenMap(x, s[1..], f, less, less');
        MapStep([s[0]] + Insert(x, s[1..], less), f);
      } else {
        MapStep([x] + s, f);
      }
    }
  }

  lemma {:induction false} SortThenMap<T(!new), U(!new)>(s: seq<T>, f: T -> U, less: (T, T) -> bool,
                                                         less': (U, U) -> bool)
    requires forall y, z :: less'(f(y), f(z)) <==> less(y, z)
    ensures Map(Sort(s, less), f) == Sort(Map(s, f), less')
  {
    if s != [] {
      SortThenMap(s[1..], f, less, less');
      InsertThenMap(s[0], Sort(s[1..], less), f, less, less');
      MapStep(s, f);
    }
  }

  function CanonEntry(less: KeyOrder): Entry -> Entry {
    (e: Entry) => Entry(e.key, SortKeysForHash(e.value, less))
  }

  function CanonEntries(es: seq<Entry>, less: KeyOrder): (r: seq<Entry>)
    ensures |r| == |es| && forall i :: 0 <= i < |es| ==> r[i] == Entry(es[i].key, SortKeysForHash(es[i].value, less))
  {
    Map(es, CanonEntry(less))
  }

  /** Sorting the keys before or after the values are put in form makes no difference. */
  lemma ObjectForm(es: seq<Entry>, less: KeyOrder)
    ensures SortKeysForHash(Obj(es), less) == Obj(FromEntries(Sort(CanonEntries(es, less), ByKey(less))))
  {
    SortThenMap(es, CanonEntry(less), ByKey(less), ByKey(less));
    ValuesOfSorted(es, Sort(es, ByKey(less)), less);
  }

  lemma ValuesOfSorted(es: seq<Entry>, sorted: seq<Entry>, less: KeyOrder)
    requires sorted == Sort(es, ByKey(less))
    ensures SortKeysForHash(Obj(es), less) == Obj(FromEntries(Map(sorted, CanonEntry(less))))
  {
    var values := seq(|sorted|, i requires 0 <= i < |sorted| =>
      Entry(sorted[i].key, SortKeysForHash(sorted[i].value, less)));
    assert values == Map(sorted, CanonEntry(less));
  }

  // ---- When the rearrangement is determined ----

  /** No two different names tie. Index keys may: their place does not depend on the order. */
  ghost predicate SeparatesNames(less: KeyOrder) {
    forall k, l :: k != l && !IsIndexKey(k) && !IsIndexKey(l) ==> less(k, l) || less(l, k)
  }

  lemma {:induction false} CanonicalNumeral(k: string)
    requires k != "" && AllDigits(k) && (|k| > 1 ==> k[0] != '0')
    ensures Decimal(DecimalValue(k)) == k
    ensures |k| > 1 ==> DecimalValue(k) > 9
  {
    var init, c := k[..|k| - 1], k[|k| - 1];
    assert DigitChar(DigitValue(c)) == c;
    if init == "" {
      assert k == [c];
    } else {
      CanonicalNumeral(init);
      assert DecimalValue(init) > 0 by {
        if |init| == 1 { assert DecimalValue(init) == DigitValue(init[0]); }
      }
      assert k == init + [c];
    }
  }

  /** An index key is the decimal text of a number below 2^32 - 1, and that number is its place among them. */
  lemma IndexKeyIsNumeral(k: string)
    ensures IsIndexKey(k) <==> exists n: nat :: n < 0xffff_ffff && k == Decimal(n)
    ensures forall n: nat :: n < 0xffff_ffff && k == Decimal(n) ==> IndexOf(k) == n
  {
    forall n: nat | k == Decimal(n) ensures DecimalValue(k) == n && (|k| > 1 ==> k[0] != '0') {
      DecimalRoundTrip(n);
      NoLeadingZero(n);
    }
    if IsIndexKey(k) {
      CanonicalNumeral(k);
      assert k == Decimal(DecimalValue(k));
    }
  }

  lemma {:induction false} NoLeadingZero(n: nat)
    ensures |Decimal(n)| > 1 ==> Decimal(n)[0] != '0'
    ensures n > 0 ==> Decimal(n)[0] != '0'
  {
    if n >= 10 {
      NoLeadingZero(n / 10);
    } else if n > 0 {
      assert DigitValue(DigitChar(n)) == n;
    }
  }

  /** In a form the index keys come first and ascend, and the names behind them go by the key order. */
  lemma FormIsInOrder(es: seq<Entry>, less: KeyOrder, i: nat, j: nat)
    requires StrictWeakOrder(less)
    requires i < j < |SortKeysForHash(Obj(es), less).entries|
    ensures var k, l := SortKeysForHash(Obj(es), less).entries[i].key, SortKeysForHash(Obj(es), less).entries[j].key;
            if IsIndexKey(k) && IsIndexKey(l) then IndexOf(k) <= IndexOf(l)
            else IsIndexKey(k) || (!IsIndexKey(l) && !less(l, k))
  {
    var sorted := Sort(CanonEntries(es, less), ByKey(less));
    var indices, names := Sort(Filter(sorted, Indexed()), ByIndex()), Filter(sorted, Named());
    ObjectForm(es, less);
    KeyOrdersAreOrders(less);
    SortSorts(CanonEntries(es, less), ByKey(less));
    SortSorts(Filter(sorted, Indexed()), ByIndex());
    FilterKeepsSorted(sorted, Named(), ByKey(less));
    forall e | e in indices ensures IsIndexKey(e.key) {
      assert e in multiset(Filter(sorted, Indexed()));
    }
    assert forall e :: e in names ==> !IsIndexKey(e.key);
    PartsInOrder(indices, names, less, i, j);
  }

  lemma PartsInOrder(indices: seq<Entry>, names: seq<Entry>, less: KeyOrder, i: nat, j: nat)
    requires Sorted(indices, ByIndex()) && Sorted(names, ByKey(less))
    requires (forall e :: e in indices ==> IsIndexKey(e.key)) && forall e :: e in names ==> !IsIndexKey(e.key)
    requires i < j < |indices + names|
    ensures var k, l := (indices + names)[i].key, (indices + names)[j].key;
            if IsIndexKey(k) && IsIndexKey(l) then IndexOf(k) <= IndexOf(l)
            else IsIndexKey(k) || (!IsIndexKey(l) && !less(l, k))
  {
    if j < |indices| {
      assert !ByIndex()(indices[j], indices[i]);
    } else if |indices| <= i {
      assert !ByKey(less)(names[j - |indices|], names[i - |indices|]);
    }
  }

  lemma KeyOrdersAreOrders(less: KeyOrder)
    requires StrictWeakOrder(less)
    ensures StrictWeakOrder(ByKey(less)) && StrictWeakOrder(ByIndex())
  {
    var byKey := ByKey(less);
    forall x ensures !byKey(x, x) { assert !less(x.key, x.key); }
    forall x, y, z | byKey(x, y) && byKey(y, z) ensures byKey(x, z) {
      assert less(x.key, y.key) && less(y.key, z.key);
    }
    forall x, y, z | !byKey(x, y) && !byKey(y, z) ensures !byKey(x, z) {
      assert !less(x.key, y.key) && !less(y.key, z.key);
    }
  }

  /** No two names of this object tie. */
  ghost predicate Untied(es: seq<Entry>, less: KeyOrder) {
    forall i, j :: 0 <= i < j < |es| && !IsIndexKey(es[i].key) && !IsIndexKey(es[j].key) ==>
      less(es[i].key, es[j].key) || less(es[j].key, es[i].key)
  }

  /** No object of the tree, at any depth, has two names that tie. */
  ghost predicate TieFree(j: Json, less: KeyOrder) {
    match j
    case Arr(items) => forall i :: 0 <= i < |items| ==> TieFree(items[i], less)
    case Obj(es) => Untied(es, less) && forall i :: 0 <= i < |es| ==> TieFree(es[i].value, less)
    case _ => true
  }

  lemma NamesAreSeparated(es: seq<Entry>, s: seq<Entry>, less: KeyOrder)
    requires Untied(es, less) && multiset(es) == multiset(s)
    ensures Separates(Filter(s, Named()), ByKey(less))
  {
    var names := Filter(s, Named());
    forall x, y | x in names && y in names && x != y ensures ByKey(less)(x, y) || ByKey(less)(y, x) {
      assert x in multiset(s) && y in multiset(s);
      var i :| 0 <= i < |es| && es[i] == x;
      var j :| 0 <= j < |es| && es[j] == y;
    }
  }

  lemma IndicesAreSeparated(es: seq<Entry>)
    requires DistinctKeys(es)
    ensures Separates(Filter(es, Indexed()), ByIndex())
  {
    var ix := Filter(es, Indexed());
    forall x, y | x in ix && y in ix && x != y ensures ByIndex()(x, y) || ByIndex()(y, x) {
      CanonicalNumeral(x.key);
      CanonicalNumeral(y.key);
      assert x.key != y.key;
    }
  }

  /** The final key order depends only on which entries there are. */
  lemma SameEntriesSameForm(es: seq<Entry>, fs: seq<Entry>, less: KeyOrder)
    requires StrictWeakOrder(less) && Untied(es, less)
    requires DistinctKeys(es) && multiset(es) == multiset(fs)
    ensures FromEntries(Sort(es, ByKey(less))) == FromEntries(Sort(fs, ByKey(less)))
  {
    var s, t := Sort(es, ByKey(less)), Sort(fs, ByKey(less));
    KeyOrdersAreOrders(less);
    SortSorts(es, ByKey(less));
    SortSorts(fs, ByKey(less));
    FilterOfSame(s, t, Named());
    FilterOfSame(s, t, Indexed());
    FilterKeepsSorted(s, Named(), ByKey(less));
    FilterKeepsSorted(t, Named(), ByKey(less));
    KeysStayDistinct(es, s);
    NamesAreSeparated(es, s, less);
    SortedIsUnique(Filter(s, Named()), Filter(t, Named()), ByKey(less));
    IndicesAreSeparated(s);
    SortIsCanonical(Filter(s, Indexed()), Filter(t, Indexed()), ByIndex());
  }

  lemma DistinctEntries(es: seq<Entry>)
    requires DistinctKeys(es)
    ensures NoRepeats(es)
  {
  }

  lemma KeysStayDistinct(es: seq<Entry>, s: seq<Entry>)
    requires DistinctKeys(es) && multiset(es) == multiset(s)
    ensures DistinctKeys(s)
  {
    DistinctEntries(es);
    CountedOnce(es);
    assert forall x :: multiset(s)[x] <= 1;
    forall i, j | 0 <= i < j < |s| ensures s[i] != s[j] {
      if s[i] == s[j] { TwicePresent(s, i, j); }
    }
    forall i, j | 0 <= i < j < |s| ensures s[i].key != s[j].key {
      assert s[i] in multiset(es) && s[j] in multiset(es);
      var p :| 0 <= p < |es| && es[p] == s[i];
      var q :| 0 <= q < |es| && es[q] == s[j];
    }
  }

  lemma TwicePresent<T>(s: seq<T>, i: nat, j: nat)
    requires i < j < |s| && s[i] == s[j]
    ensures multiset(s)[s[i]] >= 2
  {
    assert s == s[..i] + [s[i]] + s[i + 1..j] + [s[j]] + s[j + 1..];
  }

  // ---- The canonical form decides equivalence ----

  lemma CanonKeepsKeys(es: seq<Entry>, less: KeyOrder)
    requires DistinctKeys(es)
    ensures DistinctKeys(CanonEntries(es, less))
  {
  }

  ghost predicate AgreeOn(a: Json, b: Json, less: KeyOrder) {
    SortKeysForHash(a, less) == SortKeysForHash(b, less) <==> Equivalent(a, b)
  }

  /** Two well-formed trees, one of them without ties, have the same form exactly when they are equal up to key order,
      at every depth. */
  lemma {:induction false} FormDecidesEquivalence(a: Json, b: Json, less: KeyOrder)
    requires StrictWeakOrder(less) && TieFree(a, less)
    requires WellFormed(a) && WellFormed(b)
    ensures SortKeysForHash(a, less) == SortKeysForHash(b, less) <==> Equivalent(a, b)
    decreases a
  {
    if a.Arr? && b.Arr? {
      forall i | 0 <= i < |a.items| && i < |b.items| ensures AgreeOn(a.items[i], b.items[i], less) {
        FormDecidesEquivalence(a.items[i], b.items[i], less);
      }
      ArraysDecide(a.items, b.items, less);
    } else if a.Obj? && b.Obj? {
      forall i, j | 0 <= i < |a.entries| && 0 <= j < |b.entries|
        ensures AgreeOn(a.entries[i].value, b.entries[j].value, less)
      {
        FormDecidesEquivalence(a.entries[i].value, b.entries[j].value, less);
      }
      ObjectsDecide(a.entries, b.entries, less);
    }
  }

  lemma ArraysDecide(xs: seq<Json>, ys: seq<Json>, less: KeyOrder)
    requires forall i :: 0 <= i < |xs| && i < |ys| ==> AgreeOn(xs[i], ys[i], less)
    ensures AgreeOn(Arr(xs), Arr(ys), less)
  {
    var us, vs := SortKeysForHash(Arr(xs), less).items, SortKeysForHash(Arr(ys), less).items;
    assert forall i :: 0 <= i < |xs| ==> us[i] == SortKeysForHash(xs[i], less);
    assert forall i :: 0 <= i < |ys| ==> vs[i] == SortKeysForHash(ys[i], less);
  }

  /** The entry of fs that matches an entry of es, key and form. */
  ghost predicate Meets(e: Entry, fs: seq<Entry>, less: KeyOrder) {
    exists j :: 0 <= j < |fs| && CanonEntry(less)(fs[j]) == CanonEntry(less)(e)
  }

  ghost predicate Matched(es: seq<Entry>, fs: seq<Entry>, less: KeyOrder) {
    |es| == |fs| && forall i :: 0 <= i < |es| ==> Meets(es[i], fs, less)
  }

  lemma ObjectsDecide(es: seq<Entry>, fs: seq<Entry>, less: KeyOrder)
    requires StrictWeakOrder(less) && Untied(es, less)
    requires DistinctKeys(es) && DistinctKeys(fs)
    requires forall i, j :: 0 <= i < |es| && 0 <= j < |fs| ==> AgreeOn(es[i].value, fs[j].value, less)
    ensures AgreeOn(Obj(es), Obj(fs), less)
  {
    ObjectForms(es, fs, less);
    MatchedIsEquivalent(es, fs, less);
  }

  lemma MatchedIsEquivalent(es: seq<Entry>, fs: seq<Entry>, less: KeyOrder)
    requires forall i, j :: 0 <= i < |es| && 0 <= j < |fs| ==> AgreeOn(es[i].value, fs[j].value, less)
    ensures Matched(es, fs, less) <==> Equivalent(Obj(es), Obj(fs))
  {
    if Matched(es, fs, less) {
      forall i | 0 <= i < |es| ensures HasEquivalent(es[i].key, es[i].value, fs) {
        assert Meets(es[i], fs, less);
        var j :| 0 <= j < |fs| && CanonEntry(less)(fs[j]) == CanonEntry(less)(es[i]);
        assert AgreeOn(es[i].value, fs[j].value, less);
      }
    }
    if Equivalent(Obj(es), Obj(fs)) {
      forall i | 0 <= i < |es| ensures Meets(es[i], fs, less) {
        assert HasEquivalent(es[i].key, es[i].value, fs);
        var j :| 0 <= j < |fs| && fs[j].key == es[i].key && Equivalent(es[i].value, fs[j].value);
        assert AgreeOn(es[i].value, fs[j].value, less);
        assert CanonEntry(less)(fs[j]) == CanonEntry(less)(es[i]);
      }
    }
  }

  lemma ObjectForms(es: seq<Entry>, fs: seq<Entry>, less: KeyOrder)
    requires StrictWeakOrder(less) && Untied(es, less)
    requires DistinctKeys(es) && DistinctKeys(fs)
    ensures SortKeysForHash(Obj(es), less) == SortKeysForHash(Obj(fs), less) <==> Matched(es, fs, less)
  {
    EqualFormsMatch(es, fs, less);
    if Matched(es, fs, less) {
      ObjectForm(es, less);
      ObjectForm(fs, less);
      CanonKeepsKeys(es, less);
      MatchedIsSameMultiset(es, fs, less);
      SameEntriesSameForm(CanonEntries(es, less), CanonEntries(fs, less), less);
    }
  }

  /** Ties or not, equal forms come from matching entries. */
  lemma EqualFormsMatch(es: seq<Entry>, fs: seq<Entry>, less: KeyOrder)
    requires DistinctKeys(es) && DistinctKeys(fs)
    ensures SortKeysForHash(Obj(es), less) == SortKeysForHash(Obj(fs), less) ==> Matched(es, fs, less)
  {
    ObjectForm(es, less);
    ObjectForm(fs, less);
    FromEntriesRearranges(Sort(CanonEntries(es, less), ByKey(less)));
    FromEntriesRearranges(Sort(CanonEntries(fs, less), ByKey(less)));
    MatchedIsSameMultiset(es, fs, less);
  }

  lemma MatchedIsSameMultiset(es: seq<Entry>, fs: seq<Entry>, less: KeyOrder)
    requires DistinctKeys(es) && DistinctKeys(fs)
    ensures Matched(es, fs, less) <==> multiset(CanonEntries(es, less)) == multiset(CanonEntries(fs, less))
  {
    var us, vs := CanonEntries(es, less), CanonEntries(fs, less);
    CanonKeepsKeys(es, less);
    CanonKeepsKeys(fs, less);
    DistinctEntries(us);
    DistinctEntries(vs);
    assert |multiset(us)| == |us| && |multiset(vs)| == |vs|;
    if Matched(es, fs, less) {
      forall x | x in us ensures x in vs {
        var i :| 0 <= i < |us| && us[i] == x;
        assert Meets(es[i], fs, less);
        var j :| 0 <= j < |fs| && CanonEntry(less)(fs[j]) == CanonEntry(less)(es[i]);
        assert vs[j] == x;
      }
      SameElements(us, vs);
    }
    if multiset(us) == multiset(vs) {
      forall i | 0 <= i < |es| ensures Meets(es[i], fs, less) {
        assert us[i] in multiset(vs);
        var j :| 0 <= j < |vs| && vs[j] == us[i];
        assert CanonEntry(less)(fs[j]) == CanonEntry(less)(es[i]);
      }
    }
  }

  /** The form is itself well formed and equivalent to what it was made from. */
  lemma {:induction false} FormIsEquivalent(a: Json, less: KeyOrder)
    requires WellFormed(a)
    ensures WellFormed(SortKeysForHash(a, less)) && Equivalent(SortKeysForHash(a, less), a)
    decreases a
  {
    if a.Arr? {
      forall i | 0 <= i < |a.items| ensures FaithfulForm(a.items[i], less) {
        FormIsEquivalent(a.items[i], less);
      }
    } else if a.Obj? {
      forall i | 0 <= i < |a.entries| ensures FaithfulForm(a.entries[i].value, less) {
        FormIsEquivalent(a.entries[i].value, less);
      }
      ObjectIsFaithful(a.entries, less);
    }
  }

  ghost predicate FaithfulForm(a: Json, less: KeyOrder) {
    WellFormed(SortKeysForHash(a, less)) && Equivalent(SortKeysForHash(a, less), a)
  }

  lemma ObjectIsFaithful(es: seq<Entry>, less: KeyOrder)
    requires DistinctKeys(es) && forall i :: 0 <= i < |es| ==> FaithfulForm(es[i].value, less)
    ensures FaithfulForm(Obj(es), less)
  {
    var us := CanonEntries(es, less);
    var form := FromEntries(Sort(us, ByKey(less)));
    ObjectForm(es, less);
    FromEntriesRearranges(Sort(us, ByKey(less)));
    RearrangedIsFaithful(es, us, form);
  }

  /** Equivalent values under the same keys, in any order. */
  lemma RearrangedIsFaithful(es: seq<Entry>, us: seq<Entry>, form: seq<Entry>)
    requires DistinctKeys(es) && |us| == |es| && multiset(us) == multiset(form)
    requires forall i :: 0 <= i < |es| ==>
               us[i].key == es[i].key && WellFormed(us[i].value) && Equivalent(us[i].value, es[i].value)
    ensures WellFormed(Obj(form)) && Equivalent(Obj(form), Obj(es))
  {
    KeysStayDistinct(us, form);
    assert |multiset(form)| == |form| && |multiset(us)| == |us|;
    forall i | 0 <= i < |form|
      ensures WellFormed(form[i].value) && HasEquivalent(form[i].key, form[i].value, es)
    {
      assert form[i] in multiset(us);
      var j :| 0 <= j < |us| && us[j] == form[i];
      assert es[j].key == form[i].key;
    }
  }

  /** Canonicalising twice is canonicalising once, for every key order, ties or not. */
  lemma {:induction false} FormIsIdempotent(a: Json, less: KeyOrder)
    requires StrictWeakOrder(less) && WellFormed(a)
    ensures SortKeysForHash(SortKeysForHash(a, less), less) == SortKeysForHash(a, less)
    decreases a
  {
    if a.Arr? {
      forall i | 0 <= i < |a.items| ensures Settled(SortKeysForHash(a.items[i], less), less) {
        FormIsIdempotent(a.items[i], less);
      }
    } else if a.Obj? {
      forall i | 0 <= i < |a.entries| ensures Settled(SortKeysForHash(a.entries[i].value, less), less) {
        FormIsIdempotent(a.entries[i].value, less);
      }
      ObjectForm(a.entries, less);
      ObjectIsSettled(a.entries, less);
    }
  }

  ghost predicate Settled(a: Json, less: KeyOrder) {
    SortKeysForHash(a, less) == a
  }

  lemma ObjectIsSettled(es: seq<Entry>, less: KeyOrder)
    requires StrictWeakOrder(less) && DistinctKeys(es)
    requires forall i :: 0 <= i < |es| ==> Settled(SortKeysForHash(es[i].value, less), less)
    ensures Settled(Obj(FromEntries(Sort(CanonEntries(es, less), ByKey(less)))), less)
  {
    var us := CanonEntries(es, less);
    CanonKeepsKeys(es, less);
    FromEntriesRearranges(Sort(us, ByKey(less)));
    SettledForm(us, FromEntries(Sort(us, ByKey(less))), less);
  }

  lemma SettledForm(us: seq<Entry>, form: seq<Entry>, less: KeyOrder)
    requires StrictWeakOrder(less) && DistinctKeys(us)
    requires form == FromEntries(Sort(us, ByKey(less))) && multiset(form) == multiset(us)
    requires forall i :: 0 <= i < |us| ==> Settled(us[i].value, less)
    ensures Settled(Obj(form), less)
  {
    ObjectForm(form, less);
    SettledEntries(us, form, less);
    FromEntriesTwice(us, less);
  }

  lemma SettledEntries(us: seq<Entry>, form: seq<Entry>, less: KeyOrder)
    requires multiset(form) == multiset(us)
    requires forall i :: 0 <= i < |us| ==> Settled(us[i].value, less)
    ensures CanonEntries(form, less) == form
  {
    forall i | 0 <= i < |form| ensures Settled(form[i].value, less) {
      assert form[i] in multiset(us);
      var j :| 0 <= j < |us| && us[j] == form[i];
    }
  }

  /** An object that lists its keys in the final order lists them in the same order when it is rebuilt. */
  lemma FromEntriesTwice(us: seq<Entry>, less: KeyOrder)
    requires StrictWeakOrder(less) && DistinctKeys(us)
    ensures var form := FromEntries(Sort(us, ByKey(less)));
            FromEntries(Sort(form, ByKey(less))) == form
  {
    var sorted := Sort(us, ByKey(less));
    var form := FromEntries(sorted);
    KeyOrdersAreOrders(less);
    FromEntriesParts(sorted);
    FromEntriesRearranges(sorted);
    SortSorts(us, ByKey(less));
    FilterKeepsSorted(sorted, Named(), ByKey(less));
    FilterOfSort(form, Named(), ByKey(less));
    SortOfSorted(Filter(sorted, Named()), ByKey(less));
    KeysStayDistinct(us, sorted);
    IndicesAreSeparated(sorted);
    FilterOfSame(Sort(form, ByKey(less)), sorted, Indexed());
    SortIsCanonical(Filter(sorted, Indexed()), Filter(Sort(form, ByKey(less)), Indexed()), ByIndex());
  }

  lemma FromEntriesParts(es: seq<Entry>)
    ensures Filter(FromEntries(es), Named()) == Filter(es, Named())
  {
    var indices, names := Sort(Filter(es, Indexed()), ByIndex()), Filter(es, Named());
    FilterConcat(indices, names, Named());
    FilterAll(indices, Named());
    FilterAll(names, Named());
  }

  // ---- Exactly when the form decides equivalence ----

  lemma {:induction false} EquivalentToItself(a: Json)
    ensures Equivalent(a, a)
    decreases a
  {
    if a.Arr? {
      forall i | 0 <= i < |a.items| ensures Equivalent(a.items[i], a.items[i]) { EquivalentToItself(a.items[i]); }
    } else if a.Obj? {
      forall i | 0 <= i < |a.entries|
        ensures HasEquivalent(a.entries[i].key, a.entries[i].value, a.entries)
      {
        EquivalentToItself(a.entries[i].value);
      }
    }
  }

  function OneOf(k: string, l: string): Entry -> bool {
    (e: Entry) => e.key == k || e.key == l
  }

  /** Two names that tie stand in the form in the order they came in. */
  lemma FormKeepsTies(es: seq<Entry>, k: string, l: string, less: KeyOrder)
    requires StrictWeakOrder(less)
    requires !IsIndexKey(k) && !IsIndexKey(l) && !less(k, l) && !less(l, k)
    ensures Filter(SortKeysForHash(Obj(es), less).entries, OneOf(k, l)) == Filter(CanonEntries(es, less), OneOf(k, l))
  {
    ObjectForm(es, less);
    KeyOrdersAreOrders(less);
    NamesOfForm(Sort(CanonEntries(es, less), ByKey(less)), k, l);
    TiedNamesStay(CanonEntries(es, less), k, l, less);
  }

  lemma NamesOfForm(sorted: seq<Entry>, k: string, l: string)
    requires !IsIndexKey(k) && !IsIndexKey(l)
    ensures Filter(FromEntries(sorted), OneOf(k, l)) == Filter(sorted, OneOf(k, l))
  {
    FilterSkips(Sort(Filter(sorted, Indexed()), ByIndex()), Filter(sorted, Named()), OneOf(k, l));
    FilterTwice(sorted, Named(), OneOf(k, l));
  }

  lemma TiedNamesStay(us: seq<Entry>, k: string, l: string, less: KeyOrder)
    requires StrictWeakOrder(ByKey(less)) && !less(k, k) && !less(l, l) && !less(k, l) && !less(l, k)
    ensures Filter(Sort(us, ByKey(less)), OneOf(k, l)) == Filter(us, OneOf(k, l))
  {
    TiesStay(us, OneOf(k, l), ByKey(less));
  }

  lemma CanonOfFront(es: seq<Entry>, i: nat, less: KeyOrder)
    requires i < |es|
    ensures CanonEntries(MoveToFront(es, i), less) == MoveToFront(CanonEntries(es, less), i)
  {
  }

  /** An object with two names that tie has the same entries in another order that gives another form. */
  lemma TiedObject(es: seq<Entry>, i: nat, j: nat, less: KeyOrder)
    requires StrictWeakOrder(less) && DistinctKeys(es) && i < j < |es|
    requires !IsIndexKey(es[i].key) && !IsIndexKey(es[j].key)
    requires !less(es[i].key, es[j].key) && !less(es[j].key, es[i].key)
    ensures SortKeysForHash(Obj(MoveToFront(es, i)), less) != SortKeysForHash(Obj(MoveToFront(es, j)), less)
  {
    var k, l := es[i].key, es[j].key;
    FormKeepsTies(MoveToFront(es, i), k, l, less);
    FormKeepsTies(MoveToFront(es, j), k, l, less);
    CanonOfFront(es, i, less);
    CanonOfFront(es, j, less);
    FrontIsKept(CanonEntries(es, less), i, OneOf(k, l));
    FrontIsKept(CanonEntries(es, less), j, OneOf(k, l));
  }

  lemma SameEntriesAreEquivalent(es: seq<Entry>, fs: seq<Entry>)
    requires DistinctKeys(es) && multiset(es) == multiset(fs) && forall i :: 0 <= i < |es| ==> WellFormed(es[i].value)
    ensures WellFormed(Obj(fs)) && Equivalent(Obj(es), Obj(fs))
  {
    KeysStayDistinct(es, fs);
    assert |multiset(es)| == |es| && |multiset(fs)| == |fs|;
    forall i | 0 <= i < |fs| ensures WellFormed(fs[i].value) {
      assert fs[i] in multiset(es);
      var j :| 0 <= j < |es| && es[j] == fs[i];
    }
    forall i | 0 <= i < |es| ensures HasEquivalent(es[i].key, es[i].value, fs) {
      assert es[i] in multiset(fs);
      var j :| 0 <= j < |fs| && fs[j] == es[i];
      EquivalentToItself(es[i].value);
    }
  }

  /** The tree b is equivalent to a and has another form. */
  ghost predicate Exposes(a: Json, b: Json, less: KeyOrder) {
    WellFormed(b) && Equivalent(a, b) && SortKeysForHash(a, less) != SortKeysForHash(b, less)
  }

  /** For every tree with a tie somewhere there is an equivalent one with another form. */
  lemma {:induction false} TiesAreExposed(a: Json, less: KeyOrder) returns (b: Json)
    requires StrictWeakOrder(less) && WellFormed(a) && !TieFree(a, less)
    ensures Exposes(a, b, less)
    decreases a
  {
    if a.Arr? {
      var i :| 0 <= i < |a.items| && !TieFree(a.items[i], less);
      var c := TiesAreExposed(a.items[i], less);
      b := Arr(a.items[i := c]);
      ItemIsExposed(a.items, i, c, less);
    } else if Untied(a.entries, less) {
      var i :| 0 <= i < |a.entries| && !TieFree(a.entries[i].value, less);
      var c := TiesAreExposed(a.entries[i].value, less);
      b := Obj(a.entries[i := Entry(a.entries[i].key, c)]);
      ValueIsExposed(a.entries, i, c, less);
    } else {
      b := TiedObjectIsExposed(a.entries, less);
    }
  }

  lemma TiedObjectIsExposed(es: seq<Entry>, less: KeyOrder) returns (b: Json)
    requires StrictWeakOrder(less) && WellFormed(Obj(es)) && !Untied(es, less)
    ensures Exposes(Obj(es), b, less)
  {
    var i, j :| 0 <= i < j < |es| && !IsIndexKey(es[i].key) && !IsIndexKey(es[j].key)
                && !less(es[i].key, es[j].key) && !less(es[j].key, es[i].key);
    TiedObject(es, i, j, less);
    SameEntriesAreEquivalent(es, MoveToFront(es, i));
    SameEntriesAreEquivalent(es, MoveToFront(es, j));
    var first := Obj(MoveToFront(es, i));
    b := if SortKeysForHash(Obj(es), less) != SortKeysForHash(first, less) then first else Obj(MoveToFront(es, j));
  }

  lemma ItemIsExposed(items: seq<Json>, i: nat, c: Json, less: KeyOrder)
    requires WellFormed(Arr(items)) && i < |items| && Exposes(items[i], c, less)
    ensures Exposes(Arr(items), Arr(items[i := c]), less)
  {
    var others := items[i := c];
    forall j | 0 <= j < |items| ensures Equivalent(items[j], others[j]) && WellFormed(others[j]) {
      if j != i { EquivalentToItself(items[j]); }
    }
    assert SortKeysForHash(Arr(items), less).items[i] == SortKeysForHash(items[i], less);
    assert SortKeysForHash(Arr(others), less).items[i] == SortKeysForHash(c, less);
  }

  lemma ValueIsExposed(es: seq<Entry>, i: nat, c: Json, less: KeyOrder)
    requires WellFormed(Obj(es)) && i < |es| && Exposes(es[i].value, c, less)
    ensures Exposes(Obj(es), Obj(es[i := Entry(es[i].key, c)]), less)
  {
    var fs := es[i := Entry(es[i].key, c)];
    ReplacedIsEquivalent(es, i, c);
    EqualFormsMatch(es, fs, less);
    ReplacedDoesNotMatch(es, i, c, less);
  }

  lemma ReplacedIsEquivalent(es: seq<Entry>, i: nat, c: Json)
    requires WellFormed(Obj(es)) && i < |es| && WellFormed(c) && Equivalent(es[i].value, c)
    ensures var fs := es[i := Entry(es[i].key, c)]; WellFormed(Obj(fs)) && Equivalent(Obj(es), Obj(fs))
  {
    var fs := es[i := Entry(es[i].key, c)];
    assert forall j :: 0 <= j < |es| ==> fs[j].key == es[j].key;
    forall j | 0 <= j < |es| ensures HasEquivalent(es[j].key, es[j].value, fs) && WellFormed(fs[j].value) {
      if j != i { EquivalentToItself(es[j].value); }
      assert Equivalent(es[j].value, fs[j].value);
    }
  }

  lemma ReplacedDoesNotMatch(es: seq<Entry>, i: nat, c: Json, less: KeyOrder)
    requires DistinctKeys(es) && i < |es| && SortKeysForHash(es[i].value, less) != SortKeysForHash(c, less)
    ensures !Matched(es, es[i := Entry(es[i].key, c)], less)
  {
    var fs := es[i := Entry(es[i].key, c)];
    assert !Meets(es[i], fs, less) by {
      forall j | 0 <= j < |fs| ensures CanonEntry(less)(fs[j]) != CanonEntry(less)(es[i]) {
        if j != i { assert fs[j].key == es[j].key; }
      }
    }
  }

  /** The form tells a tree from every tree that is not equivalent, and from no other, exactly when no object in it
      has two names that tie. */
  lemma FormDecidesExactly(a: Json, less: KeyOrder)
    requires StrictWeakOrder(less) && WellFormed(a)
    ensures (forall b :: WellFormed(b) ==> AgreeOn(a, b, less)) <==> TieFree(a, less)
  {
    if TieFree(a, less) {
      forall b | WellFormed(b) ensures AgreeOn(a, b, less) {
        FormDecidesEquivalence(a, b, less);
      }
    } else {
      var b := TiesAreExposed(a, less);
      assert !AgreeOn(a, b, less);
    }
  }

  /** A key order that ties two names gives one value two forms: the tied keys stay as they came. */
  lemma TiedNamesKeepTheirOrder(k: string, l: string, less: KeyOrder)
    requires k != l && !IsIndexKey(k) && !IsIndexKey(l) && !less(k, l) && !less(l, k)
    ensures var a, b := Obj([Entry(k, Null), Entry(l, Null)]), Obj([Entry(l, Null), Entry(k, Null)]);
            && WellFormed(a) && WellFormed(b) && Equivalent(a, b)
            && SortKeysForHash(a, less) == a && SortKeysForHash(b, less) == b
  {
    TiedPair(k, l, less);
    TiedPair(l, k, less);
    var x, y := Entry(k, Null), Entry(l, Null);
    PairsAreEquivalent(x, y);
    PairIsWellFormed(x, y);
    PairIsWellFormed(y, x);
  }

  lemma PairIsWellFormed(x: Entry, y: Entry)
    requires x.value == y.value == Null && x.key != y.key
    ensures WellFormed(Obj([x, y]))
  {
    var es := [x, y];
    assert es[0] == x && es[1] == y;
  }

  lemma PairsAreEquivalent(x: Entry, y: Entry)
    requires x.value == y.value == Null
    ensures Equivalent(Obj([x, y]), Obj([y, x]))
  {
    var fs := [y, x];
    assert fs[1] == x && fs[0] == y;
    assert HasEquivalent(x.key, x.value, fs) && HasEquivalent(y.key, y.value, fs);
  }

  lemma TiedPair(k: string, l: string, less: KeyOrder)
    requires k != l && !IsIndexKey(k) && !IsIndexKey(l) && !less(l, k)
    ensures SortKeysForHash(Obj([Entry(k, Null), Entry(l, Null)]), less) == Obj([Entry(k, Null), Entry(l, Null)])
  {
    var x, y := Entry(k, Null), Entry(l, Null);
    ObjectForm([x, y], less);
    NullForms(x, y, less);
    SortOfPair(x, y, ByKey(less));
    FilterOfPair(x, y, Named());
    FilterOfPair(x, y, Indexed());
  }

  lemma NullForms(x: Entry, y: Entry, less: KeyOrder)
    requires x.value == y.value == Null
    ensures CanonEntries([x, y], less) == [x, y]
  {
  }

  /** So the form is canonical for all well-formed trees exactly when the key order tells all names apart. */
  lemma CanonicalExactlyWhenSeparating(less: KeyOrder)
    requires StrictWeakOrder(less)
    ensures (forall a, b :: WellFormed(a) && WellFormed(b) ==> AgreeOn(a, b, less)) <==> SeparatesNames(less)
  {
    if SeparatesNames(less) {
      forall a, b | WellFormed(a) && WellFormed(b) ensures AgreeOn(a, b, less) {
        SeparatingLeavesNoTies(a, less);
        FormDecidesEquivalence(a, b, less);
      }
    } else {
      var k, l :| k != l && !IsIndexKey(k) && !IsIndexKey(l) && !less(k, l) && !less(l, k);
      TiedNamesDisagree(k, l, less);
    }
  }

  lemma {:induction false} SeparatingLeavesNoTies(a: Json, less: KeyOrder)
    requires SeparatesNames(less) && WellFormed(a)
    ensures TieFree(a, less)
    decreases a
  {
    if a.Arr? {
      forall i | 0 <= i < |a.items| ensures TieFree(a.items[i], less) { SeparatingLeavesNoTies(a.items[i], less); }
    } else if a.Obj? {
      forall i | 0 <= i < |a.entries| ensures TieFree(a.entries[i].value, less) {
        SeparatingLeavesNoTies(a.entries[i].value, less);
      }
    }
  }

  lemma TiedNamesDisagree(k: string, l: string, less: KeyOrder)
    requires k != l && !IsIndexKey(k) && !IsIndexKey(l) && !less(k, l) && !less(l, k)
    ensures exists a, b :: WellFormed(a) && WellFormed(b) && !AgreeOn(a, b, less)
  {
    TiedNamesKeepTheirOrder(k, l, less);
    var es, fs := [Entry(k, Null), Entry(l, Null)], [Entry(l, Null), Entry(k, Null)];
    assert es[0] != fs[0];
    assert !AgreeOn(Obj(es), Obj(fs), less);
  }

  // ---- Steps ----

  /** A step is an object; its entries are what is given here. */
  type Step = seq<Entry>

  function Without(es: seq<Entry>, dropped: set<string>): seq<Entry> {
    Filter(es, KeyOutside(dropped))
  }

  function KeyOutside(dropped: set<string>): Entry -> bool {
    (e: Entry) => e.key !in dropped
  }

  predicate IsAggregate(es: seq<Entry>) {
    Lookup(es, "kind") == Some(Str("aggregate"))
  }

  const BOOKKEEPING := {"id", "provenance"}

  const PROBED := {"observedCount", "probedAt"}

  function KeptEntries(step: Step): seq<Entry> {
    var rest := Without(step, BOOKKEEPING);
    if IsAggregate(rest) then Without(rest, PROBED) else rest
  }

  function CanonicalizeStepForHash(step: Step, less: KeyOrder): Json {
    SortKeysForHash(Obj(KeptEntries(step)), less)
  }

  function CanonicalizeStepsForHash(steps: seq<Step>, less: KeyOrder): seq<Json> {
    Map(steps, step => CanonicalizeStepForHash(step, less))
  }

  /** The keys that say who a step is, not what it does. */
  ghost function Ignored(step: Step): set<string> {
    {"id", "provenance"}
    + if HasKey(step, "kind") && Lookup(step, "kind").value == Str("aggregate") then {"observedCount", "probedAt"}
      else {}
  }

  ghost predicate Counts(step: Step, k: string) {
    HasKey(step, k) && k !in Ignored(step)
  }

  /** Same keys and equivalent values, apart from the ignored ones. */
  ghost predicate BehaveAlike(s: Step, t: Step) {
    forall k :: (Counts(s, k) <==> Counts(t, k))
                && (Counts(s, k) && Counts(t, k) ==> Equivalent(Lookup(s, k).value, Lookup(t, k).value))
  }

  lemma WithoutByKey(es: seq<Entry>, dropped: set<string>, k: string)
    requires DistinctKeys(es)
    ensures DistinctKeys(Without(es, dropped))
    ensures HasKey(Without(es, dropped), k) <==> HasKey(es, k) && k !in dropped
    ensures HasKey(Without(es, dropped), k) ==> Lookup(Without(es, dropped), k) == Lookup(es, k)
  {
    var rest := Without(es, dropped);
    WithoutKeepsDistinct(es, dropped);
    if HasKey(es, k) && k !in dropped {
      var i :| 0 <= i < |es| && es[i].key == k;
      assert es[i] in rest;
    }
    if HasKey(rest, k) {
      var i :| 0 <= i < |rest| && rest[i].key == k;
      assert rest[i] in es;
      var j :| 0 <= j < |es| && es[j] == rest[i];
      EntryOf(rest, i);
      EntryOf(es, j);
    }
  }

  lemma {:induction false} WithoutKeepsDistinct(es: seq<Entry>, dropped: set<string>)
    requires DistinctKeys(es)
    ensures DistinctKeys(Without(es, dropped))
  {
    if es != [] {
      var rest := Without(es[1..], dropped);
      WithoutKeepsDistinct(es[1..], dropped);
      forall j | 0 <= j < |rest| ensures rest[j].key != es[0].key {
        assert rest[j] in es[1..];
        var k :| 0 <= k < |es[1..]| && es[1..][k] == rest[j];
        assert es[k + 1] == rest[j];
      }
    }
  }

  lemma KeptByKey(step: Step, k: string)
    requires DistinctKeys(step)
    ensures DistinctKeys(KeptEntries(step))
    ensures HasKey(KeptEntries(step), k) <==> Counts(step, k)
    ensures Counts(step, k) ==> Lookup(KeptEntries(step), k) == Lookup(step, k)
  {
    KindIsKept(step);
    WithoutByKey(step, BOOKKEEPING, k);
    WithoutByKey(Without(step, BOOKKEEPING), PROBED, k);
  }

  lemma KindIsKept(step: Step)
    requires DistinctKeys(step)
    ensures IsAggregate(Without(step, BOOKKEEPING)) <==> IsAggregate(step)
  {
    WithoutByKey(step, BOOKKEEPING, "kind");
  }

  ghost predicate GoodStep(step: Step) {
    WellFormed(Obj(step))
  }

  lemma KeptIsWellFormed(step: Step)
    requires GoodStep(step)
    ensures WellFormed(Obj(KeptEntries(step)))
  {
    var kept := KeptEntries(step);
    KeptByKey(step, "kind");
    forall i | 0 <= i < |kept| ensures WellFormed(kept[i].value) {
      assert kept[i] in kept;
      assert kept[i] in step;
      var j :| 0 <= j < |step| && step[j] == kept[i];
    }
  }

  /** No tie among the keys that are hashed. */
  ghost predicate TieFreeStep(s: Step, less: KeyOrder) {
    TieFree(Obj(KeptEntries(s)), less)
  }

  /** Two steps, one of them without ties, hash alike exactly when they do the same. */
  lemma StepFormDecidesBehaviour(s: Step, t: Step, less: KeyOrder)
    requires StrictWeakOrder(less) && TieFreeStep(s, less) && GoodStep(s) && GoodStep(t)
    ensures CanonicalizeStepForHash(s, less) == CanonicalizeStepForHash(t, less) <==> BehaveAlike(s, t)
  {
    KeptIsWellFormed(s);
    KeptIsWellFormed(t);
    FormDecidesEquivalence(Obj(KeptEntries(s)), Obj(KeptEntries(t)), less);
    KeptEquivalence(s, t);
  }

  lemma KeptEquivalence(s: Step, t: Step)
    requires DistinctKeys(s) && DistinctKeys(t)
    ensures Equivalent(Obj(KeptEntries(s)), Obj(KeptEntries(t))) <==> BehaveAlike(s, t)
  {
    var u, v := KeptEntries(s), KeptEntries(t);
    KeptByKey(s, "");
    KeptByKey(t, "");
    EquivalentByKey(u, v);
    forall k
      ensures HasKey(u, k) <==> Counts(s, k)
      ensures HasKey(v, k) <==> Counts(t, k)
      ensures Counts(s, k) ==> Lookup(u, k) == Lookup(s, k)
      ensures Counts(t, k) ==> Lookup(v, k) == Lookup(t, k)
    {
      KeptByKey(s, k);
      KeptByKey(t, k);
    }
  }

  ghost predicate StepsAgree(s: Step, t: Step, less: KeyOrder) {
    CanonicalizeStepForHash(s, less) == CanonicalizeStepForHash(t, less) <==> BehaveAlike(s, t)
  }

  /** A step with the same hashed content and nothing else is hashed as it is. */
  lemma NothingToDrop(s: Step, t: Step)
    requires GoodStep(s) && GoodStep(t) && Equivalent(Obj(KeptEntries(s)), Obj(t))
    ensures KeptEntries(t) == t
  {
    KeptIsWellFormed(s);
    EquivalentByKey(KeptEntries(s), t);
    forall e | e in t ensures e.key !in Ignored(s) {
      assert HasKey(t, e.key);
      KeptByKey(s, e.key);
    }
    KeptByKey(s, "kind");
    assert IsAggregate(t) ==> IsAggregate(s);
    FilterAll(t, KeyOutside(BOOKKEEPING));
    FilterAll(t, KeyOutside(PROBED));
  }

  /** The form of a step decides behaviour against every other step exactly when none of its hashed keys tie. */
  lemma StepFormDecidesExactly(s: Step, less: KeyOrder)
    requires StrictWeakOrder(less) && GoodStep(s)
    ensures (forall t :: GoodStep(t) ==> StepsAgree(s, t, less)) <==> TieFreeStep(s, less)
  {
    if TieFreeStep(s, less) {
      forall t | GoodStep(t) ensures StepsAgree(s, t, less) { StepFormDecidesBehaviour(s, t, less); }
    } else {
      KeptIsWellFormed(s);
      var b := TiesAreExposed(Obj(KeptEntries(s)), less);
      NothingToDrop(s, b.entries);
      KeptEquivalence(s, b.entries);
      assert !StepsAgree(s, b.entries, less);
    }
  }

  lemma StepsFormDecidesBehaviour(ss: seq<Step>, ts: seq<Step>, less: KeyOrder)
    requires StrictWeakOrder(less)
    requires (forall s :: s in ss ==> GoodStep(s) && TieFreeStep(s, less)) && forall t :: t in ts ==> GoodStep(t)
    ensures CanonicalizeStepsForHash(ss, less) == CanonicalizeStepsForHash(ts, less) <==>
            |ss| == |ts| && forall i :: 0 <= i < |ss| ==> BehaveAlike(ss[i], ts[i])
  {
    var us, vs := CanonicalizeStepsForHash(ss, less), CanonicalizeStepsForHash(ts, less);
    forall i | 0 <= i < |ss| && i < |ts| ensures us[i] == vs[i] <==> BehaveAlike(ss[i], ts[i]) {
      assert ss[i] in ss && ts[i] in ts;
      StepFormDecidesBehaviour(ss[i], ts[i], less);
    }
  }

  ghost predicate PlansAgree(ss: seq<Step>, ts: seq<Step>, less: KeyOrder) {
    CanonicalizeStepsForHash(ss, less) == CanonicalizeStepsForHash(ts, less) <==>
    |ss| == |ts| && forall i :: 0 <= i < |ss| ==> BehaveAlike(ss[i], ts[i])
  }

  ghost predicate GoodPlan(ss: seq<Step>) {
    forall i :: 0 <= i < |ss| ==> GoodStep(ss[i])
  }

  /** The form of a plan decides behaviour against every other plan exactly when no step has hashed keys that tie. */
  lemma StepsFormDecidesExactly(ss: seq<Step>, less: KeyOrder)
    requires StrictWeakOrder(less) && GoodPlan(ss)
    ensures (forall ts :: GoodPlan(ts) ==> PlansAgree(ss, ts, less)) <==>
            forall i :: 0 <= i < |ss| ==> TieFreeStep(ss[i], less)
  {
    if forall i :: 0 <= i < |ss| ==> TieFreeStep(ss[i], less) {
      forall ts | GoodPlan(ts) ensures PlansAgree(ss, ts, less) { TieFreePlansAgree(ss, ts, less); }
    } else {
      var i :| 0 <= i < |ss| && !TieFreeStep(ss[i], less);
      var ts := TiedPlanIsExposed(ss, i, less);
    }
  }

  lemma TieFreePlansAgree(ss: seq<Step>, ts: seq<Step>, less: KeyOrder)
    requires StrictWeakOrder(less) && GoodPlan(ss) && GoodPlan(ts)
    requires forall i :: 0 <= i < |ss| ==> TieFreeStep(ss[i], less)
    ensures PlansAgree(ss, ts, less)
  {
    forall s | s in ss ensures GoodStep(s) && TieFreeStep(s, less) {
      var i :| 0 <= i < |ss| && ss[i] == s;
    }
    StepsFormDecidesBehaviour(ss, ts, less);
  }

  /** A plan with a tied step has a twin, another only in that step, that its form does not tell rightly. */
  lemma TiedPlanIsExposed(ss: seq<Step>, i: nat, less: KeyOrder) returns (ts: seq<Step>)
    requires StrictWeakOrder(less) && GoodPlan(ss) && i < |ss| && !TieFreeStep(ss[i], less)
    ensures GoodPlan(ts) && !PlansAgree(ss, ts, less)
  {
    var t := TiedStepIsExposed(ss[i], less);
    ts := ss[i := t];
    OneStepDecides(ss, i, t, less);
  }

  lemma TiedStepIsExposed(s: Step, less: KeyOrder) returns (t: Step)
    requires StrictWeakOrder(less) && GoodStep(s) && !TieFreeStep(s, less)
    ensures GoodStep(t) && !StepsAgree(s, t, less)
  {
    StepFormDecidesExactly(s, less);
    t :| GoodStep(t) && !StepsAgree(s, t, less);
  }

  /** A plan and the one with a single step replaced agree as these two steps do. */
  lemma OneStepDecides(ss: seq<Step>, i: nat, t: Step, less: KeyOrder)
    requires i < |ss| && GoodPlan(ss)
    ensures PlansAgree(ss, ss[i := t], less) <==> StepsAgree(ss[i], t, less)
  {
    var ts := ss[i := t];
    var us, vs := CanonicalizeStepsForHash(ss, less), CanonicalizeStepsForHash(ts, less);
    assert ts[i] == t && forall j :: 0 <= j < |ss| && j != i ==> ts[j] == ss[j];
    assert us == vs <==> us[i] == vs[i];
    forall j | 0 <= j < |ss| && j != i ensures BehaveAlike(ss[j], ts[j]) { BehavesLikeItself(ss[j]); }
  }

  lemma BehavesLikeItself(s: Step)
    requires GoodStep(s)
    ensures BehaveAlike(s, s)
  {
    KeptIsWellFormed(s);
    EquivalentToItself(Obj(KeptEntries(s)));
    KeptEquivalence(s, s);
  }

  // ---- Source schemas ----

  datatype SchemaColumn = SchemaColumn(name: string, declaredType: string)

  function ByName(less: KeyOrder): (SchemaColumn, SchemaColumn) -> bool {
    (x: SchemaColumn, y: SchemaColumn) => less(x.name, y.name)
  }

  function CanonicalizeSchemaColumnsForHash(columns: seq<SchemaColumn>, less: KeyOrder): seq<SchemaColumn> {
    Sort(columns, ByName(less))
  }

  lemma ByNameIsAnOrder(less: KeyOrder)
    requires StrictWeakOrder(less)
    ensures StrictWeakOrder(ByName(less))
  {
    var byName := ByName(less);
    forall x ensures !byName(x, x) { assert !less(x.name, x.name); }
    forall x, y, z | byName(x, y) && byName(y, z) ensures byName(x, z) {
      assert less(x.name, y.name) && less(y.name, z.name);
    }
    forall x, y, z | !byName(x, y) && !byName(y, z) ensures !byName(x, z) {
      assert !less(x.name, y.name) && !less(y.name, z.name);
    }
  }

  /** The form of a schema tells it from every schema with other columns, and from no other, exactly when the order
      tells any two different columns of it apart by their names. */
  lemma SchemaFormDecidesColumns(a: seq<SchemaColumn>, less: KeyOrder)
    requires StrictWeakOrder(less)
    ensures (forall b :: CanonicalizeSchemaColumnsForHash(a, less) == CanonicalizeSchemaColumnsForHash(b, less)
                         <==> multiset(a) == multiset(b))
            <==> Separates(a, ByName(less))
  {
    ByNameIsAnOrder(less);
    if Separates(a, ByName(less)) {
      forall b
        ensures CanonicalizeSchemaColumnsForHash(a, less) == CanonicalizeSchemaColumnsForHash(b, less)
                <==> multiset(a) == multiset(b)
      {
        SortIsCanonical(a, b, ByName(less));
      }
    } else {
      var b := TieWitness(a, ByName(less));
      assert CanonicalizeSchemaColumnsForHash(a, less) != CanonicalizeSchemaColumnsForHash(b, less);
    }
  }
}
