/** Keys of type bigint, which are read as text: ids of one width are read exactly, 9 and 10 are not. */
module BigintKeys {
  import opened Common
  import opened SqlWhere
  import opened ShownColumns
  import opened KeyOrder
  import opened KeysetPaging
  import opened ReadTask
  import opened TaskRunner
  import NativeTypes

  /** The order of texts, character by character. */
  predicate TextAfter(s: string, t: string) {
    s != "" && (t == "" || s[0] > t[0] || (s[0] == t[0] && TextAfter(s[1..], t[1..])))
  }

  function NumberOf(x: Scalar): real {
    match x
    case Number(n) => n
    case Text(s) => if AllDigits(s) then DecimalValue(s) as real else 0.0
    case Boolean(b) => if b then 1.0 else 0.0
  }

  /** Two texts are compared as texts; a number and a text as numbers. */
  predicate Greater(x: Scalar, y: Scalar) {
    if x.Text? && y.Text? then TextAfter(x.text, y.text) else NumberOf(x) > NumberOf(y)
  }

  predicate Equal(x: Scalar, y: Scalar) {
    if x.Text? && y.Text? then x == y else NumberOf(x) == NumberOf(y)
  }

  predicate Compared(cmp: Comparator, x: Scalar, y: Scalar) {
    match cmp
    case Eq => Equal(x, y)
    case Neq => !Equal(x, y)
    case Gt => Greater(x, y)
    case Gte => Greater(x, y) || Equal(x, y)
    case Lt => Greater(y, x)
    case Lte => Greater(y, x) || Equal(x, y)
  }

  function Digits(v: Scalar): string {
    if v.Number? && v.number >= 0.0 then Decimal(v.number.Floor) else ""
  }

  /** A table whose key is a bigint. */
  const SERVER :=
    Server(Database(Compared, Digits), map["id" := "bigint"], (nativeType, conversion, v) => Digits(v))

  function Id(n: nat): (v: Scalar)
    ensures Digits(v) == Decimal(n)
  {
    assert (n as real).Floor == n;
    Number(n as real)
  }

  lemma IdsAreReadAsText(n: nat)
    ensures SERVER.Show("id", Id(n)) == Text(Decimal(n))
  {
    assert NativeTypes.Lower("bigint") == "bigint";
    assert SelectExpr("bigint") == CastToVarchar;
  }

  /** The seek condition compares ids as numbers, the answer as texts. */
  lemma IdsCompared(m: nat, n: nat)
    ensures Exceeds(SERVER, "id", Id(m), Id(n)) <==> m > n
    ensures Same(SERVER, "id", Id(m), Id(n)) <==> m == n
    ensures SERVER.db.compare(Gt, SERVER.Show("id", Id(m)), SERVER.Show("id", Id(n))) <==>
            TextAfter(Decimal(m), Decimal(n))
  {
    IdsAreReadAsText(m);
    IdsAreReadAsText(n);
    DecimalRoundTrip(n);
  }

  /** The ids with a property. */
  ghost function Ids(has: nat -> bool): iset<Scalar> {
    iset n: nat | has(n) :: Id(n)
  }

  lemma IdsAreAnOrder(has: nat -> bool)
    ensures Orders(SERVER, "id", Ids(has))
  {
    forall x | x in Ids(has) ensures !Exceeds(SERVER, "id", x, x) {
      var n: nat :| has(n) && x == Id(n);
      IdsCompared(n, n);
    }
    forall x, y, z | x in Ids(has) && y in Ids(has) && z in Ids(has) ensures Carries(SERVER, "id", x, y, z) {
      var k: nat :| has(k) && x == Id(k);
      var m: nat :| has(m) && y == Id(m);
      var n: nat :| has(n) && z == Id(n);
      IdsCompared(k, m);
      IdsCompared(m, n);
      IdsCompared(k, n);
    }
  }

  lemma IdsCanBeSelected()
    ensures ColumnFault(SERVER.types, ["id"]) == None
  {
    assert ["id"][1..] == [];
  }

  /** Greater ids are greater as texts too. */
  ghost predicate TextsAscend(has: nat -> bool) {
    forall m: nat, n: nat :: has(m) && has(n) && m > n ==> TextAfter(Decimal(m), Decimal(n))
  }

  lemma ShownWhenTextsAscend(has: nat -> bool)
    ensures ShownInOrder(SERVER, "id", Ids(has)) <==> TextsAscend(has)
  {
    if ShownInOrder(SERVER, "id", Ids(has)) {
      forall m: nat, n: nat | has(m) && has(n) && m > n ensures TextAfter(Decimal(m), Decimal(n)) {
        IdsCompared(m, n);
        assert Id(m) in Ids(has) && Id(n) in Ids(has);
      }
    }
    if TextsAscend(has) {
      forall x, y | x in Ids(has) && y in Ids(has) && Exceeds(SERVER, "id", x, y)
        ensures SERVER.db.compare(Gt, SERVER.Show("id", x), SERVER.Show("id", y))
      {
        var m: nat :| has(m) && x == Id(m);
        var n: nat :| has(n) && y == Id(n);
        IdsCompared(m, n);
      }
    }
  }

  ghost function OnlyIds(has: nat -> bool): Domain {
    (column: string) => Ids(has)
  }

  /** Tasks over such ids deliver exactly what they should, exactly when the ids' texts ascend. */
  lemma IdsAreReadExactlyWhenTextsAscend(has: nat -> bool)
    ensures (forall task :: ReadsBy(task, SERVER, "id", OnlyIds(has)) ==> DeliversExactly(task)) <==> TextsAscend(has)
  {
    IdsAreAnOrder(has);
    IdsCanBeSelected();
    ShownWhenTextsAscend(has);
    TasksDeliverExactlyWhenShownInOrder(SERVER, "id", OnlyIds(has));
  }

  function Any(): nat -> bool {
    (n: nat) => true
  }

  /** Of the ids 9 and 10, read one at a time, 9 is never delivered, and the end is reported. */
  lemma NineIsNeverRead()
    ensures var task := Task(SERVER, [RowWith("id", Id(10)), RowWith("id", Id(9))], [], ["id"], None, 1, 2);
            && Sound(task, OnlyIds(Any())) && !DeliversExactly(task)
            && var uploads := task.Rounds(None, 2);
               uploads[|uploads| - 1].isLast && Delivered(uploads) == [RowWith("id", Id(10))]
  {
    IdsAreAnOrder(Any());
    IdsCanBeSelected();
    IdsCompared(10, 9);
    TenStandsBeforeNine();
    assert Any()(10) && Any()(9);
    assert Id(10) in Ids(Any()) && Id(9) in Ids(Any());
    var task := OutOfOrderTask(SERVER, "id", Id(10), Id(9), OnlyIds(Any()));
  }

  lemma TenStandsBeforeNine()
    ensures !TextAfter(Decimal(10), Decimal(9))
  {
    assert Decimal(1) == "1" && Decimal(9) == "9";
    assert Decimal(10) == Decimal(1) + "0";
  }

  // ---- Ids of one width ----

  lemma {:induction false} SameWidth(s: string, t: string)
    requires |s| == |t| && AllDigits(s) && AllDigits(t)
    ensures TextAfter(s, t) <==> DecimalValue(s) > DecimalValue(t)
    ensures DecimalValue(s) == DecimalValue(t) ==> s == t
  {
    if s != "" {
      var i := |s| - 1;
      var a, b := DecimalValue(s[..i]), DecimalValue(t[..i]);
      SameWidth(s[..i], t[..i]);
      LastDigitDecides(s[..i], s[i], t[..i], t[i]);
      assert s == s[..i] + [s[i]] && t == t[..i] + [t[i]];
      assert DecimalValue(s) == 10 * a + DigitValue(s[i]) && DecimalValue(t) == 10 * b + DigitValue(t[i]);
      DigitsDecide(a, DigitValue(s[i]), b, DigitValue(t[i]));
      assert DigitValue(s[i]) > DigitValue(t[i]) <==> s[i] > t[i];
      assert DigitValue(s[i]) == DigitValue(t[i]) <==> s[i] == t[i];
    }
  }

  lemma DigitsDecide(a: nat, c: nat, b: nat, d: nat)
    requires c < 10 && d < 10
    ensures 10 * a + c > 10 * b + d <==> a > b || (a == b && c > d)
    ensures 10 * a + c == 10 * b + d <==> a == b && c == d
  {
  }

  lemma {:induction false} LastDigitDecides(s: string, c: char, t: string, d: char)
    requires |s| == |t|
    ensures TextAfter(s + [c], t + [d]) <==> TextAfter(s, t) || (s == t && c > d)
  {
    if s == "" {
      assert ([c])[1..] == "" && ([d])[1..] == "";
      assert s + [c] == [c] && t + [d] == [d];
    } else {
      assert (s + [c])[1..] == s[1..] + [c] && (t + [d])[1..] == t[1..] + [d];
      LastDigitDecides(s[1..], c, t[1..], d);
      assert s == t <==> s[0] == t[0] && s[1..] == t[1..];
    }
  }

  function OfWidth(width: nat): nat -> bool {
    (n: nat) => |Decimal(n)| == width
  }

  /** So ids that all have the same number of digits are read exactly. */
  lemma IdsOfOneWidthAreReadExactly(width: nat, task: Task)
    requires ReadsBy(task, SERVER, "id", OnlyIds(OfWidth(width)))
    ensures DeliversExactly(task)
  {
    forall m: nat, n: nat | OfWidth(width)(m) && OfWidth(width)(n) && m > n ensures TextAfter(Decimal(m), Decimal(n)) {
      SameWidth(Decimal(m), Decimal(n));
      DecimalRoundTrip(m);
      DecimalRoundTrip(n);
    }
    IdsAreReadExactlyWhenTextsAscend(OfWidth(width));
  }
}
