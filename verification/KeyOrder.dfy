/** The two orders of a keyset-paged read: an answer is ordered by what it shows of the key, while the seek condition
    compares the stored key with what was shown; and exactly when every listing of a table agrees with both. */
module KeyOrder {
  import opened Common
  import opened SqlWhere
  import opened KeysetSeek
  import opened ShownColumns

  // ---- Keys and cursors ----

  /** The values each key column may hold. */
  type Domain = string -> iset<Scalar>

  /** The stored value compares greater than what is shown of the other. */
  predicate Exceeds(s: Server, column: string, x: Scalar, y: Scalar) {
    s.db.compare(Gt, x, s.Show(column, y))
  }

  predicate Same(s: Server, column: string, x: Scalar, y: Scalar) {
    s.db.compare(Eq, x, s.Show(column, y))
  }

  /** How the comparisons of two neighbours carry over to the third value. */
  predicate Carries(s: Server, column: string, x: Scalar, y: Scalar, z: Scalar) {
    && (Exceeds(s, column, x, y) && (Exceeds(s, column, y, z) || Same(s, column, y, z)) ==> Exceeds(s, column, x, z))
    && (Same(s, column, x, y) && Exceeds(s, column, y, z) ==> Exceeds(s, column, x, z))
    && (Same(s, column, x, y) && Same(s, column, y, z) ==> Same(s, column, x, z))
  }

  /** On these values the seek condition's comparisons are an order and its ties. */
  ghost predicate Orders(s: Server, column: string, values: iset<Scalar>) {
    && (forall x :: x in values ==> !Exceeds(s, column, x, x))
    && forall x, y, z {:trigger Carries(s, column, x, y, z)} ::
         x in values && y in values && z in values ==> Carries(s, column, x, y, z)
  }

  ghost predicate OrdersKey(s: Server, key: seq<string>, domain: Domain) {
    forall column :: column in key ==> Orders(s, column, domain(column))
  }

  /** Key columns are not NULL. */
  predicate HasKey(row: Row, key: seq<string>) {
    forall column :: column in key ==> row(column).Some?
  }

  ghost predicate AllHaveKey(rows: seq<Row>, key: seq<string>) {
    forall row :: row in rows ==> HasKey(row, key)
  }

  function KeyOf(row: Row, key: seq<string>): (values: seq<Scalar>)
    requires HasKey(row, key)
    ensures |values| == |key| && forall j :: 0 <= j < |key| ==> values[j] == row(key[j]).value
  {
    seq(|key|, j requires 0 <= j < |key| => row(key[j]).value)
  }

  /** A key as an answer shows it: what the next query seeks from. */
  function ShownKey(s: Server, key: seq<string>, values: seq<Scalar>): (cursor: seq<Scalar>)
    requires |values| == |key|
    ensures |cursor| == |key| && forall j :: 0 <= j < |key| ==> cursor[j] == s.Show(key[j], values[j])
  {
    seq(|key|, j requires 0 <= j < |key| => s.Show(key[j], values[j]))
  }

  function CursorOf(s: Server, row: Row, key: seq<string>): (cursor: seq<Scalar>)
    requires HasKey(row, key)
    ensures |cursor| == |key|
  {
    ShownKey(s, key, KeyOf(row, key))
  }

  ghost predicate FromDomain(key: seq<string>, values: seq<Scalar>, domain: Domain) {
    |values| == |key| && forall j :: 0 <= j < |key| ==> values[j] in domain(key[j])
  }

  /** The cursor is what some key of the domain is shown as, of a row that may be gone by now. */
  ghost predicate IsCursor(s: Server, key: seq<string>, cursor: seq<Scalar>, domain: Domain) {
    exists values :: FromDomain(key, values, domain) && cursor == ShownKey(s, key, values)
  }

  ghost predicate GoodRow(row: Row, key: seq<string>, domain: Domain) {
    HasKey(row, key) && FromDomain(key, KeyOf(row, key), domain)
  }

  ghost predicate GoodRows(rows: seq<Row>, key: seq<string>, domain: Domain) {
    forall row :: row in rows ==> GoodRow(row, key, domain)
  }

  /** The row stands behind the other one for the seek condition. */
  predicate Follows(s: Server, row: Row, other: Row, key: seq<string>)
    requires HasKey(other, key)
  {
    Behind(row, key, CursorOf(s, other, key), s.db)
  }

  /** The row comes after the other one in an answer: ORDER BY names the result columns, and these show the key. */
  predicate ShownAfter(s: Server, row: Row, other: Row, key: seq<string>)
    requires HasKey(other, key)
  {
    Behind(s.ShownRow(row), key, CursorOf(s, other, key), s.db)
  }

  /** Rows in the order of the seek condition, no key twice. */
  ghost predicate InKeyOrder(s: Server, rows: seq<Row>, key: seq<string>) {
    && AllHaveKey(rows, key)
    && forall i, j :: 0 <= i < j < |rows| ==> Follows(s, rows[j], rows[i], key)
  }

  ghost predicate DistinctKeys(s: Server, rows: seq<Row>, key: seq<string>)
    requires AllHaveKey(rows, key)
  {
    forall i, j :: 0 <= i < j < |rows| ==> Follows(s, rows[j], rows[i], key) || Follows(s, rows[i], rows[j], key)
  }

  /** No row comes before one it is shown after. */
  ghost predicate InShownOrder(s: Server, rows: seq<Row>, key: seq<string>)
    requires AllHaveKey(rows, key)
  {
    forall i, j :: 0 <= i < j < |rows| ==> !ShownAfter(s, rows[i], rows[j], key)
  }

  /** A table with a primary key, listed in the order its answers have. */
  ghost predicate Listed(s: Server, table: seq<Row>, key: seq<string>, domain: Domain) {
    && OrdersKey(s, key, domain) && GoodRows(table, key, domain)
    && DistinctKeys(s, table, key) && InShownOrder(s, table, key)
  }

  lemma {:induction false} BehindIsTransitive(s: Server, x: Row, y: Row, key: seq<string>, values: seq<Scalar>,
                                              domain: Domain)
    requires OrdersKey(s, key, domain) && GoodRow(x, key, domain) && GoodRow(y, key, domain)
    requires FromDomain(key, values, domain)
    requires Follows(s, x, y, key) && Behind(y, key, ShownKey(s, key, values), s.db)
    ensures Behind(x, key, ShownKey(s, key, values), s.db)
  {
    var v, w, key' := KeyOf(x, key)[0], KeyOf(y, key)[0], key[1..];
    assert key[0] in key && v in domain(key[0]) && w in domain(key[0]) && values[0] in domain(key[0]);
    assert KeyOf(x, key)[1..] == KeyOf(x, key') && KeyOf(y, key)[1..] == KeyOf(y, key');
    assert CursorOf(s, y, key)[1..] == CursorOf(s, y, key');
    assert ShownKey(s, key, values)[1..] == ShownKey(s, key', values[1..]);
    assert Carries(s, key[0], v, w, values[0]);
    if !Exceeds(s, key[0], v, w) && !Exceeds(s, key[0], w, values[0]) {
      BehindIsTransitive(s, x, y, key', values[1..], domain);
    }
  }

  lemma {:induction false} NotBehindItself(s: Server, x: Row, key: seq<string>, domain: Domain)
    requires OrdersKey(s, key, domain) && GoodRow(x, key, domain)
    ensures !Follows(s, x, x, key)
  {
    if key != [] {
      assert key[0] in key && KeyOf(x, key)[0] in domain(key[0]);
      assert KeyOf(x, key)[1..] == KeyOf(x, key[1..]);
      assert CursorOf(s, x, key)[1..] == CursorOf(s, x, key[1..]);
      assert !Exceeds(s, key[0], KeyOf(x, key)[0], KeyOf(x, key)[0]);
      NotBehindItself(s, x, key[1..], domain);
    }
  }

  // ---- When the shown order is the order of the key ----

  /** Whatever stands behind another row for the seek condition is also shown after it. */
  ghost predicate KeyShownInOrder(s: Server, key: seq<string>, domain: Domain) {
    forall x, y :: GoodRow(x, key, domain) && GoodRow(y, key, domain) && Follows(s, x, y, key) ==>
      ShownAfter(s, x, y, key)
  }

  /** The same for the values of one column. */
  ghost predicate ShownInOrder(s: Server, column: string, values: iset<Scalar>) {
    forall x, y :: x in values && y in values && Exceeds(s, column, x, y) ==>
      s.db.compare(Gt, s.Show(column, x), s.Show(column, y))
  }

  /** Every table of the key's domain is listed in key order exactly when the key is shown in order. */
  lemma ListingsAreInKeyOrder(s: Server, key: seq<string>, domain: Domain)
    requires OrdersKey(s, key, domain)
    ensures (forall table :: Listed(s, table, key, domain) ==> InKeyOrder(s, table, key)) <==>
            KeyShownInOrder(s, key, domain)
  {
    if KeyShownInOrder(s, key, domain) {
      forall table | Listed(s, table, key, domain) ensures InKeyOrder(s, table, key) {
        ListingIsInKeyOrder(s, table, key, domain);
      }
    } else {
      var x, y :| GoodRow(x, key, domain) && GoodRow(y, key, domain)
                  && Follows(s, x, y, key) && !ShownAfter(s, x, y, key);
      PairIsListed(s, x, y, key, domain);
    }
  }

  lemma ListingIsInKeyOrder(s: Server, table: seq<Row>, key: seq<string>, domain: Domain)
    requires Listed(s, table, key, domain) && KeyShownInOrder(s, key, domain)
    ensures InKeyOrder(s, table, key)
  {
    forall i, j | 0 <= i < j < |table| ensures Follows(s, table[j], table[i], key) {
      assert table[i] in table && table[j] in table;
      assert !ShownAfter(s, table[i], table[j], key);
    }
  }

  /** Two rows shown against the order of the key make a table that is listed against it. */
  lemma PairIsListed(s: Server, x: Row, y: Row, key: seq<string>, domain: Domain)
    requires OrdersKey(s, key, domain) && GoodRow(x, key, domain) && GoodRow(y, key, domain)
    requires Follows(s, x, y, key) && !ShownAfter(s, x, y, key)
    ensures Listed(s, [x, y], key, domain) && !Follows(s, y, x, key) && !InKeyOrder(s, [x, y], key)
  {
    NotBehindItself(s, x, key, domain);
    if Follows(s, y, x, key) { BehindIsTransitive(s, x, y, key, KeyOf(x, key), domain); }
    assert [x, y][0] == x && [x, y][1] == y;
  }

  /** A row with this value in the column and nothing else. */
  function RowWith(column: string, v: Scalar): Row {
    (name: string) => if name == column then Some(v) else None
  }

  lemma OneColumnRow(s: Server, row: Row, other: Row, column: string)
    requires HasKey(row, [column]) && HasKey(other, [column])
    ensures Follows(s, row, other, [column]) <==> Exceeds(s, column, row(column).value, other(column).value)
    ensures ShownAfter(s, row, other, [column]) <==>
            s.db.compare(Gt, s.Show(column, row(column).value), s.Show(column, other(column).value))
  {
    assert column in [column] && [column][1..] == [];
    assert CursorOf(s, other, [column])[0] == s.Show(column, other(column).value);
    assert !Behind(row, [], [], s.db) && !Behind(s.ShownRow(row), [], [], s.db);
    assert CursorOf(s, other, [column])[1..] == [];
  }

  lemma OneColumnKey(s: Server, column: string, domain: Domain)
    ensures KeyShownInOrder(s, [column], domain) <==> ShownInOrder(s, column, domain(column))
  {
    if ShownInOrder(s, column, domain(column)) {
      forall x, y | GoodRow(x, [column], domain) && GoodRow(y, [column], domain) && Follows(s, x, y, [column])
        ensures ShownAfter(s, x, y, [column])
      {
        OneColumnRow(s, x, y, column);
      }
    }
    if KeyShownInOrder(s, [column], domain) {
      forall x, y | x in domain(column) && y in domain(column) && Exceeds(s, column, x, y)
        ensures s.db.compare(Gt, s.Show(column, x), s.Show(column, y))
      {
        OneColumnRow(s, RowWith(column, x), RowWith(column, y), column);
      }
    }
  }

  /** Can be read off the catalog: no key column is of a type read as text. */
  predicate PlainKey(s: Server, key: seq<string>) {
    forall column :: column in key ==> column in s.types && !CastToText(s.types[column])
  }

  /** Such columns are shown as they are. */
  lemma {:induction false} PlainKeysAreShownAsTheyAre(s: Server, key: seq<string>, row: Row, cursor: seq<Scalar>)
    requires |cursor| == |key| && PlainKey(s, key)
    ensures Behind(s.ShownRow(row), key, cursor, s.db) <==> Behind(row, key, cursor, s.db)
  {
    if key != [] {
      assert key[0] in key;
      assert forall column :: column in key[1..] ==> column in key;
      PlainKeysAreShownAsTheyAre(s, key[1..], row, cursor[1..]);
    }
  }

  lemma PlainKeysAreShownInOrder(s: Server, key: seq<string>, domain: Domain)
    requires PlainKey(s, key)
    ensures KeyShownInOrder(s, key, domain)
  {
    forall x, y | GoodRow(x, key, domain) && GoodRow(y, key, domain) && Follows(s, x, y, key)
      ensures ShownAfter(s, x, y, key)
    {
      PlainKeysAreShownAsTheyAre(s, key, x, CursorOf(s, y, key));
    }
  }
}
