/** A completed order leaves no ties exactly when it covers a key, pages of a
    completed order partition the rows, and a cursor walks its feed once. */
module PagingProof {
  import opened Sql
  import opened Ordering
  import opened Paging

  // ---- keys ----

  predicate AgreeOn(a: Row, b: Row, columns: set<string>) {
    forall c :: c in columns ==> Get(a, c) == Get(b, c)
  }

  function Primary(m: Model): set<string> {
    set i | 0 <= i < |m.columns| && m.columns[i].primary :: m.columns[i].name
  }

  function IndexSet(m: Model, i: nat): set<string>
    requires i < |m.indexes|
  {
    set n | 0 <= n < |m.indexes[i]| :: m.indexes[i][n]
  }

  /** A column names one definition, and the columns of the primary key and of the
      indexes are columns; the primary key holds no NULL. */
  predicate WellFormed(m: Model) {
    (forall i, j :: 0 <= i < j < |m.columns| ==> m.columns[i].name != m.columns[j].name) &&
    (forall i :: 0 <= i < |m.columns| && m.columns[i].primary ==> !m.columns[i].nullable) &&
    (forall i, n :: 0 <= i < |m.indexes| && 0 <= n < |m.indexes[i]| ==> IsColumn(m, m.indexes[i][n], false))
  }

  /** Two rows of one table: they differ on the primary key, if it has one, and on
      every unique index that holds no NULL in either. */
  predicate Apart(m: Model, a: Row, b: Row) {
    (Primary(m) != {} ==> !AgreeOn(a, b, Primary(m))) &&
    forall i :: 0 <= i < |m.indexes| ==> AgreeOn(a, b, IndexSet(m, i)) ==> exists c :: c in IndexSet(m, i) && Get(a, c).Null?
  }

  predicate HoldsNotNull(m: Model, r: Row) {
    forall i :: 0 <= i < |m.columns| && !m.columns[i].nullable ==> !Get(r, m.columns[i].name).Null?
  }

  /** The rows honour what the model declares. */
  predicate Honours(m: Model, rows: seq<Row>) {
    (forall i :: 0 <= i < |rows| ==> HoldsNotNull(m, rows[i])) && forall i, j :: 0 <= i < j < |rows| ==> Apart(m, rows[i], rows[j])
  }

  function Columns(orders: seq<Order>): set<string> {
    set i | 0 <= i < |orders| :: orders[i].column
  }

  /** The columns cover a key that tells rows apart: the primary key whole, or a
      unique index whole, none of its columns able to hold NULL. */
  predicate CoversKey(m: Model, columns: set<string>) {
    (Primary(m) != {} && Primary(m) <= columns) ||
    exists i :: 0 <= i < |m.indexes| && IndexSet(m, i) <= columns && forall c :: c in IndexSet(m, i) ==> NotNull(m, c)
  }

  // ---- ties ----

  lemma {:induction false} TieMeansAgree(orders: seq<Order>, a: Row, b: Row)
    ensures RowLeq(orders, a, b) && RowLeq(orders, b, a) <==> AgreeOn(a, b, Columns(orders))
  {
    if orders != [] {
      TieMeansAgree(orders[1..], a, b);
      LeqOrder(Get(a, orders[0].column), Get(b, orders[0].column), Null);
      assert Columns(orders) == {orders[0].column} + Columns(orders[1..]) by {
        assert forall i :: 0 <= i < |orders[1..]| ==> orders[1..][i] == orders[i + 1];
        assert forall i :: 0 < i < |orders| ==> orders[i] == orders[1..][i - 1];
      }
    }
  }

  /** Rows no two of which agree on the order's columns sort without ties. */
  lemma DistinctRowsDoNotTie(orders: seq<Order>, rows: seq<Row>)
    requires forall i, j :: 0 <= i < j < |rows| ==> !AgreeOn(rows[i], rows[j], Columns(orders))
    ensures NoTies(orders, rows)
  {
    forall i, j | 0 <= i < j < |rows| ensures !(RowLeq(orders, rows[i], rows[j]) && RowLeq(orders, rows[j], rows[i])) {
      TieMeansAgree(orders, rows[i], rows[j]);
    }
  }

  lemma CoveredRowsDiffer(m: Model, columns: set<string>, a: Row, b: Row)
    requires WellFormed(m) && CoversKey(m, columns) && Apart(m, a, b) && HoldsNotNull(m, a)
    ensures !AgreeOn(a, b, columns)
  {
    if Primary(m) == {} || !(Primary(m) <= columns) {
      var x :| 0 <= x < |m.indexes| && IndexSet(m, x) <= columns && forall c :: c in IndexSet(m, x) ==> NotNull(m, c);
      assert !AgreeOn(a, b, IndexSet(m, x)) by {
        assert forall c :: NotNull(m, c) ==> !Get(a, c).Null?;
      }
    }
  }

  lemma CoveredOrderHasNoTies(m: Model, orders: seq<Order>, rows: seq<Row>)
    requires WellFormed(m) && CoversKey(m, Columns(orders)) && Honours(m, rows)
    ensures NoTies(orders, rows)
  {
    forall i, j | 0 <= i < j < |rows| ensures !AgreeOn(rows[i], rows[j], Columns(orders)) {
      CoveredRowsDiffer(m, Columns(orders), rows[i], rows[j]);
    }
    DistinctRowsDoNotTie(orders, rows);
  }

  /** Two rows that agree on columns and differ on every other column of m, NULL
      wherever an agreeing column may be. */
  function Twin(m: Model, columns: set<string>, other: bool): Row {
    map c | c in (set i | 0 <= i < |m.columns| :: m.columns[i].name) ::
      if c in columns then (if NotNull(m, c) then Num(0) else Null) else Num(if other then 1 else 0)
  }

  lemma TwinCell(m: Model, columns: set<string>, other: bool, i: nat)
    requires i < |m.columns|
    ensures
      var c := m.columns[i].name;
      Get(Twin(m, columns, other), c) == if c in columns then (if NotNull(m, c) then Num(0) else Null) else Num(if other then 1 else 0)
  {
  }

  lemma TwinHoldsNotNull(m: Model, columns: set<string>, other: bool)
    ensures HoldsNotNull(m, Twin(m, columns, other))
  {
    forall i | 0 <= i < |m.columns| && !m.columns[i].nullable ensures !Get(Twin(m, columns, other), m.columns[i].name).Null? {
      TwinCell(m, columns, other, i);
      assert NotNull(m, m.columns[i].name);
    }
  }

  lemma TwinsAgree(m: Model, columns: set<string>, i: nat)
    requires i < |m.columns|
    ensures Get(Twin(m, columns, false), m.columns[i].name) == Get(Twin(m, columns, true), m.columns[i].name) <==> m.columns[i].name in columns
  {
  }

  lemma TwinsDifferOnPrimary(m: Model, columns: set<string>)
    requires !CoversKey(m, columns) && Primary(m) != {}
    ensures !AgreeOn(Twin(m, columns, false), Twin(m, columns, true), Primary(m))
  {
    var p :| p in Primary(m) && p !in columns;
    var i :| 0 <= i < |m.columns| && m.columns[i].name == p;
    TwinsAgree(m, columns, i);
  }

  lemma TwinsAgreeByNull(m: Model, columns: set<string>, x: nat)
    requires WellFormed(m) && !CoversKey(m, columns) && x < |m.indexes|
    requires AgreeOn(Twin(m, columns, false), Twin(m, columns, true), IndexSet(m, x))
    ensures exists c :: c in IndexSet(m, x) && Get(Twin(m, columns, false), c).Null?
  {
    forall c | c in IndexSet(m, x) ensures c in columns {
      var n :| 0 <= n < |m.indexes[x]| && m.indexes[x][n] == c;
      var i :| 0 <= i < |m.columns| && m.columns[i].name == m.indexes[x][n];
      TwinsAgree(m, columns, i);
    }
    var c :| c in IndexSet(m, x) && !NotNull(m, c);
    var n :| 0 <= n < |m.indexes[x]| && m.indexes[x][n] == c;
    var i :| 0 <= i < |m.columns| && m.columns[i].name == m.indexes[x][n];
    TwinCell(m, columns, false, i);
  }

  lemma TwinsHonour(m: Model, columns: set<string>)
    requires WellFormed(m) && !CoversKey(m, columns)
    ensures Honours(m, [Twin(m, columns, false), Twin(m, columns, true)])
    ensures AgreeOn(Twin(m, columns, false), Twin(m, columns, true), columns)
  {
    var a, b := Twin(m, columns, false), Twin(m, columns, true);
    TwinHoldsNotNull(m, columns, false);
    TwinHoldsNotNull(m, columns, true);
    if Primary(m) != {} { TwinsDifferOnPrimary(m, columns); }
    forall x | 0 <= x < |m.indexes| && AgreeOn(a, b, IndexSet(m, x)) ensures exists c :: c in IndexSet(m, x) && Get(a, c).Null? {
      TwinsAgreeByNull(m, columns, x);
    }
  }

  /** An order is free of ties over every table honouring the model exactly when
      it covers a key. */
  lemma OrderIsTotalExactly(m: Model, orders: seq<Order>)
    requires WellFormed(m)
    ensures CoversKey(m, Columns(orders)) <==> forall rows :: Honours(m, rows) ==> NoTies(orders, rows)
  {
    if CoversKey(m, Columns(orders)) {
      forall rows | Honours(m, rows) ensures NoTies(orders, rows) { CoveredOrderHasNoTies(m, orders, rows); }
    } else {
      var rows := [Twin(m, Columns(orders), false), Twin(m, Columns(orders), true)];
      TwinsHonour(m, Columns(orders));
      TieMeansAgree(orders, rows[0], rows[1]);
      assert !NoTies(orders, rows);
    }
  }

  // ---- the completed order ----

  lemma {:induction false} PrimaryOrderColumns(columns: seq<ColumnDef>, desc: bool)
    ensures Columns(PrimaryOrder(columns, desc)) == set i | 0 <= i < |columns| && columns[i].primary :: columns[i].name
  {
    if columns != [] {
      PrimaryOrderColumns(columns[1..], desc);
      var rest := PrimaryOrder(columns[1..], desc);
      assert forall i :: 0 < i < |columns| ==> columns[i] == columns[1..][i - 1];
      assert forall i :: 0 <= i < |columns[1..]| ==> columns[1..][i] == columns[i + 1];
      ColumnsOfConcat(if columns[0].primary then [Order(columns[0].name, desc)] else [], rest);
      assert Columns([Order(columns[0].name, desc)]) == {columns[0].name} by { assert [Order(columns[0].name, desc)][0].column == columns[0].name; }
    }
  }

  lemma ColumnsOfConcat(a: seq<Order>, b: seq<Order>)
    ensures Columns(a + b) == Columns(a) + Columns(b)
  {
    assert forall i :: 0 <= i < |a| ==> (a + b)[i] == a[i];
    assert forall i :: 0 <= i < |b| ==> (a + b)[|a| + i] == b[i];
  }

  /** What completeOrder makes of an order is total, over every table, exactly
      when the caller's own order covered a key, or the model has a primary key and
      the order named none of the columns the code takes a row to be told apart by. */
  lemma CompletedOrderIsTotalExactly(m: Model, orders: seq<Order>)
    requires WellFormed(m)
    ensures (forall rows :: Honours(m, rows) ==> NoTies(CompletedOrder(m, orders), rows)) <==>
      CoversKey(m, Columns(orders)) || (Primary(m) != {} && forall i :: 0 <= i < |orders| ==> !Identifies(m, orders[i].column))
  {
    OrderIsTotalExactly(m, CompletedOrder(m, orders));
    var desc := orders != [] && orders[|orders| - 1].desc;
    PrimaryOrderColumns(m.columns, desc);
    ColumnsOfConcat(orders, PrimaryOrder(m.columns, desc));
  }

  /** With a primary key of one column, which a base model has, the completed
      order is always total. */
  lemma SingleKeyCompletes(m: Model, orders: seq<Order>, rows: seq<Row>)
    requires WellFormed(m) && |Primary(m)| == 1 && Honours(m, rows)
    ensures NoTies(CompletedOrder(m, orders), rows)
  {
    if i :| 0 <= i < |orders| && Identifies(m, orders[i].column) {
      SingleColumnCovers(m, orders, i);
    }
    CompletedOrderIsTotalExactly(m, orders);
  }

  lemma SingleColumnCovers(m: Model, orders: seq<Order>, i: nat)
    requires WellFormed(m) && |Primary(m)| == 1 && i < |orders| && Identifies(m, orders[i].column)
    ensures CoversKey(m, Columns(orders))
  {
    var c := orders[i].column;
    assert c in Columns(orders);
    if IsColumn(m, c, true) {
      assert c in Primary(m);
      assert |Primary(m) - {c}| == 0;
      assert Primary(m) == {c};
    } else {
      var x :| 0 <= x < |m.indexes| && m.indexes[x] == [c] && NotNull(m, c);
      assert IndexSet(m, x) == {c} by { assert m.indexes[x][0] == c; }
    }
  }

  /** A primary key of two columns, such as a kind and an id, and an order by the
      kind: the code takes it for total, and rows of one kind tie. */
  lemma CompositeKeyTies()
    ensures
      var m := Model("items", [ColumnDef("kind", true, false), ColumnDef("id", true, false)], []);
      var rows := [map["kind" := Num(1), "id" := Num(1)], map["kind" := Num(1), "id" := Num(2)]];
      WellFormed(m) && Honours(m, rows) && CompletedOrder(m, [Order("kind", false)]) == [Order("kind", false)] &&
      !NoTies([Order("kind", false)], rows)
  {
    var m := Model("items", [ColumnDef("kind", true, false), ColumnDef("id", true, false)], []);
    var rows := [map["kind" := Num(1), "id" := Num(1)], map["kind" := Num(1), "id" := Num(2)]];
    assert m.columns[0].name == "kind" && m.columns[1].name == "id";
    assert "id" in Primary(m) && "kind" in Primary(m);
    assert !AgreeOn(rows[0], rows[1], Primary(m)) by { assert Get(rows[0], "id") != Get(rows[1], "id"); }
    var orders := [Order("kind", false)];
    assert IsColumn(m, orders[0].column, true);
    assert orders[1..] == [];
    assert RowLeq(orders, rows[0], rows[1]) && RowLeq(orders, rows[1], rows[0]);
  }
}
