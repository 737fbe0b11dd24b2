/** Paged and cursor-paged lists (database/query_options.go, database/read.go,
    internal/modelschema/identifyingcolumns.go): the options a chain carries, the
    order a page is completed to, and what the statement may answer. */
module Paging {
  import opened Sql
  import opened Ordering

  /** A model: its columns in order, whether each is part of the primary key and
      whether it can hold NULL, and the unique indexes it declares. */
  datatype ColumnDef = ColumnDef(name: string, primary: bool, nullable: bool)

  datatype Model = Model(table: string, columns: seq<ColumnDef>, indexes: seq<seq<string>>)

  predicate IsColumn(m: Model, name: string, primary: bool) {
    exists i :: 0 <= i < |m.columns| && m.columns[i].name == name && (primary ==> m.columns[i].primary)
  }

  predicate NotNull(m: Model, name: string) {
    exists i :: 0 <= i < |m.columns| && m.columns[i].name == name && !m.columns[i].nullable
  }

  /** A column the code takes a single row to be told apart by: any column of the
      primary key, or the one column of a unique index that cannot be NULL. */
  predicate Identifies(m: Model, name: string) {
    IsColumn(m, name, true) || exists i :: 0 <= i < |m.indexes| && m.indexes[i] == [name] && NotNull(m, name)
  }

  method IdentifyingColumns(m: Model) returns (identifying: set<string>)
    ensures forall c :: c in identifying <==> Identifies(m, c)
  {
    identifying := {};
    for i := 0 to |m.columns|
      invariant forall c :: c in identifying <==> exists n :: 0 <= n < i && m.columns[n].name == c && m.columns[n].primary
    {
      if m.columns[i].primary { identifying := identifying + {m.columns[i].name}; }
    }
    assert forall c :: c in identifying <==> IsColumn(m, c, true);
    for i := 0 to |m.indexes|
      invariant forall c :: c in identifying <==>
        IsColumn(m, c, true) || exists n :: 0 <= n < i && m.indexes[n] == [c] && NotNull(m, c)
    {
      var index := m.indexes[i];
      if |index| == 1 && NotNull(m, index[0]) {
        assert index == [index[0]];
        identifying := identifying + {index[0]};
      }
    }
  }

  // ---- the order of a page ----

  function PrimaryOrder(columns: seq<ColumnDef>, desc: bool): seq<Order> {
    if columns == [] then []
    else (if columns[0].primary then [Order(columns[0].name, desc)] else []) + PrimaryOrder(columns[1..], desc)
  }

  /** completeOrder: an order naming an identifying column stands; any other is
      completed with the primary key, in the direction of its last term. */
  function CompletedOrder(m: Model, orders: seq<Order>): seq<Order> {
    if exists i :: 0 <= i < |orders| && Identifies(m, orders[i].column) then orders
    else orders + PrimaryOrder(m.columns, orders != [] && orders[|orders| - 1].desc)
  }

  datatype Cursor = Cursor(table: string, order: Order, value: string, backward: bool)

  datatype Error = CursorWithOrder | ColumnTable | SharedCursorColumn

  /** The boundary of a cursor page: rows past value, or before it. */
  datatype Boundary = Boundary(column: string, greater: bool, value: string)

  class Chain {
    const model: Model
    var orders: seq<Order>
    var clauses: seq<Order>
    var cursor: Option<Cursor>
    var boundary: Option<Boundary>
    var paginated: bool
    var offset: nat
    var limit: Option<nat>
    var err: Option<Error>

    constructor (model: Model)
      ensures this.model == model && orders == clauses == [] && cursor == None && boundary == None
      ensures !paginated && offset == 0 && limit == None && err == None
    {
      this.model, orders, clauses, cursor, boundary := model, [], [], None, None;
      paginated, offset, limit, err := false, 0, None, None;
    }

    /** The orders with a column are added until one is refused: the cursor owns
        the order of the query, and another model's column is no column here. */
    method WithOrder(added: seq<(string, Order)>)
      modifies this`orders, this`clauses, this`err
      ensures orders == old(orders) + Named(added, Accepted(added, model.table, cursor.Some?))
      ensures clauses == old(clauses) + Named(added, Accepted(added, model.table, cursor.Some?))
      ensures Accepted(added, model.table, cursor.Some?) == |added| ==> err == old(err)
      ensures Accepted(added, model.table, cursor.Some?) < |added| ==> err == Some(if cursor.Some? then CursorWithOrder else ColumnTable)
    {
      for i := 0 to |added|
        invariant orders == old(orders) + Named(added, i) && clauses == old(clauses) + Named(added, i)
        invariant err == old(err)
        invariant Accepted(added, model.table, cursor.Some?) == i + Accepted(added[i..], model.table, cursor.Some?)
      {
        var (table, order) := added[i];
        assert added[i..][0] == added[i] && added[i..][1..] == added[i + 1..];
        if order.column == "" { continue; }
        if cursor.Some? { err := Some(CursorWithOrder); return; }
        if table != "" && table != model.table { err := Some(ColumnTable); return; }
        clauses := clauses + [order];
        orders := orders + [order];
      }
    }

    /** A page below 1 is the first; a size below 1 reads to the end, from the
        first row. */
    method WithPagination(page: int, size: int)
      modifies this`paginated, this`offset, this`limit
      ensures paginated && limit == (if size <= 0 then None else Some(size))
      ensures offset == if page <= 1 || size <= 0 then 0 else (page - 1) * size
    {
      paginated := true;
      var number, count := if page <= 0 then 1 else page, if size <= 0 then -1 else size;
      var skip := (number - 1) * count;
      if skip <= 0 { skip := -1; }
      offset := if skip < 0 then 0 else skip;
      limit := if count < 0 then None else Some(count);
    }

    /** A cursor is taken on only over an identifying column of this model, and
        never beside an order; an empty column pages by the id. */
    method WithCursor(c: Cursor)
      modifies this`cursor, this`err
      ensures
        var column := if c.order.column == "" then "id" else c.order.column;
        var refusal :=
          if orders != [] then Some(CursorWithOrder)
          else if c.table != "" && c.table != model.table then Some(ColumnTable)
          else if !Identifies(model, column) then Some(SharedCursorColumn) else None;
        if refusal.Some? then err == refusal && cursor == old(cursor)
        else err == old(err) && cursor == Some(c.(order := c.order.(column := column)))
    {
      if |orders| > 0 { err := Some(CursorWithOrder); return; }
      if c.table != "" && c.table != model.table { err := Some(ColumnTable); return; }
      var own := if c.order.column == "" then c.(order := c.order.(column := "id")) else c;
      var identifying := IdentifyingColumns(model);
      if own.order.column !in identifying { err := Some(SharedCursorColumn); return; }
      cursor := Some(own);
    }

    /** The cursor orders the query on every page, flipped when it travels
        backward, and a bounded one keeps the rows past its value. */
    method ApplyCursorPagination()
      modifies this`clauses, this`boundary
      ensures cursor.None? ==> clauses == old(clauses) && boundary == old(boundary)
      ensures cursor.Some? ==>
        var c := cursor.value;
        clauses == old(clauses) + [Order(c.order.column, Desc(c))] &&
        boundary == if c.value != "" then Some(Boundary(c.order.column, !Desc(c), c.value)) else old(boundary)
    {
      if cursor.None? { return; }
      var c := cursor.value;
      var desc := c.order.desc;
      if c.backward { desc := !desc; }
      if c.value != "" { boundary := Some(Boundary(c.order.column, !desc, c.value)); }
      clauses := clauses + [Order(c.order.column, desc)];
    }

    /** The ORDER BY of a page becomes the completed order; any other read is left
        as its caller ordered it. */
    method CompleteOrder()
      requires clauses == orders || cursor.Some?
      modifies this`clauses
      ensures clauses == if !paginated || cursor.Some? then old(clauses) else CompletedOrder(model, orders)
    {
      if !paginated || cursor.Some? { return; }
      var identifying := IdentifyingColumns(model);
      var desc := false;
      for i := 0 to |orders|
        invariant forall j :: 0 <= j < i ==> !Identifies(model, orders[j].column)
        invariant desc == (i > 0 && orders[i - 1].desc)
      {
        if orders[i].column in identifying { return; }
        desc := orders[i].desc;
      }
      AppendPrimary(desc);
    }

    method AppendPrimary(desc: bool)
      modifies this`clauses
      ensures clauses == old(clauses) + PrimaryOrder(model.columns, desc)
    {
      for i := 0 to |model.columns|
        invariant clauses == old(clauses) + PrimaryOrder(model.columns[..i], desc)
      {
        PrimaryStep(model.columns, i, desc);
        if model.columns[i].primary { clauses := clauses + [Order(model.columns[i].name, desc)]; }
      }
      assert model.columns[..|model.columns|] == model.columns;
    }
  }

  /** Traveling backward reads the feed in reverse. */
  predicate Desc(c: Cursor) { c.order.desc != c.backward }

  /** The named orders among the first n. */
  function Named(added: seq<(string, Order)>, n: nat): seq<Order>
    requires n <= |added|
  {
    if n == 0 then [] else Named(added, n - 1) + (if added[n - 1].1.column == "" then [] else [added[n - 1].1])
  }

  /** How many orders are taken on before one is refused. */
  function Accepted(added: seq<(string, Order)>, table: string, paging: bool): (n: nat)
    ensures n <= |added|
  {
    if added == [] then 0
    else
      var (t, order) := added[0];
      if order.column != "" && (paging || (t != "" && t != table)) then 0 else 1 + Accepted(added[1..], table, paging)
  }

  /** An order that cannot be taken on: a cursor orders the query already, or the column
      is another model's. An order without a column is none. */
  predicate IsRefused(table: string, order: Order, own: string, paging: bool) {
    order.column != "" && (paging || table !in {"", own})
  }

  /** Orders are taken on up to the first that cannot be. */
  lemma {:induction false} AcceptedIs(added: seq<(string, Order)>, table: string, paging: bool)
    ensures
      var n := Accepted(added, table, paging);
      (n < |added| ==> IsRefused(added[n].0, added[n].1, table, paging)) &&
      forall i :: 0 <= i < n ==> !IsRefused(added[i].0, added[i].1, table, paging)
  {
    if added != [] { AcceptedIs(added[1..], table, paging); }
  }

  /** What the options take on is in the order they give it, the unnamed left out. */
  lemma {:induction false} NamedIs(added: seq<(string, Order)>, n: nat, order: Order)
    requires n <= |added|
    ensures order in Named(added, n) <==> order.column != "" && exists i :: 0 <= i < n && added[i].1 == order
  {
    if n > 0 { NamedIs(added, n - 1, order); }
  }

  lemma {:induction false} PrimaryStep(columns: seq<ColumnDef>, i: nat, desc: bool)
    requires i < |columns|
    ensures PrimaryOrder(columns[..i + 1], desc) ==
      PrimaryOrder(columns[..i], desc) + (if columns[i].primary then [Order(columns[i].name, desc)] else [])
  {
    if i == 0 {
      assert columns[..1][1..] == [];
    } else {
      PrimaryStep(columns[1..], i - 1, desc);
      assert columns[..i + 1][1..] == columns[1..][..i] && columns[..i][1..] == columns[1..][..i - 1];
    }
  }
}
