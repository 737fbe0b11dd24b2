/** Paging and windows of a select (database/select.go, database/select_window.go):
    what their orders are completed with. A page is sorted by output aliases and the
    rendered primary key, a window by the expressions it spells. */
module SelectPages {
  import opened Sql
  import opened Ordering
  import opened Paging
  import opened PagingProof

  /** A projected term the select is ordered by: its alias and, when it projects a
      plain column of the queried model, that column. */
  datatype Ordered = Ordered(alias: string, desc: bool, column: Option<string>)

  /** A projected term: its alias, and the column of the queried model it projects as it
      is, if it does. */
  datatype Projected = Projected(alias: string, column: Option<string>)

  /** What paging needs to know of a projection: the queried model, the group keys by
      the names they are sorted by, the terms, whether the select joins, and whether
      Qualify wraps it. */
  datatype Shape =
    Shape(model: Model, grouped: bool, keys: seq<string>, terms: seq<Projected>, joined: bool, qualified: bool)
  {
    predicate HasId() { IsColumn(model, "id", false) }

    /** A column of the queried model as the statement spells it: qualified only where
        the select joins. */
    function Rendered(column: string): string { if joined then model.table + "." + column else column }
  }

  /** The alias the primary key is projected under. */
  function ProjectedId(terms: seq<Projected>): Option<string> {
    if terms == [] then None
    else if ProjectedId(terms[..|terms| - 1]).Some? then ProjectedId(terms[..|terms| - 1])
    else if terms[|terms| - 1].column == Some("id") then Some(terms[|terms| - 1].alias) else None
  }

  function AsOrders(ordered: seq<Ordered>): (r: seq<Order>)
    ensures |r| == |ordered| && forall i :: 0 <= i < |r| ==> r[i] == Order(ordered[i].alias, ordered[i].desc)
  {
    seq(|ordered|, i requires 0 <= i < |ordered| => Order(ordered[i].alias, ordered[i].desc))
  }

  predicate IsOrdered(ordered: seq<Ordered>, alias: string) { exists i :: 0 <= i < |ordered| && ordered[i].alias == alias }

  predicate NamesIdentifying(ordered: seq<Ordered>, s: Shape) {
    exists i :: 0 <= i < |ordered| && ordered[i].column.Some? && Identifies(s.model, ordered[i].column.value)
  }

  function KeysLeft(keys: seq<string>, ordered: seq<Ordered>, desc: bool): seq<Order> {
    if keys == [] then []
    else
      var rest := KeysLeft(keys[..|keys| - 1], ordered, desc);
      if IsOrdered(ordered, keys[|keys| - 1]) then rest else rest + [Order(keys[|keys| - 1], desc)]
  }

  /** What the ORDER BY of a page is completed with. */
  function Breakers(s: Shape, ordered: seq<Ordered>): seq<Order> {
    var desc := ordered != [] && ordered[|ordered| - 1].desc;
    if s.grouped then KeysLeft(s.keys, ordered, desc)
    else if NamesIdentifying(ordered, s) || !s.HasId() then []
    else if s.qualified then (if ProjectedId(s.terms).Some? then [Order(ProjectedId(s.terms).value, desc)] else [])
    else [Order(s.Rendered("id"), desc)]
  }

  lemma {:induction false} ProjectedIdStays(terms: seq<Projected>, n: nat)
    requires n <= |terms| && ProjectedId(terms[..n]).Some?
    ensures ProjectedId(terms) == ProjectedId(terms[..n])
  {
    if n < |terms| {
      var rest := terms[..|terms| - 1];
      assert rest[..n] == terms[..n];
      ProjectedIdStays(rest, n);
    } else {
      assert terms[..n] == terms;
    }
  }

  method ColumnNames(m: Model) returns (names: set<string>)
    ensures forall c :: c in names <==> IsColumn(m, c, false)
  {
    names := {};
    for i := 0 to |m.columns|
      invariant forall c :: c in names <==> exists k :: 0 <= k < i && m.columns[k].name == c
    {
      names := names + {m.columns[i].name};
    }
  }

  class Selector {
    const shape: Shape
    const ordered: seq<Ordered>
    var limit: nat
    var offset: nat
    var hasLimit: bool
    var paged: bool

    ghost predicate Valid()
      reads this
    {
      (hasLimit <==> limit > 0) && (paged ==> hasLimit) && (offset > 0 ==> paged)
    }

    constructor (shape: Shape, ordered: seq<Ordered>)
      ensures Valid() && !hasLimit && !paged && this.shape == shape && this.ordered == ordered
    {
      this.shape, this.ordered := shape, ordered;
      limit, offset, hasLimit, paged := 0, 0, false, false;
    }

    /** A limit after a page drops the page's skip; one below 1 is no limit. */
    method SetLimit(n: int)
      modifies this
      ensures Valid() && !paged && offset == 0 && (hasLimit <==> n > 0) && (n > 0 ==> limit == n)
    {
      offset, paged := 0, false;
      if n <= 0 { limit, hasLimit := 0, false; return; }
      limit, hasLimit := n, true;
    }

    /** A page below 1 is the first; a size below 1 pages nothing. */
    method SetPage(page: int, size: int)
      modifies this
      ensures Valid() && (paged <==> size > 0)
      ensures size > 0 ==> limit == size && offset == (if page < 1 then 0 else (page - 1) * size)
      ensures size <= 0 ==> !hasLimit && offset == 0
    {
      if size <= 0 { limit, offset, hasLimit, paged := 0, 0, false, false; return; }
      var number := if page < 1 then 1 else page;
      limit, offset, hasLimit, paged := size, (number - 1) * size, true, true;
    }

    method PageTieBreakers() returns (breakers: seq<Order>)
      ensures breakers == if paged then Breakers(shape, ordered) else []
    {
      if !paged { return []; }
      var names: set<string> := {};
      var direction := false;
      for i := 0 to |ordered|
        invariant forall a :: a in names <==> exists k :: 0 <= k < i && ordered[k].alias == a
        invariant direction == (i > 0 && ordered[i - 1].desc)
      {
        names := names + {ordered[i].alias};
        direction := ordered[i].desc;
      }
      if shape.grouped {
        breakers := [];
        for i := 0 to |shape.keys|
          invariant breakers == KeysLeft(shape.keys[..i], ordered, direction)
        {
          assert shape.keys[..i + 1][..i] == shape.keys[..i];
          if shape.keys[i] !in names { breakers := breakers + [Order(shape.keys[i], direction)]; }
        }
        assert shape.keys[..|shape.keys|] == shape.keys;
        return;
      }
      var identifying := IdentifyingColumns(shape.model);
      for i := 0 to |ordered|
        invariant forall k :: 0 <= k < i ==> !(ordered[k].column.Some? && Identifies(shape.model, ordered[k].column.value))
      {
        if ordered[i].column.Some? && ordered[i].column.value in identifying { return []; }
      }
      var columns := ColumnNames(shape.model);
      if "id" !in columns { return []; }
      if shape.qualified {
        for i := 0 to |shape.terms|
          invariant ProjectedId(shape.terms[..i]) == None
        {
          assert shape.terms[..i + 1][..i] == shape.terms[..i];
          if shape.terms[i].column == Some("id") {
            ProjectedIdStays(shape.terms, i + 1);
            return [Order(shape.terms[i].alias, direction)];
          }
        }
        assert shape.terms[..|shape.terms|] == shape.terms;
        return [];
      }
      return [Order(shape.Rendered("id"), direction)];
    }
  }

  function Completed(s: Shape, ordered: seq<Ordered>): seq<Order> { AsOrders(ordered) + Breakers(s, ordered) }

  // ---- windows ----

  datatype WindowFn = Ranking | RowNumber | Accumulating | Positional

  /** The keys a window is completed with: the group keys, or the primary key; none
      for RANK and DENSE_RANK, which rank peers equally. */
  function TieBreakers(fn: WindowFn, s: Shape): seq<string> {
    if fn.Ranking? then [] else if s.grouped then s.keys else if s.HasId() then [s.Rendered("id")] else []
  }

  function Extended(orders: seq<Order>, keys: seq<string>): seq<Order> {
    if keys == [] then orders
    else
      var before := Extended(orders, keys[..|keys| - 1]);
      if keys[|keys| - 1] in Columns(before) then before else before + [Order(keys[|keys| - 1], false)]
  }

  /** The ORDER BY of a window, in rendered expressions: an unordered window is left
      so, an ordered one is completed with the keys it does not order by yet. */
  method OverOrder(fn: WindowFn, orders: seq<Order>, s: Shape) returns (items: seq<Order>)
    ensures items == if orders == [] then [] else Extended(orders, TieBreakers(fn, s))
  {
    if orders == [] { return []; }
    items := [];
    var rendered: set<string> := {};
    for i := 0 to |orders|
      invariant items == orders[..i] && rendered == Columns(items)
    {
      ColumnsOfConcat(items, [orders[i]]);
      ColumnsOfOne(orders[i]);
      items := items + [orders[i]];
      rendered := rendered + {orders[i].column};
    }
    var keys := TieBreakers(fn, s);
    for i := 0 to |keys|
      invariant items == Extended(orders, keys[..i]) && rendered == Columns(items)
    {
      assert keys[..i + 1][..i] == keys[..i];
      if keys[i] in rendered { continue; }
      ColumnsOfConcat(items, [Order(keys[i], false)]);
      ColumnsOfOne(Order(keys[i], false));
      items := items + [Order(keys[i], false)];
      rendered := rendered + {keys[i]};
    }
    assert keys[..|keys|] == keys;
  }

  lemma ColumnsOfOne(order: Order)
    ensures Columns([order]) == {order.column}
  {
    assert [order][0].column == order.column;
  }

  /** What completing adds: the caller's orders stay first, and each key they do not name
      follows, ascending, once. */
  lemma {:induction false} ExtendedIs(orders: seq<Order>, keys: seq<string>)
    ensures orders <= Extended(orders, keys)
    ensures Columns(Extended(orders, keys)) == Columns(orders) + set k | k in keys
    ensures forall i :: |orders| <= i < |Extended(orders, keys)| ==>
      var o := Extended(orders, keys)[i];
      !o.desc && o.column in keys && o.column !in Columns(Extended(orders, keys)[..i])
  {
    if keys != [] {
      var rest, key := keys[..|keys| - 1], keys[|keys| - 1];
      var before := Extended(orders, rest);
      ExtendedIs(orders, rest);
      assert keys == rest + [key];
      ColumnsOfConcat(before, [Order(key, false)]);
      ColumnsOfOne(Order(key, false));
      forall i | |orders| <= i < |Extended(orders, keys)| ensures Extended(orders, keys)[..i] == before[..i] {}
      assert before[..|before|] == before;
    }
  }

  /** RANK and DENSE_RANK are ordered by what their caller gave alone, peers staying
      peers, and so is any window over rows of a model without the id. */
  lemma LeftAlone(fn: WindowFn, s: Shape, orders: seq<Order>)
    requires fn.Ranking? || (!s.grouped && forall c :: c in s.model.columns ==> c.name != "id")
    ensures Extended(orders, TieBreakers(fn, s)) == orders
  {
  }
}
