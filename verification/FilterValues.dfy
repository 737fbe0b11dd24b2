/** What the conditions on one column say of the very value the caller wrote: which
    rows the rendered comparison, IN or NOT IN accepts, rejects, or leaves unknown. */
module FilterValues {
  import opened Sql
  import opened Filters
  import opened FilterMeaning

  /** What a comparison says of two values, NULL aside. */
  predicate Compares(op: Op, a: Cell, b: Cell) {
    match op
    case Eq => a == b
    case Ne => a != b
    case Gt => !Leq(a, b)
    case Gte => Leq(b, a)
    case Lt => !Leq(b, a)
    case Lte => Leq(a, b)
    case _ => false
  }

  predicate IsComparison(op: Op) { op.Eq? || op.Ne? || op.Gt? || op.Gte? || op.Lt? || op.Lte? }

  /** The one value a filter compares with: a plain one, or bytes where the column does
      not hold JSON. */
  predicate ComparesWith(f: Filter, scope: Scope, value: Cell) {
    f.value == Scalar(value) ||
    ((f.value == Bytes(value) || f.value == SelfBinding(value)) && f.column !in InfoOf(f.table, scope).json)
  }

  /** A rendered comparison accepts exactly the rows whose value compares with the
      caller's, and is unknown exactly where one of the two is NULL. */
  lemma ComparisonIsAnswered(db: Database, k: Chain, f: Filter, scope: Scope, site: Site, env: Env, value: Cell)
    requires Reads(scope, site, env) && Readable(f, scope) && IsComparison(f.op) && ComparesWith(f, scope, value)
    ensures
      var r, cell := RenderFilter(k, f, scope), OwnCell(f, scope, site);
      r.failure.None? && (Eval(db, r.pred, env) == Unknown <==> cell.Null? || value.Null?) &&
      (Eval(db, r.pred, env) == True <==> !cell.Null? && !value.Null? && Compares(f.op, cell, value))
  {
    PlacedColumn(f, scope, site, env);
    ComparisonIs(f.op, OwnCell(f, scope, site), value);
    assert RenderFilter(k, f, scope) == Done(Compare(PlaceFilter(f, scope).column, f.op, value));
  }

  lemma ComparisonIs(op: Op, a: Cell, b: Cell)
    requires IsComparison(op)
    ensures CompareCells(op, a, b) == Unknown <==> a.Null? || b.Null?
    ensures CompareCells(op, a, b) == True <==> !a.Null? && !b.Null? && Compares(op, a, b)
  {
    LeqOrder(a, b, b);
  }

  /** The order comparisons read is the numbers' own. */
  lemma NumbersCompare(a: int, b: int)
    ensures Compares(Gt, Num(a), Num(b)) <==> a > b
    ensures Compares(Lte, Num(a), Num(b)) <==> a <= b
  {
  }

  lemma {:induction false} OrAllIs(ts: seq<Tri>)
    ensures OrAll(ts) == True <==> exists i :: 0 <= i < |ts| && ts[i] == True
    ensures OrAll(ts) == False <==> forall i :: 0 <= i < |ts| ==> ts[i] == False
  {
    if ts != [] {
      OrAllIs(ts[1..]);
      assert forall i :: 0 < i < |ts| ==> ts[i] == ts[1..][i - 1];
      if OrAll(ts[1..]) == True {
        var i :| 0 <= i < |ts[1..]| && ts[1..][i] == True;
        assert ts[i + 1] == True;
      }
    }
  }

  predicate Among(cell: Cell, members: seq<Cell>) { exists i :: 0 <= i < |members| && members[i] == cell }

  lemma MembershipIs(cell: Cell, members: seq<Cell>)
    ensures MemberOf(cell, members) == True <==> !cell.Null? && Among(cell, members)
    ensures MemberOf(cell, members) == False <==> !cell.Null? && members != [] && !Among(cell, members) && !Among(Null, members)
  {
    if members != [] {
      var ts := seq(|members|, i requires 0 <= i < |members| => CompareCells(Eq, cell, members[i]));
      OrAllIs(ts);
      assert forall i :: 0 <= i < |members| ==> ts[i] == CompareCells(Eq, cell, members[i]);
      if Among(cell, members) && !cell.Null? {
        var i :| 0 <= i < |members| && members[i] == cell;
        assert ts[i] == True;
      }
      if Among(Null, members) {
        var i :| 0 <= i < |members| && members[i] == Null;
        assert ts[i] == Unknown;
      }
    } else if cell.Null? {
      NullIsNoMember(members);
    }
  }

  /** The members a list condition names: those of the list, or bytes as one member. */
  predicate ListsMembers(f: Filter, members: seq<Cell>) {
    f.value == List(members) || (|members| == 1 && (f.value == Bytes(members[0]) || f.value == SelfBinding(members[0])))
  }

  /** A rendered IN accepts exactly the rows whose value is one of the caller's, and
      rejects those that are none of them where no member is NULL; NOT IN the other way
      round. An empty list, and a NULL on either side, leave both unknown. */
  lemma MembershipIsAnswered(db: Database, k: Chain, f: Filter, scope: Scope, site: Site, env: Env, members: seq<Cell>)
    requires Reads(scope, site, env) && Readable(f, scope) && (f.op.In? || f.op.NotIn?) && ListsMembers(f, members)
    ensures
      var r, cell := RenderFilter(k, f, scope), OwnCell(f, scope, site);
      r.failure.None? &&
      (Eval(db, r.pred, env) == (if f.op.In? then True else False) <==> !cell.Null? && Among(cell, members)) &&
      (Eval(db, r.pred, env) == (if f.op.In? then False else True) <==>
        !cell.Null? && members != [] && !Among(cell, members) && !Among(Null, members))
  {
    PlacedColumn(f, scope, site, env);
    MembershipIs(OwnCell(f, scope, site), members);
    assert Members(f.value) == members;
  }

  // ---- subqueries ----

  /** A path from member to member of AND and OR groups, ending at an EqCol: no subquery
      of its own is entered. */
  predicate LeadsToEqCol(filters: seq<Filter>, path: seq<nat>)
    decreases |path|
  {
    path != [] && path[0] < |filters| &&
    var f := filters[path[0]];
    if |path| == 1 then f.op.EqCol?
    else (f.op.Or? || f.op.And?) && f.value.Group? && LeadsToEqCol(f.value.filters, path[1..])
  }

  lemma {:induction false} PathToEqCol(filters: seq<Filter>) returns (path: seq<nat>)
    requires HasCorrelation(filters)
    ensures LeadsToEqCol(filters, path)
  {
    var i :| 0 <= i < |filters| &&
      (filters[i].op.EqCol? ||
       ((filters[i].op.Or? || filters[i].op.And?) && filters[i].value.Group? && HasCorrelation(filters[i].value.filters)));
    if filters[i].op.EqCol? { return [i]; }
    var rest := PathToEqCol(filters[i].value.filters);
    path := [i] + rest;
    assert path[1..] == rest;
  }

  lemma {:induction false} PathCorrelates(filters: seq<Filter>, path: seq<nat>)
    requires LeadsToEqCol(filters, path)
    ensures HasCorrelation(filters)
    decreases |path|
  {
    if |path| > 1 { PathCorrelates(filters[path[0]].value.filters, path[1..]); }
  }

  /** A subquery is taken on exactly when its value is one, its model resolves to a table
      and its columns, an EqCol ties it to the query around it, and that query is one a
      subquery can look out of: not a derived table's, and read under a name. */
  lemma SubqueryIsRefusedExactly(k: Chain, f: Filter, scope: Scope)
    requires f.op.Exists?
    ensures ExistsRefusal(k, f, scope).None? <==>
      f.value.Related? && !k.dialect.ClickHouse? && !scope.derived && scope.parent != "" &&
      f.value.sub.model.Some? && f.value.sub.model.value.table != "" && f.value.sub.model.value.columns.Some? &&
      Correlates(f.value.sub.filters)
    ensures ExistsRefusal(k, f, scope).Some? ==> !ExistsRefusal(k, f, scope).value.Unusable? || !ExistsRefusal(k, f, scope).value.foreign
  {
    if f.value.Related? { CorrelatesExactly(f.value.sub.filters); }
  }

  ghost predicate Correlates(filters: seq<Filter>) { exists path: seq<nat> :: LeadsToEqCol(filters, path) }

  lemma CorrelatesExactly(filters: seq<Filter>)
    ensures HasCorrelation(filters) <==> Correlates(filters)
  {
    if HasCorrelation(filters) { var path := PathToEqCol(filters); }
    forall path: seq<nat> | LeadsToEqCol(filters, path) ensures HasCorrelation(filters) { PathCorrelates(filters, path); }
  }

  /** A subquery is as good a place for a subquery as a chain is: what could be taken on
      around it can be taken on inside it. */
  lemma SubqueriesNest(k: Chain, f: Filter, g: Filter, scope: Scope)
    requires f.op.Exists? && g.op.Exists? && ExistsRefusal(k, f, scope).None? && ExistsRefusal(k, g, scope).None?
    ensures ExistsRefusal(k, g, ExistsScope(k, f, scope)).None?
  {
  }

  /** The column of the query around it an EqCol of a subquery names, by a reference to
      that query's table or by a plain name. */
  predicate NamesOutside(value: Value, table: string, column: string) {
    column != "" && (value == Column(table, column) || value == Column("", column) || value == Scalar(Text(column)))
  }

  /** The columns of a query's table a subquery in it may name: the scope's, or where it
      checks none the model's. */
  predicate IsOutsideColumn(k: Chain, scope: Scope, column: string) {
    var columns := if scope.info.columns.Some? then scope.info.columns else k.columns;
    columns.Some? && column in columns.value
  }

  /** Inside a subquery an equality of a column of its own with a column of the query
      directly around it is applied exactly when both columns exist, and then accepts the
      rows whose value is the same as the outer row's, NULL matching nothing. */
  lemma TieIsAnswered(db: Database, k: Chain, f: Filter, tie: Filter, scope: Scope, site: Site, env: Env, row: Row, column: string)
    requires Reads(scope, site, env) && f.op.Exists? && ExistsRefusal(k, f, scope).None? && f.value.sub.model.value.columns.value.rename.None?
    requires tie.op.EqCol? && tie.table in {"", f.value.sub.model.value.table} && NamesOutside(tie.value, scope.table, column)
    ensures
      var inner, info := ExistsScope(k, f, scope), f.value.sub.model.value.columns.value;
      var r := RenderFilter(k, tie, inner);
      var here, around := Get(row, tie.column), Get(site.own, column);
      (r.failure.None? <==> tie.column != "" && (info.columns.None? || tie.column in info.columns.value) && IsOutsideColumn(k, scope, column)) &&
      (r.failure.None? ==>
        (Eval(db, r.pred, [map[inner.info.qualify := row]] + env) == True <==> !here.Null? && here == around))
  {
    var inner := ExistsScope(k, f, scope);
    InnerScopeReads(k, f, scope, site, env, row);
    TieApplies(k, tie, inner, column);
    if RenderFilter(k, tie, inner).failure.None? {
      TieReads(db, k, tie, inner, Site(row, map[], Some(site.own)), [map[inner.info.qualify := row]] + env, column);
    }
  }

  lemma TieApplies(k: Chain, tie: Filter, inner: Scope, column: string)
    requires inner.tables.None? && inner.outer != "" && inner.table != ""
    requires tie.op.EqCol? && tie.table in {"", inner.table} && NamesOutside(tie.value, inner.outerTable, column)
    ensures RenderFilter(k, tie, inner).failure.None? <==>
      tie.column != "" && (inner.info.columns.None? || tie.column in inner.info.columns.value) &&
      inner.outerColumns.Some? && column in inner.outerColumns.value
  {
  }

  lemma TieReads(db: Database, k: Chain, tie: Filter, inner: Scope, site: Site, env: Env, column: string)
    requires Reads(inner, site, env) && inner.tables.None? && inner.outer != "" && inner.info.rename.None? && site.outer.Some?
    requires tie.op.EqCol? && tie.table in {"", inner.table} && NamesOutside(tie.value, inner.outerTable, column)
    requires RenderFilter(k, tie, inner).failure.None?
    ensures
      var here, around := Get(site.own, tie.column), Get(site.outer.value, column);
      Eval(db, RenderFilter(k, tie, inner).pred, env) == True <==> !here.Null? && here == around
  {
    LeafRefusal(k, tie, inner);
    PlacedColumn(tie, inner, site, env);
    TiedColumn(tie, PlaceFilter(tie, inner).column, inner, site, env);
  }

  /** In a join an equality with a column of a table read beside it is applied exactly
      when both columns exist, and accepts the pairs of rows that hold the same value. */
  lemma JoinTieIsAnswered(db: Database, k: Chain, tie: Filter, scope: Scope, site: Site, env: Env, other: string, column: string)
    requires Reads(scope, site, env) && scope.tables.Some? && scope.info.rename.None? && scope.table != other
    requires other != "" && column != "" && (other in scope.tables.value ==> scope.tables.value[other].rename.None?)
    requires tie.op.EqCol? && tie.table in {"", scope.table} && tie.value == Column(other, column)
    ensures
      var r := RenderFilter(k, tie, scope);
      (r.failure.None? <==>
        tie.column != "" && (scope.info.columns.None? || tie.column in scope.info.columns.value) &&
        other in scope.tables.value && scope.tables.value[other].columns.Some? && column in scope.tables.value[other].columns.value) &&
      (r.failure.None? ==>
        var here := Get(site.own, tie.column);
        Eval(db, r.pred, env) == True <==> !here.Null? && here == Get(site.beside[other], column))
  {
    LeafRefusal(k, tie, scope);
    if Applies(k, tie, scope) {
      PlacedColumn(tie, scope, site, env);
      TiedColumn(tie, PlaceFilter(tie, scope).column, scope, site, env);
    }
  }
}
