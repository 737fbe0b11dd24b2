/** The predicate engine (database/filter.go, internal/types/filter.go): the
    filter tree service code and URL queries write, the scope a list of filters
    renders in, and the renderer that turns the tree into one SQL predicate,
    failing closed on whatever it cannot apply. */
module Filters {
  import opened Sql
  import Like

  datatype Op =
    | Eq | Ne | Gt | Gte | Lt | Lte | In | NotIn
    | Like | NotLike | StartsWith | EndsWith | IsNull
    | Regex | NotRegex | JSONContains
    | Or | And | Exists | EqCol | Nothing | Other(name: string)

  /** The dynamic value of a filter. Scalar covers every plain value, a string
      included; Bytes and SelfBinding the slice and array kinds that bind as one
      value; List the other slices; the last three the values only groups,
      subqueries and correlations read. */
  datatype Value =
    | Nil
    | Scalar(cell: Cell)
    | Bytes(cell: Cell)
    | SelfBinding(cell: Cell)
    | List(cells: seq<Cell>)
    | Group(filters: seq<Filter>)
    | Related(sub: Subquery)
    | Column(table: string, name: string)

  datatype Filter = Filter(table: string, column: string, op: Op, value: Value)

  datatype Subquery = Subquery(model: Option<Model>, filters: seq<Filter>, negate: bool)

  /** A related model: the table it declares and its columns, None when they do
      not resolve. */
  datatype Model = Model(table: string, columns: Option<TableInfo>)

  /** What the renderer knows about one table: the columns that exist, None where
      nothing is checked, the ones storing JSON, the name the table is read
      under, and the aliases a derived table reads its key columns by. */
  datatype TableInfo = TableInfo(
    columns: Option<set<string>>, json: set<string>,
    qualify: string, rename: Option<map<string, string>>)
  {
    function ColumnName(name: string): string {
      if rename.Some? && name in rename.value then rename.value[name] else name
    }

    predicate Has(name: string) {
      columns.Some? && name in columns.value
    }
  }

  datatype Scope = Scope(
    info: TableInfo, parent: string, outer: string, outerTable: string,
    outerColumns: Option<set<string>>, depth: nat, table: string,
    tables: Option<map<string, TableInfo>>, derived: bool)

  /** What the chain knows about itself: its dialect and its model's columns. */
  datatype Chain = Chain(dialect: Like.Dialect, columns: Option<set<string>>)

  /** Why a filter could not be applied. foreign marks the failures joined with
      the column-table sentinel. */
  datatype Failure = Unusable(op: Op, foreign: bool) | Unsupported(op: Op)

  /** A column as the SQL spells it: bare when qualify is empty. */
  datatype ColumnRef = ColumnRef(qualify: string, name: string)

  datatype Pred =
    | Never
    | Compare(column: ColumnRef, op: Op, operand: Cell)
    | Member(column: ColumnRef, negated: bool, members: seq<Cell>)
    | Pattern(column: ColumnRef, negated: bool, pattern: string, escape: char)
    | NullTest(column: ColumnRef, isNull: bool)
    | RegexTest(column: ColumnRef, negated: bool, expr: string)
    | JSONHas(column: ColumnRef, member: string)
    | SameValue(left: ColumnRef, right: ColumnRef)
    | Conj(preds: seq<Pred>)
    | Disj(preds: seq<Pred>)
    | SemiJoin(negated: bool, table: string, name: string, condition: Option<Pred>)

  datatype Rendered = Rendered(pred: Pred, failure: Option<Failure>)

  /** The operators a URL query can carry, by the token it spells each with. */
  const FilterOps: map<string, Op> := map[
    "eq" := Eq, "ne" := Ne, "gt" := Gt, "gte" := Gte, "lt" := Lt, "lte" := Lte, "in" := In, "notin" := NotIn,
    "like" := Op.Like, "notlike" := NotLike, "startswith" := StartsWith, "endswith" := EndsWith, "isnull" := IsNull]

  function ParseFilterOp(token: string): Option<Op> {
    if token in FilterOps then Some(FilterOps[token]) else None
  }

  predicate ClientSpelled(op: Op) {
    match op
    case Eq | Ne | Gt | Gte | Lt | Lte | In | NotIn => true
    case Like | NotLike | StartsWith | EndsWith | IsNull => true
    case _ => false
  }

  predicate Narrows(f: Failure) {
    f.Unusable? && !f.foreign && ClientSpelled(f.op)
  }

  function FailClosed(f: Filter): Rendered {
    Rendered(Never, Some(Unusable(f.op, false)))
  }

  function FailForeign(f: Filter): Rendered {
    Rendered(Never, Some(Unusable(f.op, true)))
  }

  function Done(p: Pred): Rendered { Rendered(p, None) }

  /** gorm's clause.And: one condition is handed back bare unless it is an OR
      group. */
  function AndOf(preds: seq<Pred>): Pred {
    if |preds| == 1 && !preds[0].Disj? then preds[0] else Conj(preds)
  }

  // ---- correlation ----

  predicate HasCorrelation(filters: seq<Filter>) {
    exists i :: 0 <= i < |filters| &&
      (filters[i].op.EqCol? ||
       ((filters[i].op.Or? || filters[i].op.And?) && filters[i].value.Group? && HasCorrelation(filters[i].value.filters)))
  }

  /** The name a subquery reads its table under: the table's own unless the
      query around it is read under that name. */
  function ChildName(table: string, scope: Scope): string {
    if table == scope.parent then table + "_gst" + Digits(scope.depth + 1) else table
  }

  function InnerScope(k: Chain, scope: Scope, table: string, child: TableInfo): Scope {
    var name := ChildName(table, scope);
    Scope(child.(qualify := name), name, scope.parent, scope.table,
          if scope.info.columns.Some? then scope.info.columns else k.columns,
          scope.depth + 1, table, None, false)
  }

  // ---- placing a column ----

  predicate NamesAnotherTable(f: Filter, scope: Scope) {
    f.table != "" && scope.table != "" && f.table != scope.table
  }

  function ScopedColumn(column: string, scope: Scope): ColumnRef {
    ColumnRef(scope.info.qualify, scope.info.ColumnName(column))
  }

  function TableColumn(table: string, info: TableInfo, column: string): ColumnRef {
    ColumnRef(if info.qualify == "" then table else info.qualify, info.ColumnName(column))
  }

  datatype Placed = Placed(column: ColumnRef, info: TableInfo) | Misplaced(failure: Failure)

  function PlaceFilter(f: Filter, scope: Scope): Placed {
    if NamesAnotherTable(f, scope) then
      if scope.tables.None? || f.table !in scope.tables.value then Misplaced(Unusable(f.op, true))
      else
        var info := scope.tables.value[f.table];
        if !info.Has(f.column) then Misplaced(Unusable(f.op, false))
        else Placed(TableColumn(f.table, info, f.column), info)
    else if scope.info.columns.Some? && f.column !in scope.info.columns.value then
      Misplaced(Unusable(f.op, false))
    else Placed(ScopedColumn(f.column, scope), scope.info)
  }

  // ---- binding a value ----

  predicate BindsOne(value: Value, json: bool) {
    match value
    case Nil => false
    case Bytes(_) | SelfBinding(_) => !json
    case List(_) | Group(_) => false
    case _ => true
  }

  function Bound(value: Value): Cell {
    match value
    case Scalar(c) => c
    case Bytes(c) => c
    case SelfBinding(c) => c
    case _ => Null
  }

  predicate BindsList(value: Value) {
    value.Bytes? || value.SelfBinding? || value.List? || value.Group?
  }

  function Members(value: Value): seq<Cell> {
    match value
    case List(cells) => cells
    case Bytes(c) => [c]
    case SelfBinding(c) => [c]
    case _ => []
  }

  predicate IsText(value: Value) { value.Scalar? && value.cell.Text? }

  function ScalarFilter(f: Filter, info: TableInfo, column: ColumnRef): Rendered {
    if BindsOne(f.value, f.column in info.json) then Done(Compare(column, f.op, Bound(f.value))) else FailClosed(f)
  }

  function ListFilter(f: Filter, column: ColumnRef): Rendered {
    if BindsList(f.value) then Done(Member(column, f.op.NotIn?, Members(f.value))) else FailClosed(f)
  }

  function PatternFilter(k: Chain, f: Filter, column: ColumnRef, prefix: string, suffix: string): Rendered {
    var esc := Like.EscapeChar(k.dialect);
    if IsText(f.value) then Done(Pattern(column, f.op.NotLike?, prefix + Like.Escape(f.value.cell.s, esc) + suffix, esc))
    else FailClosed(f)
  }

  /** The other column of an EqCol predicate; a plain name carries no table. */
  function EqColParent(value: Value): Option<(string, string)> {
    match value
    case Column(table, name) => Some((table, name))
    case Scalar(Text(name)) => Some(("", name))
    case _ => None
  }

  function EqColCondition(f: Filter, column: ColumnRef, scope: Scope): Rendered {
    match EqColParent(f.value)
    case None => FailClosed(f)
    case Some((table, name)) =>
      if name == "" then FailClosed(f)
      else if scope.tables.Some? && scope.outer == "" then JoinEqCol(f, column, table, name, scope)
      else if scope.outer == "" then FailClosed(f)
      else if scope.outerColumns.None? then FailClosed(f)
      else if table != "" && table != scope.outerTable then FailForeign(f)
      else if name !in scope.outerColumns.value then FailClosed(f)
      else Done(SameValue(column, ColumnRef(scope.outer, name)))
  }

  function JoinEqCol(f: Filter, column: ColumnRef, table: string, name: string, scope: Scope): Rendered
    requires scope.tables.Some?
  {
    if table == "" then FailClosed(f)
    else if table != scope.table && table !in scope.tables.value then FailForeign(f)
    else
      var info := if table == scope.table then scope.info else scope.tables.value[table];
      if !info.Has(name) then FailClosed(f)
      else Done(SameValue(column, TableColumn(table, info, name)))
  }

  function LeafCondition(k: Chain, f: Filter, scope: Scope): Rendered {
    if f.column == "" then FailClosed(f)
    else match PlaceFilter(f, scope)
      case Misplaced(failure) => Rendered(Never, Some(failure))
      case Placed(column, info) =>
        match f.op
        case Eq | Ne | Gt | Gte | Lt | Lte => ScalarFilter(f, info, column)
        case In | NotIn => ListFilter(f, column)
        case Like | NotLike => PatternFilter(k, f, column, "%", "%")
        case StartsWith => PatternFilter(k, f, column, "", "%")
        case EndsWith => PatternFilter(k, f, column, "%", "")
        case IsNull =>
          if f.value.Scalar? && f.value.cell.Flag? then Done(NullTest(column, f.value.cell.b)) else FailClosed(f)
        case Regex | NotRegex =>
          if IsText(f.value) then Done(RegexTest(column, f.op.NotRegex?, f.value.cell.s)) else FailClosed(f)
        case JSONContains =>
          if k.dialect.ClickHouse? then Rendered(Never, Some(Unsupported(f.op)))
          else if f.column !in info.json then FailClosed(f)
          else if IsText(f.value) then Done(JSONHas(column, f.value.cell.s))
          else FailClosed(f)
        case EqCol => EqColCondition(f, column, scope)
        case _ => FailClosed(f)
  }

  /** The failures an EXISTS is refused for before its predicates are read. */
  function ExistsRefusal(k: Chain, f: Filter, scope: Scope): Option<Failure> {
    if !f.value.Related? then Some(Unusable(f.op, false))
    else if k.dialect.ClickHouse? then Some(Unsupported(f.op))
    else
      var sq := f.value.sub;
      if sq.model.None? || !HasCorrelation(sq.filters) || scope.derived || scope.parent == ""
         || sq.model.value.table == "" || sq.model.value.columns.None?
      then Some(Unusable(f.op, false)) else None
  }

  function ExistsScope(k: Chain, f: Filter, scope: Scope): Scope
    requires ExistsRefusal(k, f, scope).None?
  {
    InnerScope(k, scope, f.value.sub.model.value.table, f.value.sub.model.value.columns.value)
  }

  // ---- the renderer ----

  /** Of two failures the one the caller has to see: the first, unless only the
      later one fails the chain. */
  function Merge(sofar: Option<Failure>, next: Option<Failure>): Option<Failure> {
    if next.Some? && (sofar.None? || (Narrows(sofar.value) && !Narrows(next.value))) then next else sofar
  }

  function Report(rs: seq<Rendered>): Option<Failure> {
    if rs == [] then None else Merge(Report(rs[..|rs| - 1]), rs[|rs| - 1].failure)
  }

  function Preds(rs: seq<Rendered>): (ps: seq<Pred>)
    ensures |ps| == |rs|
  {
    seq(|rs|, i requires 0 <= i < |rs| => rs[i].pred)
  }

  /** What a rendered list combines to; no filters are no condition. */
  function Combine(rs: seq<Rendered>, or: bool): (Option<Pred>, Option<Failure>) {
    if rs == [] then (None, None)
    else if or then (Some(if |rs| == 1 then rs[0].pred else Disj(Preds(rs))), Report(rs))
    else (Some(AndOf(Preds(rs))), Report(rs))
  }

  function RenderEach(k: Chain, filters: seq<Filter>, scope: Scope): (rs: seq<Rendered>)
    ensures |rs| == |filters|
    decreases filters, 0
  {
    if filters == [] then []
    else [RenderFilter(k, filters[0], scope)] + RenderEach(k, filters[1..], scope)
  }

  function RenderFilter(k: Chain, f: Filter, scope: Scope): Rendered
    decreases f, 1
  {
    match f.op
    case Or | And =>
      if !f.value.Group? || f.value.filters == [] then FailClosed(f)
      else
        var (pred, failure) := Combine(RenderEach(k, f.value.filters, scope), f.op.Or?);
        Rendered(pred.value, failure)
    case Exists =>
      if ExistsRefusal(k, f, scope).Some? then Rendered(Never, ExistsRefusal(k, f, scope))
      else
        var sq := f.value.sub;
        var inner := ExistsScope(k, f, scope);
        var (condition, failure) := Combine(RenderEach(k, sq.filters, inner), false);
        if failure.Some? then Rendered(Never, failure)
        else Done(SemiJoin(sq.negate, inner.table, inner.info.qualify, condition))
    case Nothing => Done(Never)
    case _ => LeafCondition(k, f, scope)
  }

  lemma {:induction false} RenderEachAt(k: Chain, filters: seq<Filter>, scope: Scope, i: nat)
    requires i < |filters|
    ensures RenderEach(k, filters, scope)[i] == RenderFilter(k, filters[i], scope)
  {
    if i > 0 { RenderEachAt(k, filters[1..], scope, i - 1); }
  }

  /** renderFilters: the list rendered in one pass that keeps the failure to
      report as it goes. */
  method RenderFilters(k: Chain, filters: seq<Filter>, or: bool, scope: Scope)
    returns (expr: Option<Pred>, failure: Option<Failure>)
    ensures (expr, failure) == Combine(RenderEach(k, filters, scope), or)
  {
    if |filters| == 0 { return None, None; }
    ghost var rs := RenderEach(k, filters, scope);
    var exprs := [];
    failure := None;
    for i := 0 to |filters|
      invariant exprs == Preds(rs[..i])
      invariant failure == Report(rs[..i])
    {
      RenderEachAt(k, filters, scope, i);
      var rendered := RenderFilter(k, filters[i], scope);
      if rendered.failure.Some? && (failure.None? || (Narrows(failure.value) && !Narrows(rendered.failure.value))) {
        failure := rendered.failure;
      }
      assert rs[..i + 1][..i] == rs[..i];
      exprs := exprs + [rendered.pred];
    }
    assert rs[..|filters|] == rs;
    if or {
      expr := Some(if |exprs| == 1 then exprs[0] else Disj(exprs));
    } else {
      expr := Some(AndOf(exprs));
    }
  }
}
