/** The aliases a projection does not flag are never NULL, over every database
    that honours the schema, and the one shape of term for which that fails. */
module NullProof {
  import opened Sql
  import opened Filters
  import opened FilterMeaning
  import opened Terms
  import opened Joins
  import opened JoinProof
  import opened DerivedKeys
  import opened DerivedProof
  import opened Nullability

  // ---- what a projection answers ----

  /** whereScope: the queried model alone, or widened to the joined tables with
      every column qualified. */
  function WhereScope(p: Projection): Scope {
    var alone := Scope(p.info, p.main, "", "", None, 0, p.main, None, false);
    if p.joins == [] then alone
    else alone.(info := p.info.(qualify := p.main), tables := Some(InfoBefore(p.main, p.info, p.joins, |p.joins|)))
  }

  ghost predicate Accepts(db: Database, k: Chain, p: Projection, filters: seq<Filter>, j: Joined) {
    MeaningAll(db, k, filters, WhereScope(p), Site(RowOf(j, p.main), j, None), NoGuess) == True
  }

  function ColumnCell(p: Projection, t: Term, j: Joined): Cell {
    Get(RowOf(j, TableOf(t, p.main)), t.column)
  }

  /** What a measure takes of one row: the column, or one for COUNT(*), through
      the CASE its conditions render as. */
  ghost function Taken(db: Database, k: Chain, p: Projection, t: Term, j: Joined): Cell {
    if t.conditions == [] || Accepts(db, k, p, t.conditions, j) then (if t.column == "" then Num(1) else ColumnCell(p, t, j))
    else if t.fn.Sum? then Num(0) else Null
  }

  ghost function TakenOf(db: Database, k: Chain, p: Projection, t: Term, rows: seq<Joined>): seq<Cell> {
    if rows == [] then [] else [Taken(db, k, p, t, rows[0])] + TakenOf(db, k, p, t, rows[1..])
  }

  function Present(cells: seq<Cell>): seq<Cell> {
    if cells == [] then [] else (if cells[0].Null? then [] else [cells[0]]) + Present(cells[1..])
  }

  function Sum(cells: seq<Cell>): int {
    if cells == [] then 0 else (if cells[0].Num? then cells[0].n else 0) + Sum(cells[1..])
  }

  function Least(cells: seq<Cell>): Cell
    requires cells != []
  {
    if |cells| == 1 || Leq(cells[0], Least(cells[1..])) then cells[0] else Least(cells[1..])
  }

  function Greatest(cells: seq<Cell>): Cell
    requires cells != []
  {
    if |cells| == 1 || Leq(Greatest(cells[1..]), cells[0]) then cells[0] else Greatest(cells[1..])
  }

  /** An aggregate over the values it takes; NULLs are skipped, and SUM is
      coalesced to zero by the renderer. */
  function Aggregate(fn: Fn, cells: seq<Cell>): Cell {
    var present := Present(cells);
    match fn
    case Count => Num(|present|)
    case CountDistinct => Num(|set c | c in present|)
    case Sum => Num(Sum(present))
    case Min => if present == [] then Null else Least(present)
    case Max => if present == [] then Null else Greatest(present)
    case _ => if present == [] then Null else Num(Sum(present) / |present|)
  }

  /** The rows behind one row of the result: one row of a row-level projection,
      the rows of a group of a grouped one. */
  type Unit = seq<Joined>

  ghost function TakenOfUnits(db: Database, k: Chain, p: Projection, t: Term, units: seq<Unit>): seq<Cell> {
    if units == [] then []
    else
      var first := if p.grouped then [Aggregate(t.fn, TakenOf(db, k, p, t, units[0]))] else TakenOf(db, k, p, t, units[0]);
      first + TakenOfUnits(db, k, p, t, units[1..])
  }

  /** The answer of a term for the result row behind which here stands, a window
      reading the units of frame. Over groups a windowed aggregate applies to the
      per-group measure. */
  ghost function Answer(db: Database, k: Chain, p: Projection, t: Term, mark: Cell -> Cell, here: Unit, frame: seq<Unit>): Cell {
    if IsDerived(t, p.joins, p.derived) then
      if here == [] then Null else Get(RowOf(here[0], p.joins[p.derived[t.Alias()]].table), t.Alias())
    else match t.fn
      case Literal => Text("")
      case NoFn =>
        if here == [] then Null
        else if t.bucketed && !ColumnCell(p, t, here[0]).Null? then mark(ColumnCell(p, t, here[0]))
        else ColumnCell(p, t, here[0])
      case RowNumber | Rank | DenseRank => Num(|frame|)
      case Lag | Lead => if |frame| < 2 || frame[|frame| - 2] == [] then Null else ColumnCell(p, t, frame[|frame| - 2][0])
      case _ =>
        if t.IsWindowed() then Aggregate(t.fn, TakenOfUnits(db, k, p, t, frame)) else Aggregate(t.fn, TakenOf(db, k, p, t, here))
  }

  // ---- what is known of the rows ----

  /** What validation has checked of the terms and joins. */
  ghost predicate Validated(p: Projection) {
    p.main != "" && p.info.rename.None? &&
    (forall i :: 0 <= i < |p.joins| ==> p.joins[i].table != p.main && p.joins[i].table != "" && (p.joins[i].select.None? ==> p.joins[i].info.rename.None?)) &&
    (forall i, j :: 0 <= i < j < |p.joins| ==> p.joins[i].table != p.joins[j].table) &&
    (forall n :: 0 <= n < |p.terms| ==> ValidTerm(p, p.terms[n]))
  }

  ghost predicate ValidTerm(p: Projection, t: Term) {
    if IsDerived(t, p.joins, p.derived) then p.grouped ==> p.keys != [] else
    ((if t.column == "" then t.fn.Count? || t.fn.RowNumber? || t.fn.Rank? || t.fn.DenseRank? || t.fn.Literal? else Known(p, t)) &&
     (t.IsMeasure() && !t.IsWindowed() ==> p.grouped) &&
     (t.IsGroupKey() && !t.bucketed ==> p.grouped) && (t.IsGroupKey() && p.grouped ==> p.keys != []) &&
     (t.IsPlain() ==> !p.grouped) && (IsWindowFn(t.fn) ==> t.IsWindowed()) &&
     (p.grouped && t.IsWindowed() ==> !t.fn.Avg? && !t.fn.Lag? && !t.fn.Lead? && !t.fn.CountDistinct?))
  }

  /** A row the select reads: its tables honour the schema, a joined select's row
      the aliases the select answers for, and WHERE accepts it. */
  ghost predicate Legal(db: Database, k: Chain, p: Projection, j: Joined) {
    Accepts(db, k, p, p.filters, j) &&
    HonoursNotNull(p, p.main, RowOf(j, p.main)) &&
    forall i :: 0 <= i < |p.joins| ==> LegalJoined(p, p.joins[i], RowOf(j, p.joins[i].table))
  }

  predicate HonoursNotNull(p: Projection, table: string, row: Row) {
    table in p.notNull ==> forall c :: c in p.notNull[table] ==> !Get(row, c).Null?
  }

  ghost predicate LegalJoined(p: Projection, join: Join, row: Row) {
    (join.left && row == map[]) ||
    (if join.select.None? then HonoursNotNull(p, join.table, row)
     else HonoursAliases(join.select.value, row))
  }

  predicate HonoursAliases(info: DerivedInfo, row: Row) {
    forall n :: 0 <= n < |info.terms| && info.terms[n].Alias() !in info.nullable ==> !Get(row, info.terms[n].Alias()).Null?
  }

  /** A result row and the frame its windows read: legal rows throughout, a unit
      empty only where the projection is one group whatever the filters match,
      and the current row within its frame. */
  ghost predicate LegalUnit(db: Database, k: Chain, p: Projection, u: Unit) {
    (forall i :: 0 <= i < |u| ==> Legal(db, k, p, u[i])) && (u == [] ==> p.grouped && p.keys == [])
  }

  ghost predicate LegalResult(db: Database, k: Chain, p: Projection, here: Unit, frame: seq<Unit>) {
    LegalUnit(db, k, p, here) && here in frame && forall i :: 0 <= i < |frame| ==> LegalUnit(db, k, p, frame[i])
  }

  /** The term the keyless rule lets through: a window over the single group of a
      projection without keys, which is empty when the filters match no row. */
  predicate KeylessWindow(p: Projection, t: Term) {
    p.grouped && p.keys == [] && t.IsWindowed() && Extreme(t.fn) && !IsDerived(t, p.joins, p.derived)
  }

  function Proven(p: Projection): set<(string, string)> { ProvenBy(Conjuncts(p.filters), p.main) }

  // ---- columns kept not NULL ----

  /** A filter that is true of a row, IS NULL apart, reads a value there. */
  lemma TrueReadsValue(db: Database, k: Chain, f: Filter, scope: Scope, site: Site)
    requires Meaning(db, k, f, scope, site, NoGuess) == True && KeepsNullOut(f)
    ensures Applies(k, f, scope) && !OwnCell(f, scope, site).Null?
  {
    assert Applies(k, f, scope);
    if f.op.In? || f.op.NotIn? { NullIsNoMember(Members(f.value)); }
  }

  lemma {:induction false} JoinInfo(main: string, info: TableInfo, joins: seq<Join>, n: nat, i: nat)
    requires i < n <= |joins| && forall a, b :: 0 <= a < b < |joins| ==> joins[a].table != joins[b].table
    ensures joins[i].table in InfoBefore(main, info, joins, n) && InfoBefore(main, info, joins, n)[joins[i].table] == joins[i].info
  {
    if i < n - 1 { JoinInfo(main, info, joins, n - 1, i); }
  }

  lemma ProvenColumnIsNotNull(db: Database, k: Chain, p: Projection, t: Term, j: Joined)
    requires Validated(p) && Accepts(db, k, p, p.filters, j) && Known(p, t)
    requires ColumnKey(p.main, t.table, t.column) in Proven(p)
    ensures !ColumnCell(p, t, j).Null?
  {
    var fs, scope, site := Conjuncts(p.filters), WhereScope(p), Site(RowOf(j, p.main), j, None);
    var i :| 0 <= i < |fs| && KeepsNullOut(fs[i]) && ColumnKey(p.main, fs[i].table, fs[i].column) == ColumnKey(p.main, t.table, t.column);
    var f := fs[i];
    ConjunctsHold(db, k, p.filters, scope, site, f);
    TrueReadsValue(db, k, f, scope, site);
    if TableOf(t, p.main) != p.main {
      var m :| 0 <= m < |p.joins| && p.joins[m].table == t.table && p.joins[m].select.None?;
      JoinInfo(p.main, p.info, p.joins, |p.joins|, m);
    }
  }

  /** A column of the queried model, or of a model joined with JOIN, that is not
      flagged as a plain column holds a value in every row read. */
  lemma UnflaggedColumnIsNotNull(db: Database, k: Chain, p: Projection, t: Term, j: Joined)
    requires Validated(p) && Legal(db, k, p, j) && Known(p, t) && !LeftJoined(p, t.table)
    requires !(NullableColumn(p, t) && ColumnKey(p.main, t.table, t.column) !in Proven(p))
    ensures !ColumnCell(p, t, j).Null?
  {
    if ColumnKey(p.main, t.table, t.column) in Proven(p) {
      ProvenColumnIsNotNull(db, k, p, t, j);
    } else if TableOf(t, p.main) != p.main {
      var m :| 0 <= m < |p.joins| && p.joins[m].table == t.table && p.joins[m].select.None?;
      assert LegalJoined(p, p.joins[m], RowOf(j, p.joins[m].table));
    }
  }

  // ---- aggregates ----

  lemma {:induction false} PresentSome(cells: seq<Cell>, i: nat)
    requires i < |cells| && !cells[i].Null?
    ensures Present(cells) != []
  {
    if i > 0 { PresentSome(cells[1..], i - 1); }
  }

  lemma {:induction false} PresentOnly(cells: seq<Cell>)
    ensures forall c :: c in Present(cells) ==> !c.Null?
  {
    if cells != [] { PresentOnly(cells[1..]); }
  }

  lemma {:induction false} ExtremesAreMembers(cells: seq<Cell>)
    requires cells != []
    ensures Least(cells) in cells && Greatest(cells) in cells
  {
    if |cells| > 1 { ExtremesAreMembers(cells[1..]); }
  }

  /** An aggregate answers a value over any list holding one, and the counts and
      SUM over any list at all. */
  lemma AggregateIsNotNull(fn: Fn, cells: seq<Cell>)
    requires IsAggregate(fn)
    ensures Aggregate(fn, cells).Null? <==> Extreme(fn) && Present(cells) == []
  {
    PresentOnly(cells);
    if Present(cells) != [] { ExtremesAreMembers(Present(cells)); }
  }

  lemma {:induction false} TakenAt(db: Database, k: Chain, p: Projection, t: Term, rows: seq<Joined>, i: nat)
    requires i < |rows|
    ensures |TakenOf(db, k, p, t, rows)| == |rows| && TakenOf(db, k, p, t, rows)[i] == Taken(db, k, p, t, rows[i])
  {
    if i > 0 {
      TakenAt(db, k, p, t, rows[1..], i - 1);
    } else if |rows| > 1 {
      TakenAt(db, k, p, t, rows[1..], 0);
    }
  }

  lemma {:induction false} UnitsHoldTaken(db: Database, k: Chain, p: Projection, t: Term, units: seq<Unit>, u: nat)
    requires u < |units| && Extreme(t.fn) && Present(TakenOf(db, k, p, t, units[u])) != []
    ensures Present(TakenOfUnits(db, k, p, t, units)) != []
  {
    var rest := TakenOfUnits(db, k, p, t, units[1..]);
    var first := if p.grouped then [Aggregate(t.fn, TakenOf(db, k, p, t, units[0]))] else TakenOf(db, k, p, t, units[0]);
    assert TakenOfUnits(db, k, p, t, units) == first + rest;
    PresentAppend(first, rest);
    if u > 0 {
      UnitsHoldTaken(db, k, p, t, units[1..], u - 1);
    } else if p.grouped {
      AggregateIsNotNull(t.fn, TakenOf(db, k, p, t, units[0]));
      PresentSome(first, 0);
    }
  }

  lemma {:induction false} PresentAppend(a: seq<Cell>, b: seq<Cell>)
    ensures Present(a + b) == Present(a) + Present(b)
  {
    if a == [] {
      assert a + b == b;
    } else {
      assert (a + b)[1..] == a[1..] + b;
      PresentAppend(a[1..], b);
    }
  }

  // ---- the theorem ----

  lemma UnflaggedExtremeTakesValue(db: Database, k: Chain, p: Projection, t: Term, j: Joined)
    requires Validated(p) && Legal(db, k, p, j) && ValidTerm(p, t) && Extreme(t.fn)
    requires !IsDerived(t, p.joins, p.derived) && !Flagged(p, Proven(p), t)
    ensures !Taken(db, k, p, t, j).Null?
  {
    UnflaggedColumnIsNotNull(db, k, p, t, j);
  }

  /** Nullability is sound: an alias that is not flagged is NULL in no row of the
      result, through joins, conditions, groups and windows, for every frame that
      holds the current row; the keyless window aside. */
  lemma UnflaggedIsNeverNull(db: Database, k: Chain, p: Projection, t: Term, mark: Cell -> Cell, here: Unit, frame: seq<Unit>)
    requires Validated(p) && t in p.terms && (forall c: Cell :: !c.Null? ==> !mark(c).Null?)
    requires LegalResult(db, k, p, here, frame)
    requires !Flagged(p, Proven(p), t) && !KeylessWindow(p, t)
    ensures !Answer(db, k, p, t, mark, here, frame).Null?
  {
    assert ValidTerm(p, t);
    if IsDerived(t, p.joins, p.derived) {
      DerivedIsNotNull(db, k, p, t, here[0]);
    } else if t.fn.NoFn? {
      UnflaggedColumnIsNotNull(db, k, p, t, here[0]);
    } else if IsAggregate(t.fn) {
      AggregateIsNotNull(t.fn, TakenOf(db, k, p, t, here));
      AggregateIsNotNull(t.fn, TakenOfUnits(db, k, p, t, frame));
      if Extreme(t.fn) {
        UnflaggedExtremeTakesValue(db, k, p, t, here[0]);
        TakenAt(db, k, p, t, here, 0);
        PresentSome(TakenOf(db, k, p, t, here), 0);
        var u :| 0 <= u < |frame| && frame[u] == here;
        UnitsHoldTaken(db, k, p, t, frame, u);
      }
    }
  }

  lemma DerivedIsNotNull(db: Database, k: Chain, p: Projection, t: Term, j: Joined)
    requires Legal(db, k, p, j) && IsDerived(t, p.joins, p.derived) && !Flagged(p, Proven(p), t)
    ensures !Get(RowOf(j, p.joins[p.derived[t.Alias()]].table), t.Alias()).Null?
  {
    var join := p.joins[p.derived[t.Alias()]];
    assert LegalJoined(p, join, RowOf(j, join.table));
    var terms := join.select.value.terms;
    var n :| 0 <= n < |terms| && terms[n].Named() == t.Named();
    assert terms[n].Alias() == t.Alias();
  }

  /** The keyless window the code does not flag is NULL where the filters match no
      row, whatever else is known of its column. */
  lemma KeylessWindowIsNull(db: Database, k: Chain, p: Projection, t: Term, mark: Cell -> Cell)
    requires KeylessWindow(p, t)
    ensures LegalResult(db, k, p, [], [[]]) && Answer(db, k, p, t, mark, [], [[]]).Null?
  {
    var frame: seq<Unit> := [[]];
    assert frame[1..] == [] && frame[0] == [] && frame[0] in frame;
    assert TakenOfUnits(db, k, p, t, frame) == [Aggregate(t.fn, [])];
    assert Present([Aggregate(t.fn, [])]) == [];
  }

  /** Exactly when the result type of an unflagged alias is safe: for every
      database, row and frame the answer holds a value, if and only if the term
      is no window over a keyless group. */
  lemma UnflaggedIsSafeExactly(k: Chain, p: Projection, t: Term, mark: Cell -> Cell)
    requires Validated(p) && t in p.terms && (forall c: Cell :: !c.Null? ==> !mark(c).Null?)
    requires !Flagged(p, Proven(p), t) && !IsDerived(t, p.joins, p.derived)
    ensures !KeylessWindow(p, t) <==>
      forall db, here, frame :: LegalResult(db, k, p, here, frame) ==> !Answer(db, k, p, t, mark, here, frame).Null?
  {
    if KeylessWindow(p, t) {
      var db := Database(map[], (s, e) => false, (c, s) => false);
      KeylessWindowIsNull(db, k, p, t, mark);
    } else {
      forall db, here, frame | LegalResult(db, k, p, here, frame) ensures !Answer(db, k, p, t, mark, here, frame).Null? {
        UnflaggedIsNeverNull(db, k, p, t, mark, here, frame);
      }
    }
  }
}
