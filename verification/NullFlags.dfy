/** Nothing is flagged for nothing: where no condition restricts the rows, every alias
    flagged is NULL in some row of some database that honours the schema. */
module NullFlags {
  import opened Sql
  import opened Filters
  import opened FilterMeaning
  import opened Terms
  import opened Joins
  import opened JoinProof
  import opened DerivedKeys
  import opened Nullability
  import opened NullProof

  /** A row of a table holding a value only where the schema asks for one. */
  function Barest(p: Projection, table: string): Row {
    if table in p.notNull then map c | c in p.notNull[table] :: Num(1) else map[]
  }

  function ValuesOf(info: DerivedInfo): Row {
    map n | 0 <= n < |info.terms| && info.terms[n].Alias() !in info.nullable :: info.terms[n].Alias() := Num(1)
  }

  function BarestJoined(p: Projection, join: Join): Row {
    if join.left then map[]
    else if join.select.None? then Barest(p, join.table)
    else ValuesOf(join.select.value)
  }

  /** A row of the query holding no value that could be missing. */
  function BarestRow(p: Projection, n: nat): Joined
    requires n <= |p.joins|
  {
    if n == 0 then map[p.main := Barest(p, p.main)] else BarestRow(p, n - 1)[p.joins[n - 1].table := BarestJoined(p, p.joins[n - 1])]
  }

  lemma {:induction false} BarestRowHas(p: Projection, n: nat)
    requires Validated(p) && n <= |p.joins|
    ensures RowOf(BarestRow(p, n), p.main) == Barest(p, p.main)
    ensures forall i :: 0 <= i < n ==> RowOf(BarestRow(p, n), p.joins[i].table) == BarestJoined(p, p.joins[i])
  {
    if n > 0 { BarestRowHas(p, n - 1); }
  }

  lemma BarestRowIsLegal(db: Database, k: Chain, p: Projection)
    requires Validated(p) && p.filters == []
    ensures Legal(db, k, p, BarestRow(p, |p.joins|))
  {
    BarestRowHas(p, |p.joins|);
    var j := BarestRow(p, |p.joins|);
    forall i | 0 <= i < |p.joins| ensures LegalJoined(p, p.joins[i], RowOf(j, p.joins[i].table)) {}
  }

  /** The own column of a flagged term is missing from the barest row. */
  lemma FlaggedColumnIsMissing(p: Projection, t: Term)
    requires Validated(p) && !IsDerived(t, p.joins, p.derived) && (LeftJoined(p, t.table) || (Known(p, t) && NullableColumn(p, t)))
    ensures ColumnCell(p, t, BarestRow(p, |p.joins|)).Null?
  {
    BarestRowHas(p, |p.joins|);
    if LeftJoined(p, t.table) {
      var i :| 0 <= i < |p.joins| && p.joins[i].table == t.table && p.joins[i].left;
      assert TableOf(t, p.main) == t.table;
    } else if t.table != "" && t.table != p.main {
      var i :| 0 <= i < |p.joins| && p.joins[i].table == t.table && p.joins[i].select.None? && p.joins[i].info.Has(t.column);
      assert TableOf(t, p.main) == t.table;
    }
  }

  lemma FlaggedDerivedIsMissing(p: Projection, t: Term)
    requires Validated(p) && IsDerived(t, p.joins, p.derived) && Flagged(p, {}, t)
    ensures Get(RowOf(BarestRow(p, |p.joins|), p.joins[p.derived[t.Alias()]].table), t.Alias()).Null?
  {
    BarestRowHas(p, |p.joins|);
  }

  lemma OneIsMissing(db: Database, k: Chain, p: Projection, t: Term, j: Joined)
    requires t.conditions == [] && t.column != "" && ColumnCell(p, t, j).Null? && Extreme(t.fn)
    ensures Aggregate(t.fn, TakenOf(db, k, p, t, [j])).Null? && Aggregate(t.fn, TakenOfUnits(db, k, p, t, [[j]])).Null?
  {
    var rows, units := [j], [[j]];
    assert rows[0] == j && rows[1..] == [] && units[0] == rows && units[1..] == [];
    assert Taken(db, k, p, t, j) == Null;
    var one := TakenOf(db, k, p, t, rows);
    assert TakenOf(db, k, p, t, rows[1..]) == [];
    assert one == [Null] && one[1..] == [];
    assert Present(one) == [];
    assert TakenOfUnits(db, k, p, t, units[1..]) == [];
    assert TakenOfUnits(db, k, p, t, [[j]]) == [Null];
  }

  /** A term whose conditions are none, over rows nothing filters, is flagged only if it
      can be NULL. The functions without a column name no table. */
  lemma FlaggedCanBeNull(db: Database, k: Chain, p: Projection, t: Term, mark: Cell -> Cell)
    requires Validated(p) && t in p.terms && p.filters == [] && t.conditions == [] && Flagged(p, {}, t)
    requires t.fn.RowNumber? || t.fn.Rank? || t.fn.DenseRank? || t.fn.Literal? ==> t.table == ""
    ensures exists here, frame :: LegalResult(db, k, p, here, frame) && Answer(db, k, p, t, mark, here, frame).Null?
  {
    assert ValidTerm(p, t);
    var j := BarestRow(p, |p.joins|);
    BarestRowIsLegal(db, k, p);
    assert [[j]][0] == [j] && [j][0] == j;
    assert LegalResult(db, k, p, [j], [[j]]);
    if IsDerived(t, p.joins, p.derived) {
      FlaggedDerivedIsMissing(p, t);
    } else if Extreme(t.fn) && p.keys == [] && !t.IsWindowed() {
      var none: Unit, frame: seq<Unit> := [], [[]];
      assert frame[0] == none;
      assert LegalResult(db, k, p, none, frame) && Answer(db, k, p, t, mark, none, frame).Null?;
      return;
    } else if !t.fn.Lag? && !t.fn.Lead? {
      FlaggedColumnIsMissing(p, t);
      if Extreme(t.fn) { OneIsMissing(db, k, p, t, j); }
    }
    assert Answer(db, k, p, t, mark, [j], [[j]]).Null?;
  }

  /** Where nothing restricts the rows, a term other than the keyless window is flagged
      exactly if it can be NULL. */
  lemma FlaggedExactly(k: Chain, p: Projection, t: Term, mark: Cell -> Cell)
    requires Validated(p) && t in p.terms && p.filters == [] && t.conditions == [] && !KeylessWindow(p, t)
    requires t.fn.RowNumber? || t.fn.Rank? || t.fn.DenseRank? || t.fn.Literal? ==> t.table == ""
    requires forall c: Cell :: !c.Null? ==> !mark(c).Null?
    ensures Flagged(p, Proven(p), t) <==>
      exists db, here, frame :: LegalResult(db, k, p, here, frame) && Answer(db, k, p, t, mark, here, frame).Null?
  {
    assert Proven(p) == {};
    if Flagged(p, Proven(p), t) {
      FlaggedCanBeNull(Database(map[], (s, e) => false, (c, s) => false), k, p, t, mark);
    } else {
      forall db, here, frame | LegalResult(db, k, p, here, frame) ensures !Answer(db, k, p, t, mark, here, frame).Null? {
        UnflaggedIsNeverNull(db, k, p, t, mark, here, frame);
      }
    }
  }

  // ---- columns of the queried model ----

  /** Some filter of a list is about this column of the table and true of no row where it
      is NULL; inside an AND group counts, inside an OR group or a subquery does not. */
  ghost predicate Requires(filters: seq<Filter>, tables: set<string>, column: string) {
    exists f :: f in Conjuncts(filters) && RequiresOf(f, tables, column)
  }

  predicate RequiresOf(f: Filter, tables: set<string>, column: string) {
    f.table in tables && f.column == column && column != "" &&
    !f.op.Or? && !f.op.Exists? && !f.op.Nothing? && (f.op.IsNull? ==> f.value == Scalar(Flag(false)))
  }

  lemma {:induction false} ConjunctsAreNoGroups(filters: seq<Filter>)
    ensures forall f :: f in Conjuncts(filters) ==> !f.op.And?
    decreases filters, 0
  {
    if filters != [] {
      ConjunctsAreNoGroups(filters[1..]);
      if filters[0].op.And? && filters[0].value.Group? { ConjunctsAreNoGroups(filters[0].value.filters); }
    }
  }

  lemma ProvenIsRequired(filters: seq<Filter>, main: string, table: string, column: string)
    requires main != "" && table != "" && column != ""
    ensures (table, column) in ProvenBy(Conjuncts(filters), main) <==> Requires(filters, if table == main then {"", main} else {table}, column)
  {
    var fs, tables := Conjuncts(filters), if table == main then {"", main} else {table};
    ConjunctsAreNoGroups(filters);
    if (table, column) in ProvenBy(fs, main) {
      var i :| 0 <= i < |fs| && KeepsNullOut(fs[i]) && ColumnKey(main, fs[i].table, fs[i].column) == (table, column);
      assert fs[i] in fs && RequiresOf(fs[i], tables, column);
    }
    if f :| f in fs && RequiresOf(f, tables, column) {
      var i :| 0 <= i < |fs| && fs[i] == f;
      assert KeepsNullOut(fs[i]) && ColumnKey(main, fs[i].table, fs[i].column) == (table, column);
    }
  }

  /** A column of the queried model read as it is comes back flagged exactly when the
      schema lets it be NULL and no filter AND-ed at the top requires a value of it,
      whether the term and the filter name the model's table or leave it out. */
  lemma OwnColumnIsFlaggedExactly(p: Projection, t: Term)
    requires t.fn.NoFn? && t.table in {"", p.main} && t.column != "" && p.main != "" && p.info.Has(t.column)
    requires !IsDerived(t, p.joins, p.derived) && forall i :: 0 <= i < |p.joins| ==> p.joins[i].table !in {"", p.main}
    ensures Flagged(p, Proven(p), t) <==>
      (p.main !in p.notNull || t.column !in p.notNull[p.main]) && !Requires(p.filters, {"", p.main}, t.column)
  {
    ProvenIsRequired(p.filters, p.main, p.main, t.column);
  }

  /** The same of a column of a model joined by an inner join, which both name by its
      table. */
  lemma JoinedColumnIsFlaggedExactly(p: Projection, t: Term, i: nat)
    requires t.fn.NoFn? && t.column != "" && i < |p.joins| && t.table == p.joins[i].table && p.joins[i].select.None? && !p.joins[i].left
    requires p.joins[i].info.Has(t.column) && !IsDerived(t, p.joins, p.derived) && t.table !in {"", p.main} && p.main != ""
    requires forall j :: 0 <= j < |p.joins| && j != i ==> p.joins[j].table != t.table
    ensures Flagged(p, Proven(p), t) <==>
      (t.table !in p.notNull || t.column !in p.notNull[t.table]) && !Requires(p.filters, {t.table}, t.column)
  {
    ProvenIsRequired(p.filters, p.main, t.table, t.column);
  }

  /** A column the query cannot look up, as a joined select's, is taken as it comes: read
      plainly it is not flagged, and an extreme over it is. */
  lemma UnknownColumnIsFlagged(p: Projection, proven: set<(string, string)>, t: Term)
    requires !Known(p, t) && !IsDerived(t, p.joins, p.derived) && !LeftJoined(p, t.table) && !t.fn.Lag? && !t.fn.Lead?
    ensures Flagged(p, proven, t) <==> t.fn in {Avg, Min, Max}
  {
  }
}
