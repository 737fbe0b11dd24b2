/** Joins on selects that join selects, to any depth: a joined select's rows are unique on
    the keys it exports because its own joins repeat no row, so only the keys the models
    declare are taken on trust. */
module GroupTower {
  import opened Sql
  import opened Filters
  import opened FilterMeaning
  import opened Terms
  import opened Joins
  import opened JoinShape
  import opened JoinProof
  import opened GroupTheorem

  /** A grouped select and, for each source it joins, the select it reads, None for a
      model. */
  datatype Nested = Nested(g: Grouping, under: seq<Option<Nested>>)

  function Exported(g: Grouping): seq<Term> { OwnKeys(g, |g.keys|) }

  /** describe and resolveSelectJoin, at every level: a joined select is validated, and
      joined on the keys it exports, each under its alias. */
  ghost predicate Described(n: Nested)
    decreases n
  {
    |n.under| == |n.g.joins| &&
    forall i :: 0 <= i < |n.under| ==>
      (n.under[i].Some? <==> n.g.joins[i].select.Some?) && (n.under[i].Some? ==> Described(n.under[i].value) && Exports(n.under[i].value.g, n.g.joins[i]))
  }

  ghost predicate Exports(g: Grouping, join: Join) {
    Accepted(g) && LeftJoinsReadKeys(g) && join.keys == [KeyColumns(Exported(g))] &&
    forall m :: 0 <= m < |Exported(g)| ==> join.info.ColumnName(Exported(g)[m].column) == Exported(g)[m].Alias()
  }

  /** What the sources offer: a model rows honouring the keys it declares, a select rows
      it answers. */
  ghost predicate Offered(db: Database, k: Chain, n: Nested, mark: Labels, contents: Contents)
    decreases n, 0
  {
    |n.under| == |n.g.joins| &&
    forall i :: 0 <= i < |n.under| ==>
      if n.under[i].Some? then AnswersGroups(db, k, n.under[i].value, mark, RowsOf(contents, n.g.joins[i].table))
      else forall m :: 0 <= m < |n.g.joins[i].keys| ==>
        UniqueOn(RowsOf(contents, n.g.joins[i].table), Renamed(n.g.joins[i].info, n.g.joins[i].keys[m]))
  }

  /** Groups the select answers over some rows of its model and some contents of its own
      sources. */
  ghost predicate AnswersGroups(db: Database, k: Chain, n: Nested, mark: Labels, groups: seq<Row>)
    decreases n, 1
  {
    exists rows, contents, of ::
      Offered(db, k, n, mark, contents) && IsGrouping(n.g, mark, ReadRows(db, k, n.g.main, n.g.info, n.g.joins, rows, contents), groups, of)
  }

  lemma ExportedIsRenamed(g: Grouping, join: Join)
    requires Exports(g, join)
    ensures Renamed(join.info, join.keys[0]) == Aliases(Exported(g))
  {
  }

  /** At every depth the sources honour their keys. */
  lemma {:induction false} OfferedHonours(db: Database, k: Chain, n: Nested, mark: Labels, contents: Contents)
    requires Described(n) && Offered(db, k, n, mark, contents)
    ensures Honours(contents, n.g.joins)
    decreases n, 0
  {
    forall i, m | 0 <= i < |n.g.joins| && 0 <= m < |n.g.joins[i].keys|
      ensures UniqueOn(RowsOf(contents, n.g.joins[i].table), Renamed(n.g.joins[i].info, n.g.joins[i].keys[m]))
    {
      if n.under[i].Some? {
        AnswersAreUnique(db, k, n.under[i].value, mark, RowsOf(contents, n.g.joins[i].table));
        ExportedIsRenamed(n.under[i].value.g, n.g.joins[i]);
      }
    }
  }

  lemma {:induction false} AnswersAreUnique(db: Database, k: Chain, n: Nested, mark: Labels, groups: seq<Row>)
    requires Described(n) && Accepted(n.g) && LeftJoinsReadKeys(n.g) && AnswersGroups(db, k, n, mark, groups)
    ensures UniqueOn(groups, Aliases(Exported(n.g)))
    decreases n, 1
  {
    var rows, contents, of :|
      Offered(db, k, n, mark, contents) && IsGrouping(n.g, mark, ReadRows(db, k, n.g.main, n.g.info, n.g.joins, rows, contents), groups, of);
    OfferedHonours(db, k, n, mark, contents);
    DerivedTableHonoursItsKey(db, k, n.g, mark, rows, contents, groups, of);
  }

  /** A select over selects over selects repeats no row of its model, whatever the models
      hold that honours the keys they declare. */
  lemma TowerRepeatsNoRow(db: Database, k: Chain, n: Nested, mark: Labels, rows: seq<Row>, contents: Contents)
    requires Resolved(n.g.main, n.g.joins) && Described(n) && Offered(db, k, n, mark, contents)
    ensures
      var read := MainRows(n.g.main, ReadRows(db, k, n.g.main, n.g.info, n.g.joins, rows, contents));
      read == Survivors(db, k, n.g.main, n.g.info, n.g.joins, rows, contents) &&
      ((forall i :: 0 <= i < |n.g.joins| ==> n.g.joins[i].left) ==> read == rows)
  {
    OfferedHonours(db, k, n, mark, contents);
    JoinsRepeatNoRow(db, k, n.g.main, n.g.info, n.g.joins, rows, contents);
  }
}
