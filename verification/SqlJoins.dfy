/** Joins as the SQL spells them: every ON rendered, its columns found by name in the
    rows read so far. The rows are those the meaning of the ONs reads, so the rendered
    statement repeats no row either. */
module SqlJoins {
  import opened Sql
  import opened Filters
  import opened FilterMeaning
  import opened Terms
  import opened Joins
  import opened JoinShape
  import opened JoinProof
  import opened DerivedKeys
  import opened DerivedProof

  /** The name a table is read under. */
  function NameOf(table: string, info: TableInfo): string { TableColumn(table, info, "").qualify }

  /** The tables read so far have names of their own. */
  ghost predicate NamedApart(before: map<string, TableInfo>) {
    "" !in before && (forall t :: t in before ==> NameOf(t, before[t]) != "") &&
    forall t, u :: t in before && u in before && NameOf(t, before[t]) == NameOf(u, before[u]) ==> t == u
  }

  function NamesOf(before: map<string, TableInfo>, joined: Joined): set<string> {
    set t | t in joined && t in before :: NameOf(t, before[t])
  }

  /** A row of the query as the SQL sees it: the row of every table, by name. */
  ghost function ByName(before: map<string, TableInfo>, joined: Joined): map<string, Row> {
    map n | n in NamesOf(before, joined) ::
      (var t :| t in joined && t in before && NameOf(t, before[t]) == n; joined[t])
  }

  /** The joined source is read under its alias, a model's being its table, and no
      other source under that name. */
  ghost predicate Aliased(join: Join, before: map<string, TableInfo>) {
    (join.select.None? ==> join.alias == join.table) && join.alias == NameOf(join.table, join.info) && NamedApart(before[join.table := join.info])
  }

  predicate Renders(k: Chain, join: Join, before: map<string, TableInfo>) {
    Combine(RenderEach(k, join.on, JoinScope(join, before)), false).1.None? && join.on != []
  }

  ghost predicate SqlHolds(db: Database, k: Chain, join: Join, before: map<string, TableInfo>, joined: Joined, row: Row) {
    var (pred, failure) := Combine(RenderEach(k, join.on, JoinScope(join, before)), false);
    pred.Some? && Eval(db, pred.value, [ByName(before, joined)[join.alias := row]]) == True
  }

  lemma NamesAreRead(join: Join, before: map<string, TableInfo>, joined: Joined, row: Row)
    requires Aliased(join, before) && join.table !in before && joined.Keys == before.Keys
    ensures Reads(JoinScope(join, before), Site(row, joined, None), [ByName(before, joined)[join.alias := row]])
  {
    var after := before[join.table := join.info];
    assert after[join.table] == join.info;
    forall t | t in before
      ensures t != "" && NameOf(t, before[t]) != join.alias
      ensures NameOf(t, before[t]) in ByName(before, joined) && ByName(before, joined)[NameOf(t, before[t])] == joined[t]
    {
      assert after[t] == before[t];
      forall u | u in before && NameOf(u, before[u]) == NameOf(t, before[t]) ensures u == t { assert after[u] == before[u]; }
    }
  }

  lemma SqlMeansOn(db: Database, k: Chain, join: Join, before: map<string, TableInfo>, joined: Joined, row: Row)
    requires Aliased(join, before) && join.table !in before && joined.Keys == before.Keys && Renders(k, join, before)
    ensures SqlHolds(db, k, join, before, joined, row) <==> OnHolds(db, k, join, before, joined, row)
  {
    NamesAreRead(join, before, joined, row);
    OnIsRendered(db, k, join, before, joined, row, [ByName(before, joined)[join.alias := row]]);
  }

  // ---- the statement's joins ----

  ghost function SqlMatching(db: Database, k: Chain, join: Join, before: map<string, TableInfo>, joined: Joined, rows: seq<Row>): seq<Row> {
    if rows == [] then []
    else (if SqlHolds(db, k, join, before, joined, rows[0]) then [rows[0]] else []) + SqlMatching(db, k, join, before, joined, rows[1..])
  }

  ghost function SqlJoinOne(db: Database, k: Chain, join: Join, before: map<string, TableInfo>, joined: Joined, contents: Contents): seq<Joined> {
    var rows := SqlMatching(db, k, join, before, joined, RowsOf(contents, join.table));
    if rows == [] && join.left then [joined[join.table := map[]]] else Extend(joined, join.table, rows)
  }

  ghost function SqlJoinEach(db: Database, k: Chain, join: Join, before: map<string, TableInfo>, rows: seq<Joined>, contents: Contents): seq<Joined> {
    if rows == [] then [] else SqlJoinOne(db, k, join, before, rows[0], contents) + SqlJoinEach(db, k, join, before, rows[1..], contents)
  }

  ghost function SqlChain(db: Database, k: Chain, joins: seq<Join>, before: map<string, TableInfo>, rows: seq<Joined>, contents: Contents): seq<Joined>
    decreases |joins|
  {
    if joins == [] then rows
    else SqlChain(db, k, joins[1..], before[joins[0].table := joins[0].info], SqlJoinEach(db, k, joins[0], before, rows, contents), contents)
  }

  /** What a built statement has checked of its joins, one after the other. */
  ghost predicate Built(k: Chain, joins: seq<Join>, before: map<string, TableInfo>)
    decreases |joins|
  {
    joins == [] ||
    (joins[0].table !in before && Aliased(joins[0], before) && Renders(k, joins[0], before) &&
     Built(k, joins[1..], before[joins[0].table := joins[0].info]))
  }

  lemma {:induction false} MatchingIsSql(db: Database, k: Chain, join: Join, before: map<string, TableInfo>, joined: Joined, rows: seq<Row>)
    requires Aliased(join, before) && join.table !in before && joined.Keys == before.Keys && Renders(k, join, before)
    ensures SqlMatching(db, k, join, before, joined, rows) == Matching(db, k, join, before, joined, rows)
  {
    if rows != [] {
      SqlMeansOn(db, k, join, before, joined, rows[0]);
      MatchingIsSql(db, k, join, before, joined, rows[1..]);
    }
  }

  lemma {:induction false} JoinEachIsSql(db: Database, k: Chain, join: Join, before: map<string, TableInfo>, rows: seq<Joined>, contents: Contents)
    requires Aliased(join, before) && join.table !in before && FullRows(rows, before.Keys) && Renders(k, join, before)
    ensures SqlJoinEach(db, k, join, before, rows, contents) == JoinEach(db, k, join, before, rows, contents)
  {
    if rows != [] {
      MatchingIsSql(db, k, join, before, rows[0], RowsOf(contents, join.table));
      assert SqlJoinOne(db, k, join, before, rows[0], contents) == JoinOne(db, k, join, before, rows[0], contents);
      JoinEachIsSql(db, k, join, before, rows[1..], contents);
    }
  }

  lemma {:induction false} ChainIsSql(db: Database, k: Chain, joins: seq<Join>, before: map<string, TableInfo>, rows: seq<Joined>, contents: Contents)
    requires Built(k, joins, before) && FullRows(rows, before.Keys)
    ensures SqlChain(db, k, joins, before, rows, contents) == JoinChain(db, k, joins, before, rows, contents)
    decreases |joins|
  {
    if joins != [] {
      JoinEachIsSql(db, k, joins[0], before, rows, contents);
      SourcesAreFull(db, k, joins[0], before, rows, contents);
      var after := before[joins[0].table := joins[0].info];
      assert after.Keys == before.Keys + {joins[0].table};
      ChainIsSql(db, k, joins[1..], after, JoinEach(db, k, joins[0], before, rows, contents), contents);
    }
  }

  /** The rendered statement repeats no row of the query: its main rows are the rows
      that survive the joins, each once and in order, all of them through LEFT JOINs. */
  lemma SqlRepeatsNoRow(db: Database, k: Chain, main: string, info: TableInfo, joins: seq<Join>, rows: seq<Row>, contents: Contents)
    requires Resolved(main, joins) && Honours(contents, joins) && Built(k, joins, map[main := info])
    ensures
      var read := MainRows(main, SqlChain(db, k, joins, map[main := info], Started(main, rows), contents));
      read == Survivors(db, k, main, info, joins, rows, contents) && ((forall i :: 0 <= i < |joins| ==> joins[i].left) ==> read == rows)
  {
    forall i | 0 <= i < |rows| ensures Started(main, rows)[i].Keys == {main} { StartedAt(main, rows, i); }
    ChainIsSql(db, k, joins, map[main := info], Started(main, rows), contents);
    JoinsRepeatNoRow(db, k, main, info, joins, rows, contents);
  }
}
