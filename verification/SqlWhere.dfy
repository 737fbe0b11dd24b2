/** The WHERE of a joining select as the SQL spells it, its columns found by name in the
    rows read: with the rendered joins it keeps the rows the filters mean, so what is
    proved of those is true of the statement. */
module SqlWhere {
  import opened Sql
  import opened Filters
  import opened FilterMeaning
  import opened Terms
  import opened JoinShape
  import opened JoinProof
  import opened DerivedProof
  import opened Nullability
  import opened NullProof
  import opened SqlJoins
  import opened SelectRead

  function AllInfo(p: Projection): map<string, TableInfo> { InfoBefore(p.main, p.info, p.joins, |p.joins|) }

  /** The queried model is read under its own name, and no source under another's. */
  ghost predicate WellNamed(p: Projection) {
    p.main != "" && p.info.qualify == "" && NamedApart(AllInfo(p)) && p.main in AllInfo(p) && AllInfo(p)[p.main] == p.info
  }

  predicate Rendered(k: Chain, p: Projection) {
    p.filters != [] && Combine(RenderEach(k, p.filters, WhereScope(p)), false).1.None?
  }

  ghost predicate SqlAccepts(db: Database, k: Chain, p: Projection, j: Joined) {
    var (pred, failure) := Combine(RenderEach(k, p.filters, WhereScope(p)), false);
    pred.Some? && Eval(db, pred.value, [ByName(AllInfo(p), j)]) == True
  }

  lemma NameIsRow(before: map<string, TableInfo>, j: Joined, t: string)
    requires NamedApart(before) && t in before && j.Keys == before.Keys
    ensures NameOf(t, before[t]) in ByName(before, j) && ByName(before, j)[NameOf(t, before[t])] == j[t]
  {
    assert NameOf(t, before[t]) in NamesOf(before, j);
  }

  lemma WhereNamesAreRead(p: Projection, j: Joined)
    requires WellNamed(p) && j.Keys == AllInfo(p).Keys
    ensures Reads(WhereScope(p), Site(RowOf(j, p.main), j, None), [ByName(AllInfo(p), j)])
  {
    var before := AllInfo(p);
    NameIsRow(before, j, p.main);
    assert NameOf(p.main, p.info) == p.main;
    if p.joins == [] {
      assert ByName(before, j) == map[p.main := j[p.main]] by { assert NamesOf(before, j) == {p.main}; }
    } else {
      forall t | t in before
        ensures t != "" && NameOf(t, before[t]) in ByName(before, j) && ByName(before, j)[NameOf(t, before[t])] == j[t]
      {
        NameIsRow(before, j, t);
      }
    }
  }

  /** The rendered WHERE accepts the rows its filters mean. */
  lemma WhereIsRendered(db: Database, k: Chain, p: Projection, j: Joined)
    requires WellNamed(p) && Rendered(k, p) && j.Keys == AllInfo(p).Keys
    ensures SqlAccepts(db, k, p, j) <==> Accepts(db, k, p, p.filters, j)
  {
    WhereNamesAreRead(p, j);
    RenderingNeverWidens(db, k, p.filters, WhereScope(p), Site(RowOf(j, p.main), j, None), [ByName(AllInfo(p), j)], NoGuess);
  }

  // ---- the whole statement ----

  lemma {:induction false} ChainIsFull(db: Database, k: Chain, main: string, info: TableInfo, joins: seq<Join>, n: nat, rows: seq<Joined>, contents: Contents)
    requires n <= |joins| && FullRows(rows, InfoBefore(main, info, joins, n).Keys)
    ensures FullRows(JoinChain(db, k, joins[n..], InfoBefore(main, info, joins, n), rows, contents), InfoBefore(main, info, joins, |joins|).Keys)
    decreases |joins| - n
  {
    if n < |joins| {
      OneJoinOn(db, k, main, info, joins, n, rows, contents);
      ChainIsFull(db, k, main, info, joins, n + 1, JoinEach(db, k, joins[n], InfoBefore(main, info, joins, n), rows, contents), contents);
    }
  }

  lemma ReadIsFull(db: Database, k: Chain, p: Projection, rows: seq<Row>, contents: Contents)
    ensures FullRows(ReadRows(db, k, p.main, p.info, p.joins, rows, contents), AllInfo(p).Keys)
  {
    forall i | 0 <= i < |rows| ensures Started(p.main, rows)[i].Keys == {p.main} { StartedAt(p.main, rows, i); }
    ChainIsFull(db, k, p.main, p.info, p.joins, 0, Started(p.main, rows), contents);
    assert p.joins[0..] == p.joins && InfoBefore(p.main, p.info, p.joins, 0) == map[p.main := p.info];
  }

  lemma {:induction false} KeepsAlike(db: Database, k: Chain, p: Projection, read: seq<Joined>)
    requires WellNamed(p) && Rendered(k, p) && FullRows(read, AllInfo(p).Keys)
    ensures Keep(read, j => SqlAccepts(db, k, p, j)) == Keep(read, j => Accepts(db, k, p, p.filters, j))
  {
    if read != [] {
      WhereIsRendered(db, k, p, read[0]);
      assert forall i :: 0 <= i < |read[1..]| ==> read[1..][i] == read[i + 1];
      KeepsAlike(db, k, p, read[1..]);
    }
  }

  /** The FROM, joins and WHERE of the rendered statement read the rows the select means:
      its ONs and filters evaluated by name, or by what they are about. */
  lemma StatementReadsWhatIsMeant(db: Database, k: Chain, p: Projection, rows: seq<Row>, contents: Contents)
    requires Built(k, p.joins, map[p.main := p.info]) && WellNamed(p) && Rendered(k, p)
    ensures
      Keep(SqlChain(db, k, p.joins, map[p.main := p.info], Started(p.main, rows), contents), j => SqlAccepts(db, k, p, j)) ==
      Keep(ReadRows(db, k, p.main, p.info, p.joins, rows, contents), j => Accepts(db, k, p, p.filters, j))
  {
    forall i | 0 <= i < |rows| ensures Started(p.main, rows)[i].Keys == {p.main} { StartedAt(p.main, rows, i); }
    ChainIsSql(db, k, p.joins, map[p.main := p.info], Started(p.main, rows), contents);
    ReadIsFull(db, k, p, rows, contents);
    KeepsAlike(db, k, p, ReadRows(db, k, p.main, p.info, p.joins, rows, contents));
  }

  /** The main rows the rendered statement keeps are part of the table's, each once. */
  lemma StatementRepeatsNoRow(db: Database, k: Chain, p: Projection, rows: seq<Row>, contents: Contents)
    requires Resolved(p.main, p.joins) && Honours(contents, p.joins)
    requires Built(k, p.joins, map[p.main := p.info]) && WellNamed(p) && Rendered(k, p)
    ensures IsPart(MainRows(p.main, Keep(SqlChain(db, k, p.joins, map[p.main := p.info], Started(p.main, rows), contents), j => SqlAccepts(db, k, p, j))),
                   Survivors(db, k, p.main, p.info, p.joins, rows, contents))
  {
    StatementReadsWhatIsMeant(db, k, p, rows, contents);
    JoinsRepeatNoRow(db, k, p.main, p.info, p.joins, rows, contents);
    KeptArePart(p.main, ReadRows(db, k, p.main, p.info, p.joins, rows, contents), j => Accepts(db, k, p, p.filters, j));
  }
}
