/** The groups of a grouped select are told apart by its own keys alone: by
    induction along its chain of joins, the row read of each select it groups by
    is a function of those keys. */
module DerivedProof {
  import opened Sql
  import opened Filters
  import opened FilterMeaning
  import opened Terms
  import opened Joins
  import opened JoinShape
  import opened JoinProof
  import opened DerivedKeys

  /** The tables read before join n, with what is known of each. */
  function InfoBefore(main: string, info: TableInfo, joins: seq<Join>, n: nat): map<string, TableInfo>
    requires n <= |joins|
  {
    if n == 0 then map[main := info] else InfoBefore(main, info, joins, n - 1)[joins[n - 1].table := joins[n - 1].info]
  }

  lemma {:induction false} InfoBeforeTables(main: string, info: TableInfo, joins: seq<Join>, n: nat)
    requires n <= |joins|
    ensures InfoBefore(main, info, joins, n).Keys == Tables(main, joins[..n])
  {
    if n > 0 {
      InfoBeforeTables(main, info, joins, n - 1);
      assert joins[..n][..n - 1] == joins[..n - 1];
    }
  }

  function Restrict(j: Joined, tables: set<string>): Joined {
    map t | t in j && t in tables :: j[t]
  }

  /** The row read of join n is one the ON accepts, or the empty row of a LEFT
      JOIN whose ON accepts none. */
  ghost predicate ReachedAt(db: Database, k: Chain, main: string, info: TableInfo, joins: seq<Join>, contents: Contents, j: Joined, n: nat)
    requires n < |joins|
  {
    var join, before := joins[n], InfoBefore(main, info, joins, n);
    var earlier, rows := Restrict(j, before.Keys), RowsOf(contents, joins[n].table);
    join.table in j &&
    ((j[join.table] in rows && OnHolds(db, k, join, before, earlier, j[join.table])) ||
     (join.left && j[join.table] == map[] && forall r :: r in rows ==> !OnHolds(db, k, join, before, earlier, r)))
  }

  ghost predicate Reached(db: Database, k: Chain, main: string, info: TableInfo, joins: seq<Join>, contents: Contents, j: Joined) {
    forall n :: 0 <= n < |joins| ==> ReachedAt(db, k, main, info, joins, contents, j, n)
  }

  // ---- the rows of a select are reached ----

  lemma {:induction false} ExtendAt(joined: Joined, table: string, rows: seq<Row>, p: nat)
    requires p < |rows|
    ensures Extend(joined, table, rows)[p] == joined[table := rows[p]]
  {
    if p > 0 { ExtendAt(joined, table, rows[1..], p - 1); }
  }

  lemma {:induction false} MatchingRejects(db: Database, k: Chain, join: Join, before: map<string, TableInfo>, joined: Joined, rows: seq<Row>)
    requires Matching(db, k, join, before, joined, rows) == []
    ensures forall r :: r in rows ==> !OnHolds(db, k, join, before, joined, r)
  {
    if rows != [] { MatchingRejects(db, k, join, before, joined, rows[1..]); }
  }

  /** Where a row of one JOIN comes from. */
  ghost predicate Source(db: Database, k: Chain, join: Join, before: map<string, TableInfo>, from: Joined, contents: Contents, to: Joined) {
    var rows := RowsOf(contents, join.table);
    join.table in to && to == from[join.table := to[join.table]] &&
    ((to[join.table] in rows && OnHolds(db, k, join, before, from, to[join.table])) ||
     (join.left && to[join.table] == map[] && forall r :: r in rows ==> !OnHolds(db, k, join, before, from, r)))
  }

  lemma JoinOneSource(db: Database, k: Chain, join: Join, before: map<string, TableInfo>, from: Joined, contents: Contents, p: nat)
    requires p < |JoinOne(db, k, join, before, from, contents)|
    ensures Source(db, k, join, before, from, contents, JoinOne(db, k, join, before, from, contents)[p])
  {
    var offered := RowsOf(contents, join.table);
    var rows := Matching(db, k, join, before, from, offered);
    if rows == [] {
      MatchingRejects(db, k, join, before, from, offered);
    } else {
      ExtendAt(from, join.table, rows, p);
      MatchingMembers(db, k, join, before, from, offered, p);
    }
  }

  lemma {:induction false} JoinEachSource(db: Database, k: Chain, join: Join, before: map<string, TableInfo>, rows: seq<Joined>, contents: Contents, p: nat)
    requires p < |JoinEach(db, k, join, before, rows, contents)|
    ensures exists i :: 0 <= i < |rows| && Source(db, k, join, before, rows[i], contents, JoinEach(db, k, join, before, rows, contents)[p])
  {
    var first := JoinOne(db, k, join, before, rows[0], contents);
    var rest := JoinEach(db, k, join, before, rows[1..], contents);
    if p < |first| {
      JoinOneSource(db, k, join, before, rows[0], contents, p);
      assert Source(db, k, join, before, rows[0], contents, first[p]);
    } else {
      JoinEachSource(db, k, join, before, rows[1..], contents, p - |first|);
      var i :| 0 <= i < |rows[1..]| && Source(db, k, join, before, rows[1..][i], contents, rest[p - |first|]);
      assert Source(db, k, join, before, rows[i + 1], contents, rest[p - |first|]);
    }
  }

  ghost predicate FullRows(rows: seq<Joined>, tables: set<string>) {
    forall i :: 0 <= i < |rows| ==> rows[i].Keys == tables
  }

  /** A row that came through join n from a row of the tables before it. */
  lemma ReachedFromSource(db: Database, k: Chain, main: string, info: TableInfo, joins: seq<Join>, n: nat, contents: Contents, from: Joined, mid: Joined, out: Joined)
    requires n < |joins| && joins[n].table !in InfoBefore(main, info, joins, n)
    requires from.Keys == InfoBefore(main, info, joins, n).Keys
    requires Source(db, k, joins[n], InfoBefore(main, info, joins, n), from, contents, mid)
    requires Restrict(out, InfoBefore(main, info, joins, n + 1).Keys) == mid
    ensures Restrict(out, InfoBefore(main, info, joins, n).Keys) == from
    ensures ReachedAt(db, k, main, info, joins, contents, out, n)
  {
    var before, table := InfoBefore(main, info, joins, n), joins[n].table;
    assert InfoBefore(main, info, joins, n + 1) == before[table := joins[n].info];
    forall t | t in before ensures t in out && out[t] == from[t] {
      assert t in mid && mid[t] == from[t];
    }
    assert Restrict(out, before.Keys) == from;
    assert table in mid && table in out && out[table] == mid[table];
  }

  lemma SourcesAreFull(db: Database, k: Chain, join: Join, before: map<string, TableInfo>, rows: seq<Joined>, contents: Contents)
    requires FullRows(rows, before.Keys)
    ensures FullRows(JoinEach(db, k, join, before, rows, contents), before.Keys + {join.table})
  {
    var mids := JoinEach(db, k, join, before, rows, contents);
    forall q | 0 <= q < |mids| ensures mids[q].Keys == before.Keys + {join.table} {
      JoinEachSource(db, k, join, before, rows, contents, q);
    }
  }

  ghost predicate ReachedFrom(db: Database, k: Chain, main: string, info: TableInfo, joins: seq<Join>, contents: Contents, j: Joined, n: nat) {
    forall m :: n <= m < |joins| ==> ReachedAt(db, k, main, info, joins, contents, j, m)
  }

  /** One join on: what out's row through join n came from. */
  lemma ReachedThrough(db: Database, k: Chain, main: string, info: TableInfo, joins: seq<Join>, n: nat, rows: seq<Joined>, contents: Contents, out: Joined)
    requires n < |joins| && Resolved(main, joins) && FullRows(rows, InfoBefore(main, info, joins, n).Keys)
    requires Restrict(out, InfoBefore(main, info, joins, n + 1).Keys) in JoinEach(db, k, joins[n], InfoBefore(main, info, joins, n), rows, contents)
    ensures Restrict(out, InfoBefore(main, info, joins, n).Keys) in rows && ReachedAt(db, k, main, info, joins, contents, out, n)
  {
    var before := InfoBefore(main, info, joins, n);
    var mids := JoinEach(db, k, joins[n], before, rows, contents);
    assert ResolvedAt(main, joins, n);
    InfoBeforeTables(main, info, joins, n);
    var q :| 0 <= q < |mids| && mids[q] == Restrict(out, InfoBefore(main, info, joins, n + 1).Keys);
    JoinEachSource(db, k, joins[n], before, rows, contents, q);
    var i :| 0 <= i < |rows| && Source(db, k, joins[n], before, rows[i], contents, mids[q]);
    ReachedFromSource(db, k, main, info, joins, n, contents, rows[i], mids[q], out);
  }

  lemma OneJoinOn(db: Database, k: Chain, main: string, info: TableInfo, joins: seq<Join>, n: nat, rows: seq<Joined>, contents: Contents)
    requires n < |joins| && FullRows(rows, InfoBefore(main, info, joins, n).Keys)
    ensures
      var before := InfoBefore(main, info, joins, n);
      var mids := JoinEach(db, k, joins[n], before, rows, contents);
      FullRows(mids, InfoBefore(main, info, joins, n + 1).Keys) &&
      JoinChain(db, k, joins[n..], before, rows, contents) == JoinChain(db, k, joins[n + 1..], InfoBefore(main, info, joins, n + 1), mids, contents)
  {
    var before := InfoBefore(main, info, joins, n);
    assert joins[n..][0] == joins[n] && joins[n..][1..] == joins[n + 1..];
    SourcesAreFull(db, k, joins[n], before, rows, contents);
    assert InfoBefore(main, info, joins, n + 1) == before[joins[n].table := joins[n].info];
  }

  lemma {:induction false} ChainReaches(db: Database, k: Chain, main: string, info: TableInfo, joins: seq<Join>, n: nat, rows: seq<Joined>, contents: Contents, p: nat)
    requires n <= |joins| && Resolved(main, joins)
    requires FullRows(rows, InfoBefore(main, info, joins, n).Keys)
    requires p < |JoinChain(db, k, joins[n..], InfoBefore(main, info, joins, n), rows, contents)|
    ensures
      var out := JoinChain(db, k, joins[n..], InfoBefore(main, info, joins, n), rows, contents)[p];
      Restrict(out, InfoBefore(main, info, joins, n).Keys) in rows && ReachedFrom(db, k, main, info, joins, contents, out, n)
    decreases |joins| - n
  {
    var before := InfoBefore(main, info, joins, n);
    var out := JoinChain(db, k, joins[n..], before, rows, contents)[p];
    if n == |joins| {
      assert Restrict(out, before.Keys) == rows[p];
    } else {
      OneJoinOn(db, k, main, info, joins, n, rows, contents);
      var mids := JoinEach(db, k, joins[n], before, rows, contents);
      ChainReaches(db, k, main, info, joins, n + 1, mids, contents, p);
      ReachedThrough(db, k, main, info, joins, n, rows, contents, out);
    }
  }

  lemma {:induction false} StartedAt(main: string, rows: seq<Row>, i: nat)
    requires i < |rows|
    ensures Started(main, rows)[i] == map[main := rows[i]]
  {
    if i > 0 { StartedAt(main, rows[1..], i - 1); }
  }

  lemma RowsAreReached(db: Database, k: Chain, main: string, info: TableInfo, joins: seq<Join>, rows: seq<Row>, contents: Contents, p: nat)
    requires Resolved(main, joins) && p < |ReadRows(db, k, main, info, joins, rows, contents)|
    ensures Reached(db, k, main, info, joins, contents, ReadRows(db, k, main, info, joins, rows, contents)[p])
    ensures main in ReadRows(db, k, main, info, joins, rows, contents)[p]
  {
    assert joins[0..] == joins && InfoBefore(main, info, joins, 0) == map[main := info];
    forall i | 0 <= i < |rows| ensures Started(main, rows)[i].Keys == {main} { StartedAt(main, rows, i); }
    ChainReaches(db, k, main, info, joins, 0, Started(main, rows), contents, p);
    var out := ReadRows(db, k, main, info, joins, rows, contents)[p];
    var from := Restrict(out, InfoBefore(main, info, joins, 0).Keys);
    var i :| 0 <= i < |rows| && Started(main, rows)[i] == from;
    assert main in from;
  }

  // ---- what an ON reads of the tables before it ----

  /** The columns of other tables a filter of the ON over table names, at any
      depth; a subquery there reads the row of its own table alone. */
  function Outside(f: Filter, table: string): set<(string, string)>
    decreases f, 1
  {
    match f.op
    case Or | And => if f.value.Group? then OutsideAll(f.value.filters, table) else {}
    case Exists | Nothing => {}
    case EqCol =>
      (if OwnsColumn(f, table) then {} else {(f.table, f.column)}) +
      (if EqColParent(f.value).Some? && EqColParent(f.value).value.0 != table then {EqColParent(f.value).value} else {})
    case _ => if OwnsColumn(f, table) then {} else {(f.table, f.column)}
  }

  function OutsideAll(filters: seq<Filter>, table: string): set<(string, string)>
    decreases filters, 0
  {
    if filters == [] then {} else Outside(filters[0], table) + OutsideAll(filters[1..], table)
  }

  /** Two rows of the query read the same in every column of an earlier table named
      in columns. */
  predicate AgreeOutside(columns: set<(string, string)>, before: map<string, TableInfo>, x: Joined, y: Joined) {
    forall c :: c in columns && c.0 in before ==> TieCell(before, x, c) == TieCell(before, y, c)
  }

  lemma {:induction false} MeaningTransfers(db: Database, k: Chain, join: Join, before: map<string, TableInfo>, f: Filter, own: Row, x: Joined, y: Joined)
    requires AgreeOutside(Outside(f, join.table), before, x, y) && join.table != ""
    ensures
      var scope := JoinScope(join, before);
      Meaning(db, k, f, scope, Site(own, x, None), NoGuess) == Meaning(db, k, f, scope, Site(own, y, None), NoGuess)
    decreases f, 1
  {
    match f.op
    case Or | And =>
      if f.value.Group? { MeaningsTransfer(db, k, join, before, f.value.filters, own, x, y); }
    case Exists | Nothing =>
    case _ => PlainTransfers(db, k, join, before, f, own, x, y);
  }

  lemma PlainTransfers(db: Database, k: Chain, join: Join, before: map<string, TableInfo>, f: Filter, own: Row, x: Joined, y: Joined)
    requires AgreeOutside(Outside(f, join.table), before, x, y) && join.table != ""
    requires !f.op.Or? && !f.op.And? && !f.op.Exists? && !f.op.Nothing?
    ensures
      var scope := JoinScope(join, before);
      Meaning(db, k, f, scope, Site(own, x, None), NoGuess) == Meaning(db, k, f, scope, Site(own, y, None), NoGuess)
  {
    if Applies(k, f, JoinScope(join, before)) { LeafTransfers(db, k, join, before, f, own, x, y); }
  }

  /** A plain filter that applies reads its columns as the ties do. */
  lemma LeafTransfers(db: Database, k: Chain, join: Join, before: map<string, TableInfo>, f: Filter, own: Row, x: Joined, y: Joined)
    requires AgreeOutside(Outside(f, join.table), before, x, y) && join.table != ""
    requires !f.op.Or? && !f.op.And? && !f.op.Exists? && !f.op.Nothing? && Applies(k, f, JoinScope(join, before))
    ensures
      var scope := JoinScope(join, before);
      OwnCell(f, scope, Site(own, x, None)) == OwnCell(f, scope, Site(own, y, None)) &&
      (f.op.EqCol? ==> OtherCell(f, scope, Site(own, x, None)) == OtherCell(f, scope, Site(own, y, None)))
  {
    if NamesAnotherTable(f, JoinScope(join, before)) {
      assert TieCell(before, x, (f.table, f.column)) == TieCell(before, y, (f.table, f.column));
    }
    if f.op.EqCol? && EqColParent(f.value).value.0 != join.table {
      assert TieCell(before, x, EqColParent(f.value).value) == TieCell(before, y, EqColParent(f.value).value);
    }
  }

  lemma {:induction false} MeaningsTransfer(db: Database, k: Chain, join: Join, before: map<string, TableInfo>, filters: seq<Filter>, own: Row, x: Joined, y: Joined)
    requires AgreeOutside(OutsideAll(filters, join.table), before, x, y) && join.table != ""
    ensures
      var scope := JoinScope(join, before);
      MeaningEach(db, k, filters, scope, Site(own, x, None), NoGuess) == MeaningEach(db, k, filters, scope, Site(own, y, None), NoGuess)
    decreases filters, 0
  {
    if filters != [] {
      MeaningTransfers(db, k, join, before, filters[0], own, x, y);
      MeaningsTransfer(db, k, join, before, filters[1..], own, x, y);
    }
  }

  /** An ON answers alike for rows of the query that agree on every earlier column
      it names. */
  lemma OnTransfers(db: Database, k: Chain, join: Join, before: map<string, TableInfo>, x: Joined, y: Joined, row: Row)
    requires AgreeOutside(OutsideAll(join.on, join.table), before, x, y) && join.table != ""
    ensures OnHolds(db, k, join, before, x, row) <==> OnHolds(db, k, join, before, y, row)
  {
    MeaningsTransfer(db, k, join, before, join.on, row, x, y);
  }

  // ---- a list and its conjuncts ----

  /** Every AND group a list is looked through carries members. */
  predicate Grouped(filters: seq<Filter>)
    decreases filters, 0
  {
    filters == [] || (GroupedOne(filters[0]) && Grouped(filters[1..]))
  }

  predicate GroupedOne(f: Filter)
    decreases f, 1
  {
    f.op.And? ==> f.value.Group? && f.value.filters != [] && Grouped(f.value.filters)
  }

  ghost predicate AllTrue(db: Database, k: Chain, fs: seq<Filter>, scope: Scope, site: Site) {
    forall i :: 0 <= i < |fs| ==> Meaning(db, k, fs[i], scope, site, NoGuess) == True
  }

  lemma AllTrueAppend(db: Database, k: Chain, a: seq<Filter>, b: seq<Filter>, scope: Scope, site: Site)
    ensures AllTrue(db, k, a + b, scope, site) <==> AllTrue(db, k, a, scope, site) && AllTrue(db, k, b, scope, site)
  {
    assert forall i :: 0 <= i < |a| ==> (a + b)[i] == a[i];
    assert forall i :: 0 <= i < |b| ==> (a + b)[|a| + i] == b[i];
  }

  /** A list is true of a row exactly when its conjuncts are. */
  lemma {:induction false} ConjunctsSuffice(db: Database, k: Chain, filters: seq<Filter>, scope: Scope, site: Site)
    ensures MeaningAll(db, k, filters, scope, site, NoGuess) == True <==>
      Grouped(filters) && AllTrue(db, k, Conjuncts(filters), scope, site)
    decreases filters, 0
  {
    if filters != [] {
      ConjunctsSuffice(db, k, filters[1..], scope, site);
      ConjunctsOfSuffice(db, k, filters[0], scope, site);
      AllTrueAppend(db, k, ConjunctsOf(filters[0]), Conjuncts(filters[1..]), scope, site);
    }
  }

  lemma {:induction false} ConjunctsOfSuffice(db: Database, k: Chain, f: Filter, scope: Scope, site: Site)
    ensures Meaning(db, k, f, scope, site, NoGuess) == True <==>
      GroupedOne(f) && AllTrue(db, k, ConjunctsOf(f), scope, site)
    decreases f, 1
  {
    if f.op.And? {
      if f.value.Group? { ConjunctsSuffice(db, k, f.value.filters, scope, site); }
    } else {
      assert ConjunctsOf(f) == [f] && [f][0] == f;
    }
  }
}
