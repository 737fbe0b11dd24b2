/** What the proof of a join is worth over any database that honours the keys
    declared: each row of the query matches at most one joined row, and reading
    through a chain of joins repeats no row and inflates no sum. */
module JoinProof {
  import opened Sql
  import opened Filters
  import opened FilterMeaning
  import opened Terms
  import opened Joins
  import opened JoinShape

  /** A row of the query: the row read of each table, by table. A table a LEFT
      JOIN found nothing in reads as the empty row, NULL in every column. */
  type Joined = map<string, Row>

  function RowOf(j: Joined, table: string): Row { if table in j then j[table] else map[] }

  /** The rows each source offers, by table: a model's visible rows, or the rows a
      joined select answers. */
  type Contents = map<string, seq<Row>>

  function RowsOf(contents: Contents, table: string): seq<Row> {
    if table in contents then contents[table] else []
  }

  /** No two rows agree on every column of a key; NULL agrees with nothing. */
  predicate SameKey(a: Row, b: Row, columns: seq<string>) {
    forall n :: 0 <= n < |columns| ==> Get(a, columns[n]) == Get(b, columns[n]) && !Get(a, columns[n]).Null?
  }

  ghost predicate UniqueOn(rows: seq<Row>, columns: seq<string>) {
    forall i, j :: 0 <= i < j < |rows| ==> !SameKey(rows[i], rows[j], columns)
  }

  function Renamed(info: TableInfo, key: seq<string>): (columns: seq<string>)
    ensures |columns| == |key|
  {
    seq(|key|, n requires 0 <= n < |key| => info.ColumnName(key[n]))
  }

  /** The database honours every key the sources declare. */
  ghost predicate Honours(contents: Contents, joins: seq<Join>) {
    forall i, m :: 0 <= i < |joins| && 0 <= m < |joins[i].keys| ==>
      UniqueOn(RowsOf(contents, joins[i].table), Renamed(joins[i].info, joins[i].keys[m]))
  }

  // ---- one join ----

  function JoinScope(join: Join, before: map<string, TableInfo>): Scope {
    Scope(join.info.(qualify := join.alias), join.table, "", "", None, 0, join.table, Some(before), join.select.Some?)
  }

  ghost const NoGuess: Guess := (f: Filter, site: Site) => False

  ghost predicate OnHolds(db: Database, k: Chain, join: Join, before: map<string, TableInfo>, joined: Joined, row: Row) {
    MeaningAll(db, k, join.on, JoinScope(join, before), Site(row, joined, None), NoGuess) == True
  }

  /** The ON as SQL answers it, wherever its filters all rendered, which a query
      that is built has checked. */
  lemma OnIsRendered(db: Database, k: Chain, join: Join, before: map<string, TableInfo>, joined: Joined, row: Row, env: Env)
    requires join.on != [] && Reads(JoinScope(join, before), Site(row, joined, None), env)
    ensures
      var (pred, failure) := Combine(RenderEach(k, join.on, JoinScope(join, before)), false);
      pred.Some? && (failure.None? ==> (Eval(db, pred.value, env) == True <==> OnHolds(db, k, join, before, joined, row)))
  {
    RenderingNeverWidens(db, k, join.on, JoinScope(join, before), Site(row, joined, None), env, NoGuess);
  }

  ghost function Matching(db: Database, k: Chain, join: Join, before: map<string, TableInfo>, joined: Joined, rows: seq<Row>): seq<Row> {
    if rows == [] then []
    else (if OnHolds(db, k, join, before, joined, rows[0]) then [rows[0]] else []) + Matching(db, k, join, before, joined, rows[1..])
  }

  ghost function Extend(joined: Joined, table: string, rows: seq<Row>): (js: seq<Joined>)
    ensures |js| == |rows|
  {
    if rows == [] then [] else [joined[table := rows[0]]] + Extend(joined, table, rows[1..])
  }

  /** JOIN or LEFT JOIN of one row of the query. */
  ghost function JoinOne(db: Database, k: Chain, join: Join, before: map<string, TableInfo>, joined: Joined, contents: Contents): seq<Joined> {
    var rows := Matching(db, k, join, before, joined, RowsOf(contents, join.table));
    if rows == [] && join.left then [joined[join.table := map[]]] else Extend(joined, join.table, rows)
  }

  /** The rows a chain of joins makes of a list of rows. */
  ghost function JoinEach(db: Database, k: Chain, join: Join, before: map<string, TableInfo>, rows: seq<Joined>, contents: Contents): seq<Joined> {
    if rows == [] then [] else JoinOne(db, k, join, before, rows[0], contents) + JoinEach(db, k, join, before, rows[1..], contents)
  }

  ghost function JoinChain(db: Database, k: Chain, joins: seq<Join>, before: map<string, TableInfo>, rows: seq<Joined>, contents: Contents): seq<Joined>
    decreases |joins|
  {
    if joins == [] then rows
    else JoinChain(db, k, joins[1..], before[joins[0].table := joins[0].info], JoinEach(db, k, joins[0], before, rows, contents), contents)
  }

  // ---- conjuncts hold ----

  lemma {:induction false} AndAllTrue(ts: seq<Tri>)
    ensures AndAll(ts) == True <==> forall i :: 0 <= i < |ts| ==> ts[i] == True
  {
    if ts != [] { AndAllTrue(ts[1..]); }
  }

  /** A list that accepts a row makes each of its conjuncts true of it. */
  lemma {:induction false} ConjunctsHold(db: Database, k: Chain, filters: seq<Filter>, scope: Scope, site: Site, f: Filter)
    requires MeaningAll(db, k, filters, scope, site, NoGuess) == True && f in Conjuncts(filters)
    ensures Meaning(db, k, f, scope, site, NoGuess) == True
    decreases filters, 0
  {
    var ts := MeaningEach(db, k, filters, scope, site, NoGuess);
    AndAllTrue(ts);
    if f in ConjunctsOf(filters[0]) {
      ConjunctsOfHold(db, k, filters[0], scope, site, f);
    } else {
      ConjunctsHold(db, k, filters[1..], scope, site, f);
    }
  }

  lemma {:induction false} ConjunctsOfHold(db: Database, k: Chain, g: Filter, scope: Scope, site: Site, f: Filter)
    requires Meaning(db, k, g, scope, site, NoGuess) == True && f in ConjunctsOf(g)
    ensures Meaning(db, k, f, scope, site, NoGuess) == True
    decreases g, 1
  {
    if g.op.And? { ConjunctsHold(db, k, g.value.filters, scope, site, f); }
  }

  function TieCell(before: map<string, TableInfo>, joined: Joined, tie: (string, string)): Cell {
    Get(if tie.0 in joined then joined[tie.0] else map[], if tie.0 in before then before[tie.0].ColumnName(tie.1) else tie.1)
  }

  /** Two rows of the query read the same in every column the ON ties to. */
  ghost predicate TiesAgree(join: Join, before: map<string, TableInfo>, x: Joined, y: Joined) {
    forall t :: TiedBy(Conjuncts(join.on), join.table, before.Keys, t) ==> TieCell(before, x, t) == TieCell(before, y, t)
  }

  /** A pinned column reads the same value, and never NULL, in every joined row
      that rows of the query agreeing on the ties match. */
  lemma PinnedAgrees(db: Database, k: Chain, join: Join, before: map<string, TableInfo>, x: Joined, y: Joined, a: Row, b: Row, column: string)
    requires OnHolds(db, k, join, before, x, a) && OnHolds(db, k, join, before, y, b) && TiesAgree(join, before, x, y)
    requires PinnedBy(Conjuncts(join.on), join.table, before.Keys, column) && join.table !in before
    ensures Get(a, join.info.ColumnName(column)) == Get(b, join.info.ColumnName(column))
    ensures !Get(a, join.info.ColumnName(column)).Null?
  {
    var fs, scope := Conjuncts(join.on), JoinScope(join, before);
    var i :| 0 <= i < |fs| && Pin(fs[i], join.table, before.Keys) == column;
    var f := fs[i];
    ConjunctsHold(db, k, join.on, scope, Site(a, x, None), f);
    ConjunctsHold(db, k, join.on, scope, Site(b, y, None), f);
    assert Applies(k, f, scope);
    assert scope.info.ColumnName(column) == join.info.ColumnName(column);
    if f.op.EqCol? {
      var tie := (EqColSides(f, join.table).otherTable, EqColSides(f, join.table).otherColumn);
      assert TiedBy(fs, join.table, before.Keys, tie);
      assert TieCell(before, x, tie) == TieCell(before, y, tie);
    }
  }

  lemma {:induction false} MatchingMembers(db: Database, k: Chain, join: Join, before: map<string, TableInfo>, joined: Joined, rows: seq<Row>, p: nat)
    requires p < |Matching(db, k, join, before, joined, rows)|
    ensures exists i :: 0 <= i < |rows| && rows[i] == Matching(db, k, join, before, joined, rows)[p] && OnHolds(db, k, join, before, joined, rows[i])
  {
    var rest := Matching(db, k, join, before, joined, rows[1..]);
    if OnHolds(db, k, join, before, joined, rows[0]) && p == 0 {
      assert rows[0] == Matching(db, k, join, before, joined, rows)[p];
    } else {
      var q := if OnHolds(db, k, join, before, joined, rows[0]) then p - 1 else p;
      MatchingMembers(db, k, join, before, joined, rows[1..], q);
      var i :| 0 <= i < |rows[1..]| && rows[1..][i] == rest[q] && OnHolds(db, k, join, before, joined, rows[1..][i]);
      assert rows[i + 1] == rest[q];
    }
  }

  /** The join theorem for one row: a proved join matches it at most once. */
  lemma {:induction false} AtMostOneMatch(db: Database, k: Chain, join: Join, before: map<string, TableInfo>, joined: Joined, rows: seq<Row>)
    requires Unique(join, before.Keys) && join.table !in before
    requires forall m :: 0 <= m < |join.keys| ==> UniqueOn(rows, Renamed(join.info, join.keys[m]))
    ensures |Matching(db, k, join, before, joined, rows)| <= 1
  {
    if rows != [] {
      var tail := rows[1..];
      forall m | 0 <= m < |join.keys| ensures UniqueOn(tail, Renamed(join.info, join.keys[m])) {
        assert UniqueOn(rows, Renamed(join.info, join.keys[m]));
        assert forall i :: 0 <= i < |tail| ==> tail[i] == rows[i + 1];
      }
      AtMostOneMatch(db, k, join, before, joined, tail);
      if OnHolds(db, k, join, before, joined, rows[0]) && |Matching(db, k, join, before, joined, tail)| > 0 {
        MatchingMembers(db, k, join, before, joined, tail, 0);
        var i :| 0 <= i < |tail| && OnHolds(db, k, join, before, joined, tail[i]);
        var m :| 0 <= m < |join.keys| && join.keys[m] != [] && PinsAll(join, before.Keys, join.keys[m]);
        assert UniqueOn(rows, Renamed(join.info, join.keys[m])) && tail[i] == rows[i + 1];
        MatchesAgreeOnKey(db, k, join, before, joined, joined, rows[0], tail[i], join.keys[m]);
        assert false;
      }
    }
  }

  lemma MatchesAgreeOnKey(db: Database, k: Chain, join: Join, before: map<string, TableInfo>, x: Joined, y: Joined, a: Row, b: Row, key: seq<string>)
    requires OnHolds(db, k, join, before, x, a) && OnHolds(db, k, join, before, y, b) && TiesAgree(join, before, x, y)
    requires PinsAll(join, before.Keys, key) && join.table !in before
    ensures SameKey(a, b, Renamed(join.info, key))
  {
    forall n | 0 <= n < |key|
      ensures Get(a, join.info.ColumnName(key[n])) == Get(b, join.info.ColumnName(key[n])) && !Get(a, join.info.ColumnName(key[n])).Null?
    {
      PinnedAgrees(db, k, join, before, x, y, a, b, key[n]);
    }
  }

  // ---- chains of joins ----

  /** Every row of the result keeps the rows of the tables read so far. */
  predicate Keeps(before: Joined, after: Joined) {
    forall t :: t in before ==> t in after && after[t] == before[t]
  }

  function TablesBefore(before: map<string, TableInfo>, join: Join): map<string, TableInfo> {
    before[join.table := join.info]
  }

  ghost predicate ProvenChain(joins: seq<Join>, before: map<string, TableInfo>)
    decreases |joins|
  {
    joins == [] ||
    (joins[0].table !in before && Unique(joins[0], before.Keys) && ProvenChain(joins[1..], TablesBefore(before, joins[0])))
  }

  /** One row of the query through one proved join: at most one row, exactly one
      through a LEFT JOIN, and the row keeps what it had read. */
  lemma JoinOneRow(db: Database, k: Chain, join: Join, before: map<string, TableInfo>, joined: Joined, contents: Contents)
    requires Unique(join, before.Keys) && join.table !in before && joined.Keys <= before.Keys
    requires forall m :: 0 <= m < |join.keys| ==> UniqueOn(RowsOf(contents, join.table), Renamed(join.info, join.keys[m]))
    ensures
      var out := JoinOne(db, k, join, before, joined, contents);
      |out| <= 1 && (join.left ==> |out| == 1) &&
      (|out| == 1 ==> Keeps(joined, out[0]) && out[0].Keys <= TablesBefore(before, join).Keys)
  {
    var rows := Matching(db, k, join, before, joined, RowsOf(contents, join.table));
    AtMostOneMatch(db, k, join, before, joined, RowsOf(contents, join.table));
    if rows != [] { assert rows[1..] == []; }
  }

  lemma JoinEachCons(db: Database, k: Chain, join: Join, before: map<string, TableInfo>, head: Joined, tail: seq<Joined>, contents: Contents)
    ensures JoinEach(db, k, join, before, [head] + tail, contents) ==
      JoinOne(db, k, join, before, head, contents) + JoinEach(db, k, join, before, tail, contents)
  {
    assert ([head] + tail)[1..] == tail;
  }

  lemma Regrouped(a: seq<Joined>, b: seq<Joined>, c: seq<Joined>)
    ensures a + (b + c) == (a + b) + c
  {
  }

  lemma {:induction false} JoinEachAppend(db: Database, k: Chain, join: Join, before: map<string, TableInfo>, a: seq<Joined>, b: seq<Joined>, contents: Contents)
    ensures JoinEach(db, k, join, before, a + b, contents) ==
      JoinEach(db, k, join, before, a, contents) + JoinEach(db, k, join, before, b, contents)
  {
    if a == [] {
      assert a + b == b;
    } else {
      var head, tail := a[0], a[1..];
      assert a == [head] + tail && a + b == [head] + (tail + b);
      JoinEachAppend(db, k, join, before, tail, b, contents);
      JoinEachCons(db, k, join, before, head, tail, contents);
      JoinEachCons(db, k, join, before, head, tail + b, contents);
      Regrouped(JoinOne(db, k, join, before, head, contents), JoinEach(db, k, join, before, tail, contents), JoinEach(db, k, join, before, b, contents));
    }
  }

  lemma {:induction false} JoinChainAppend(db: Database, k: Chain, joins: seq<Join>, before: map<string, TableInfo>, a: seq<Joined>, b: seq<Joined>, contents: Contents)
    ensures JoinChain(db, k, joins, before, a + b, contents) ==
      JoinChain(db, k, joins, before, a, contents) + JoinChain(db, k, joins, before, b, contents)
    decreases |joins|
  {
    if joins != [] {
      JoinEachAppend(db, k, joins[0], before, a, b, contents);
      JoinChainAppend(db, k, joins[1..], TablesBefore(before, joins[0]),
        JoinEach(db, k, joins[0], before, a, contents), JoinEach(db, k, joins[0], before, b, contents), contents);
    }
  }

  /** One row of the query through a chain of proved joins, however long and
      however the joins read through one another. */
  lemma {:induction false} ChainOfOneRow(db: Database, k: Chain, joins: seq<Join>, before: map<string, TableInfo>, joined: Joined, contents: Contents)
    requires ProvenChain(joins, before) && Honours(contents, joins) && joined.Keys <= before.Keys
    ensures
      var out := JoinChain(db, k, joins, before, [joined], contents);
      |out| <= 1 && ((forall i :: 0 <= i < |joins| ==> joins[i].left) ==> |out| == 1) && (|out| == 1 ==> Keeps(joined, out[0]))
    decreases |joins|
  {
    if joins != [] {
      var join, next := joins[0], TablesBefore(before, joins[0]);
      forall m | 0 <= m < |join.keys| ensures UniqueOn(RowsOf(contents, join.table), Renamed(join.info, join.keys[m])) {}
      JoinOneRow(db, k, join, before, joined, contents);
      var out := JoinOne(db, k, join, before, joined, contents);
      assert [joined][1..] == [] && JoinEach(db, k, join, before, [joined], contents) == out;
      assert Honours(contents, joins[1..]) by {
        forall i, m | 0 <= i < |joins[1..]| && 0 <= m < |joins[1..][i].keys|
          ensures UniqueOn(RowsOf(contents, joins[1..][i].table), Renamed(joins[1..][i].info, joins[1..][i].keys[m]))
        {
          assert joins[1..][i] == joins[i + 1];
        }
      }
      if out == [] {
        EmptyChain(db, k, joins[1..], next, contents);
      } else {
        assert out == [out[0]];
        ChainOfOneRow(db, k, joins[1..], next, out[0], contents);
        assert (forall i :: 0 <= i < |joins| ==> joins[i].left) ==> forall i :: 0 <= i < |joins[1..]| ==> joins[1..][i].left;
      }
    }
  }

  lemma {:induction false} EmptyChain(db: Database, k: Chain, joins: seq<Join>, before: map<string, TableInfo>, contents: Contents)
    ensures JoinChain(db, k, joins, before, [], contents) == []
    decreases |joins|
  {
    if joins != [] { EmptyChain(db, k, joins[1..], TablesBefore(before, joins[0]), contents); }
  }

  // ---- the select ----

  function Started(main: string, rows: seq<Row>): (js: seq<Joined>)
    ensures |js| == |rows|
  {
    if rows == [] then [] else [map[main := rows[0]]] + Started(main, rows[1..])
  }

  /** The rows a select reads, joined: the FROM and its JOINs. */
  ghost function ReadRows(db: Database, k: Chain, main: string, info: TableInfo, joins: seq<Join>, rows: seq<Row>, contents: Contents): seq<Joined> {
    JoinChain(db, k, joins, map[main := info], Started(main, rows), contents)
  }

  ghost predicate Survives(db: Database, k: Chain, main: string, info: TableInfo, joins: seq<Join>, row: Row, contents: Contents) {
    ReadRows(db, k, main, info, joins, [row], contents) != []
  }

  ghost function Survivors(db: Database, k: Chain, main: string, info: TableInfo, joins: seq<Join>, rows: seq<Row>, contents: Contents): seq<Row> {
    if rows == [] then []
    else
      var first := if Survives(db, k, main, info, joins, rows[0], contents) then [rows[0]] else [];
      first + Survivors(db, k, main, info, joins, rows[1..], contents)
  }

  function MainRows(main: string, js: seq<Joined>): seq<Row> {
    if js == [] then [] else [if main in js[0] then js[0][main] else map[]] + MainRows(main, js[1..])
  }

  lemma {:induction false} MainRowsAppend(main: string, a: seq<Joined>, b: seq<Joined>)
    ensures MainRows(main, a + b) == MainRows(main, a) + MainRows(main, b)
  {
    if a == [] {
      assert a + b == b;
    } else {
      assert (a + b)[1..] == a[1..] + b;
      MainRowsAppend(main, a[1..], b);
    }
  }

  /** What resolveJoins proved is what the chain needs. */
  lemma {:induction false} ResolvedIsProven(main: string, info: TableInfo, joins: seq<Join>, n: nat, before: map<string, TableInfo>)
    requires Resolved(main, joins) && n <= |joins| && before.Keys == Tables(main, joins[..n])
    ensures ProvenChain(joins[n..], before)
    decreases |joins| - n
  {
    if n < |joins| {
      assert ResolvedAt(main, joins, n);
      assert joins[n..][0] == joins[n] && joins[n..][1..] == joins[n + 1..];
      assert joins[..n + 1][..n] == joins[..n];
      ResolvedIsProven(main, info, joins, n + 1, TablesBefore(before, joins[n]));
    }
  }

  lemma ReadRowsCons(db: Database, k: Chain, main: string, info: TableInfo, joins: seq<Join>, rows: seq<Row>, contents: Contents)
    requires rows != []
    ensures
      var first, rest := ReadRows(db, k, main, info, joins, [rows[0]], contents), ReadRows(db, k, main, info, joins, rows[1..], contents);
      MainRows(main, ReadRows(db, k, main, info, joins, rows, contents)) == MainRows(main, first) + MainRows(main, rest)
  {
    var before := map[main := info];
    assert [rows[0]][1..] == [] && Started(main, [rows[0]]) == [map[main := rows[0]]];
    JoinChainAppend(db, k, joins, before, [map[main := rows[0]]], Started(main, rows[1..]), contents);
    MainRowsAppend(main, ReadRows(db, k, main, info, joins, [rows[0]], contents), ReadRows(db, k, main, info, joins, rows[1..], contents));
  }

  lemma OneRowRead(db: Database, k: Chain, main: string, info: TableInfo, joins: seq<Join>, row: Row, contents: Contents)
    requires Resolved(main, joins) && Honours(contents, joins)
    ensures
      var read := MainRows(main, ReadRows(db, k, main, info, joins, [row], contents));
      read == (if Survives(db, k, main, info, joins, row, contents) then [row] else []) &&
      ((forall i :: 0 <= i < |joins| ==> joins[i].left) ==> read == [row])
  {
    var before := map[main := info];
    ResolvedIsProven(main, info, joins, 0, before);
    assert joins[0..] == joins;
    assert [row][1..] == [] && Started(main, [row]) == [map[main := row]];
    ChainOfOneRow(db, k, joins, before, map[main := row], contents);
    var first := ReadRows(db, k, main, info, joins, [row], contents);
    if first != [] { assert first[1..] == [] && MainRows(main, first) == [row]; }
  }

  /** Joining never repeats a row of the query: over any database honouring the
      declared keys, the main rows of the result are the rows that survive the
      joins, each once and in order, and all of them when every join is LEFT. */
  lemma {:induction false} JoinsRepeatNoRow(db: Database, k: Chain, main: string, info: TableInfo, joins: seq<Join>, rows: seq<Row>, contents: Contents)
    requires Resolved(main, joins) && Honours(contents, joins)
    ensures MainRows(main, ReadRows(db, k, main, info, joins, rows, contents)) == Survivors(db, k, main, info, joins, rows, contents)
    ensures (forall i :: 0 <= i < |joins| ==> joins[i].left) ==> MainRows(main, ReadRows(db, k, main, info, joins, rows, contents)) == rows
  {
    if rows == [] {
      EmptyChain(db, k, joins, map[main := info], contents);
    } else {
      ReadRowsCons(db, k, main, info, joins, rows, contents);
      OneRowRead(db, k, main, info, joins, rows[0], contents);
      JoinsRepeatNoRow(db, k, main, info, joins, rows[1..], contents);
      assert [rows[0]] + rows[1..] == rows;
    }
  }

  /** SUM over a column of the main rows; the renderer coalesces it to zero. */
  function Total(rows: seq<Row>, column: string): int {
    if rows == [] then 0
    else (if Get(rows[0], column).Num? then Get(rows[0], column).n else 0) + Total(rows[1..], column)
  }

  /** A SUM over a column of the queried model is the sum over the rows that
      survive, each counted once: no join doubles it. */
  lemma SumIsNotInflated(db: Database, k: Chain, main: string, info: TableInfo, joins: seq<Join>, rows: seq<Row>, contents: Contents, column: string)
    requires Resolved(main, joins) && Honours(contents, joins)
    ensures Total(MainRows(main, ReadRows(db, k, main, info, joins, rows, contents)), column)
         == Total(Survivors(db, k, main, info, joins, rows, contents), column)
    ensures (forall i :: 0 <= i < |joins| ==> joins[i].left) ==>
      Total(MainRows(main, ReadRows(db, k, main, info, joins, rows, contents)), column) == Total(rows, column)
  {
    JoinsRepeatNoRow(db, k, main, info, joins, rows, contents);
  }
}
