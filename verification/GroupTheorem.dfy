/** The theorem of the derived keys, and the rows of a derived table that follow from
    it. */
module GroupTheorem {
  import opened Sql
  import opened Filters
  import opened FilterMeaning
  import opened Terms
  import opened Joins
  import opened JoinShape
  import opened JoinProof
  import opened DerivedKeys
  import opened DerivedProof

  /** A validated grouped select: what it reads, its group keys, and which of them
      are read through the selects it joins. */
  datatype Grouping = Grouping(main: string, info: TableInfo, joins: seq<Join>, keys: seq<Term>, derived: map<string, nat>)

  predicate Own(g: Grouping, n: nat)
    requires n < |g.keys|
  {
    !IsDerived(g.keys[n], g.joins, g.derived)
  }

  /** Some key is a term of the select join i reads. */
  ghost predicate KeyedThrough(g: Grouping, i: nat) {
    exists n :: 0 <= n < |g.keys| && !Own(g, n) && g.derived[g.keys[n].Alias()] == i
  }

  predicate ModelTable(g: Grouping, table: string) {
    table == g.main || exists i :: 0 <= i < |g.joins| && g.joins[i].table == table && g.joins[i].select.None?
  }

  /** What validation leaves behind: proved joins, keyed derived terms, and own
      keys that are columns of models, which are read under their own names. */
  ghost predicate Accepted(g: Grouping) {
    Resolved(g.main, g.joins) && (forall i :: 0 <= i < |g.joins| ==> g.joins[i].table != "") && Keyed(g.keys, g.main, g.joins, g.derived) &&
    g.info.rename.None? && (forall i :: 0 <= i < |g.joins| && g.joins[i].select.None? ==> g.joins[i].info.rename.None?) &&
    forall n :: 0 <= n < |g.keys| && Own(g, n) ==> ModelTable(g, TableOf(g.keys[n], g.main))
  }

  /** The condition the code does not check: a LEFT-joined select whose terms are
      group keys names in its ON only columns of earlier tables the select groups
      by. */
  ghost predicate LeftJoinsReadKeys(g: Grouping) {
    forall i :: 0 <= i < |g.joins| && KeyedThrough(g, i) && g.joins[i].left ==> ReadsKeys(g, i)
  }

  predicate ReadsKeys(g: Grouping, i: nat)
    requires i < |g.joins|
  {
    forall c :: c in OutsideAll(g.joins[i].on, g.joins[i].table) && c.0 in InfoBefore(g.main, g.info, g.joins, i) ==>
      GroupsBy(g.keys, g.main, g.joins, g.derived, c.0, c.1)
  }

  type Labels = (Term, Cell) -> Cell

  /** What a group key reads of a row: the column of the derived table under the
      key's alias, or the model's column, through its bucket's label. */
  function KeyCell(g: Grouping, mark: Labels, n: nat, j: Joined): Cell
    requires n < |g.keys|
  {
    var key := g.keys[n];
    if !Own(g, n) then Get(RowOf(j, g.joins[g.derived[key.Alias()]].table), key.Alias())
    else
      var cell := Get(RowOf(j, TableOf(key, g.main)), key.column);
      if key.bucketed then mark(key, cell) else cell
  }

  ghost predicate SameOwnKeys(g: Grouping, mark: Labels, a: Joined, b: Joined) {
    forall n :: 0 <= n < |g.keys| && Own(g, n) ==> KeyCell(g, mark, n, a) == KeyCell(g, mark, n, b)
  }

  ghost predicate SameGroup(g: Grouping, mark: Labels, a: Joined, b: Joined) {
    forall n :: 0 <= n < |g.keys| ==> KeyCell(g, mark, n, a) == KeyCell(g, mark, n, b)
  }

  lemma TablesIndex(main: string, joins: seq<Join>, n: nat, table: string)
    requires n <= |joins| && table in Tables(main, joins[..n])
    ensures table == main || exists i :: 0 <= i < n && joins[i].table == table
    decreases n
  {
    if n > 0 {
      assert joins[..n][..n - 1] == joins[..n - 1];
      if table in Tables(main, joins[..n - 1]) { TablesIndex(main, joins, n - 1, table); }
    }
  }

  lemma {:induction false} TableIsBefore(main: string, joins: seq<Join>, i: nat, n: nat)
    requires i < n <= |joins|
    ensures joins[i].table in Tables(main, joins[..n])
  {
    assert joins[..n][..n - 1] == joins[..n - 1];
    if i < n - 1 { TableIsBefore(main, joins, i, n - 1); }
  }

  lemma NotReadTwice(main: string, joins: seq<Join>, i: nat, j: nat)
    requires Resolved(main, joins) && i < j < |joins|
    ensures joins[i].table != joins[j].table
  {
    TableIsBefore(main, joins, i, j);
    assert ResolvedAt(main, joins, j);
  }

  /** A table is read by one source only. */
  lemma OneSource(main: string, joins: seq<Join>, i: nat, j: nat)
    requires Resolved(main, joins) && i < |joins| && j < |joins| && joins[i].table == joins[j].table
    ensures i == j
  {
    if i < j { NotReadTwice(main, joins, i, j); }
    if j < i { NotReadTwice(main, joins, j, i); }
  }

  lemma {:induction false} InfoAt(main: string, info: TableInfo, joins: seq<Join>, n: nat, table: string)
    requires n <= |joins| && table in InfoBefore(main, info, joins, n)
    requires info.rename.None? && (table == main || forall i :: 0 <= i < n && joins[i].table == table ==> joins[i].info.rename.None?)
    requires forall i :: 0 <= i < n ==> joins[i].table != main
    ensures InfoBefore(main, info, joins, n)[table].rename.None?
  {
    if n > 0 && joins[n - 1].table != table { InfoAt(main, info, joins, n - 1, table); }
  }

  /** Every tie of a select the projection groups by reads one value in rows with
      the same own keys. */
  lemma TieAgreesByKeys(g: Grouping, mark: Labels, a: Joined, b: Joined, i: nat, tie: (string, string))
    requires Accepted(g) && SameOwnKeys(g, mark, a, b) && i < |g.joins|
    requires forall m :: 0 <= m < i && KeyedThrough(g, m) ==> RowOf(a, g.joins[m].table) == RowOf(b, g.joins[m].table)
    requires tie.0 in InfoBefore(g.main, g.info, g.joins, i) && GroupsBy(g.keys, g.main, g.joins, g.derived, tie.0, tie.1)
    ensures
      var before := InfoBefore(g.main, g.info, g.joins, i);
      TieCell(before, Restrict(a, before.Keys), tie) == TieCell(before, Restrict(b, before.Keys), tie)
  {
    var n :| 0 <= n < |g.keys| && KeyNames(g.keys[n], g.main, g.joins, g.derived, tie.0, tie.1);
    if Own(g, n) {
      OwnTieColumn(g, i, n, tie.0);
      assert KeyCell(g, mark, n, a) == KeyCell(g, mark, n, b);
    } else {
      DerivedTieTable(g, i, n, tie.0);
      assert RowOf(a, tie.0) == RowOf(b, tie.0);
    }
  }

  lemma TiesAgreeByKeys(g: Grouping, mark: Labels, a: Joined, b: Joined, i: nat)
    requires Accepted(g) && SameOwnKeys(g, mark, a, b) && i < |g.joins| && KeyedThrough(g, i)
    requires forall m :: 0 <= m < i && KeyedThrough(g, m) ==> RowOf(a, g.joins[m].table) == RowOf(b, g.joins[m].table)
    ensures
      var before := InfoBefore(g.main, g.info, g.joins, i);
      TiesAgree(g.joins[i], before, Restrict(a, before.Keys), Restrict(b, before.Keys))
  {
    var join, before := g.joins[i], InfoBefore(g.main, g.info, g.joins, i);
    InfoBeforeTables(g.main, g.info, g.joins, i);
    var n :| 0 <= n < |g.keys| && !Own(g, n) && g.derived[g.keys[n].Alias()] == i;
    forall tie | TiedBy(Conjuncts(join.on), join.table, before.Keys, tie)
      ensures TieCell(before, Restrict(a, before.Keys), tie) == TieCell(before, Restrict(b, before.Keys), tie)
    {
      assert TieOf(g.main, g.joins, i, tie);
      TieAgreesByKeys(g, mark, a, b, i, tie);
    }
  }

  /** Rows with the same own keys read alike in every earlier column the ON names. */
  lemma ReadsAlikeByKeys(g: Grouping, mark: Labels, a: Joined, b: Joined, i: nat)
    requires Accepted(g) && SameOwnKeys(g, mark, a, b) && i < |g.joins| && ReadsKeys(g, i)
    requires forall m :: 0 <= m < i && KeyedThrough(g, m) ==> RowOf(a, g.joins[m].table) == RowOf(b, g.joins[m].table)
    ensures
      var before := InfoBefore(g.main, g.info, g.joins, i);
      AgreeOutside(OutsideAll(g.joins[i].on, g.joins[i].table), before, Restrict(a, before.Keys), Restrict(b, before.Keys))
  {
    var before := InfoBefore(g.main, g.info, g.joins, i);
    forall c | c in OutsideAll(g.joins[i].on, g.joins[i].table) && c.0 in before
      ensures TieCell(before, Restrict(a, before.Keys), c) == TieCell(before, Restrict(b, before.Keys), c)
    {
      TieAgreesByKeys(g, mark, a, b, i, c);
    }
  }

  lemma OwnTieColumn(g: Grouping, i: nat, n: nat, table: string)
    requires Accepted(g) && i < |g.joins| && n < |g.keys| && Own(g, n) && TableOf(g.keys[n], g.main) == table
    requires table in InfoBefore(g.main, g.info, g.joins, i)
    ensures InfoBefore(g.main, g.info, g.joins, i)[table].rename.None?
  {
    forall m | 0 <= m < i ensures g.joins[m].table != g.main {
      assert ResolvedAt(g.main, g.joins, m);
      MainIsRead(g.main, g.joins[..m]);
    }
    forall m | 0 <= m < i && g.joins[m].table == table && table != g.main ensures g.joins[m].info.rename.None? {
      var s :| 0 <= s < |g.joins| && g.joins[s].table == table && g.joins[s].select.None?;
      OneSource(g.main, g.joins, m, s);
    }
    InfoAt(g.main, g.info, g.joins, i, table);
  }

  lemma {:induction false} MainIsRead(main: string, joins: seq<Join>)
    ensures main in Tables(main, joins)
  {
    if joins != [] { MainIsRead(main, joins[..|joins| - 1]); }
  }

  lemma DerivedTieTable(g: Grouping, i: nat, n: nat, table: string)
    requires Accepted(g) && i < |g.joins| && n < |g.keys| && !Own(g, n)
    requires g.joins[g.derived[g.keys[n].Alias()]].table == table && table in InfoBefore(g.main, g.info, g.joins, i)
    ensures g.derived[g.keys[n].Alias()] < i && KeyedThrough(g, g.derived[g.keys[n].Alias()])
  {
    var m := g.derived[g.keys[n].Alias()];
    InfoBeforeTables(g.main, g.info, g.joins, i);
    TablesIndex(g.main, g.joins, i, table);
    if table == g.main {
      assert ResolvedAt(g.main, g.joins, m);
      MainIsRead(g.main, g.joins[..m]);
      assert false;
    }
    var s :| 0 <= s < i && g.joins[s].table == table;
    OneSource(g.main, g.joins, m, s);
  }

  /** Rows agreeing on the ties of a proved join that both found a row in found
      the same row. */
  lemma SameRowFound(db: Database, k: Chain, join: Join, before: map<string, TableInfo>, contents: Contents, x: Joined, y: Joined, a: Row, b: Row)
    requires Unique(join, before.Keys) && join.table !in before && TiesAgree(join, before, x, y)
    requires forall m :: 0 <= m < |join.keys| ==> UniqueOn(RowsOf(contents, join.table), Renamed(join.info, join.keys[m]))
    requires a in RowsOf(contents, join.table) && OnHolds(db, k, join, before, x, a)
    requires b in RowsOf(contents, join.table) && OnHolds(db, k, join, before, y, b)
    ensures a == b
  {
    var rows := RowsOf(contents, join.table);
    var m :| 0 <= m < |join.keys| && join.keys[m] != [] && PinsAll(join, before.Keys, join.keys[m]);
    MatchesAgreeOnKey(db, k, join, before, x, y, a, b, join.keys[m]);
    var columns := Renamed(join.info, join.keys[m]);
    var i :| 0 <= i < |rows| && rows[i] == a;
    var j :| 0 <= j < |rows| && rows[j] == b;
    assert SameKey(b, a, columns);
    assert UniqueOn(rows, columns);
  }

  /** The row read of each select the projection groups by is a function of the
      own keys, by induction along the chain of joins. */
  lemma {:induction false} RowsDetermined(db: Database, k: Chain, g: Grouping, mark: Labels, contents: Contents, a: Joined, b: Joined, i: nat)
    requires Accepted(g) && Honours(contents, g.joins) && LeftJoinsReadKeys(g)
    requires Reached(db, k, g.main, g.info, g.joins, contents, a) && Reached(db, k, g.main, g.info, g.joins, contents, b)
    requires SameOwnKeys(g, mark, a, b) && i <= |g.joins|
    ensures forall m :: 0 <= m < i && KeyedThrough(g, m) ==> RowOf(a, g.joins[m].table) == RowOf(b, g.joins[m].table)
  {
    if i > 0 {
      var n := i - 1;
      RowsDetermined(db, k, g, mark, contents, a, b, n);
      if KeyedThrough(g, n) {
        assert ReachedAt(db, k, g.main, g.info, g.joins, contents, a, n) && ReachedAt(db, k, g.main, g.info, g.joins, contents, b, n);
        if g.joins[n].left { FoundByBoth(db, k, g, mark, contents, a, b, n); }
        FoundRowAgrees(db, k, g, mark, contents, a, b, n);
      }
    }
  }

  /** An ON that reads, besides its own table, only columns grouped by finds a row
      for both rows of the query or for neither. */
  lemma FoundByBoth(db: Database, k: Chain, g: Grouping, mark: Labels, contents: Contents, a: Joined, b: Joined, n: nat)
    requires Accepted(g) && n < |g.joins| && ReadsKeys(g, n) && SameOwnKeys(g, mark, a, b)
    requires ReachedAt(db, k, g.main, g.info, g.joins, contents, a, n) && ReachedAt(db, k, g.main, g.info, g.joins, contents, b, n)
    requires forall m :: 0 <= m < n && KeyedThrough(g, m) ==> RowOf(a, g.joins[m].table) == RowOf(b, g.joins[m].table)
    ensures Found(db, k, g, contents, a, n) <==> Found(db, k, g, contents, b, n)
  {
    var join, before := g.joins[n], InfoBefore(g.main, g.info, g.joins, n);
    var x, y := Restrict(a, before.Keys), Restrict(b, before.Keys);
    assert ResolvedAt(g.main, g.joins, n);
    ReadsAlikeByKeys(g, mark, a, b, n);
    OnTransfers(db, k, join, before, x, y, RowOf(a, join.table));
    OnTransfers(db, k, join, before, x, y, RowOf(b, join.table));
  }

  /** A grouped select's own keys alone tell its groups apart: two rows of the
      select that agree on them are in one group, whatever else it groups by. */
  lemma OwnKeysDetermineGroups(db: Database, k: Chain, g: Grouping, mark: Labels, rows: seq<Row>, contents: Contents, p: nat, q: nat)
    requires Accepted(g) && Honours(contents, g.joins) && LeftJoinsReadKeys(g)
    requires p < |ReadRows(db, k, g.main, g.info, g.joins, rows, contents)| && q < |ReadRows(db, k, g.main, g.info, g.joins, rows, contents)|
    ensures
      var read := ReadRows(db, k, g.main, g.info, g.joins, rows, contents);
      SameOwnKeys(g, mark, read[p], read[q]) <==> SameGroup(g, mark, read[p], read[q])
  {
    var read := ReadRows(db, k, g.main, g.info, g.joins, rows, contents);
    RowsAreReached(db, k, g.main, g.info, g.joins, rows, contents, p);
    RowsAreReached(db, k, g.main, g.info, g.joins, rows, contents, q);
    if SameOwnKeys(g, mark, read[p], read[q]) {
      RowsDetermined(db, k, g, mark, contents, read[p], read[q], |g.joins|);
      forall n | 0 <= n < |g.keys| ensures KeyCell(g, mark, n, read[p]) == KeyCell(g, mark, n, read[q]) {
        if !Own(g, n) { assert KeyedThrough(g, g.derived[g.keys[n].Alias()]); }
      }
    }
  }

  // ---- what splits a group ----

  /** The row of the query found a row of source i. */
  ghost predicate Found(db: Database, k: Chain, g: Grouping, contents: Contents, a: Joined, i: nat)
    requires i < |g.joins|
  {
    var before, table := InfoBefore(g.main, g.info, g.joins, i), g.joins[i].table;
    RowOf(a, table) in RowsOf(contents, table) && OnHolds(db, k, g.joins[i], before, Restrict(a, before.Keys), RowOf(a, table))
  }

  /** Both rows of the query found a row of every select LEFT joined and grouped
      through, or neither did. */
  ghost predicate FoundAlike(db: Database, k: Chain, g: Grouping, contents: Contents, a: Joined, b: Joined) {
    forall i :: 0 <= i < |g.joins| && KeyedThrough(g, i) && g.joins[i].left ==> (Found(db, k, g, contents, a, i) <==> Found(db, k, g, contents, b, i))
  }

  lemma {:induction false} FoundRowsAgree(db: Database, k: Chain, g: Grouping, mark: Labels, contents: Contents, a: Joined, b: Joined, i: nat)
    requires Accepted(g) && Honours(contents, g.joins) && FoundAlike(db, k, g, contents, a, b)
    requires Reached(db, k, g.main, g.info, g.joins, contents, a) && Reached(db, k, g.main, g.info, g.joins, contents, b)
    requires SameOwnKeys(g, mark, a, b) && i <= |g.joins|
    ensures forall m :: 0 <= m < i && KeyedThrough(g, m) ==> RowOf(a, g.joins[m].table) == RowOf(b, g.joins[m].table)
  {
    if i > 0 {
      var n := i - 1;
      FoundRowsAgree(db, k, g, mark, contents, a, b, n);
      if KeyedThrough(g, n) { FoundRowAgrees(db, k, g, mark, contents, a, b, n); }
    }
  }

  lemma FoundRowAgrees(db: Database, k: Chain, g: Grouping, mark: Labels, contents: Contents, a: Joined, b: Joined, n: nat)
    requires Accepted(g) && Honours(contents, g.joins) && n < |g.joins| && KeyedThrough(g, n) && SameOwnKeys(g, mark, a, b)
    requires ReachedAt(db, k, g.main, g.info, g.joins, contents, a, n) && ReachedAt(db, k, g.main, g.info, g.joins, contents, b, n)
    requires g.joins[n].left ==> (Found(db, k, g, contents, a, n) <==> Found(db, k, g, contents, b, n))
    requires forall m :: 0 <= m < n && KeyedThrough(g, m) ==> RowOf(a, g.joins[m].table) == RowOf(b, g.joins[m].table)
    ensures RowOf(a, g.joins[n].table) == RowOf(b, g.joins[n].table)
  {
    var join, before := g.joins[n], InfoBefore(g.main, g.info, g.joins, n);
    TiesAgreeByKeys(g, mark, a, b, n);
    InfoBeforeTables(g.main, g.info, g.joins, n);
    assert ResolvedAt(g.main, g.joins, n);
    if Found(db, k, g, contents, a, n) && Found(db, k, g, contents, b, n) {
      SameRowFound(db, k, join, before, contents, Restrict(a, before.Keys), Restrict(b, before.Keys), a[join.table], b[join.table]);
    }
  }

  /** Every row a LEFT-joined select offers holds a value in some term grouped by. */
  ghost predicate TellsFound(g: Grouping, contents: Contents) {
    forall i, r :: 0 <= i < |g.joins| && KeyedThrough(g, i) && g.joins[i].left && r in RowsOf(contents, g.joins[i].table) ==> ShowsTerm(g, i, r)
  }

  ghost predicate ShowsTerm(g: Grouping, i: nat, r: Row) {
    exists n :: 0 <= n < |g.keys| && !Own(g, n) && g.derived[g.keys[n].Alias()] == i && !Get(r, g.keys[n].Alias()).Null?
  }

  /** Through any chain of joins and whatever their ONs say, two rows read with the same
      own keys are in one group exactly when the LEFT joins grouped through found a row
      for both or for neither. */
  lemma GroupsAgreeExactly(db: Database, k: Chain, g: Grouping, mark: Labels, contents: Contents, a: Joined, b: Joined)
    requires Accepted(g) && Honours(contents, g.joins) && TellsFound(g, contents) && SameOwnKeys(g, mark, a, b)
    requires Reached(db, k, g.main, g.info, g.joins, contents, a) && Reached(db, k, g.main, g.info, g.joins, contents, b)
    ensures SameGroup(g, mark, a, b) <==> FoundAlike(db, k, g, contents, a, b)
  {
    if FoundAlike(db, k, g, contents, a, b) {
      FoundRowsAgree(db, k, g, mark, contents, a, b, |g.joins|);
      forall n | 0 <= n < |g.keys| ensures KeyCell(g, mark, n, a) == KeyCell(g, mark, n, b) {
        if !Own(g, n) { assert KeyedThrough(g, g.derived[g.keys[n].Alias()]); }
      }
    }
    if SameGroup(g, mark, a, b) {
      forall i | 0 <= i < |g.joins| && KeyedThrough(g, i) && g.joins[i].left
        ensures Found(db, k, g, contents, a, i) <==> Found(db, k, g, contents, b, i)
      {
        if Found(db, k, g, contents, a, i) { FoundIsShared(db, k, g, mark, contents, a, b, i); }
        if Found(db, k, g, contents, b, i) { FoundIsShared(db, k, g, mark, contents, b, a, i); }
      }
    }
  }

  lemma FoundIsShared(db: Database, k: Chain, g: Grouping, mark: Labels, contents: Contents, a: Joined, b: Joined, i: nat)
    requires Accepted(g) && TellsFound(g, contents) && SameGroup(g, mark, a, b) && i < |g.joins| && KeyedThrough(g, i) && g.joins[i].left
    requires ReachedAt(db, k, g.main, g.info, g.joins, contents, b, i) && Found(db, k, g, contents, a, i)
    ensures Found(db, k, g, contents, b, i)
  {
    assert ShowsTerm(g, i, RowOf(a, g.joins[i].table));
    var n :| 0 <= n < |g.keys| && !Own(g, n) && g.derived[g.keys[n].Alias()] == i && !Get(RowOf(a, g.joins[i].table), g.keys[n].Alias()).Null?;
    assert KeyCell(g, mark, n, a) == KeyCell(g, mark, n, b);
  }

  // ---- the derived table ----

  /** The rows GROUP BY answers: each of a group of rows read, no two of one
      group, the keys under their aliases. */
  ghost predicate IsGrouping(g: Grouping, mark: Labels, read: seq<Joined>, groups: seq<Row>, of: seq<nat>) {
    |of| == |groups| && (forall i :: 0 <= i < |of| ==> of[i] < |read|) &&
    (forall i, n :: 0 <= i < |groups| && 0 <= n < |g.keys| ==> Get(groups[i], g.keys[n].Alias()) == KeyCell(g, mark, n, read[of[i]])) &&
    forall i, j :: 0 <= i < j < |groups| ==> !SameGroup(g, mark, read[of[i]], read[of[j]])
  }

  /** The keys describe exports: the own keys, without the derived terms. */
  function OwnKeys(g: Grouping, n: nat): (keys: seq<Term>)
    requires n <= |g.keys|
  {
    if n == 0 then [] else OwnKeys(g, n - 1) + (if Own(g, n - 1) then [g.keys[n - 1]] else [])
  }

  lemma {:induction false} OwnKeysHold(g: Grouping, n: nat, m: nat)
    requires m < n <= |g.keys| && Own(g, m)
    ensures g.keys[m] in OwnKeys(g, n)
  {
    if m < n - 1 { OwnKeysHold(g, n - 1, m); }
  }

  function Aliases(keys: seq<Term>): (names: seq<string>)
    ensures |names| == |keys|
  {
    seq(|keys|, i requires 0 <= i < |keys| => keys[i].Alias())
  }

  /** So exporting the own keys as the derived table's unique key is right: the
      table honours it, and a query joining the select on it matches one row. */
  lemma DerivedTableHonoursItsKey(db: Database, k: Chain, g: Grouping, mark: Labels, rows: seq<Row>, contents: Contents, groups: seq<Row>, of: seq<nat>)
    requires Accepted(g) && Honours(contents, g.joins) && LeftJoinsReadKeys(g)
    requires IsGrouping(g, mark, ReadRows(db, k, g.main, g.info, g.joins, rows, contents), groups, of)
    ensures UniqueOn(groups, Aliases(OwnKeys(g, |g.keys|)))
  {
    var read := ReadRows(db, k, g.main, g.info, g.joins, rows, contents);
    var keys := OwnKeys(g, |g.keys|);
    forall i, j | 0 <= i < j < |groups| ensures !SameKey(groups[i], groups[j], Aliases(keys)) {
      if SameKey(groups[i], groups[j], Aliases(keys)) {
        forall n | 0 <= n < |g.keys| && Own(g, n) ensures KeyCell(g, mark, n, read[of[i]]) == KeyCell(g, mark, n, read[of[j]]) {
          OwnKeysHold(g, |g.keys|, n);
          var m :| 0 <= m < |keys| && keys[m] == g.keys[n];
          assert Aliases(keys)[m] == g.keys[n].Alias();
        }
        assert !SameGroup(g, mark, read[of[i]], read[of[j]]);
        OwnKeysDetermineGroups(db, k, g, mark, rows, contents, of[i], of[j]);
      }
    }
  }
}
