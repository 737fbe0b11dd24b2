/** resolveJoins: every source of a select resolved in order and proved before
    the next one is read (database/select_join.go). */
module JoinShape {
  import opened Sql
  import opened Filters
  import opened Terms
  import opened Joins

  /** The ON ties the source to a table read before it. */
  ghost predicate Correlated(join: Join, before: set<string>) {
    exists t :: TiedBy(Conjuncts(join.on), join.table, before, t)
  }

  /** The ON pins one of the source's keys whole. */
  ghost predicate Unique(join: Join, before: set<string>) {
    exists i :: 0 <= i < |join.keys| && join.keys[i] != [] && PinsAll(join, before, join.keys[i])
  }

  ghost predicate PinsAll(join: Join, before: set<string>, key: seq<string>) {
    forall n :: 0 <= n < |key| ==> PinnedBy(Conjuncts(join.on), join.table, before, key[n])
  }

  /** A tie to a derived table read before names one of its keys. */
  ghost predicate TiesKeys(join: Join, earlier: seq<Join>, before: set<string>) {
    forall i :: 0 <= i < |earlier| ==> TiesKeysOf(join, earlier[i], before)
  }

  ghost predicate TiesKeysOf(join: Join, other: Join, before: set<string>) {
    forall t :: TiedBy(Conjuncts(join.on), join.table, before, t) && other.table == t.0 && other.select.Some? ==> IsKey(other, t.1)
  }

  predicate IsKey(join: Join, column: string) {
    join.select.Some? && exists n :: 0 <= n < |join.select.value.keys| && join.select.value.keys[n].column == column
  }

  function Tables(main: string, joins: seq<Join>): set<string> {
    if joins == [] then {main} else Tables(main, joins[..|joins| - 1]) + {joins[|joins| - 1].table}
  }

  ghost predicate ResolvedAt(main: string, joins: seq<Join>, i: nat)
    requires i < |joins|
  {
    var before := Tables(main, joins[..i]);
    joins[i].table !in before && Correlated(joins[i], before) && TiesKeys(joins[i], joins[..i], before) && Unique(joins[i], before)
  }

  /** Everything a select reads may be relied on: no table twice, and every join
      proved against the tables before it. */
  ghost predicate Resolved(main: string, joins: seq<Join>) {
    forall i :: 0 <= i < |joins| ==> ResolvedAt(main, joins, i)
  }

  class Shape {
    const main: string
    var joins: seq<JoinedTable>
    var tables: map<string, TableInfo>

    constructor (main: string, info: TableInfo)
      ensures this.main == main && joins == [] && tables == map[main := info]
    {
      this.main, joins, tables := main, [], map[main := info];
    }

    ghost function Read(): (js: seq<Join>)
      reads this
      ensures |js| == |joins|
    {
      seq(|joins|, i requires 0 <= i < |joins| reads this => joins[i].join)
    }

    /** One source against the tables read before it: refused for the first of
        the rules it breaks. */
    method ResolveSource(source: Join) returns (jt: JoinedTable, err: Option<Error>)
      ensures fresh(jt) && jt.join == source
      ensures err == (
        if source.table in tables then Some(DuplicateTable)
        else if !Correlated(source, tables.Keys) then Some(NoCorrelation)
        else if !TiesKeys(source, Read(), tables.Keys) then Some(SelectColumn)
        else if !Unique(source, tables.Keys) then Some(NotUnique)
        else None)
    {
      jt := new JoinedTable(source);
      if source.table in tables { return jt, Some(DuplicateTable); }
      var pinned := jt.PinnedColumns(tables.Keys);
      if jt.joinColumns == {} { return jt, Some(NoCorrelation); }
      var t :| t in jt.joinColumns;
      for i := 0 to |joins|
        invariant forall j :: 0 <= j < i ==> TiesKeysOf(source, joins[j].join, tables.Keys)
      {
        var other := joins[i].join;
        var bad := exists t :: t in jt.joinColumns && other.table == t.0 && other.select.Some? && !IsKey(other, t.1);
        if bad { assert Read()[i] == other; return jt, Some(SelectColumn); }
      }
      var covers := CoversKey(pinned, source.keys);
      return jt, if covers then None else Some(NotUnique);
    }

    /** On success the shape reads exactly the sources, in order, each proved
        against the tables before it; it fails exactly when one cannot be. */
    method ResolveJoins(sources: seq<Join>) returns (err: Option<Error>)
      requires joins == [] && tables.Keys == {main}
      modifies this
      ensures err.None? <==> Resolved(main, sources)
      ensures err.None? ==> Read() == sources && tables.Keys == Tables(main, sources)
    {
      for n := 0 to |sources|
        invariant Read() == sources[..n] && tables.Keys == Tables(main, sources[..n])
        invariant Resolved(main, sources[..n])
        invariant forall i :: 0 <= i < |joins| ==> allocated(joins[i])
      {
        ResolvedStep(main, sources, n);
        var jt, failed := ResolveSource(sources[n]);
        if failed.Some? { return failed; }
        joins := joins + [jt];
        tables := tables[jt.join.table := jt.join.info];
        assert Read() == sources[..n] + [sources[n]] == sources[..n + 1];
        assert sources[..n + 1][..n] == sources[..n];
      }
      assert sources[..|sources|] == sources;
      return None;
    }
  }

  lemma ResolvedStep(main: string, sources: seq<Join>, n: nat)
    requires n < |sources| && Resolved(main, sources[..n])
    ensures Resolved(main, sources[..n + 1]) <==> ResolvedAt(main, sources, n)
    ensures Resolved(main, sources) ==> ResolvedAt(main, sources, n)
  {
    forall i | 0 <= i <= n
      ensures ResolvedAt(main, sources[..n + 1], i) == ResolvedAt(main, sources, i)
    {
      assert sources[..n + 1][..i] == sources[..i] && sources[..n + 1][i] == sources[i];
    }
    forall i | 0 <= i < n
      ensures ResolvedAt(main, sources, i)
    {
      assert ResolvedAt(main, sources[..n], i);
      assert sources[..n][..i] == sources[..i] && sources[..n][i] == sources[i];
    }
    if Resolved(main, sources[..n + 1]) { assert ResolvedAt(main, sources[..n + 1], n); }
    var now := sources[..n + 1];
    if ResolvedAt(main, sources, n) {
      forall i | 0 <= i < |now| ensures ResolvedAt(main, now, i) {
        assert ResolvedAt(main, sources, i);
      }
    }
  }
}
