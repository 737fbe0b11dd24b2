/** Which joins are accepted, read off their ON as it is written: an equality may name
    the joined table on either side, and a key is proved by values and by columns of
    tables read before. */
module JoinAccept {
  import opened Sql
  import opened Filters
  import opened Terms
  import opened Joins
  import opened JoinShape

  /** The filter compares a column of the table with a value. */
  predicate Fixes(f: Filter, table: string, column: string) {
    f.op.Eq? && f.column == column && (f.table == "" || f.table == table)
  }

  /** The filter equates a column of the table with a column of another one, whichever
      of the two it names first; only the joined table may go unnamed. */
  predicate Equates(f: Filter, table: string, column: string, other: string, otherColumn: string) {
    other != "" && other != table &&
    ((otherColumn != "" &&
      (f == Filter("", column, EqCol, Column(other, otherColumn)) || f == Filter(table, column, EqCol, Column(other, otherColumn)))) ||
     f == Filter(other, otherColumn, EqCol, Column(table, column)))
  }

  /** The filter equates the column with one of a table read before. */
  ghost predicate EquatesBefore(f: Filter, table: string, column: string, before: set<string>) {
    exists tie: (string, string) :: tie.0 in before && Equates(f, table, column, tie.0, tie.1)
  }

  // ---- one filter ----

  /** A filter pins a column exactly when it fixes it or equates it with a column read
      before. */
  lemma PinsExactly(f: Filter, table: string, before: set<string>, column: string)
    requires table != "" && column != ""
    ensures Pin(f, table, before) == column <==> Fixes(f, table, column) || EquatesBefore(f, table, column, before)
  {
    if Pin(f, table, before) == column && f.op.EqCol? {
      var sides := EqColSides(f, table);
      assert Equates(f, table, column, (sides.otherTable, sides.otherColumn).0, (sides.otherTable, sides.otherColumn).1);
    }
  }

  /** Written either way round, an equality with a table read before pins the column
      and ties it, and nothing else. */
  lemma EitherSideFirst(table: string, column: string, other: string, otherColumn: string, before: set<string>)
    requires "" !in {table, column, other, otherColumn} && table != other
    ensures forall f :: f in {Filter(table, column, EqCol, Column(other, otherColumn)), Filter(other, otherColumn, EqCol, Column(table, column))} ==>
      (forall c :: PinnedBy([f], table, before, c) <==> c == column && other in before) &&
      (forall tie :: TiedBy([f], table, before, tie) <==> tie == (other, otherColumn) && other in before)
  {
    SinglePin(Filter(table, column, EqCol, Column(other, otherColumn)), table, before);
    SinglePin(Filter(other, otherColumn, EqCol, Column(table, column)), table, before);
  }

  // ---- a whole ON ----

  /** The members of an AND group count as written beside it. */
  lemma AndGroupsAreSpliced(a: seq<Filter>, members: seq<Filter>, b: seq<Filter>)
    ensures Conjuncts(a + [Filter("", "", And, Group(members))] + b) == Conjuncts(a + members + b)
  {
    var group := Filter("", "", And, Group(members));
    assert Conjuncts([group]) == Conjuncts(members) by { assert [group][1..] == []; }
    ConjunctsAppend(a + [group], b);
    ConjunctsAppend(a, [group]);
    ConjunctsAppend(a + members, b);
    ConjunctsAppend(a, members);
  }

  /** Any other filter is a conjunct of the list it stands in. */
  lemma {:induction false} OthersAreConjuncts(filters: seq<Filter>, f: Filter)
    requires f in filters && !f.op.And?
    ensures f in Conjuncts(filters)
  {
    if filters[0] != f { OthersAreConjuncts(filters[1..], f); }
  }

  /** The ON fixes the column, or equates it with one read before. */
  ghost predicate Given(join: Join, before: set<string>, column: string) {
    column != "" && exists f :: f in Conjuncts(join.on) && (Fixes(f, join.table, column) || EquatesBefore(f, join.table, column, before))
  }

  lemma PinnedIsGiven(join: Join, before: set<string>, column: string)
    requires join.table != ""
    ensures PinnedBy(Conjuncts(join.on), join.table, before, column) <==> Given(join, before, column)
  {
    var fs := Conjuncts(join.on);
    if PinnedBy(fs, join.table, before, column) {
      var i :| 0 <= i < |fs| && Pin(fs[i], join.table, before) == column;
      PinsExactly(fs[i], join.table, before, column);
      assert fs[i] in fs;
    }
    if Given(join, before, column) {
      var f :| f in fs && (Fixes(f, join.table, column) || EquatesBefore(f, join.table, column, before));
      PinsExactly(f, join.table, before, column);
      var i :| 0 <= i < |fs| && fs[i] == f;
    }
  }

  /** The ON equates some column with this one of a table read before. */
  ghost predicate TiedTo(join: Join, before: set<string>, tie: (string, string)) {
    tie.0 in before && exists f, column :: f in Conjuncts(join.on) && column != "" && Equates(f, join.table, column, tie.0, tie.1)
  }

  /** What one filter ties the table to. */
  lemma TiesExactly(f: Filter, table: string, before: set<string>, tie: (string, string))
    requires table != "" && tie.0 in before
    ensures f.op.EqCol? && Pin(f, table, before) != "" && tie == (EqColSides(f, table).otherTable, EqColSides(f, table).otherColumn) <==>
      exists column :: column != "" && Equates(f, table, column, tie.0, tie.1)
  {
    if f.op.EqCol? && Pin(f, table, before) != "" && tie == (EqColSides(f, table).otherTable, EqColSides(f, table).otherColumn) {
      assert Equates(f, table, Pin(f, table, before), tie.0, tie.1);
    }
    if column :| column != "" && Equates(f, table, column, tie.0, tie.1) {
      assert Pin(f, table, before) == column;
    }
  }

  lemma TiedIsTiedTo(join: Join, before: set<string>, tie: (string, string))
    requires join.table != ""
    ensures TiedBy(Conjuncts(join.on), join.table, before, tie) <==> TiedTo(join, before, tie)
  {
    var fs := Conjuncts(join.on);
    if TiedBy(fs, join.table, before, tie) {
      var i :| 0 <= i < |fs| && fs[i].op.EqCol? && Pin(fs[i], join.table, before) != "" &&
        tie == (EqColSides(fs[i], join.table).otherTable, EqColSides(fs[i], join.table).otherColumn);
      TiesExactly(fs[i], join.table, before, tie);
      assert fs[i] in fs;
    }
    if TiedTo(join, before, tie) {
      var f, column :| f in fs && column != "" && Equates(f, join.table, column, tie.0, tie.1);
      var i :| 0 <= i < |fs| && fs[i] == f;
      TiesExactly(fs[i], join.table, before, tie);
    }
  }

  // ---- every join ----

  /** The tables read before source i. */
  function Earlier(main: string, joins: seq<Join>, i: nat): set<string>
    requires i <= |joins|
  {
    {main} + set j | 0 <= j < i :: joins[j].table
  }

  /** An ON names a derived table by its key alone. */
  ghost predicate NamesKeys(join: Join, earlier: seq<Join>, before: set<string>) {
    forall j, tie :: 0 <= j < |earlier| && TiedTo(join, before, tie) && earlier[j].table == tie.0 && earlier[j].select.Some? ==>
      exists key :: key in earlier[j].select.value.keys && key.column == tie.1
  }

  ghost predicate KeyGiven(join: Join, before: set<string>) {
    exists n :: 0 <= n < |join.keys| && join.keys[n] != [] && AllGiven(join, before, join.keys[n])
  }

  ghost predicate AllGiven(join: Join, before: set<string>, key: seq<string>) { forall c :: c in key ==> Given(join, before, c) }

  /** Source i may be joined: its table is new, its ON ties it to a table read before,
      to a derived one by its key alone, and gives every column of one of its keys. */
  ghost predicate Proved(main: string, joins: seq<Join>, i: nat)
    requires i < |joins|
  {
    var before := Earlier(main, joins, i);
    joins[i].table !in before && (exists tie :: TiedTo(joins[i], before, tie)) && NamesKeys(joins[i], joins[..i], before) && KeyGiven(joins[i], before)
  }

  lemma {:induction false} TablesAreEarlier(main: string, joins: seq<Join>, i: nat)
    requires i <= |joins|
    ensures Tables(main, joins[..i]) == Earlier(main, joins, i)
  {
    if i > 0 {
      TablesAreEarlier(main, joins, i - 1);
      assert joins[..i][..i - 1] == joins[..i - 1];
      assert Earlier(main, joins, i) == Earlier(main, joins, i - 1) + {joins[i - 1].table};
    }
  }

  lemma ResolvedIsProved(main: string, joins: seq<Join>, i: nat)
    requires i < |joins| && joins[i].table != ""
    ensures ResolvedAt(main, joins, i) <==> Proved(main, joins, i)
  {
    TablesAreEarlier(main, joins, i);
    UniqueIsGiven(joins[i], Earlier(main, joins, i));
    TiesName(joins[i], joins[..i], Earlier(main, joins, i));
  }

  lemma UniqueIsGiven(join: Join, before: set<string>)
    requires join.table != ""
    ensures Unique(join, before) <==> KeyGiven(join, before)
  {
    forall n | 0 <= n < |join.keys| ensures PinsAll(join, before, join.keys[n]) <==> AllGiven(join, before, join.keys[n]) {
      AllPinnedAreGiven(join, before, join.keys[n]);
    }
  }

  lemma AllPinnedAreGiven(join: Join, before: set<string>, key: seq<string>)
    requires join.table != ""
    ensures PinsAll(join, before, key) <==> AllGiven(join, before, key)
  {
    forall n | 0 <= n < |key| ensures PinnedBy(Conjuncts(join.on), join.table, before, key[n]) <==> Given(join, before, key[n]) {
      PinnedIsGiven(join, before, key[n]);
    }
    if AllGiven(join, before, key) { assert forall n :: 0 <= n < |key| ==> key[n] in key; }
  }

  lemma TiesName(join: Join, earlier: seq<Join>, before: set<string>)
    requires join.table != ""
    ensures Correlated(join, before) <==> exists tie :: TiedTo(join, before, tie)
    ensures TiesKeys(join, earlier, before) <==> NamesKeys(join, earlier, before)
  {
    forall tie ensures TiedBy(Conjuncts(join.on), join.table, before, tie) <==> TiedTo(join, before, tie) { TiedIsTiedTo(join, before, tie); }
    forall j | 0 <= j < |earlier|
      ensures TiesKeysOf(join, earlier[j], before) <==>
        forall tie :: TiedTo(join, before, tie) && earlier[j].table == tie.0 && earlier[j].select.Some? ==>
          exists key :: key in earlier[j].select.value.keys && key.column == tie.1
    {
      forall column | earlier[j].select.Some?
        ensures IsKey(earlier[j], column) <==> exists key :: key in earlier[j].select.value.keys && key.column == column
      {
        if key :| key in earlier[j].select.value.keys && key.column == column {
          var n :| 0 <= n < |earlier[j].select.value.keys| && earlier[j].select.value.keys[n] == key;
        }
      }
    }
  }

  /** A list of sources is accepted exactly when each may be joined in its place. */
  lemma AcceptedExactly(main: string, joins: seq<Join>)
    requires forall i :: 0 <= i < |joins| ==> joins[i].table != ""
    ensures Resolved(main, joins) <==> forall i :: 0 <= i < |joins| ==> Proved(main, joins, i)
  {
    forall i | 0 <= i < |joins| ensures ResolvedAt(main, joins, i) <==> Proved(main, joins, i) { ResolvedIsProved(main, joins, i); }
  }

  /** A table joined on one key column, the ON naming the queried table first. */
  lemma QueriedTableFirst(join: Join)
    requires join.table == "records" && join.keys == [["id"]] && join.on == [Filter("tags", "record_id", EqCol, Column("records", "id"))]
    ensures Resolved("tags", [join])
  {
    assert Tables("tags", [join][..0]) == {"tags"};
    assert Conjuncts(join.on) == join.on by { assert join.on[1..] == []; }
    EitherSideFirst("records", "id", "tags", "record_id", {"tags"});
    assert TiedBy(Conjuncts(join.on), join.table, {"tags"}, ("tags", "record_id"));
    assert PinsAll(join, {"tags"}, join.keys[0]);
    assert ResolvedAt("tags", [join], 0);
  }
}
