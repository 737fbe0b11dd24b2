/** When the completed order of a row-level select, and of a window over its rows, is
    total: exactly when the columns of the queried model its names stand for cover a
    key. A name in an ORDER BY is an output alias before it is a column; inside OVER it
    is a column. */
module SelectOrder {
  import opened Sql
  import opened Ordering
  import opened Paging
  import opened PagingProof
  import opened SelectPages

  /** The column of the queried model a name sorts by, None for any other expression. */
  type Naming = string -> Option<string>

  ghost predicate Shows(shown: Naming, main: Row, out: Row) {
    forall n :: shown(n).Some? ==> Get(out, n) == Get(main, shown(n).value)
  }

  ghost predicate AllShown(shown: Naming, mains: seq<Row>, rows: seq<Row>) {
    |mains| == |rows| && forall i {:trigger Shows(shown, mains[i], rows[i])} :: 0 <= i < |rows| ==> Shows(shown, mains[i], rows[i])
  }

  /** The names that stand for columns are among names. */
  ghost predicate Supports(shown: Naming, names: seq<string>) { forall n :: shown(n).Some? ==> n in names }

  function SortColumns(shown: Naming, orders: seq<Order>): set<string> {
    set i | 0 <= i < |orders| && shown(orders[i].column).Some? :: shown(orders[i].column).value
  }

  // ---- any list of orders ----

  /** Rows that tie show rows of the model agreeing on the columns sorted by. */
  lemma TiedRowsAgree(shown: Naming, orders: seq<Order>, a: Row, b: Row, x: Row, y: Row)
    requires Shows(shown, a, x) && Shows(shown, b, y) && AgreeOn(x, y, Columns(orders))
    ensures AgreeOn(a, b, SortColumns(shown, orders))
  {
    forall c | c in SortColumns(shown, orders) ensures Get(a, c) == Get(b, c) {
      var i :| 0 <= i < |orders| && shown(orders[i].column) == Some(c);
      assert orders[i].column in Columns(orders);
    }
  }

  lemma CoveredRowsDoNotTie(m: Model, shown: Naming, orders: seq<Order>, mains: seq<Row>, rows: seq<Row>)
    requires WellFormed(m) && CoversKey(m, SortColumns(shown, orders)) && Honours(m, mains) && AllShown(shown, mains, rows)
    ensures NoTies(orders, rows)
  {
    forall i, j | 0 <= i < j < |rows| ensures !AgreeOn(rows[i], rows[j], Columns(orders)) {
      assert Shows(shown, mains[i], rows[i]) && Shows(shown, mains[j], rows[j]);
      CoveredRowsDiffer(m, SortColumns(shown, orders), mains[i], mains[j]);
      if AgreeOn(rows[i], rows[j], Columns(orders)) { TiedRowsAgree(shown, orders, mains[i], mains[j], rows[i], rows[j]); }
    }
    DistinctRowsDoNotTie(orders, rows);
  }

  function OrderNames(orders: seq<Order>): seq<string> { seq(|orders|, i requires 0 <= i < |orders| => orders[i].column) }

  /** A result row showing main, zero under every other name, and marked apart. */
  function Shown(shown: Naming, names: seq<string>, main: Row, mark: int): Row {
    (map n | n in names :: if shown(n).Some? then Get(main, shown(n).value) else Num(0))[Longer(names) := Num(mark)]
  }

  lemma ShownShows(shown: Naming, names: seq<string>, main: Row, mark: int)
    requires Supports(shown, names)
    ensures Shows(shown, main, Shown(shown, names, main, mark))
  {
    LongerIsLonger(names);
  }

  lemma ShownTie(shown: Naming, names: seq<string>, orders: seq<Order>, a: Row, b: Row)
    requires (forall i :: 0 <= i < |orders| ==> orders[i].column in names) && AgreeOn(a, b, SortColumns(shown, orders))
    ensures AgreeOn(Shown(shown, names, a, 0), Shown(shown, names, b, 1), Columns(orders))
  {
    LongerIsLonger(names);
    forall n | n in Columns(orders) ensures Get(Shown(shown, names, a, 0), n) == Get(Shown(shown, names, b, 1), n) {
      var i :| 0 <= i < |orders| && orders[i].column == n;
      if shown(n).Some? { assert shown(n).value in SortColumns(shown, orders); }
    }
  }

  /** Two rows of a table honouring the model, and two different result rows showing
      them that tie. */
  lemma TiedTable(m: Model, shown: Naming, names: seq<string>, orders: seq<Order>) returns (mains: seq<Row>, rows: seq<Row>)
    requires WellFormed(m) && Supports(shown, names) && !CoversKey(m, SortColumns(shown, orders))
    ensures Honours(m, mains) && AllShown(shown, mains, rows) && |rows| == 2 && rows[0] != rows[1]
    ensures AgreeOn(rows[0], rows[1], Columns(orders))
  {
    var columns, all := SortColumns(shown, orders), names + OrderNames(orders);
    var a, b := Twin(m, columns, false), Twin(m, columns, true);
    TwinsHonour(m, columns);
    forall i | 0 <= i < |orders| ensures orders[i].column in all { assert all[|names| + i] == orders[i].column; }
    ShownShows(shown, all, a, 0);
    ShownShows(shown, all, b, 1);
    ShownTie(shown, all, orders, a, b);
    mains, rows := [a, b], [Shown(shown, all, a, 0), Shown(shown, all, b, 1)];
    assert Get(rows[0], Longer(all)) != Get(rows[1], Longer(all));
  }

  /** Orders leave no ties, on any table honouring the model, exactly when the columns
      their names stand for cover a key. */
  lemma NamedOrderIsTotalExactly(m: Model, shown: Naming, names: seq<string>, orders: seq<Order>)
    requires WellFormed(m) && Supports(shown, names)
    ensures CoversKey(m, SortColumns(shown, orders)) <==>
      forall mains, rows :: Honours(m, mains) && AllShown(shown, mains, rows) ==> NoTies(orders, rows)
  {
    if CoversKey(m, SortColumns(shown, orders)) {
      forall mains, rows | Honours(m, mains) && AllShown(shown, mains, rows) ensures NoTies(orders, rows) {
        CoveredRowsDoNotTie(m, shown, orders, mains, rows);
      }
    } else {
      var mains, rows := TiedTable(m, shown, names, orders);
      TieMeansAgree(orders, rows[0], rows[1]);
      assert !NoTies(orders, rows);
    }
  }

  // ---- pages ----

  function Find(terms: seq<Projected>, alias: string): Option<Projected> {
    if terms == [] then None else if terms[0].alias == alias then Some(terms[0]) else Find(terms[1..], alias)
  }

  /** What a name of the ORDER BY sorts by: the term of that alias, and only without one
      the primary key it spells. */
  function PageNaming(s: Shape): Naming {
    (n: string) =>
      if Find(s.terms, n).Some? then Find(s.terms, n).value.column
      else if n == s.Rendered("id") then Some("id") else None
  }

  function Aliases(terms: seq<Projected>): seq<string> { seq(|terms|, i requires 0 <= i < |terms| => terms[i].alias) }

  lemma {:induction false} FoundIsProjected(terms: seq<Projected>, alias: string)
    ensures Find(terms, alias).Some? ==>
      Find(terms, alias).value in terms && Find(terms, alias).value.alias == alias && alias in Aliases(terms)
  {
    if terms != [] && terms[0].alias != alias {
      FoundIsProjected(terms[1..], alias);
      assert forall i :: 0 <= i < |terms[1..]| ==> Aliases(terms)[i + 1] == Aliases(terms[1..])[i];
    } else if terms != [] {
      assert Aliases(terms)[0] == alias;
    }
  }

  lemma PageNamesSupport(s: Shape)
    ensures Supports(PageNaming(s), Aliases(s.terms) + [s.Rendered("id")])
  {
    var names := Aliases(s.terms) + [s.Rendered("id")];
    assert names[|names| - 1] == s.Rendered("id");
    forall n | PageNaming(s)(n).Some? ensures n in names { FoundIsProjected(s.terms, n); }
  }

  /** The completed order of a row-level select's page is total over every table exactly
      when the columns it sorts by, aliases read before columns, cover a key. */
  lemma CompletedSelectIsTotalExactly(s: Shape, ordered: seq<Ordered>)
    requires WellFormed(s.model) && !s.grouped
    ensures CoversKey(s.model, SortColumns(PageNaming(s), Completed(s, ordered))) <==>
      forall mains, rows :: Honours(s.model, mains) && AllShown(PageNaming(s), mains, rows) ==> NoTies(Completed(s, ordered), rows)
  {
    PageNamesSupport(s);
    NamedOrderIsTotalExactly(s.model, PageNaming(s), Aliases(s.terms) + [s.Rendered("id")], Completed(s, ordered));
  }

  /** Validated terms: aliases differ and hold no dot, and what is ordered by is among
      the terms. */
  predicate Projects(s: Shape, ordered: seq<Ordered>) {
    (forall i, j :: 0 <= i < j < |s.terms| ==> s.terms[i].alias != s.terms[j].alias) &&
    (forall i :: 0 <= i < |s.terms| ==> '.' !in s.terms[i].alias) &&
    forall i :: 0 <= i < |ordered| ==> Projected(ordered[i].alias, ordered[i].column) in s.terms
  }

  /** The appended id sorts by the primary key: Qualify finds it projected, or the select
      joins and spells it qualified, or no other term is projected under the alias id. */
  predicate IdInReach(s: Shape) {
    if s.qualified then ProjectedId(s.terms).Some?
    else s.joined || forall i :: 0 <= i < |s.terms| && s.terms[i].alias == "id" ==> s.terms[i].column == Some("id")
  }

  lemma {:induction false} FindAlias(terms: seq<Projected>, i: nat)
    requires i < |terms| && forall a, b :: 0 <= a < b < |terms| ==> terms[a].alias != terms[b].alias
    ensures Find(terms, terms[i].alias) == Some(terms[i])
  {
    if i > 0 {
      var rest := terms[1..];
      assert forall k :: 0 <= k < |rest| ==> rest[k] == terms[k + 1];
      FindAlias(rest, i - 1);
    }
  }

  lemma {:induction false} ProjectedIdIs(terms: seq<Projected>)
    ensures ProjectedId(terms).Some? ==> Projected(ProjectedId(terms).value, Some("id")) in terms
  {
    if terms != [] { ProjectedIdIs(terms[..|terms| - 1]); }
  }

  lemma TermIsNamed(s: Shape, ordered: seq<Ordered>, t: Projected)
    requires Projects(s, ordered) && t in s.terms
    ensures PageNaming(s)(t.alias) == t.column
  {
    var i :| 0 <= i < |s.terms| && s.terms[i] == t;
    FindAlias(s.terms, i);
  }

  /** The rendered id, unless a select without joins projects another term as id. */
  lemma RenderedIdIsNamed(s: Shape, ordered: seq<Ordered>)
    requires Projects(s, ordered) && !s.qualified
    ensures IdInReach(s) <==> PageNaming(s)(s.Rendered("id")) == Some("id")
  {
    var name := s.Rendered("id");
    FoundIsProjected(s.terms, name);
    if s.joined {
      assert name[|s.model.table|] == '.';
      assert Find(s.terms, name).None?;
    } else if i :| 0 <= i < |s.terms| && s.terms[i].alias == "id" {
      FindAlias(s.terms, i);
    }
  }

  lemma OrderedColumnIsSorted(s: Shape, ordered: seq<Ordered>, i: nat)
    requires Projects(s, ordered) && i < |ordered| && ordered[i].column.Some?
    ensures ordered[i].column.value in SortColumns(PageNaming(s), Completed(s, ordered))
  {
    TermIsNamed(s, ordered, Projected(ordered[i].alias, ordered[i].column));
    assert Completed(s, ordered)[i].column == ordered[i].alias;
  }

  lemma AppendedIdIsSorted(s: Shape, ordered: seq<Ordered>)
    requires Projects(s, ordered) && !s.grouped && s.HasId() && !NamesIdentifying(ordered, s) && IdInReach(s)
    ensures "id" in SortColumns(PageNaming(s), Completed(s, ordered))
  {
    var orders := Completed(s, ordered);
    var last := orders[|ordered|];
    assert last == Breakers(s, ordered)[0];
    if s.qualified {
      ProjectedIdIs(s.terms);
      TermIsNamed(s, ordered, Projected(last.column, Some("id")));
    } else {
      RenderedIdIsNamed(s, ordered);
    }
  }

  /** With the id for a primary key, as a base model has it, a page's order is total
      where another identifying column is ordered by or the appended id is in reach; and
      only there, where the model has no unique index besides. */
  lemma BaseModelSelectCompletes(s: Shape, ordered: seq<Ordered>)
    requires WellFormed(s.model) && Primary(s.model) == {"id"} && !s.grouped && Projects(s, ordered)
    ensures NamesIdentifying(ordered, s) || IdInReach(s) ==> CoversKey(s.model, SortColumns(PageNaming(s), Completed(s, ordered)))
    ensures s.model.indexes == [] ==>
      (CoversKey(s.model, SortColumns(PageNaming(s), Completed(s, ordered))) <==> NamesIdentifying(ordered, s) || IdInReach(s))
  {
    IdIsColumn(s.model);
    if NamesIdentifying(ordered, s) {
      IdentifyingOrderCovers(s, ordered);
    } else if IdInReach(s) {
      AppendedIdIsSorted(s, ordered);
    } else {
      IdIsNotSorted(s, ordered);
      assert "id" in Primary(s.model);
    }
  }

  lemma IdIsColumn(m: Model)
    requires Primary(m) == {"id"}
    ensures IsColumn(m, "id", true) && IsColumn(m, "id", false)
  {
    assert "id" in Primary(m);
    var j :| 0 <= j < |m.columns| && m.columns[j].primary && m.columns[j].name == "id";
  }

  lemma IdentifyingOrderCovers(s: Shape, ordered: seq<Ordered>)
    requires WellFormed(s.model) && |Primary(s.model)| == 1 && Projects(s, ordered) && NamesIdentifying(ordered, s)
    ensures CoversKey(s.model, SortColumns(PageNaming(s), Completed(s, ordered)))
  {
    var i :| 0 <= i < |ordered| && ordered[i].column.Some? && Identifies(s.model, ordered[i].column.value);
    var orders := [Order(ordered[i].column.value, false)];
    assert orders[0].column == ordered[i].column.value;
    SingleColumnCovers(s.model, orders, 0);
    ColumnsOfOne(orders[0]);
    OrderedColumnIsSorted(s, ordered, i);
    assert Columns(orders) <= SortColumns(PageNaming(s), Completed(s, ordered));
  }

  /** Nothing sorts by the id where it is neither ordered by nor in reach. */
  lemma IdIsNotSorted(s: Shape, ordered: seq<Ordered>)
    requires Projects(s, ordered) && !s.grouped && IsColumn(s.model, "id", true) && !NamesIdentifying(ordered, s) && !IdInReach(s)
    ensures "id" !in SortColumns(PageNaming(s), Completed(s, ordered))
  {
    var orders := Completed(s, ordered);
    forall i | 0 <= i < |orders| ensures PageNaming(s)(orders[i].column) != Some("id") {
      if i < |ordered| {
        TermIsNamed(s, ordered, Projected(ordered[i].alias, ordered[i].column));
        assert orders[i].column == ordered[i].alias;
        assert Identifies(s.model, "id");
      } else {
        RenderedIdIsNamed(s, ordered);
        assert orders[i] == Breakers(s, ordered)[i - |ordered|];
      }
    }
  }

  lemma FindOne(t: Projected, name: string)
    ensures Find([t], name) == if t.alias == name then Some(t) else None
  {
    assert [t][1..] == [];
  }

  const Items: Model := Model("items", [ColumnDef("kind", true, false), ColumnDef("id", true, false)], [])
  const Notes: Model := Model("notes", [ColumnDef("id", true, false)], [])

  /** A model keyed by a kind and an id, paged without an order: the select appends the
      id alone, and rows of one id and two kinds tie. */
  lemma CompositeSelectTies()
    ensures
      var s, mains := Shape(Items, false, [], [Projected("total", None)], false, false), [map["kind" := Num(1), "id" := Num(1)], map["kind" := Num(2), "id" := Num(1)]];
      var rows := [map["id" := Num(1), "total" := Num(5)], map["id" := Num(1), "total" := Num(6)]];
      WellFormed(Items) && Honours(Items, mains) && AllShown(PageNaming(s), mains, rows) && Completed(s, []) == [Order("id", false)] &&
      !NoTies(Completed(s, []), rows)
  {
    var s, mains := Shape(Items, false, [], [Projected("total", None)], false, false), [map["kind" := Num(1), "id" := Num(1)], map["kind" := Num(2), "id" := Num(1)]];
    var rows := [map["id" := Num(1), "total" := Num(5)], map["id" := Num(1), "total" := Num(6)]];
    assert Items.columns[0].name == "kind" && Items.columns[1].name == "id";
    assert "kind" in Primary(Items) && !AgreeOn(mains[0], mains[1], Primary(Items)) by { assert Get(mains[0], "kind") != Get(mains[1], "kind"); }
    assert IsColumn(Items, "id", false) && s.HasId();
    assert Completed(s, []) == [Order("id", false)];
    forall n ensures PageNaming(s)(n).Some? ==> n == "id" { FindOne(s.terms[0], n); }
    assert Shows(PageNaming(s), mains[0], rows[0]) && Shows(PageNaming(s), mains[1], rows[1]);
    ColumnsOfOne(Order("id", false));
    TieMeansAgree(Completed(s, []), rows[0], rows[1]);
  }

  /** A select without joins that numbers its rows by kind as id: its pages are sorted by
      that number, not by the primary key, and two kinds' first rows tie. */
  lemma ShadowedIdTies()
    ensures
      var s := Shape(Notes, false, [], [Projected("id", None)], false, false);
      var mains, rows := [map["id" := Num(1)], map["id" := Num(2)]], [map["id" := Num(1)], map["id" := Num(1)]];
      WellFormed(Notes) && Primary(Notes) == {"id"} && Projects(s, []) && Honours(Notes, mains) && AllShown(PageNaming(s), mains, rows) &&
      Completed(s, []) == [Order("id", false)] && !NoTies(Completed(s, []), rows)
  {
    var s := Shape(Notes, false, [], [Projected("id", None)], false, false);
    var mains, rows := [map["id" := Num(1)], map["id" := Num(2)]], [map["id" := Num(1)], map["id" := Num(1)]];
    assert Notes.columns[0].name == "id" && "id" in Primary(Notes) && Primary(Notes) == {"id"};
    assert !AgreeOn(mains[0], mains[1], Primary(Notes)) by { assert Get(mains[0], "id") != Get(mains[1], "id"); }
    assert IsColumn(Notes, "id", false) && s.HasId() && Completed(s, []) == [Order("id", false)];
    forall n ensures PageNaming(s)(n) == None { FindOne(s.terms[0], n); }
    assert Shows(PageNaming(s), mains[0], rows[0]) && Shows(PageNaming(s), mains[1], rows[1]);
    ColumnsOfOne(Order("id", false));
    TieMeansAgree(Completed(s, []), rows[0], rows[1]);
  }

  // ---- windows ----

  /** The column of the queried model an expression inside OVER spells. */
  function Spelled(s: Shape, columns: seq<ColumnDef>, n: string): Option<string> {
    if columns == [] then None
    else if s.Rendered(columns[0].name) == n then Some(columns[0].name) else Spelled(s, columns[1..], n)
  }

  function WindowNaming(s: Shape): Naming { (n: string) => Spelled(s, s.model.columns, n) }

  function Spellings(s: Shape, columns: seq<ColumnDef>): seq<string> {
    seq(|columns|, i requires 0 <= i < |columns| => s.Rendered(columns[i].name))
  }

  lemma {:induction false} SpelledIsListed(s: Shape, columns: seq<ColumnDef>, n: string)
    ensures Spelled(s, columns, n).Some? ==> n in Spellings(s, columns)
  {
    if columns != [] && s.Rendered(columns[0].name) != n {
      SpelledIsListed(s, columns[1..], n);
      assert forall i :: 0 <= i < |columns[1..]| ==> Spellings(s, columns)[i + 1] == Spellings(s, columns[1..])[i];
    } else if columns != [] {
      assert Spellings(s, columns)[0] == n;
    }
  }

  /** The rows of a partition have one order. */
  ghost predicate Determined(orders: seq<Order>, rows: seq<Row>) {
    forall a, b :: IsSorting(orders, rows, a) && IsSorting(orders, rows, b) ==> a == b
  }

  lemma UntiedIsDetermined(orders: seq<Order>, rows: seq<Row>)
    requires NoTies(orders, rows)
    ensures Determined(orders, rows)
  {
    NoTiesIsAntisymmetric(orders, rows);
    forall a, b | IsSorting(orders, rows, a) && IsSorting(orders, rows, b) ensures a == b {
      forall r | r in a ensures r in rows { SameBagMember(a, rows, r); }
      SortingIsUnique(orders, rows, a, b);
    }
  }

  lemma TiedPairIsNotDetermined(orders: seq<Order>, rows: seq<Row>)
    requires |rows| == 2 && rows[0] != rows[1] && AgreeOn(rows[0], rows[1], Columns(orders))
    ensures !Determined(orders, rows)
  {
    var a, b := rows, [rows[1], rows[0]];
    TieMeansAgree(orders, rows[0], rows[1]);
    assert rows == [rows[0], rows[1]];
    assert multiset(rows) == multiset(b);
    assert IsSorting(orders, rows, a) && IsSorting(orders, rows, b);
  }

  /** A row number, a running total or the row before does not depend on how the
      database holds the rows, over every table, exactly when the columns of the model
      the window sorts by, its primary key's id among them, cover a key. */
  lemma WindowIsDeterminedExactly(fn: WindowFn, s: Shape, orders: seq<Order>)
    requires WellFormed(s.model) && !s.grouped && !fn.Ranking? && orders != []
    ensures
      var items := Extended(orders, TieBreakers(fn, s));
      CoversKey(s.model, SortColumns(WindowNaming(s), items)) <==>
      forall mains, rows :: Honours(s.model, mains) && AllShown(WindowNaming(s), mains, rows) ==> Determined(items, rows)
  {
    var items, names := Extended(orders, TieBreakers(fn, s)), Spellings(s, s.model.columns);
    forall n | WindowNaming(s)(n).Some? ensures n in names { SpelledIsListed(s, s.model.columns, n); }
    if CoversKey(s.model, SortColumns(WindowNaming(s), items)) {
      forall mains, rows | Honours(s.model, mains) && AllShown(WindowNaming(s), mains, rows) ensures Determined(items, rows) {
        CoveredRowsDoNotTie(s.model, WindowNaming(s), items, mains, rows);
        UntiedIsDetermined(items, rows);
      }
    } else {
      var mains, rows := TiedTable(s.model, WindowNaming(s), names, items);
      TiedPairIsNotDetermined(items, rows);
    }
  }

  lemma SpelledAlike(s: Shape, a: string, b: string)
    requires s.Rendered(a) == s.Rendered(b)
    ensures a == b
  {
    var prefix := if s.joined then s.model.table + "." else "";
    assert s.Rendered(a) == prefix + a && s.Rendered(b) == prefix + b;
    assert a == s.Rendered(a)[|prefix|..] && b == s.Rendered(b)[|prefix|..];
  }

  lemma {:induction false} IdIsSpelled(s: Shape, columns: seq<ColumnDef>)
    requires exists i :: 0 <= i < |columns| && columns[i].name == "id"
    ensures Spelled(s, columns, s.Rendered("id")) == Some("id")
  {
    if columns[0].name == "id" { return; }
    if s.Rendered(columns[0].name) == s.Rendered("id") { SpelledAlike(s, columns[0].name, "id"); }
    var i :| 0 <= i < |columns| && columns[i].name == "id";
    assert columns[1..][i - 1].name == "id";
    IdIsSpelled(s, columns[1..]);
  }

  /** With the id for a primary key every ordered window but a ranking one is completed:
      it sorts by the id, and no answer depends on how the database holds the rows. */
  lemma BaseModelWindowCompletes(fn: WindowFn, s: Shape, orders: seq<Order>)
    requires WellFormed(s.model) && Primary(s.model) == {"id"} && !s.grouped && !fn.Ranking? && orders != []
    ensures
      var items := Extended(orders, TieBreakers(fn, s));
      CoversKey(s.model, SortColumns(WindowNaming(s), items)) &&
      forall mains, rows :: Honours(s.model, mains) && AllShown(WindowNaming(s), mains, rows) ==> Determined(items, rows)
  {
    var items := Extended(orders, TieBreakers(fn, s));
    IdIsColumn(s.model);
    IdIsSpelled(s, s.model.columns);
    ExtendedIs(orders, TieBreakers(fn, s));
    assert [s.Rendered("id")][0] in Columns(items);
    var i :| 0 <= i < |items| && items[i].column == s.Rendered("id");
    assert "id" in SortColumns(WindowNaming(s), items);
    WindowIsDeterminedExactly(fn, s, orders);
  }
}
