/** The pages and windows of a select over its joins: a join repeats no main row, and a
    group is told apart by its keys, so both are what the completed order asks for. */
module SelectRead {
  import opened Sql
  import opened Ordering
  import opened PageWalk
  import opened SelectPages
  import opened SelectOrder
  import Filters
  import FilterMeaning
  import Paging
  import PagingProof
  import Terms
  import JoinShape
  import JoinProof
  import GroupTheorem

  // ---- rows read through joins ----

  /** The rows WHERE keeps of those read. */
  function Keep(read: seq<JoinProof.Joined>, accepts: JoinProof.Joined -> bool): seq<JoinProof.Joined> {
    if read == [] then [] else (if accepts(read[0]) then [read[0]] else []) + Keep(read[1..], accepts)
  }

  predicate IsPart(part: seq<Row>, rows: seq<Row>)
    decreases |rows|
  {
    if rows == [] then part == []
    else IsPart(part, rows[1..]) || (part != [] && part[0] == rows[0] && IsPart(part[1..], rows[1..]))
  }

  lemma {:induction false} PartMembers(part: seq<Row>, rows: seq<Row>, r: Row)
    requires IsPart(part, rows) && r in part
    ensures r in rows
    decreases |rows|
  {
    if IsPart(part, rows[1..]) {
      PartMembers(part, rows[1..], r);
    } else if r != part[0] {
      PartMembers(part[1..], rows[1..], r);
    }
  }

  lemma HonoursTail(m: Paging.Model, rows: seq<Row>)
    requires rows != [] && PagingProof.Honours(m, rows)
    ensures PagingProof.Honours(m, rows[1..]) && PagingProof.HoldsNotNull(m, rows[0])
    ensures forall r :: r in rows[1..] ==> PagingProof.Apart(m, rows[0], r)
  {
    var rest := rows[1..];
    assert forall i :: 0 <= i < |rest| ==> rest[i] == rows[i + 1];
  }

  lemma HonoursCons(m: Paging.Model, r: Row, rest: seq<Row>)
    requires PagingProof.Honours(m, rest) && PagingProof.HoldsNotNull(m, r) && forall x :: x in rest ==> PagingProof.Apart(m, r, x)
    ensures PagingProof.Honours(m, [r] + rest)
  {
    var all := [r] + rest;
    assert forall i :: 0 < i < |all| ==> all[i] == rest[i - 1];
  }

  /** Part of a table honours what the table honours. */
  lemma {:induction false} PartHonours(m: Paging.Model, part: seq<Row>, rows: seq<Row>)
    requires IsPart(part, rows) && PagingProof.Honours(m, rows)
    ensures PagingProof.Honours(m, part)
    decreases |rows|
  {
    if rows != [] {
      HonoursTail(m, rows);
      if IsPart(part, rows[1..]) {
        PartHonours(m, part, rows[1..]);
      } else {
        PartHonours(m, part[1..], rows[1..]);
        forall x | x in part[1..] ensures PagingProof.Apart(m, part[0], x) { PartMembers(part[1..], rows[1..], x); }
        HonoursCons(m, part[0], part[1..]);
        assert part == [part[0]] + part[1..];
      }
    }
  }

  lemma {:induction false} SurvivorsArePart(db: FilterMeaning.Database, k: Filters.Chain, main: string, info: Filters.TableInfo, joins: seq<Terms.Join>, rows: seq<Row>, contents: JoinProof.Contents)
    ensures IsPart(JoinProof.Survivors(db, k, main, info, joins, rows, contents), rows)
  {
    if rows != [] {
      SurvivorsArePart(db, k, main, info, joins, rows[1..], contents);
      var all, rest := JoinProof.Survivors(db, k, main, info, joins, rows, contents), JoinProof.Survivors(db, k, main, info, joins, rows[1..], contents);
      if all != rest { assert all[1..] == rest; }
    }
  }

  lemma {:induction false} KeptArePart(main: string, read: seq<JoinProof.Joined>, accepts: JoinProof.Joined -> bool)
    ensures IsPart(JoinProof.MainRows(main, Keep(read, accepts)), JoinProof.MainRows(main, read))
  {
    if read != [] {
      KeptArePart(main, read[1..], accepts);
      var kept, rest := Keep(read, accepts), Keep(read[1..], accepts);
      var part, rows := JoinProof.MainRows(main, kept), JoinProof.MainRows(main, read);
      assert rows[1..] == JoinProof.MainRows(main, read[1..]);
      if accepts(read[0]) {
        assert kept == [read[0]] + rest && kept[1..] == rest;
        assert part[1..] == JoinProof.MainRows(main, rest) && part[0] == rows[0];
      } else {
        assert kept == rest;
      }
    }
  }

  /** The main rows a select reads through proved joins and keeps by its filters honour
      what the queried model declares: none is read twice. */
  lemma MainRowsHonour(db: FilterMeaning.Database, k: Filters.Chain, m: Paging.Model, main: string, info: Filters.TableInfo, joins: seq<Terms.Join>, rows: seq<Row>, contents: JoinProof.Contents, accepts: JoinProof.Joined -> bool)
    requires JoinShape.Resolved(main, joins) && JoinProof.Honours(contents, joins) && PagingProof.Honours(m, rows)
    ensures
      var read := JoinProof.ReadRows(db, k, main, info, joins, rows, contents);
      PagingProof.Honours(m, JoinProof.MainRows(main, Keep(read, accepts)))
  {
    var read := JoinProof.ReadRows(db, k, main, info, joins, rows, contents);
    JoinProof.JoinsRepeatNoRow(db, k, main, info, joins, rows, contents);
    SurvivorsArePart(db, k, main, info, joins, rows, contents);
    PartHonours(m, JoinProof.MainRows(main, read), rows);
    KeptArePart(main, read, accepts);
    PartHonours(m, JoinProof.MainRows(main, Keep(read, accepts)), JoinProof.MainRows(main, read));
  }

  /** The pages of a row-level select, through any joins and filters, hold each of its
      rows once and in one order, on every database, where the columns its completed
      order sorts by cover a key of the queried model. */
  lemma JoinedPagesPartition(db: FilterMeaning.Database, k: Filters.Chain, s: Shape, ordered: seq<Ordered>, info: Filters.TableInfo, joins: seq<Terms.Join>, table: seq<Row>, contents: JoinProof.Contents, accepts: JoinProof.Joined -> bool, rows: seq<Row>, size: nat, pages: seq<seq<Row>>)
    requires JoinShape.Resolved(s.model.table, joins) && JoinProof.Honours(contents, joins) && PagingProof.Honours(s.model, table)
    requires PagingProof.WellFormed(s.model) && !s.grouped && (s.joined <==> joins != [])
    requires PagingProof.CoversKey(s.model, SortColumns(PageNaming(s), Completed(s, ordered)))
    requires AllShown(PageNaming(s), JoinProof.MainRows(s.model.table, Keep(JoinProof.ReadRows(db, k, s.model.table, info, joins, table, contents), accepts)), rows)
    requires PagesRead(Completed(s, ordered), rows, size, pages)
    ensures Flatten(pages) == Take(Sort(Completed(s, ordered), rows), |pages| * size)
    ensures |rows| <= |pages| * size ==> multiset(Flatten(pages)) == multiset(rows)
  {
    var mains := JoinProof.MainRows(s.model.table, Keep(JoinProof.ReadRows(db, k, s.model.table, info, joins, table, contents), accepts));
    MainRowsHonour(db, k, s.model, s.model.table, info, joins, table, contents, accepts);
    CoveredRowsDoNotTie(s.model, PageNaming(s), Completed(s, ordered), mains, rows);
    UntiedPagesPartition(Completed(s, ordered), rows, size, pages);
  }

  /** A window over the rows a select reads through its joins has one order, where it
      sorts by columns covering a key of the queried model. */
  lemma JoinedWindowIsDetermined(db: FilterMeaning.Database, k: Filters.Chain, fn: WindowFn, s: Shape, orders: seq<Order>, info: Filters.TableInfo, joins: seq<Terms.Join>, table: seq<Row>, contents: JoinProof.Contents, accepts: JoinProof.Joined -> bool, rows: seq<Row>)
    requires JoinShape.Resolved(s.model.table, joins) && JoinProof.Honours(contents, joins) && PagingProof.Honours(s.model, table)
    requires PagingProof.WellFormed(s.model) && !s.grouped && (s.joined <==> joins != [])
    requires PagingProof.CoversKey(s.model, SortColumns(WindowNaming(s), Extended(orders, TieBreakers(fn, s))))
    requires AllShown(WindowNaming(s), JoinProof.MainRows(s.model.table, Keep(JoinProof.ReadRows(db, k, s.model.table, info, joins, table, contents), accepts)), rows)
    ensures Determined(Extended(orders, TieBreakers(fn, s)), rows)
  {
    var mains := JoinProof.MainRows(s.model.table, Keep(JoinProof.ReadRows(db, k, s.model.table, info, joins, table, contents), accepts));
    MainRowsHonour(db, k, s.model, s.model.table, info, joins, table, contents, accepts);
    CoveredRowsDoNotTie(s.model, WindowNaming(s), Extended(orders, TieBreakers(fn, s)), mains, rows);
    UntiedIsDetermined(Extended(orders, TieBreakers(fn, s)), rows);
  }

  // ---- groups ----

  /** The rows of groups show every group key under its name. */
  ghost predicate ShowsKeys(g: GroupTheorem.Grouping, mark: GroupTheorem.Labels, names: seq<string>, read: seq<JoinProof.Joined>, rows: seq<Row>, of: seq<nat>) {
    |names| == |g.keys| && |of| == |rows| && (forall i :: 0 <= i < |of| ==> of[i] < |read|) &&
    (forall i, n :: 0 <= i < |rows| && 0 <= n < |names| ==> Get(rows[i], names[n]) == GroupTheorem.KeyCell(g, mark, n, read[of[i]])) &&
    forall i, j :: 0 <= i < j < |rows| ==> !GroupTheorem.SameGroup(g, mark, read[of[i]], read[of[j]])
  }

  /** GROUP BY answers such rows, the keys under their aliases. */
  lemma GroupingShowsKeys(g: GroupTheorem.Grouping, mark: GroupTheorem.Labels, read: seq<JoinProof.Joined>, rows: seq<Row>, of: seq<nat>)
    requires GroupTheorem.IsGrouping(g, mark, read, rows, of)
    ensures ShowsKeys(g, mark, GroupTheorem.Aliases(g.keys), read, rows, of)
  {
  }

  lemma GroupsDiffer(g: GroupTheorem.Grouping, mark: GroupTheorem.Labels, names: seq<string>, read: seq<JoinProof.Joined>, rows: seq<Row>, of: seq<nat>, columns: set<string>)
    requires ShowsKeys(g, mark, names, read, rows, of) && forall n :: n in names ==> n in columns
    ensures forall i, j :: 0 <= i < j < |rows| ==> !PagingProof.AgreeOn(rows[i], rows[j], columns)
  {
    forall i, j | 0 <= i < j < |rows| ensures !PagingProof.AgreeOn(rows[i], rows[j], columns) {
      var n :| 0 <= n < |g.keys| && GroupTheorem.KeyCell(g, mark, n, read[of[i]]) != GroupTheorem.KeyCell(g, mark, n, read[of[j]]);
      assert names[n] in names;
    }
  }

  lemma {:induction false} KeysLeftNames(keys: seq<string>, ordered: seq<Ordered>, desc: bool)
    ensures forall k :: k in keys ==> k in PagingProof.Columns(KeysLeft(keys, ordered, desc)) || IsOrdered(ordered, k)
  {
    if keys != [] {
      var n := |keys| - 1;
      var rest, last := KeysLeft(keys[..n], ordered, desc), if IsOrdered(ordered, keys[n]) then [] else [Order(keys[n], desc)];
      KeysLeftNames(keys[..n], ordered, desc);
      PagingProof.ColumnsOfConcat(rest, last);
      assert keys == keys[..n] + [keys[n]];
      assert KeysLeft(keys, ordered, desc) == rest + last;
      if last != [] { assert last[0].column in PagingProof.Columns(last); }
    }
  }

  lemma OrderedNames(ordered: seq<Ordered>, alias: string)
    requires IsOrdered(ordered, alias)
    ensures alias in PagingProof.Columns(AsOrders(ordered))
  {
    var i :| 0 <= i < |ordered| && ordered[i].alias == alias;
    assert AsOrders(ordered)[i].column == alias;
  }

  /** The pages of a grouped select hold each of its groups once and in one order,
      whatever it groups by and reads: a select without keys has one group. */
  lemma GroupedPagesPartition(s: Shape, ordered: seq<Ordered>, g: GroupTheorem.Grouping, mark: GroupTheorem.Labels, read: seq<JoinProof.Joined>, rows: seq<Row>, of: seq<nat>, size: nat, pages: seq<seq<Row>>)
    requires s.grouped && s.keys == GroupTheorem.Aliases(g.keys) && GroupTheorem.IsGrouping(g, mark, read, rows, of)
    requires PagesRead(Completed(s, ordered), rows, size, pages)
    ensures Flatten(pages) == Take(Sort(Completed(s, ordered), rows), |pages| * size)
    ensures |rows| <= |pages| * size ==> multiset(Flatten(pages)) == multiset(rows)
  {
    var desc, orders := ordered != [] && ordered[|ordered| - 1].desc, Completed(s, ordered);
    GroupingShowsKeys(g, mark, read, rows, of);
    PagingProof.ColumnsOfConcat(AsOrders(ordered), Breakers(s, ordered));
    KeysLeftNames(s.keys, ordered, desc);
    forall k | k in s.keys ensures k in PagingProof.Columns(orders) { if IsOrdered(ordered, k) { OrderedNames(ordered, k); } }
    GroupsDiffer(g, mark, s.keys, read, rows, of, PagingProof.Columns(orders));
    PagingProof.DistinctRowsDoNotTie(orders, rows);
    UntiedPagesPartition(orders, rows, size, pages);
  }

  /** A window over groups has one order, the keys spelled as expressions. */
  lemma GroupedWindowIsDetermined(fn: WindowFn, s: Shape, orders: seq<Order>, g: GroupTheorem.Grouping, mark: GroupTheorem.Labels, read: seq<JoinProof.Joined>, rows: seq<Row>, of: seq<nat>)
    requires s.grouped && !fn.Ranking? && ShowsKeys(g, mark, s.keys, read, rows, of)
    ensures Determined(Extended(orders, TieBreakers(fn, s)), rows)
  {
    var items := Extended(orders, TieBreakers(fn, s));
    ExtendedIs(orders, s.keys);
    GroupsDiffer(g, mark, s.keys, read, rows, of, PagingProof.Columns(items));
    PagingProof.DistinctRowsDoNotTie(items, rows);
    UntiedIsDetermined(items, rows);
  }
}
