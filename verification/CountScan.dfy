/** The statement a select builds in each of its modes (database/select.go): to be read,
    to be counted, and as a member of a union either way. A count keeps only what
    decides how many rows there are, and counts as many as the read answers. */
module CountScan {
  import opened Sql
  import opened Ordering
  import opened Terms
  import opened SelectShape

  /** One entry of a SELECT list; a term, or what stands in for an empty list. */
  datatype Item = Of(term: Term) | CountAll | Marker
  {
    function Name(): string { if Of? then term.Alias() else if CountAll? then "groups" else "row_marker" }
  }

  /** A statement over rows filtered and joined already. having and qualified tell
      whether it carries conditions of either. */
  datatype Statement = Statement(items: seq<Item>, groupBy: seq<Term>, having: bool, qualified: bool)

  // ---- the four statements ----

  function ByAlias(terms: seq<Term>, alias: string): Term
    requires IsAlias(terms, alias)
  {
    if terms[0].Alias() == alias then terms[0] else ByAlias(terms[1..], alias)
  }

  lemma {:induction false} ByAliasIs(terms: seq<Term>, n: nat)
    requires n < |terms| && AliasesDiffer(terms)
    ensures ByAlias(terms, terms[n].Alias()) == terms[n]
  {
    if n > 0 {
      var rest := terms[1..];
      assert forall k :: 0 <= k < |rest| ==> rest[k] == terms[k + 1];
      ByAliasIs(rest, n - 1);
    }
  }

  /** termsInResultOrder: the projection's terms as the result row declares its fields. */
  function InResultOrder(s: Select): (terms: seq<Term>)
    requires FieldsMatch(s)
    ensures |terms| == |s.fields|
  {
    seq(|s.fields|, i requires 0 <= i < |s.fields| => ByAlias(s.terms, s.fields[i]))
  }

  function Items(terms: seq<Term>): (r: seq<Item>)
    ensures |r| == |terms| && forall i :: 0 <= i < |r| ==> r[i] == Of(terms[i])
  {
    if terms == [] then [] else Items(terms[..|terms| - 1]) + [Of(terms[|terms| - 1])]
  }

  /** The statement Build makes of a mode. */
  ghost predicate BuiltAs(s: Select, mode: Mode, st: Statement) {
    Sound(s) && st.groupBy == ShapeOf(s).keys && st.having == s.Having() && st.qualified == s.Qualified() &&
    st.items ==
      if mode.CountsRows() && !s.Qualified() then
        (if ShapeOf(s).keys != [] then Items(ShapeOf(s).keys) else if Groups(s) then [CountAll] else [Marker])
      else if mode.BranchRead? then Items(InResultOrder(s)) else Items(s.terms)
  }

  /** Without Qualify a count projects the keys, COUNT(*) for a group without any and a
      constant for each row; a union's member reads in the result row's order. */
  method Build(s: Select, mode: Mode) returns (st: Statement)
    requires Sound(s)
    ensures BuiltAs(s, mode, st)
  {
    var terms := Listed(s, mode);
    var items: seq<Item> := [];
    for i := 0 to |terms|
      invariant items == Items(terms[..i])
    {
      assert terms[..i + 1][..i] == terms[..i];
      items := items + [Of(terms[i])];
    }
    assert terms[..|terms|] == terms;
    if items == [] {
      FieldsOfTerms(s);
      items := if Groups(s) then [CountAll] else [Marker];
    }
    st := Statement(items, ShapeOf(s).keys, s.Having(), s.Qualified());
  }

  /** The terms a mode lists. */
  function Listed(s: Select, mode: Mode): seq<Term>
    requires FieldsMatch(s)
  {
    if mode.CountsRows() && !s.Qualified() then ShapeOf(s).keys else if mode.BranchRead? then InResultOrder(s) else s.terms
  }

  lemma FieldsOfTerms(s: Select)
    requires FieldsMatch(s) && s.terms != []
    ensures s.fields != []
  {
    assert s.terms[0].Alias() in s.fields;
  }

  // ---- what a statement answers ----

  /** The database: the key of a row, what the conditions on groups keep, the answer of
      a term for one group or row beside the others, and what the conditions on the
      projected rows keep, which they read by alias. */
  datatype Reading = Reading(
    key: (Term, Row) -> Cell, having: seq<Row> -> bool, answer: (Item, seq<seq<Row>>, nat) -> Cell, qualify: Row -> bool)

  function KeyOf(r: Reading, groupBy: seq<Term>, row: Row): (key: seq<Cell>)
    ensures |key| == |groupBy|
  {
    seq(|groupBy|, i requires 0 <= i < |groupBy| => r.key(groupBy[i], row))
  }

  function Grouped(r: Reading, groupBy: seq<Term>, rows: seq<Row>): seq<seq<Row>> {
    if rows == [] then [] else AddTo(r, groupBy, Grouped(r, groupBy, rows[..|rows| - 1]), rows[|rows| - 1])
  }

  function AddTo(r: Reading, groupBy: seq<Term>, groups: seq<seq<Row>>, row: Row): seq<seq<Row>> {
    if groups == [] then [[row]]
    else if groups[0] != [] && KeyOf(r, groupBy, groups[0][0]) == KeyOf(r, groupBy, row) then [groups[0] + [row]] + groups[1..]
    else [groups[0]] + AddTo(r, groupBy, groups[1..], row)
  }

  function Each(rows: seq<Row>): seq<seq<Row>> { seq(|rows|, i requires 0 <= i < |rows| => [rows[i]]) }

  /** The rows behind each row of the projection. An aggregate or a condition on groups
      without a GROUP BY makes all rows one group, even of no rows; whether a statement
      aggregates is read off its own SELECT list. */
  function Units(s: Select, st: Statement, r: Reading, rows: seq<Row>): seq<seq<Row>> {
    if st.groupBy != [] then Grouped(r, st.groupBy, rows)
    else if st.having || exists i :: 0 <= i < |st.items| && Aggregating(s, st.items[i]) then [rows]
    else Each(rows)
  }

  /** COUNT(*) aggregates, a constant does not. */
  predicate Aggregating(s: Select, item: Item) { item.CountAll? || (item.Of? && Aggregates(s, item.term)) }

  function Having(r: Reading, units: seq<seq<Row>>): seq<seq<Row>> {
    if units == [] then [] else (if r.having(units[0]) then [units[0]] else []) + Having(r, units[1..])
  }

  function Names(items: seq<Item>): set<string> { set i | 0 <= i < |items| :: items[i].Name() }

  function Named(items: seq<Item>, name: string): Item
    requires name in Names(items)
  {
    if items[0].Name() == name then items[0]
    else
      assert forall i :: 1 <= i < |items| ==> items[i] == items[1..][i - 1];
      Named(items[1..], name)
  }

  /** The projected row of unit n. */
  function Projected(r: Reading, items: seq<Item>, units: seq<seq<Row>>, n: nat): Row {
    map name | name in Names(items) :: r.answer(Named(items, name), units, n)
  }

  function Projections(r: Reading, items: seq<Item>, units: seq<seq<Row>>, n: nat, qualified: bool): seq<Row>
    requires n <= |units|
  {
    if n == 0 then []
    else
      var row := Projected(r, items, units, n - 1);
      Projections(r, items, units, n - 1, qualified) + if qualified && !r.qualify(row) then [] else [row]
  }

  function AnswerOf(s: Select, st: Statement, r: Reading, rows: seq<Row>): seq<Row> {
    var units := Units(s, st, r, rows);
    var kept := if st.having then Having(r, units) else units;
    Projections(r, st.items, kept, |kept|, st.qualified)
  }

  /** A statement that is counted lists no more than what decides how many rows there
      are: keys, or one thing standing in for them. */
  lemma CountsAreBare(s: Select, mode: Mode, st: Statement)
    requires BuiltAs(s, mode, st) && mode in {CountInner, BranchCount} && !s.Qualified()
    ensures forall item :: item in st.items && item.Of? ==> item.term in ShapeOf(s).keys
    ensures ShapeOf(s).keys == [] ==> |st.items| == 1
  {
  }

  // ---- as many rows ----

  lemma OrderedTerm(s: Select, i: nat)
    requires FieldsMatch(s) && AliasesDiffer(s.terms) && i < |s.fields|
    ensures exists n :: 0 <= n < |s.terms| && InResultOrder(s)[i] == s.terms[n] && s.terms[n].Alias() == s.fields[i]
  {
    assert IsAlias(s.terms, s.fields[i]);
    var n :| 0 <= n < |s.terms| && s.terms[n].Alias() == s.fields[i];
    ByAliasIs(s.terms, n);
  }

  lemma TermInOrder(s: Select, n: nat) returns (i: nat)
    requires FieldsMatch(s) && AliasesDiffer(s.terms) && n < |s.terms|
    ensures i < |s.fields| && InResultOrder(s)[i] == s.terms[n]
  {
    assert s.terms[n].Alias() in s.fields;
    i :| 0 <= i < |s.fields| && s.fields[i] == s.terms[n].Alias();
    ByAliasIs(s.terms, n);
  }

  lemma {:induction false} NamedIs(items: seq<Item>, i: nat)
    requires i < |items| && forall a, b :: 0 <= a < b < |items| ==> items[a].Name() != items[b].Name()
    ensures items[i].Name() in Names(items) && Named(items, items[i].Name()) == items[i]
  {
    if i > 0 {
      var rest := items[1..];
      assert forall k :: 0 <= k < |rest| ==> rest[k] == items[k + 1];
      NamedIs(rest, i - 1);
    }
  }

  /** The result row's order projects the same rows, read by alias. */
  lemma OrderProjectsAlike(s: Select, r: Reading, units: seq<seq<Row>>, n: nat)
    requires FieldsMatch(s) && AliasesDiffer(s.terms)
    ensures Projected(r, Items(InResultOrder(s)), units, n) == Projected(r, Items(s.terms), units, n)
  {
    var a, b := Items(InResultOrder(s)), Items(s.terms);
    SameNames(s);
    forall name | name in Names(a) ensures Named(a, name) == Named(b, name) { SameNamed(s, name); }
  }

  lemma SameNames(s: Select)
    requires FieldsMatch(s) && AliasesDiffer(s.terms)
    ensures Names(Items(InResultOrder(s))) == Names(Items(s.terms))
  {
    var a, b := Items(InResultOrder(s)), Items(s.terms);
    forall name | name in Names(a) ensures name in Names(b) {
      var i :| 0 <= i < |a| && a[i].Name() == name;
      OrderedTerm(s, i);
      var n :| 0 <= n < |s.terms| && InResultOrder(s)[i] == s.terms[n];
      assert b[n].Name() == name;
    }
    forall name | name in Names(b) ensures name in Names(a) {
      var n :| 0 <= n < |b| && b[n].Name() == name;
      var i := TermInOrder(s, n);
      assert a[i].Name() == name;
    }
  }

  lemma SameNamed(s: Select, name: string)
    requires FieldsMatch(s) && AliasesDiffer(s.terms) && name in Names(Items(InResultOrder(s))) && name in Names(Items(s.terms))
    ensures Named(Items(InResultOrder(s)), name) == Named(Items(s.terms), name)
  {
    var a, b := Items(InResultOrder(s)), Items(s.terms);
    var n :| 0 <= n < |b| && b[n].Name() == name;
    var i := TermInOrder(s, n);
    OrderedNamesDiffer(s);
    NamedIs(a, i);
    NamedIs(b, n);
  }

  lemma OrderedNamesDiffer(s: Select)
    requires FieldsMatch(s) && AliasesDiffer(s.terms)
    ensures
      var a := Items(InResultOrder(s));
      forall i, j :: 0 <= i < j < |a| ==> a[i].Name() != a[j].Name()
  {
    var a := Items(InResultOrder(s));
    forall i | 0 <= i < |a| ensures a[i].Name() == s.fields[i] { OrderedTerm(s, i); }
  }

  ghost predicate ProjectAlike(r: Reading, a: seq<Item>, b: seq<Item>, units: seq<seq<Row>>) {
    forall k: nat {:trigger Projected(r, a, units, k)} :: Projected(r, a, units, k) == Projected(r, b, units, k)
  }

  lemma {:induction false} AnswerAlike(r: Reading, a: seq<Item>, b: seq<Item>, units: seq<seq<Row>>, n: nat, qualified: bool)
    requires ProjectAlike(r, a, b, units) && n <= |units|
    ensures Projections(r, a, units, n, qualified) == Projections(r, b, units, n, qualified)
  {
    if n > 0 {
      assert Projected(r, a, units, n - 1) == Projected(r, b, units, n - 1);
      AnswerAlike(r, a, b, units, n - 1, qualified);
    }
  }

  lemma OrderAnswersAlike(s: Select, r: Reading, units: seq<seq<Row>>, n: nat, qualified: bool)
    requires FieldsMatch(s) && AliasesDiffer(s.terms) && n <= |units|
    ensures Projections(r, Items(InResultOrder(s)), units, n, qualified) == Projections(r, Items(s.terms), units, n, qualified)
  {
    var a, b := Items(InResultOrder(s)), Items(s.terms);
    forall k: nat ensures Projected(r, a, units, k) == Projected(r, b, units, k) { OrderProjectsAlike(s, r, units, k); }
    AnswerAlike(r, a, b, units, n, qualified);
  }

  lemma {:induction false} UnqualifiedAnswersAll(r: Reading, items: seq<Item>, units: seq<seq<Row>>, n: nat)
    requires n <= |units|
    ensures |Projections(r, items, units, n, false)| == n
  {
    if n > 0 { UnqualifiedAnswersAll(r, items, units, n - 1); }
  }

  predicate ListAggregates(s: Select, items: seq<Item>) { exists i :: 0 <= i < |items| && Aggregating(s, items[i]) }

  lemma TermsAggregate(s: Select)
    ensures ListAggregates(s, Items(s.terms)) <==> SomeAggregates(s)
  {
    var items := Items(s.terms);
    if i :| 0 <= i < |s.terms| && Aggregates(s, s.terms[i]) { assert Aggregating(s, items[i]); }
    if i :| 0 <= i < |items| && Aggregating(s, items[i]) { assert Aggregates(s, s.terms[i]); }
  }

  lemma OrderAggregates(s: Select)
    requires FieldsMatch(s) && AliasesDiffer(s.terms)
    ensures ListAggregates(s, Items(InResultOrder(s))) <==> SomeAggregates(s)
  {
    var items := Items(InResultOrder(s));
    if n :| 0 <= n < |s.terms| && Aggregates(s, s.terms[n]) {
      var i := TermInOrder(s, n);
      assert Aggregating(s, items[i]);
    }
    if i :| 0 <= i < |items| && Aggregating(s, items[i]) { OrderedTerm(s, i); }
  }

  /** Every mode reads the same units: one group of all rows where nothing is grouped by
      and something aggregates. */
  lemma SameUnits(s: Select, mode: Mode, st: Statement, r: Reading, rows: seq<Row>)
    requires BuiltAs(s, mode, st)
    ensures Units(s, st, r, rows) ==
      if ShapeOf(s).keys != [] then Grouped(r, ShapeOf(s).keys, rows) else if Groups(s) then [rows] else Each(rows)
  {
    if ShapeOf(s).keys == [] {
      KeylessList(s, mode, st.items);
      assert Units(s, st, r, rows) == if st.having || ListAggregates(s, st.items) then [rows] else Each(rows);
    }
  }

  lemma KeylessList(s: Select, mode: Mode, items: seq<Item>)
    requires Sound(s) && ShapeOf(s).keys == []
    requires items == if mode.CountsRows() && !s.Qualified() then (if Groups(s) then [CountAll] else [Marker])
      else if mode.BranchRead? then Items(InResultOrder(s)) else Items(s.terms)
    ensures ListAggregates(s, items) <==> Groups(s)
  {
    GroupedByKeysOrAggregates(s);
    if mode.CountsRows() && !s.Qualified() {
      assert Groups(s) ==> Aggregating(s, items[0]);
    } else if mode.BranchRead? {
      OrderAggregates(s);
    } else {
      TermsAggregate(s);
    }
  }

  /** A count answers as many rows as the read of the same select, on its own or as a
      member of a union, for every select, row and reading of keys, Having and Qualify. */
  lemma CountAnswersAsManyRows(s: Select, reading: Mode, counting: Mode, read: Statement, count: Statement, r: Reading, rows: seq<Row>)
    requires !reading.CountsRows() && counting.CountsRows() && BuiltAs(s, reading, read) && BuiltAs(s, counting, count)
    ensures |AnswerOf(s, count, r, rows)| == |AnswerOf(s, read, r, rows)|
  {
    SameUnits(s, reading, read, r, rows);
    SameUnits(s, counting, count, r, rows);
    var units := Units(s, read, r, rows);
    var kept := if s.Having() then Having(r, units) else units;
    if s.Qualified() {
      OrderAnswersAlike(s, r, kept, |kept|, true);
    } else {
      UnqualifiedAnswersAll(r, read.items, kept, |kept|);
      UnqualifiedAnswersAll(r, count.items, kept, |kept|);
    }
  }

  /** Count: the rows Scan answers without a page. */
  method Count(s: Select, r: Reading, rows: seq<Row>) returns (total: nat)
    requires Sound(s)
    ensures forall read :: BuiltAs(s, ReadRows, read) ==> total == |AnswerOf(s, read, r, rows)|
  {
    var count := Build(s, CountInner);
    total := |AnswerOf(s, count, r, rows)|;
    forall read | BuiltAs(s, ReadRows, read) ensures total == |AnswerOf(s, read, r, rows)| {
      CountAnswersAsManyRows(s, ReadRows, CountInner, read, count, r, rows);
    }
  }

  // ---- a union ----

  /** One branch of a union and what it reads. */
  datatype Branch = Branch(select: Select, reading: Reading, rows: seq<Row>)

  /** The rows the branches stack unpaged: what each read as a member answers. */
  ghost predicate Stacks(branches: seq<Branch>, stacked: seq<seq<Row>>) {
    |stacked| == |branches| && forall i :: 0 <= i < |branches| ==> StacksAt(branches[i], stacked[i])
  }

  ghost predicate StacksAt(b: Branch, answer: seq<Row>) {
    exists read :: BuiltAs(b.select, BranchRead, read) && answer == AnswerOf(b.select, read, b.reading, b.rows)
  }

  /** The counts of the branches' own count statements, added up, are the rows of the
      unpaged stack. */
  method CountUnion(branches: seq<Branch>) returns (total: nat)
    requires forall i :: 0 <= i < |branches| ==> Sound(branches[i].select)
    ensures forall stacked :: Stacks(branches, stacked) ==> total == |Flatten(stacked)|
  {
    total := 0;
    for i := 0 to |branches|
      invariant forall stacked :: Stacks(branches[..i], stacked) ==> total == |Flatten(stacked)|
    {
      var b, sofar := branches[i], total;
      var count := Build(b.select, BranchCount);
      total := total + |AnswerOf(b.select, count, b.reading, b.rows)|;
      CountedSoFar(branches, i, count, sofar);
    }
    assert branches[..|branches|] == branches;
  }

  lemma CountedSoFar(branches: seq<Branch>, i: nat, count: Statement, sofar: nat)
    requires i < |branches| && BuiltAs(branches[i].select, BranchCount, count)
    requires forall stacked :: Stacks(branches[..i], stacked) ==> sofar == |Flatten(stacked)|
    ensures forall stacked :: Stacks(branches[..i + 1], stacked) ==>
      sofar + |AnswerOf(branches[i].select, count, branches[i].reading, branches[i].rows)| == |Flatten(stacked)|
  {
    forall stacked | Stacks(branches[..i + 1], stacked)
      ensures sofar + |AnswerOf(branches[i].select, count, branches[i].reading, branches[i].rows)| == |Flatten(stacked)|
    {
      LastBranch(branches, i, stacked);
      var rest := stacked[..i];
      assert Stacks(branches[..i], rest) && sofar == |Flatten(rest)|;
      CountedBranch(branches[i], count, stacked, i);
    }
  }

  lemma CountedBranch(b: Branch, count: Statement, stacked: seq<seq<Row>>, i: nat)
    requires BuiltAs(b.select, BranchCount, count) && |stacked| == i + 1 && StacksAt(b, stacked[i])
    ensures |Flatten(stacked)| == |Flatten(stacked[..i])| + |AnswerOf(b.select, count, b.reading, b.rows)|
  {
    FlattenLast(stacked);
    var read :| BuiltAs(b.select, BranchRead, read) && stacked[i] == AnswerOf(b.select, read, b.reading, b.rows);
    CountAnswersAsManyRows(b.select, BranchRead, BranchCount, read, count, b.reading, b.rows);
  }

  lemma LastBranch(branches: seq<Branch>, i: nat, stacked: seq<seq<Row>>)
    requires i < |branches| && Stacks(branches[..i + 1], stacked)
    ensures Stacks(branches[..i], stacked[..i]) && StacksAt(branches[i], stacked[i])
  {
    assert branches[..i + 1][i] == branches[i];
    forall k | 0 <= k < i ensures StacksAt(branches[..i][k], stacked[..i][k]) { assert StacksAt(branches[..i + 1][k], stacked[k]); }
  }
}
