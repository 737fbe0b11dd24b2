/** What a condition beside a LEFT join's ties does to the groups of a select: the
    own keys tell the groups apart on every database exactly when the column the
    condition reads is grouped by. */
module GroupSplit {
  import opened Sql
  import opened Filters
  import opened FilterMeaning
  import opened Terms
  import opened Joins
  import opened JoinShape
  import opened JoinProof
  import opened DerivedKeys
  import opened DerivedProof
  import opened GroupTheorem

  /** An ON conjunct tying a column of the joined select to one of the queried
      model. */
  predicate IsTie(g: Grouping, f: Filter)
    requires g.joins != []
  {
    f.op.EqCol? && f.value.Column? && f.table == g.joins[0].table && f.value.table == g.main && f.column != "" &&
    g.joins[0].info.Has(f.column) && f.value.name != "" && g.info.Has(f.value.name)
  }

  /** A plain comparison of a column of the queried model, which some database makes
      true of some value. */
  ghost predicate IsCondition(k: Chain, g: Grouping, f: Filter)
    requires g.joins != []
  {
    f.op != EqCol && !f.op.Or? && !f.op.And? && !f.op.Exists? && !f.op.Nothing? && f.table == g.main &&
    Applies(k, f, JoinScope(g.joins[0], map[g.main := g.info])) && exists db, cell :: LeafMeaning(db, f, cell) == True
  }

  /** A validated select that groups by terms of the one select it LEFT joins, on
      ties and one condition on the queried model. */
  ghost predicate OneCondition(k: Chain, g: Grouping, f: Filter) {
    Accepted(g) && |g.joins| == 1 && g.joins[0].left && g.joins[0].select.Some? && KeyedThrough(g, 0) && g.main != "" &&
    Grouped(g.joins[0].on) && f in Conjuncts(g.joins[0].on) && IsCondition(k, g, f) &&
    forall i :: 0 <= i < |Conjuncts(g.joins[0].on)| ==> Conjuncts(g.joins[0].on)[i] == f || IsTie(g, Conjuncts(g.joins[0].on)[i])
  }

  /** On every database, in rows read by the select, the own keys decide the group. */
  ghost predicate KeysDecide(k: Chain, g: Grouping) {
    forall db, mark, rows, contents, p: nat, q: nat :: Honours(contents, g.joins) ==> DecidedAt(db, k, g, mark, rows, contents, p, q)
  }

  ghost predicate DecidedAt(db: Database, k: Chain, g: Grouping, mark: Labels, rows: seq<Row>, contents: Contents, p: nat, q: nat) {
    var read := ReadRows(db, k, g.main, g.info, g.joins, rows, contents);
    p < |read| && q < |read| && SameOwnKeys(g, mark, read[p], read[q]) ==> SameGroup(g, mark, read[p], read[q])
  }

  // ---- a grouped column ----

  lemma {:induction false} OutsideOfList(filters: seq<Filter>, table: string, c: (string, string))
    requires c in OutsideAll(filters, table) && Grouped(filters)
    ensures exists i :: 0 <= i < |Conjuncts(filters)| && c in Outside(Conjuncts(filters)[i], table)
    decreases filters, 0
  {
    var first, rest := ConjunctsOf(filters[0]), Conjuncts(filters[1..]);
    assert Conjuncts(filters) == first + rest;
    if c in Outside(filters[0], table) {
      OutsideOfOne(filters[0], table, c);
      var i :| 0 <= i < |first| && c in Outside(first[i], table);
      assert Conjuncts(filters)[i] == first[i];
    } else {
      OutsideOfList(filters[1..], table, c);
      var i :| 0 <= i < |rest| && c in Outside(rest[i], table);
      assert Conjuncts(filters)[|first| + i] == rest[i];
    }
  }

  lemma {:induction false} OutsideOfOne(f: Filter, table: string, c: (string, string))
    requires c in Outside(f, table) && GroupedOne(f)
    ensures exists i :: 0 <= i < |ConjunctsOf(f)| && c in Outside(ConjunctsOf(f)[i], table)
    decreases f, 1
  {
    if f.op.And? {
      assert ConjunctsOf(f) == Conjuncts(f.value.filters);
      OutsideOfList(f.value.filters, table, c);
    } else {
      assert ConjunctsOf(f)[0] == f;
    }
  }

  lemma TieIsGrouped(k: Chain, g: Grouping, f: Filter, tie: Filter)
    requires OneCondition(k, g, f) && tie in Conjuncts(g.joins[0].on) && IsTie(g, tie)
    ensures GroupsBy(g.keys, g.main, g.joins, g.derived, g.main, tie.value.name)
  {
    var join := g.joins[0];
    assert g.joins[..0] == [] && Tables(g.main, []) == {g.main};
    assert ResolvedAt(g.main, g.joins, 0);
    assert Pin(tie, join.table, {g.main}) == tie.column;
    assert TieOf(g.main, g.joins, 0, (g.main, tie.value.name));
    var n :| 0 <= n < |g.keys| && !Own(g, n) && g.derived[g.keys[n].Alias()] == 0;
  }

  lemma GroupedConditionDecides(k: Chain, g: Grouping, f: Filter)
    requires OneCondition(k, g, f) && GroupsBy(g.keys, g.main, g.joins, g.derived, g.main, f.column)
    ensures KeysDecide(k, g)
  {
    GroupedConditionReadsKeys(k, g, f);
    forall db, mark, rows, contents, p: nat, q: nat | Honours(contents, g.joins) ensures DecidedAt(db, k, g, mark, rows, contents, p, q) {
      DecidedByTheorem(db, k, g, mark, rows, contents, p, q);
    }
  }

  lemma DecidedByTheorem(db: Database, k: Chain, g: Grouping, mark: Labels, rows: seq<Row>, contents: Contents, p: nat, q: nat)
    requires Accepted(g) && Honours(contents, g.joins) && LeftJoinsReadKeys(g)
    ensures DecidedAt(db, k, g, mark, rows, contents, p, q)
  {
    var read := ReadRows(db, k, g.main, g.info, g.joins, rows, contents);
    if p < |read| && q < |read| { OwnKeysDetermineGroups(db, k, g, mark, rows, contents, p, q); }
  }

  lemma NamedColumnIsGrouped(k: Chain, g: Grouping, f: Filter, c: (string, string))
    requires OneCondition(k, g, f) && GroupsBy(g.keys, g.main, g.joins, g.derived, g.main, f.column)
    requires c in OutsideAll(g.joins[0].on, g.joins[0].table)
    ensures GroupsBy(g.keys, g.main, g.joins, g.derived, c.0, c.1)
  {
    var fs := Conjuncts(g.joins[0].on);
    OutsideOfList(g.joins[0].on, g.joins[0].table, c);
    var i :| 0 <= i < |fs| && c in Outside(fs[i], g.joins[0].table);
    MainIsDeclared(k, g, f);
    if fs[i] != f {
      OutsideOfTie(g, fs[i]);
      TieIsGrouped(k, g, f, fs[i]);
    } else {
      OutsideOfCondition(k, g, f);
    }
  }

  lemma OutsideOfTie(g: Grouping, tie: Filter)
    requires g.joins != [] && IsTie(g, tie)
    ensures Outside(tie, g.joins[0].table) <= {(g.main, tie.value.name)}
  {
  }

  lemma OutsideOfCondition(k: Chain, g: Grouping, f: Filter)
    requires g.joins != [] && IsCondition(k, g, f)
    ensures Outside(f, g.joins[0].table) <= {(g.main, f.column)}
  {
  }

  lemma GroupedConditionReadsKeys(k: Chain, g: Grouping, f: Filter)
    requires OneCondition(k, g, f) && GroupsBy(g.keys, g.main, g.joins, g.derived, g.main, f.column)
    ensures Accepted(g) && LeftJoinsReadKeys(g)
  {
    forall c | c in OutsideAll(g.joins[0].on, g.joins[0].table) ensures GroupsBy(g.keys, g.main, g.joins, g.derived, c.0, c.1) {
      NamedColumnIsGrouped(k, g, f, c);
    }
    assert ReadsKeys(g, 0);
  }

  // ---- an ungrouped column ----

  /** A value the condition is not true of: NULL, or a value for a test for NULL. */
  function Refused(f: Filter, cell: Cell): Cell { if f.op.IsNull? && cell.Null? then Num(1) else Null }

  lemma RefusedIsNotTrue(db: Database, f: Filter, cell: Cell)
    requires LeafMeaning(db, f, cell) == True && f.op != EqCol
    ensures LeafMeaning(db, f, Refused(f, cell)) != True
  {
    if f.op.In? || f.op.NotIn? { NullIsNoMember(Members(f.value)); }
  }

  function SubjectColumns(g: Grouping, column: string): set<string>
    requires g.info.columns.Some?
  {
    g.info.columns.value + (set n | 0 <= n < |g.keys| :: g.keys[n].column) + {column}
  }

  function AnsweredNames(g: Grouping): set<string>
    requires g.joins != []
  {
    var join := g.joins[0];
    (set i | 0 <= i < |Conjuncts(join.on)| :: join.info.ColumnName(Conjuncts(join.on)[i].column)) +
    (set n | 0 <= n < |g.keys| :: g.keys[n].Alias())
  }

  /** A row of the queried model: one in every column, but for column. */
  function Subject(g: Grouping, column: string, cell: Cell): Row
    requires g.info.columns.Some?
  {
    map c | c in SubjectColumns(g, column) :: if c == column then cell else Num(1)
  }

  /** The one row the joined select answers: one under every name. */
  function Answered(g: Grouping): Row
    requires g.joins != []
  {
    map c | c in AnsweredNames(g) :: Num(1)
  }

  lemma ConditionDecides(db: Database, k: Chain, g: Grouping, f: Filter, cell: Cell)
    requires OneCondition(k, g, f) && !GroupsBy(g.keys, g.main, g.joins, g.derived, g.main, f.column)
    ensures g.info.columns.Some?
    ensures
      var x := map[g.main := Subject(g, f.column, cell)];
      OnHolds(db, k, g.joins[0], map[g.main := g.info], x, Answered(g)) <==> LeafMeaning(db, f, cell) == True
  {
    var join, before := g.joins[0], map[g.main := g.info];
    MainIsDeclared(k, g, f);
    var x, fs, scope := map[g.main := Subject(g, f.column, cell)], Conjuncts(join.on), JoinScope(join, before);
    var site := Site(Answered(g), x, None);
    ConjunctsSuffice(db, k, join.on, scope, site);
    forall i | 0 <= i < |fs| ensures Meaning(db, k, fs[i], scope, site, NoGuess) == if fs[i] == f then LeafMeaning(db, f, cell) else True {
      if fs[i] == f { ConditionMeans(db, k, g, f, cell, site); } else {
        TieIsGrouped(k, g, f, fs[i]);
        TieMeans(db, k, g, f, fs[i], i, cell, site);
      }
    }
  }

  predicate Declared(g: Grouping, f: Filter) {
    g.joins != [] && g.main != "" && g.joins[0].table != g.main && g.joins[0].table != "" &&
    g.info.columns.Some? && f.column in g.info.columns.value && g.info.rename.None?
  }

  lemma MainIsDeclared(k: Chain, g: Grouping, f: Filter)
    requires OneCondition(k, g, f)
    ensures Declared(g, f)
  {
    assert g.joins[..0] == [] && Tables(g.main, []) == {g.main};
    assert ResolvedAt(g.main, g.joins, 0);
  }

  lemma ConditionMeans(db: Database, k: Chain, g: Grouping, f: Filter, cell: Cell, site: Site)
    requires Declared(g, f) && IsCondition(k, g, f) && site.beside == map[g.main := Subject(g, f.column, cell)]
    ensures Meaning(db, k, f, JoinScope(g.joins[0], map[g.main := g.info]), site, NoGuess) == LeafMeaning(db, f, cell)
  {
    assert OwnCell(f, JoinScope(g.joins[0], map[g.main := g.info]), site) == cell;
  }

  lemma TieMeans(db: Database, k: Chain, g: Grouping, f: Filter, tie: Filter, i: nat, cell: Cell, site: Site)
    requires Declared(g, f) && i < |Conjuncts(g.joins[0].on)| && tie == Conjuncts(g.joins[0].on)[i]
    requires IsTie(g, tie) && tie.value.name != f.column
    requires site.own == Answered(g) && site.beside == map[g.main := Subject(g, f.column, cell)]
    ensures Meaning(db, k, tie, JoinScope(g.joins[0], map[g.main := g.info]), site, NoGuess) == True
  {
    var scope := JoinScope(g.joins[0], map[g.main := g.info]);
    assert Applies(k, tie, scope);
    assert OwnCell(tie, scope, site) == Num(1);
    assert OtherCell(tie, scope, site) == Num(1);
  }

  /** Reading the two subjects through the join: one finds the answered row and the
      other finds none. */
  lemma TwoSubjectsRead(db: Database, k: Chain, g: Grouping, x: Row, y: Row, r: Row)
    requires g.joins != [] && g.joins[0].left && |g.joins| == 1
    requires OnHolds(db, k, g.joins[0], map[g.main := g.info], map[g.main := x], r)
    requires !OnHolds(db, k, g.joins[0], map[g.main := g.info], map[g.main := y], r)
    ensures
      var table := g.joins[0].table;
      ReadRows(db, k, g.main, g.info, g.joins, [x, y], map[table := [r]]) ==
        [(map[g.main := x])[table := r], (map[g.main := y])[table := map[]]]
  {
    var join, before, contents := g.joins[0], map[g.main := g.info], map[g.joins[0].table := [r]];
    var a, b: Joined := map[g.main := x], map[g.main := y];
    assert RowsOf(contents, join.table) == [r];
    MatchOne(db, k, join, before, a, r);
    MatchOne(db, k, join, before, b, r);
    assert JoinOne(db, k, join, before, a, contents) == [a[join.table := r]] by { assert Extend(a, join.table, [r][1..]) == []; }
    assert JoinOne(db, k, join, before, b, contents) == [b[join.table := map[]]];
    assert JoinEach(db, k, join, before, [], contents) == [];
    JoinEachCons(db, k, join, before, b, [], contents);
    JoinEachCons(db, k, join, before, a, [b], contents);
    assert [b] + [] == [b] && [a] + [b] == [a, b];
    assert Started(g.main, [x, y]) == [a, b] by { assert [x, y][1..] == [y] && [y][1..] == []; }
    assert JoinEach(db, k, join, before, [a, b], contents) == [a[join.table := r], b[join.table := map[]]];
    OneJoinChain(db, k, g.joins, before, [a, b], contents);
  }

  lemma OneJoinChain(db: Database, k: Chain, joins: seq<Join>, before: map<string, TableInfo>, rows: seq<Joined>, contents: Contents)
    requires |joins| == 1
    ensures JoinChain(db, k, joins, before, rows, contents) == JoinEach(db, k, joins[0], before, rows, contents)
  {
    assert joins[1..] == [];
  }

  lemma MatchOne(db: Database, k: Chain, join: Join, before: map<string, TableInfo>, joined: Joined, r: Row)
    ensures Matching(db, k, join, before, joined, [r]) == if OnHolds(db, k, join, before, joined, r) then [r] else []
  {
    assert [r][1..] == [];
  }

  lemma SubjectsShareKeys(k: Chain, g: Grouping, f: Filter, mark: Labels, u: Cell, v: Cell, a: Joined, b: Joined)
    requires OneCondition(k, g, f) && !GroupsBy(g.keys, g.main, g.joins, g.derived, g.main, f.column) && g.info.columns.Some?
    requires g.main in a && a[g.main] == Subject(g, f.column, u) && g.main in b && b[g.main] == Subject(g, f.column, v)
    requires forall t, c, d :: mark(t, c) == mark(t, d)
    ensures SameOwnKeys(g, mark, a, b)
  {
    forall n | 0 <= n < |g.keys| && Own(g, n) ensures KeyCell(g, mark, n, a) == KeyCell(g, mark, n, b) {
      assert TableOf(g.keys[n], g.main) == g.main;
      assert !KeyNames(g.keys[n], g.main, g.joins, g.derived, g.main, f.column);
    }
  }

  lemma SplitRead(db: Database, k: Chain, g: Grouping, mark: Labels, x: Row, y: Row, r: Row)
    requires g.joins != [] && g.joins[0].left && |g.joins| == 1
    requires OnHolds(db, k, g.joins[0], map[g.main := g.info], map[g.main := x], r)
    requires !OnHolds(db, k, g.joins[0], map[g.main := g.info], map[g.main := y], r)
    requires
      var table := g.joins[0].table;
      var a, b: Joined := (map[g.main := x])[table := r], (map[g.main := y])[table := map[]];
      SameOwnKeys(g, mark, a, b) && !SameGroup(g, mark, a, b)
    ensures !DecidedAt(db, k, g, mark, [x, y], map[g.joins[0].table := [r]], 0, 1)
  {
    TwoSubjectsRead(db, k, g, x, y, r);
  }

  lemma SubjectsAreSplit(db: Database, k: Chain, g: Grouping, f: Filter, cell: Cell)
    requires OneCondition(k, g, f) && !GroupsBy(g.keys, g.main, g.joins, g.derived, g.main, f.column)
    requires LeafMeaning(db, f, cell) == True && g.info.columns.Some?
    ensures
      var x, y := Subject(g, f.column, cell), Subject(g, f.column, Refused(f, cell));
      !DecidedAt(db, k, g, (t, c) => Null, [x, y], map[g.joins[0].table := [Answered(g)]], 0, 1)
  {
    RefusedIsNotTrue(db, f, cell);
    ConditionDecides(db, k, g, f, cell);
    ConditionDecides(db, k, g, f, Refused(f, cell));
    TwoSubjectsSplit(k, g, f, cell);
    SplitRead(db, k, g, (t, c) => Null, Subject(g, f.column, cell), Subject(g, f.column, Refused(f, cell)), Answered(g));
  }

  lemma OneRowHonours(g: Grouping, r: Row)
    requires |g.joins| == 1
    ensures Honours(map[g.joins[0].table := [r]], g.joins)
  {
  }

  /** Two rows that differ in the condition's column alone: one group with a row of
      the joined select and one without share their own keys. */
  lemma UngroupedConditionSplits(k: Chain, g: Grouping, f: Filter)
    requires OneCondition(k, g, f) && !GroupsBy(g.keys, g.main, g.joins, g.derived, g.main, f.column)
    ensures !KeysDecide(k, g)
  {
    MainIsDeclared(k, g, f);
    var db, cell :| LeafMeaning(db, f, cell) == True;
    SubjectsAreSplit(db, k, g, f, cell);
    OneRowHonours(g, Answered(g));
    var x, y := Subject(g, f.column, cell), Subject(g, f.column, Refused(f, cell));
    NotDecided(db, k, g, (t, c) => Null, [x, y], map[g.joins[0].table := [Answered(g)]]);
  }

  lemma NotDecided(db: Database, k: Chain, g: Grouping, mark: Labels, rows: seq<Row>, contents: Contents)
    requires Honours(contents, g.joins) && !DecidedAt(db, k, g, mark, rows, contents, 0, 1)
    ensures !KeysDecide(k, g)
  {
  }

  lemma TwoSubjectsSplit(k: Chain, g: Grouping, f: Filter, cell: Cell)
    requires OneCondition(k, g, f) && !GroupsBy(g.keys, g.main, g.joins, g.derived, g.main, f.column) && g.info.columns.Some?
    ensures
      var table, mark: Labels := g.joins[0].table, (t, c) => Null;
      var a: Joined := (map[g.main := Subject(g, f.column, cell)])[table := Answered(g)];
      var b: Joined := (map[g.main := Subject(g, f.column, Refused(f, cell))])[table := map[]];
      SameOwnKeys(g, mark, a, b) && !SameGroup(g, mark, a, b)
  {
    MainIsDeclared(k, g, f);
    var table, mark: Labels := g.joins[0].table, (t, c) => Null;
    var a: Joined := (map[g.main := Subject(g, f.column, cell)])[table := Answered(g)];
    var b: Joined := (map[g.main := Subject(g, f.column, Refused(f, cell))])[table := map[]];
    SubjectsShareKeys(k, g, f, mark, cell, Refused(f, cell), a, b);
    FoundDiffers(g, mark, a, b);
  }

  lemma FoundDiffers(g: Grouping, mark: Labels, a: Joined, b: Joined)
    requires g.joins != [] && KeyedThrough(g, 0)
    requires RowOf(a, g.joins[0].table) == Answered(g) && RowOf(b, g.joins[0].table) == map[]
    ensures !SameGroup(g, mark, a, b)
  {
    var n :| 0 <= n < |g.keys| && !Own(g, n) && g.derived[g.keys[n].Alias()] == 0;
    assert KeyCell(g, mark, n, a) == Num(1) && KeyCell(g, mark, n, b) == Null;
  }

  /** The own keys of such a select tell its groups apart on every database exactly
      when it groups by the column its condition reads. */
  lemma ConditionSplitsExactly(k: Chain, g: Grouping, f: Filter)
    requires OneCondition(k, g, f)
    ensures KeysDecide(k, g) <==> GroupsBy(g.keys, g.main, g.joins, g.derived, g.main, f.column)
  {
    if GroupsBy(g.keys, g.main, g.joins, g.derived, g.main, f.column) {
      GroupedConditionDecides(k, g, f);
    } else {
      UngroupedConditionSplits(k, g, f);
    }
  }

  // ---- a report ----

  const Count: Term := Term(Fn.Count, false, None, "visits", "", false, [], "visits")
  const VisitCity: Term := Term(NoFn, false, None, "visits", "city", false, [], "city")
  const City: Term := Term(NoFn, false, None, "people", "city", false, [], "home")

  /** LEFT JOIN (visits grouped by city) AS j0 ON j0.city = people.city AND people.active = 1. */
  const OnTie: Filter := Filter("visits", "city", EqCol, Column("people", "city"))
  const OnExtra: Filter := Filter("people", "active", Eq, Scalar(Num(1)))
  const Visits: Join := Join("visits", "j0", true, [OnTie, OnExtra],
    TableInfo(Some({"city"}), {}, "j0", Some(map["city" := "city"])), [["city"]],
    Some(DerivedInfo("visits", true, [VisitCity, Count], [VisitCity], {})))

  /** SELECT city AS home, visits ... GROUP BY home, visits. */
  const Report: Grouping :=
    Grouping("people", TableInfo(Some({"city", "active"}), {}, "", None), [Visits], [City, Count], map["visits" := 0])

  lemma TwoConjuncts(a: Filter, b: Filter)
    requires !a.op.And? && !b.op.And?
    ensures Conjuncts([a, b]) == [a, b]
  {
    assert [a, b][1..] == [b] && [b][1..] == [];
    assert ConjunctsOf(a) == [a] && ConjunctsOf(b) == [b];
    assert Conjuncts([b]) == [b] + Conjuncts([]);
  }

  lemma VisitsPinned()
    ensures Conjuncts(Visits.on) == [OnTie, OnExtra]
    ensures Resolved("people", Report.joins)
    ensures forall tie :: TieOf("people", Report.joins, 0, tie) <==> tie == ("people", "city")
  {
    var fs := Conjuncts(Visits.on);
    TwoConjuncts(OnTie, OnExtra);
    assert Visits.on == [OnTie, OnExtra] && fs == [OnTie, OnExtra];
    assert Report.joins[..0] == [] && Tables("people", []) == {"people"};
    assert Pin(fs[0], "visits", {"people"}) == "city" && Pin(fs[1], "visits", {"people"}) == "";
    assert TiedBy(fs, "visits", {"people"}, ("people", "city"));
    assert PinnedBy(fs, "visits", {"people"}, "city");
    assert Visits.keys[0] == ["city"] && PinsAll(Visits, {"people"}, ["city"]);
    assert Unique(Visits, {"people"});
    assert ResolvedAt("people", Report.joins, 0);
  }

  lemma KeysTold()
    ensures !Own(Report, 1) && Own(Report, 0) && KeyedThrough(Report, 0)
  {
    assert IsSelected(Visits.select.value.terms, Count) by { assert Visits.select.value.terms[1] == Count; }
    assert City.Alias() !in Report.derived;
  }

  /** A report every check of the code accepts, and whose own key, the city, does not
      decide its groups: people active and not sit in two. */
  lemma ExtraConditionSplitsGroups(k: Chain)
    ensures Accepted(Report) && OneCondition(k, Report, OnExtra) && !KeysDecide(k, Report)
  {
    VisitsPinned();
    KeysTold();
    assert KeyNames(Report.keys[0], "people", Report.joins, Report.derived, "people", "city");
    assert GroupsBy(Report.keys, "people", Report.joins, Report.derived, "people", "city");
    ExtraIsCondition(k);
    assert Conjuncts(Visits.on)[1] == OnExtra;
    assert Grouped(Visits.on) by { assert Visits.on[1..] == [OnExtra] && [OnExtra][1..] == [] && GroupedOne(OnTie) && GroupedOne(OnExtra); }
    assert !GroupsBy(Report.keys, "people", Report.joins, Report.derived, "people", "active");
    ConditionSplitsExactly(k, Report, OnExtra);
  }

  lemma ExtraIsCondition(k: Chain)
    ensures IsCondition(k, Report, OnExtra)
  {
    var db := Database(map[], (s, e) => false, (c, m) => false);
    assert LeafMeaning(db, OnExtra, Num(1)) == True;
  }
}
