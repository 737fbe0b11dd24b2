/** The pass over a select's projection (database/select_validate.go): what it refuses,
    whether the projection is grouped, and by what. */
module SelectShape {
  import opened Sql
  import opened Terms
  import opened DerivedKeys

  datatype Mode = ReadRows | CountInner | BranchRead | BranchCount
  {
    predicate Branch() { BranchRead? || BranchCount? }
    predicate CountsRows() { CountInner? || BranchCount? }
  }

  /** A projection as its caller wrote it: its terms, the queried model, the sources
      joined and the terms read from them, the terms of its conditions and orders,
      whether a limit is set, and the result row's fields in order. */
  datatype Select = Select(
    terms: seq<Term>, main: string, joins: seq<Join>, derived: map<string, nat>,
    havings: seq<Term>, qualifies: seq<Term>, orders: seq<Term>, limited: bool, fields: seq<string>)
  {
    predicate Having() { havings != [] }
    predicate Qualified() { qualifies != [] }
  }

  datatype Shape = Shape(grouped: bool, keys: seq<Term>)

  datatype Defect =
    | EmptyProjection | NestedSelectOrdered | JoinSelectTerm | WindowFnWithoutWindow | WindowOnKey | WindowCountDistinct | PlainSelect | PlainInGrouped | HavingWithoutGroups
    | DuplicateAlias | HavingTerm | QualifyTerm | OrderTerm | ResultRow

  predicate IsOwn(s: Select, t: Term) { !IsDerived(t, s.joins, s.derived) }

  /** A term that aggregates the rows it is projected over: a measure of the query's
      own, unless a window applies it. */
  predicate Aggregates(s: Select, t: Term) { IsOwn(s, t) && t.IsMeasure() && !t.IsWindowed() }

  predicate SomeAggregates(s: Select) { exists i :: 0 <= i < |s.terms| && Aggregates(s, s.terms[i]) }

  /** The projection is grouped: an aggregate of its own or an explicit group key makes
      it so. */
  predicate Groups(s: Select) {
    exists i :: 0 <= i < |s.terms| && MakesGrouped(s, s.terms[i])
  }

  predicate MakesGrouped(s: Select, t: Term) { Aggregates(s, t) || (IsOwn(s, t) && t.IsGroupKey() && !t.bucketed) }

  function OwnKeys(s: Select, n: nat): seq<Term>
    requires n <= |s.terms|
  {
    if n == 0 then []
    else OwnKeys(s, n - 1) + (if IsOwn(s, s.terms[n - 1]) && s.terms[n - 1].IsGroupKey() then [s.terms[n - 1]] else [])
  }

  /** The keys a grouped projection groups by: its own, then the terms it reads from
      joined selects; a row-level one has none. */
  function ShapeOf(s: Select): Shape {
    Shape(Groups(s), if Groups(s) then OwnKeys(s, |s.terms|) + DerivedIn(s.terms, s.joins, s.derived) else [])
  }

  predicate AliasesDiffer(terms: seq<Term>) { forall i, j :: 0 <= i < j < |terms| ==> terms[i].Alias() != terms[j].Alias() }

  predicate IsAlias(terms: seq<Term>, name: string) { exists n :: 0 <= n < |terms| && terms[n].Alias() == name }

  /** The result row's fields and the aliases are the same names, each once. */
  predicate FieldsMatch(s: Select) {
    (forall i, j :: 0 <= i < j < |s.fields| ==> s.fields[i] != s.fields[j]) &&
    (forall i :: 0 <= i < |s.fields| ==> IsAlias(s.terms, s.fields[i])) &&
    forall n :: 0 <= n < |s.terms| ==> s.terms[n].Alias() in s.fields
  }

  /** What validation has to refuse a projection for, the rules of single terms aside. */
  predicate Sound(s: Select) {
    s.terms != [] && AliasesDiffer(s.terms) && FieldsMatch(s) && (s.Having() ==> Groups(s)) && NamesTerms(s) &&
    (forall i :: 0 <= i < |s.terms| ==> !Altered(s, s.terms[i])) &&
    (forall i :: 0 <= i < |s.terms| ==> SoundWindow(s, s.terms[i])) &&
    (Groups(s) ==> forall i :: 0 <= i < |s.terms| ==> !(IsOwn(s, s.terms[i]) && s.terms[i].IsPlain()))
  }

  /** A condition on groups names a projected measure, one on the projected rows a
      window, and an order any term: the whole term, not its alias. */
  predicate NamesTerms(s: Select) {
    (forall i :: 0 <= i < |s.havings| ==> IsSelected(s.terms, s.havings[i]) && !s.havings[i].IsWindowed()) &&
    (forall i :: 0 <= i < |s.qualifies| ==> IsSelected(s.terms, s.qualifies[i]) && s.qualifies[i].IsWindowed()) &&
    forall i :: 0 <= i < |s.orders| ==> IsSelected(s.terms, s.orders[i])
  }

  /** A term without its alias, window and conditions. */
  function Base(t: Term): Term { t.(alias := "", window := None, conditions := []) }

  /** The alias a select projects a term's base under. */
  function ProjectsAs(terms: seq<Term>, t: Term): Option<string> {
    if terms == [] then None else if Base(terms[0]) == Base(t) then Some(terms[0].Alias()) else ProjectsAs(terms[1..], t)
  }

  /** A joined select's term under another alias, or with a window or conditions of its
      own: neither that select's nor kept apart from it. */
  predicate Altered(s: Select, t: Term) {
    IsOwn(s, t) && exists i :: 0 <= i < |s.joins| && AlteredOf(s, t, s.joins[i])
  }

  predicate AlteredOf(s: Select, t: Term, join: Join) {
    join.select.Some? && ProjectsAs(join.select.value.terms, t).Some? &&
    (!OwnTerm(t, s.main, s.joins) || ProjectsAs(join.select.value.terms, t) == Some(t.Alias()))
  }

  /** A member of a union is not ordered or cut by itself. */
  predicate NestedOrdered(s: Select, mode: Mode) { mode.Branch() && (s.orders != [] || s.limited) }

  /** The window rules of one term. */
  predicate SoundWindow(s: Select, t: Term) {
    IsOwn(s, t) ==> (IsWindowFn(t.fn) ==> t.IsWindowed()) && (t.IsWindowed() ==> t.IsMeasure() && !t.fn.CountDistinct?)
  }

  predicate Reports(s: Select, t: Term) { IsOwn(s, t) && (t.IsMeasure() || t.IsWindowed()) }

  /** A plain read is no select of its own; a member of a union or a joining select may
      be one. */
  predicate PlainRead(s: Select, mode: Mode) {
    !mode.Branch() && s.joins == [] && forall i :: 0 <= i < |s.terms| ==> !Reports(s, s.terms[i])
  }

  /** The first walk over the terms: whether any reports and whether the projection is
      grouped. */
  method WalkTerms(s: Select) returns (reports: bool, grouped: bool, err: Option<Defect>)
    ensures err.None? <==> forall i :: 0 <= i < |s.terms| ==> SoundWindow(s, s.terms[i])
    ensures err.None? ==> (grouped <==> Groups(s)) && (reports <==> exists i :: 0 <= i < |s.terms| && Reports(s, s.terms[i]))
  {
    reports, grouped := false, false;
    for i := 0 to |s.terms|
      invariant grouped <==> exists k :: 0 <= k < i && MakesGrouped(s, s.terms[k])
      invariant reports <==> exists k :: 0 <= k < i && Reports(s, s.terms[k])
      invariant forall k :: 0 <= k < i ==> SoundWindow(s, s.terms[k])
    {
      var t := s.terms[i];
      if IsDerived(t, s.joins, s.derived) { continue; }
      if IsWindowFn(t.fn) && !t.IsWindowed() { return reports, grouped, Some(WindowFnWithoutWindow); }
      if t.IsWindowed() && !t.IsMeasure() { return reports, grouped, Some(WindowOnKey); }
      if t.IsWindowed() && t.fn.CountDistinct? { return reports, grouped, Some(WindowCountDistinct); }
      if t.IsWindowed() { reports := true; }
      else if t.IsMeasure() { reports, grouped := true, true; }
      else if t.IsGroupKey() && !t.bucketed { grouped := true; }
    }
    err := None;
  }

  /** The second: the own keys of a grouped projection, which has no plain column. */
  method WalkKeys(s: Select, grouped: bool) returns (keys: seq<Term>, err: Option<Defect>)
    ensures err.None? <==> (grouped ==> forall i :: 0 <= i < |s.terms| ==> !(IsOwn(s, s.terms[i]) && s.terms[i].IsPlain()))
    ensures err.None? ==> keys == if grouped then OwnKeys(s, |s.terms|) else []
  {
    keys := [];
    for i := 0 to |s.terms|
      invariant keys == if grouped then OwnKeys(s, i) else []
      invariant grouped ==> forall k :: 0 <= k < i ==> !(IsOwn(s, s.terms[k]) && s.terms[k].IsPlain())
    {
      var t := s.terms[i];
      if IsDerived(t, s.joins, s.derived) { continue; }
      if grouped && t.IsPlain() { return keys, Some(PlainInGrouped); }
      if grouped && t.IsGroupKey() { keys := keys + [t]; }
    }
    err := None;
  }

  method FindAltered(s: Select) returns (altered: bool)
    ensures altered <==> exists i :: 0 <= i < |s.terms| && Altered(s, s.terms[i])
  {
    for i := 0 to |s.terms|
      invariant forall k :: 0 <= k < i ==> !Altered(s, s.terms[k])
    {
      var t := s.terms[i];
      if IsDerived(t, s.joins, s.derived) { continue; }
      for n := 0 to |s.joins|
        invariant forall k :: 0 <= k < n ==> !AlteredOf(s, t, s.joins[k])
      {
        var join := s.joins[n];
        if join.select.None? { continue; }
        var alias := ProjectsAs(join.select.value.terms, t);
        if alias.Some? && (!OwnTerm(t, s.main, s.joins) || alias.value == t.Alias()) {
          assert Altered(s, s.terms[i]);
          return true;
        }
      }
    }
    return false;
  }

  method CheckConditions(s: Select, grouped: bool) returns (err: Option<Defect>)
    ensures err.None? <==> NamesTerms(s) && (s.Having() ==> grouped)
  {
    if !grouped && s.havings != [] { return Some(HavingWithoutGroups); }
    for i := 0 to |s.havings|
      invariant forall k :: 0 <= k < i ==> IsSelected(s.terms, s.havings[k]) && !s.havings[k].IsWindowed()
    {
      if !IsSelected(s.terms, s.havings[i]) || s.havings[i].IsWindowed() { return Some(HavingTerm); }
    }
    for i := 0 to |s.qualifies|
      invariant forall k :: 0 <= k < i ==> IsSelected(s.terms, s.qualifies[k]) && s.qualifies[k].IsWindowed()
    {
      if !IsSelected(s.terms, s.qualifies[i]) || !s.qualifies[i].IsWindowed() { return Some(QualifyTerm); }
    }
    for i := 0 to |s.orders|
      invariant forall k :: 0 <= k < i ==> IsSelected(s.terms, s.orders[k])
    {
      if !IsSelected(s.terms, s.orders[i]) { return Some(OrderTerm); }
    }
    return None;
  }

  /** The pass over a projection: refused for what Sound, PlainRead and NestedOrdered
      name, and otherwise told its shape. */
  method Validate(s: Select, mode: Mode) returns (shape: Shape, err: Option<Defect>)
    ensures err.None? <==> Sound(s) && !PlainRead(s, mode) && !NestedOrdered(s, mode)
    ensures err.None? ==> shape == ShapeOf(s)
  {
    shape := Shape(false, []);
    if s.terms == [] { return shape, Some(EmptyProjection); }
    if mode.Branch() && (s.orders != [] || s.limited) { return shape, Some(NestedSelectOrdered); }
    var altered := FindAltered(s);
    if altered { return shape, Some(JoinSelectTerm); }
    var reports, grouped, defect := WalkTerms(s);
    if defect.Some? { return shape, defect; }
    if !reports && !mode.Branch() && s.joins == [] { return shape, Some(PlainSelect); }
    var keys;
    keys, defect := WalkKeys(s, grouped);
    if defect.Some? { return shape, defect; }
    if grouped { keys := keys + DerivedIn(s.terms, s.joins, s.derived); }
    if !AliasesDiffer(s.terms) { return shape, Some(Defect.DuplicateAlias); }
    defect := CheckConditions(s, grouped);
    if defect.Some? { return shape, defect; }
    if !FieldsMatch(s) { return shape, Some(ResultRow); }
    return Shape(grouped, keys), None;
  }

  /** What a projection is grouped by, and grouped for: it has keys or aggregates. */
  lemma GroupedByKeysOrAggregates(s: Select)
    ensures ShapeOf(s).grouped <==> Groups(s)
    ensures Groups(s) ==> ShapeOf(s).keys != [] || SomeAggregates(s)
    ensures SomeAggregates(s) ==> Groups(s)
  {
    if Groups(s) && !SomeAggregates(s) {
      var i :| 0 <= i < |s.terms| && IsOwn(s, s.terms[i]) && s.terms[i].IsGroupKey();
      KeysAre(s, s.terms[i]);
    }
  }

  /** A grouped projection groups by its own key terms and by every term it reads from a
      joined select, and by nothing else. */
  lemma KeysAre(s: Select, t: Term)
    requires Groups(s)
    ensures t in ShapeOf(s).keys <==> t in s.terms && (IsDerived(t, s.joins, s.derived) || t.IsGroupKey())
  {
    OwnKeysAre(s, |s.terms|, t);
    DerivedInAre(s.terms, s.joins, s.derived, t);
    if t in s.terms && IsOwn(s, t) && t.IsGroupKey() { var i :| 0 <= i < |s.terms| && s.terms[i] == t; }
  }

  lemma {:induction false} OwnKeysAre(s: Select, n: nat, t: Term)
    requires n <= |s.terms|
    ensures t in OwnKeys(s, n) <==> IsOwn(s, t) && t.IsGroupKey() && exists i :: 0 <= i < n && s.terms[i] == t
  {
    if n > 0 { OwnKeysAre(s, n - 1, t); }
  }

  lemma {:induction false} DerivedInAre(terms: seq<Term>, joins: seq<Join>, derived: map<string, nat>, t: Term)
    ensures t in DerivedIn(terms, joins, derived) <==> t in terms && IsDerived(t, joins, derived)
  {
    if terms != [] {
      DerivedInAre(terms[1..], joins, derived, t);
      assert terms == [terms[0]] + terms[1..];
    }
  }

  // ---- what the rules are for ----

  function AliasesOf(terms: seq<Term>): (names: seq<string>)
    ensures |names| == |terms|
  {
    seq(|terms|, i requires 0 <= i < |terms| => terms[i].Alias())
  }

  lemma {:induction false} DistinctCounts(names: seq<string>, x: string)
    ensures multiset(names)[x] > 0 <==> x in names
    ensures (forall i, j :: 0 <= i < j < |names| ==> names[i] != names[j]) ==> multiset(names)[x] <= 1
  {
    if names != [] {
      var rest := names[1..];
      DistinctCounts(rest, x);
      assert names == [names[0]] + rest;
      assert forall k :: 0 <= k < |rest| ==> rest[k] == names[k + 1];
    }
  }

  lemma {:induction false} CountedOnce(names: seq<string>)
    requires forall x :: multiset(names)[x] <= 1
    ensures forall i, j :: 0 <= i < j < |names| ==> names[i] != names[j]
  {
    if names != [] {
      var rest := names[1..];
      assert names == [names[0]] + rest;
      forall x ensures multiset(rest)[x] <= 1 { assert multiset(names)[x] == multiset([names[0]])[x] + multiset(rest)[x] <= 1; }
      CountedOnce(rest);
      forall i, j | 0 <= i < j < |names| ensures names[i] != names[j] {
        if i == 0 { assert names[j] == rest[j - 1] && multiset(names)[names[0]] == 1 + multiset(rest)[names[0]]; }
        else { assert names[i] == rest[i - 1] && names[j] == rest[j - 1]; }
      }
    }
  }

  /** A result row fits a projection exactly when its fields are the aliases in some
      order: every value has one place to go, and every place one value. */
  lemma FieldsAreAliases(s: Select)
    requires AliasesDiffer(s.terms)
    ensures FieldsMatch(s) <==> multiset(s.fields) == multiset(AliasesOf(s.terms))
  {
    var names := AliasesOf(s.terms);
    forall x ensures (x in names <==> IsAlias(s.terms, x)) && multiset(names)[x] <= 1 && (multiset(names)[x] > 0 <==> x in names) {
      DistinctCounts(names, x);
      if IsAlias(s.terms, x) {
        var n :| 0 <= n < |s.terms| && s.terms[n].Alias() == x;
        assert names[n] == x;
      }
    }
    if FieldsMatch(s) {
      forall x ensures multiset(s.fields)[x] == multiset(names)[x] { FieldCounts(s, x); }
    }
    if multiset(s.fields) == multiset(names) {
      forall x ensures x in s.fields <==> x in names { assert x in multiset(s.fields) <==> x in multiset(names); }
      CountedOnce(s.fields);
      forall n | 0 <= n < |s.terms| ensures s.terms[n].Alias() in s.fields { assert names[n] in names; }
      forall i | 0 <= i < |s.fields| ensures IsAlias(s.terms, s.fields[i]) { assert s.fields[i] in s.fields; }
    }
  }

  lemma FieldCounts(s: Select, x: string)
    requires AliasesDiffer(s.terms) && FieldsMatch(s)
    ensures multiset(s.fields)[x] == multiset(AliasesOf(s.terms))[x]
  {
    var names := AliasesOf(s.terms);
    DistinctCounts(s.fields, x);
    DistinctCounts(names, x);
    if x in s.fields {
      var i :| 0 <= i < |s.fields| && s.fields[i] == x;
      assert IsAlias(s.terms, s.fields[i]);
      var n :| 0 <= n < |s.terms| && s.terms[n].Alias() == x;
      assert names[n] == x;
    }
    if x in names {
      var n :| 0 <= n < |names| && names[n] == x;
      assert s.terms[n].Alias() in s.fields;
    }
  }

  /** Two terms that differ in alias, window and conditions at the most. */
  predicate Variants(a: Term, b: Term) {
    a.fn == b.fn && a.plain == b.plain && a.table == b.table && a.column == b.column && a.bucketed == b.bucketed
  }

  lemma {:induction false} ProjectsAsIs(terms: seq<Term>, t: Term)
    ensures ProjectsAs(terms, t).None? <==> forall n :: 0 <= n < |terms| ==> !Variants(terms[n], t)
    ensures ProjectsAs(terms, t).Some? ==>
      exists n :: 0 <= n < |terms| && Variants(terms[n], t) && ProjectsAs(terms, t).value == terms[n].Alias()
  {
    if terms != [] {
      assert Base(terms[0]) == Base(t) <==> Variants(terms[0], t);
      ProjectsAsIs(terms[1..], t);
      assert forall n :: 0 < n < |terms| ==> terms[n] == terms[1..][n - 1];
    }
  }

  /** A term the query cannot compute itself, and that some joined select projects in
      another form, is refused: nothing else is read in its place. */
  lemma VariantIsRefused(s: Select, t: Term, i: nat, n: nat)
    requires i < |s.joins| && s.joins[i].select.Some? && n < |s.joins[i].select.value.terms|
    requires Variants(s.joins[i].select.value.terms[n], t) && !OwnTerm(t, s.main, s.joins) && IsOwn(s, t) && t in s.terms
    ensures !Sound(s)
  {
    ProjectsAsIs(s.joins[i].select.value.terms, t);
    assert Altered(s, t);
    var k :| 0 <= k < |s.terms| && s.terms[k] == t;
  }

  /** A term the query computes itself is refused on that account only where a joined
      select answers for its alias in another form. */
  lemma OwnTermIsRefusedForAlias(s: Select, t: Term)
    requires OwnTerm(t, s.main, s.joins) && Altered(s, t)
    ensures exists i, n ::
      0 <= i < |s.joins| && s.joins[i].select.Some? && 0 <= n < |s.joins[i].select.value.terms| &&
      Variants(s.joins[i].select.value.terms[n], t) && s.joins[i].select.value.terms[n].Alias() == t.Alias()
  {
    var i :| 0 <= i < |s.joins| && AlteredOf(s, t, s.joins[i]);
    ProjectsAsIs(s.joins[i].select.value.terms, t);
  }

  /** A member of a union is read whole: it is accepted only without an order or a limit
      of its own, which no other statement has to do without. */
  lemma MembersAreWhole(s: Select)
    ensures forall mode :: mode in {BranchRead, BranchCount} ==> (NestedOrdered(s, mode) <==> s.orders != [] || s.limited)
    ensures forall mode :: mode in {ReadRows, CountInner} ==> !NestedOrdered(s, mode)
  {
  }
}
