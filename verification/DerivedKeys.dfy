/** A grouped select read as a derived table is joined on its own group keys
    alone, even when it also groups by terms it reads from selects it joins
    itself (database/nested.go, database/select_join.go). This module models how
    those terms become group keys. */
module DerivedKeys {
  import opened Sql
  import opened Filters
  import opened FilterMeaning
  import opened Terms
  import opened Joins
  import opened JoinShape
  import opened JoinProof

  datatype Refusal = DuplicateAlias | NotKeyed

  // ---- the terms read through a joined select ----

  /** The query could compute the term itself: it carries no table, or the table
      of the queried model or of a model it joins. */
  predicate OwnTerm(t: Term, main: string, joins: seq<Join>) {
    t.table == "" || t.table == main || exists i :: 0 <= i < |joins| && joins[i].select.None? && joins[i].table == t.table
  }

  /** A term under the alias its constructor gave it. */
  predicate DefaultAlias(t: Term) {
    if t.column != "" then t.Alias() == t.column
    else match t.fn
      case Count => t.Alias() == "count"
      case RowNumber => t.Alias() == "row_number"
      case Rank => t.Alias() == "rank"
      case DenseRank => t.Alias() == "dense_rank"
      case _ => true
  }

  predicate Projects(join: Join, t: Term) {
    join.select.Some? && IsSelected(join.select.value.terms, t)
  }

  /** The term is a column of a joined select, by the record DerivedTerms fills:
      the alias finds the select and the whole term confirms it. */
  predicate IsDerived(t: Term, joins: seq<Join>, derived: map<string, nat>) {
    t.Alias() in derived && derived[t.Alias()] < |joins| && Projects(joins[derived[t.Alias()]], t)
  }

  /** Term n is recorded under join i, if i projects it, and is not one the query
      could compute itself under the same spelling. */
  predicate Recorded(main: string, joins: seq<Join>, terms: seq<Term>, derived: map<string, nat>, i: nat, n: nat) {
    i < |joins| && n < |terms| && Projects(joins[i], terms[n]) ==>
      terms[n].Alias() in derived && derived[terms[n].Alias()] == i && !(OwnTerm(terms[n], main, joins) && DefaultAlias(terms[n]))
  }

  predicate Justified(joins: seq<Join>, terms: seq<Term>, derived: map<string, nat>, a: string) {
    a in derived ==>
      derived[a] < |joins| && exists n :: 0 <= n < |terms| && terms[n].Alias() == a && Projects(joins[derived[a]], terms[n])
  }

  /** Term n read through join i could be the query's own, or is answered for under
      one alias by another select too. */
  predicate Clashes(main: string, joins: seq<Join>, terms: seq<Term>, i: nat, n: nat) {
    i < |joins| && n < |terms| && Projects(joins[i], terms[n]) &&
    ((OwnTerm(terms[n], main, joins) && DefaultAlias(terms[n])) ||
     exists j, m :: 0 <= j < |joins| && 0 <= m < |terms| && j != i && Projects(joins[j], terms[m]) && terms[m].Alias() == terms[n].Alias())
  }

  ghost predicate Clashing(main: string, joins: seq<Join>, terms: seq<Term>) {
    exists i: nat, n: nat :: Clashes(main, joins, terms, i, n)
  }

  lemma RecordedDoesNotClash(main: string, joins: seq<Join>, terms: seq<Term>, derived: map<string, nat>)
    requires forall i: nat, n: nat :: Recorded(main, joins, terms, derived, i, n)
    ensures !Clashing(main, joins, terms)
  {
    forall i: nat, n: nat ensures !Clashes(main, joins, terms, i, n) {
      assert Recorded(main, joins, terms, derived, i, n);
      forall j: nat, m: nat | j < |joins| && m < |terms| && j != i && Projects(joins[j], terms[m]) ensures Recorded(main, joins, terms, derived, j, m) {}
    }
  }

  /** The tables whose columns the query could name itself. */
  function OwnTables(main: string, joins: seq<Join>): set<string> {
    {"", main} + set i | 0 <= i < |joins| && joins[i].select.None? :: joins[i].table
  }

  /** A term of one joined select alone is refused exactly when the query and the select
      could have written it independently: a column of a table the query reads itself,
      under its own name, or a constant, or a count or rank under its usual name. */
  lemma WrittenAlikeClashes(main: string, joins: seq<Join>, terms: seq<Term>, i: nat, n: nat)
    requires i < |joins| && n < |terms| && Projects(joins[i], terms[n])
    requires forall j, m :: 0 <= j < |joins| && 0 <= m < |terms| && j != i && Projects(joins[j], terms[m]) ==> terms[m].Alias() != terms[n].Alias()
    ensures
      var t := terms[n];
      Clashes(main, joins, terms, i, n) <==>
        t.table in OwnTables(main, joins) &&
        if t.column != "" then t.alias in {"", t.column}
        else !((t.fn.Count? && t.alias != "count") || (t.fn.RowNumber? && t.alias != "row_number") ||
               (t.fn.Rank? && t.alias != "rank") || (t.fn.DenseRank? && t.alias != "dense_rank"))
  {
    if terms[n].table in OwnTables(main, joins) && terms[n].table !in {"", main} {
      var k :| 0 <= k < |joins| && joins[k].select.None? && joins[k].table == terms[n].table;
    }
  }

  method RecordTerms(main: string, joins: seq<Join>, terms: seq<Term>, i: nat, before: map<string, nat>) returns (derived: map<string, nat>, err: Option<Refusal>)
    requires i < |joins| && forall a :: Justified(joins, terms, before, a)
    ensures forall a :: Justified(joins, terms, derived, a)
    ensures err.None? ==> forall a :: a in before ==> a in derived && derived[a] == before[a]
    ensures err.None? ==> forall n: nat :: Recorded(main, joins, terms, derived, i, n)
    ensures err.Some? ==> Clashing(main, joins, terms)
  {
    derived := before;
    for n := 0 to |terms|
      invariant forall a :: Justified(joins, terms, derived, a)
      invariant forall a :: a in before ==> a in derived && derived[a] == before[a]
      invariant forall m :: 0 <= m < n ==> Recorded(main, joins, terms, derived, i, m)
    {
      var t := terms[n];
      if Projects(joins[i], t) {
        if OwnTerm(t, main, joins) && DefaultAlias(t) {
          assert Clashes(main, joins, terms, i, n);
          return derived, Some(DuplicateAlias);
        }
        if t.Alias() in derived && derived[t.Alias()] != i {
          assert Justified(joins, terms, derived, t.Alias());
          assert Clashes(main, joins, terms, i, n);
          return derived, Some(DuplicateAlias);
        }
        ghost var last := derived;
        derived := derived[t.Alias() := i];
        forall a ensures Justified(joins, terms, derived, a) {
          assert Justified(joins, terms, last, a);
          if a == t.Alias() { assert terms[n].Alias() == a && Projects(joins[i], terms[n]); }
        }
        forall m | 0 <= m < n ensures Recorded(main, joins, terms, derived, i, m) {
          assert Recorded(main, joins, terms, last, i, m);
        }
      }
      assert Recorded(main, joins, terms, derived, i, n);
    }
    err := None;
  }

  /** On success every term some joined select projects is recorded under it; it is
      refused exactly when a term read through a select could be the query's own, or
      two selects answer for one alias. */
  method DerivedTerms(main: string, joins: seq<Join>, terms: seq<Term>) returns (derived: map<string, nat>, err: Option<Refusal>)
    ensures err.None? ==> forall i: nat, n: nat :: Recorded(main, joins, terms, derived, i, n)
    ensures forall a :: Justified(joins, terms, derived, a)
    ensures err.Some? <==> Clashing(main, joins, terms)
  {
    derived := map[];
    for i := 0 to |joins|
      invariant forall a :: Justified(joins, terms, derived, a)
      invariant forall j: nat, n: nat :: j < i ==> Recorded(main, joins, terms, derived, j, n)
    {
      if joins[i].select.Some? {
        ghost var before := derived;
        derived, err := RecordTerms(main, joins, terms, i, derived);
        if err.Some? { return; }
        forall j: nat, n: nat | j < i ensures Recorded(main, joins, terms, derived, j, n) {
          assert Recorded(main, joins, terms, before, j, n);
        }
      }
    }
    RecordedDoesNotClash(main, joins, terms, derived);
    err := None;
  }

  // ---- the group keys ----

  function TableOf(t: Term, main: string): string { if t.table != "" then t.table else main }

  /** groupsBy: a plain key names the column on that table; a term read through a
      joined select proves a column of that select alone. */
  predicate KeyNames(key: Term, main: string, joins: seq<Join>, derived: map<string, nat>, table: string, column: string) {
    (IsDerived(key, joins, derived) ==> key.fn.NoFn? && joins[derived[key.Alias()]].table == table) &&
    key.column == column && !key.bucketed && TableOf(key, main) == table
  }

  /** What a key names: its own column, of its own table or the queried one; read through
      a select, a column that select groups by, and no measure of it. */
  lemma KeyNamesItsColumn(key: Term, main: string, joins: seq<Join>, derived: map<string, nat>, table: string, column: string)
    requires main != ""
    ensures KeyNames(key, main, joins, derived, table, column) <==>
      key.column == column && !key.bucketed && (key.table == table != "" || (key.table == "" && table == main)) &&
      (IsDerived(key, joins, derived) ==> !key.IsMeasure() && !key.fn.Literal? && joins[derived[key.Alias()]].table == table)
  {
  }

  predicate GroupsBy(keys: seq<Term>, main: string, joins: seq<Join>, derived: map<string, nat>, table: string, column: string) {
    exists n :: 0 <= n < |keys| && KeyNames(keys[n], main, joins, derived, table, column)
  }

  function DerivedIn(terms: seq<Term>, joins: seq<Join>, derived: map<string, nat>): (keys: seq<Term>)
    ensures forall m :: 0 <= m < |keys| ==> IsDerived(keys[m], joins, derived)
  {
    if terms == [] then []
    else (if IsDerived(terms[0], joins, derived) then [terms[0]] else []) + DerivedIn(terms[1..], joins, derived)
  }

  lemma {:induction false} DerivedInAppend(a: seq<Term>, t: Term, joins: seq<Join>, derived: map<string, nat>)
    ensures DerivedIn(a + [t], joins, derived) == DerivedIn(a, joins, derived) + (if IsDerived(t, joins, derived) then [t] else [])
  {
    if a == [] {
      assert [t][1..] == [];
    } else {
      var more := a + [t];
      assert more != [] && more[0] == a[0] && more[1..] == a[1..] + [t];
      DerivedInAppend(a[1..], t, joins, derived);
    }
  }

  /** Every select a key is read from is joined on columns the keys name. */
  ghost predicate Keyed(keys: seq<Term>, main: string, joins: seq<Join>, derived: map<string, nat>) {
    forall n, tie :: 0 <= n < |keys| && IsDerived(keys[n], joins, derived) && TieOf(main, joins, derived[keys[n].Alias()], tie)
      ==> GroupsBy(keys, main, joins, derived, tie.0, tie.1)
  }

  ghost predicate TieOf(main: string, joins: seq<Join>, i: nat, tie: (string, string))
    requires i < |joins|
  {
    TiedBy(Conjuncts(joins[i].on), joins[i].table, Tables(main, joins[..i]), tie)
  }

  /** What resolveJoins recorded: the columns each join's ON ties it to. */
  ghost predicate TiesRecorded(main: string, joins: seq<Join>, ties: seq<set<(string, string)>>) {
    |ties| == |joins| && forall i, tie :: 0 <= i < |joins| ==> (tie in ties[i] <==> TieOf(main, joins, i, tie))
  }

  /** The select a derived key is read from is tied to columns that are grouped by. */
  predicate KeyedThroughTies(key: Term, keys: seq<Term>, main: string, joins: seq<Join>, derived: map<string, nat>, ties: seq<set<(string, string)>>)
    requires |ties| == |joins| && IsDerived(key, joins, derived)
  {
    forall tie :: tie in ties[derived[key.Alias()]] ==> GroupsBy(keys, main, joins, derived, tie.0, tie.1)
  }

  /** The keys added for derived terms are the ones Keyed speaks of. */
  lemma FoundAreKeyed(own: seq<Term>, found: seq<Term>, main: string, joins: seq<Join>, derived: map<string, nat>, ties: seq<set<(string, string)>>)
    requires TiesRecorded(main, joins, ties)
    requires forall n :: 0 <= n < |own| ==> !IsDerived(own[n], joins, derived)
    requires forall m :: 0 <= m < |found| ==> IsDerived(found[m], joins, derived)
    ensures Keyed(own + found, main, joins, derived) <==>
      forall m :: 0 <= m < |found| && IsDerived(found[m], joins, derived) ==>
        KeyedThroughTies(found[m], own + found, main, joins, derived, ties)
  {
    var keys := own + found;
    forall m | 0 <= m < |found| ensures keys[|own| + m] == found[m] {}
    forall n | |own| <= n < |keys| ensures keys[n] == found[n - |own|] {}
  }

  /** groupDerivedTerms over what resolveJoins recorded: ties holds the columns
      each join's ON ties it to. The derived terms of the projection become group
      keys after the projection's own, and the projection is refused exactly when
      one of them is joined on a column it does not group by. */
  method GroupDerivedTerms(terms: seq<Term>, own: seq<Term>, main: string, joins: seq<Join>, derived: map<string, nat>, ties: seq<set<(string, string)>>)
    returns (keys: seq<Term>, err: Option<Refusal>)
    requires TiesRecorded(main, joins, ties)
    requires forall n :: 0 <= n < |own| ==> !IsDerived(own[n], joins, derived)
    ensures keys == own + DerivedIn(terms, joins, derived)
    ensures err.None? <==> Keyed(keys, main, joins, derived)
  {
    var found := [];
    for n := 0 to |terms|
      invariant found == DerivedIn(terms[..n], joins, derived)
    {
      DerivedInAppend(terms[..n], terms[n], joins, derived);
      assert terms[..n + 1] == terms[..n] + [terms[n]];
      if IsDerived(terms[n], joins, derived) { found := found + [terms[n]]; }
    }
    assert terms[..|terms|] == terms;
    keys := own + found;
    FoundAreKeyed(own, found, main, joins, derived, ties);
    var keyed := AllKeyed(found, keys, main, joins, derived, ties);
    return keys, if keyed then None else Some(NotKeyed);
  }

  /** The check of the derived terms against the keys, one after the other. */
  method AllKeyed(found: seq<Term>, keys: seq<Term>, main: string, joins: seq<Join>, derived: map<string, nat>, ties: seq<set<(string, string)>>)
    returns (keyed: bool)
    requires |ties| == |joins| && forall m :: 0 <= m < |found| ==> IsDerived(found[m], joins, derived)
    ensures keyed <==> forall m :: 0 <= m < |found| ==> KeyedThroughTies(found[m], keys, main, joins, derived, ties)
  {
    for n := 0 to |found|
      invariant forall m :: 0 <= m < n ==> KeyedThroughTies(found[m], keys, main, joins, derived, ties)
    {
      if !KeyedThroughTies(found[n], keys, main, joins, derived, ties) { return false; }
    }
    return true;
  }
}
