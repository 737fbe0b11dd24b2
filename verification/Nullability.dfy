/** Which aliases of a projection can come back NULL (database/select_validate.go,
    nullableAliases and notNullColumns), and the proof that no other does. */
module Nullability {
  import opened Sql
  import opened Filters
  import opened FilterMeaning
  import opened Terms
  import opened Joins
  import opened JoinProof
  import opened DerivedKeys

  /** A projection as validation leaves it. notNull lists, by table, the columns
      that cannot hold NULL: the schema forbids it or the Go type cannot. */
  datatype Projection = Projection(
    main: string, info: TableInfo, joins: seq<Join>, terms: seq<Term>, keys: seq<Term>, grouped: bool,
    derived: map<string, nat>, filters: seq<Filter>, notNull: map<string, set<string>>)

  // ---- the columns WHERE keeps NULL out of ----

  function ColumnKey(main: string, table: string, column: string): (string, string) {
    (if table == "" then main else table, column)
  }

  /** A conjunct of WHERE that is never true where its column is NULL. */
  predicate KeepsNullOut(f: Filter) {
    match f.op
    case And | Or | Exists | Nothing => false
    case IsNull => f.value == Scalar(Flag(false))
    case _ => f.column != ""
  }

  function ProvenBy(fs: seq<Filter>, main: string): set<(string, string)> {
    set i | 0 <= i < |fs| && KeepsNullOut(fs[i]) :: ColumnKey(main, fs[i].table, fs[i].column)
  }

  lemma SplitProofs(a: seq<Filter>, b: seq<Filter>, main: string)
    ensures ProvenBy(a + b, main) == ProvenBy(a, main) + ProvenBy(b, main)
  {
    assert forall i :: 0 <= i < |a| ==> (a + b)[i] == a[i];
    assert forall i :: 0 <= i < |b| ==> (a + b)[|a| + i] == b[i];
  }

  /** notNullColumns: the walk over the filters AND-ed at the top level. */
  method NotNullColumns(filters: seq<Filter>, main: string) returns (proven: set<(string, string)>)
    ensures proven == ProvenBy(Conjuncts(filters), main)
    decreases filters
  {
    proven := {};
    for n := 0 to |filters|
      invariant proven == ProvenBy(Conjuncts(filters[..n]), main)
    {
      var f := filters[n];
      ConjunctsStep(filters, n);
      SplitProofs(Conjuncts(filters[..n]), ConjunctsOf(f), main);
      match f.op {
        case And =>
          if f.value.Group? {
            var members := NotNullColumns(f.value.filters, main);
            proven := proven + members;
          }
        case _ =>
          assert ConjunctsOf(f) == [f] && [f][0] == f;
          if KeepsNullOut(f) { proven := proven + {ColumnKey(main, f.table, f.column)}; }
      }
    }
    assert filters[..|filters|] == filters;
  }

  // ---- the aliases flagged ----

  predicate LeftJoined(p: Projection, table: string) {
    exists i :: 0 <= i < |p.joins| && p.joins[i].table == table && p.joins[i].left
  }

  /** columnOf: the column of the queried model or of a joined model. */
  predicate Known(p: Projection, t: Term) {
    if t.table == "" || t.table == p.main then p.info.Has(t.column)
    else exists i :: 0 <= i < |p.joins| && p.joins[i].table == t.table && p.joins[i].select.None? && p.joins[i].info.Has(t.column)
  }

  predicate NullableColumn(p: Projection, t: Term) {
    var table := TableOf(t, p.main);
    !(table in p.notNull && t.column in p.notNull[table])
  }

  predicate Extreme(fn: Fn) { fn.Avg? || fn.Min? || fn.Max? }

  predicate Flagged(p: Projection, proven: set<(string, string)>, t: Term) {
    var unproven := NullableColumn(p, t) && ColumnKey(p.main, t.table, t.column) !in proven;
    if IsDerived(t, p.joins, p.derived) then
      var join := p.joins[p.derived[t.Alias()]];
      join.left || t.Alias() in join.select.value.nullable
    else if LeftJoined(p, t.table) && !t.fn.Count? && !t.fn.CountDistinct? && !t.fn.Sum? then true
    else if t.fn.NoFn? then Known(p, t) && unproven
    else if t.fn.Lag? || t.fn.Lead? then true
    else if Extreme(t.fn) then
      (p.keys == [] && !t.IsWindowed()) || t.conditions != [] || !Known(p, t) || unproven
    else false
  }

  method NullableAliases(p: Projection) returns (nullable: set<string>)
    ensures nullable == set n | 0 <= n < |p.terms| && Flagged(p, ProvenBy(Conjuncts(p.filters), p.main), p.terms[n]) :: p.terms[n].Alias()
  {
    var proven := NotNullColumns(p.filters, p.main);
    nullable := {};
    for n := 0 to |p.terms|
      invariant nullable == set m | 0 <= m < n && Flagged(p, proven, p.terms[m]) :: p.terms[m].Alias()
    {
      if Flagged(p, proven, p.terms[n]) { nullable := nullable + {p.terms[n].Alias()}; }
    }
  }
}
