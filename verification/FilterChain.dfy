/** How a chain applies a list of filters (database/filter.go, applyFilters and
    foreignTableFilter) and which failures narrow a query instead of failing it. */
module FilterChain {
  import opened Sql
  import opened Filters
  import opened FilterMeaning

  /** A filter that names a column of a table its scope does not read, at any
      depth: at the top the chain's own table, in a subquery the related model's,
      the outer side of an EqCol the table around the subquery. */
  predicate Foreign(f: Filter, own: string, enclosing: string)
    decreases f, 1
  {
    match f.op
    case Or | And => f.value.Group? && AnyForeign(f.value.filters, own, enclosing)
    case Exists =>
      f.value.Related? && f.value.sub.model.Some? && AnyForeign(f.value.sub.filters, f.value.sub.model.value.table, own)
    case EqCol =>
      (f.table != "" && f.table != own) ||
      (enclosing != "" && EqColParent(f.value).Some? &&
       EqColParent(f.value).value.0 != "" && EqColParent(f.value).value.0 != enclosing)
    case _ => f.table != "" && f.table != own
  }

  predicate AnyForeign(filters: seq<Filter>, own: string, enclosing: string)
    decreases filters, 0
  {
    filters != [] && (Foreign(filters[0], own, enclosing) || AnyForeign(filters[1..], own, enclosing))
  }

  datatype Error = ColumnTable | Refused(failure: Failure)

  /** The part of a database chain filters touch: the conditions added so far and
      the error the chain fails with. */
  class Query {
    const chain: Chain
    const scope: Scope
    var conditions: seq<Pred>
    var err: Option<Error>

    constructor (chain: Chain, scope: Scope)
      ensures this.chain == chain && this.scope == scope && conditions == [] && err == None
    {
      this.chain, this.scope, conditions, err := chain, scope, [], None;
    }

    /** The chain fails on a foreign column and on a failure that does not narrow,
        leaving its conditions alone; otherwise it gains exactly the predicate the
        list renders to, and none for an empty list. */
    method ApplyFilters(filters: seq<Filter>)
      modifies this
      ensures AnyForeign(filters, scope.table, "") ==> err == Some(ColumnTable) && conditions == old(conditions)
      ensures
        var (pred, failure) := Combine(RenderEach(chain, filters, scope), false);
        !AnyForeign(filters, scope.table, "") ==>
          if failure.Some? && !Narrows(failure.value) then err == Some(Refused(failure.value)) && conditions == old(conditions)
          else err == old(err) && conditions == old(conditions) + (if pred.Some? then [pred.value] else [])
    {
      if AnyForeign(filters, scope.table, "") {
        err := Some(ColumnTable);
        return;
      }
      var pred, failure := RenderFilters(chain, filters, false, scope);
      if failure.Some? && !Narrows(failure.value) {
        err := Some(Refused(failure.value));
        return;
      }
      if pred.Some? {
        conditions := conditions + [pred.value];
      }
    }
  }

  /** A chain that took a list on reads only rows its earlier conditions and every
      filter of the list accept, whatever the filters it could not apply would
      have meant, and all of those rows when it reported no failure. */
  lemma AppliedFiltersNarrow(db: Database, k: Chain, filters: seq<Filter>, scope: Scope, site: Site, env: Env, guess: Guess, before: seq<Pred>)
    requires Reads(scope, site, env) && filters != []
    requires forall i :: 0 <= i < |before| ==> !OrConnector(before[i])
    ensures
      var (pred, failure) := Combine(RenderEach(k, filters, scope), false);
      var meant := And3(Where(db, before, env), MeaningAll(db, k, filters, scope, site, guess));
      pred.Some? && !OrConnector(pred.value) &&
      (Where(db, before + [pred.value], env) == True ==> meant == True) &&
      (failure.None? ==> Where(db, before + [pred.value], env) == meant)
  {
    RenderingNeverWidens(db, k, filters, scope, site, env, guess);
    AddedConditionNarrows(db, before, Combine(RenderEach(k, filters, scope), false).0.value, env);
  }

  // ---- which failures narrow ----

  /** Every failure of a tree, where the renderer reports one. A refused subquery
      is not looked into. */
  function Failures(k: Chain, f: Filter, scope: Scope): set<Failure>
    decreases f, 1
  {
    match f.op
    case Or | And =>
      if f.value.Group? && f.value.filters != [] then FailuresIn(k, f.value.filters, scope) else {Unusable(f.op, false)}
    case Exists =>
      if ExistsRefusal(k, f, scope).Some? then {ExistsRefusal(k, f, scope).value}
      else FailuresIn(k, f.value.sub.filters, ExistsScope(k, f, scope))
    case Nothing => {}
    case _ => var failure := LeafCondition(k, f, scope).failure; if failure.Some? then {failure.value} else {}
  }

  function FailuresIn(k: Chain, filters: seq<Filter>, scope: Scope): set<Failure>
    decreases filters, 0
  {
    if filters == [] then {} else Failures(k, filters[0], scope) + FailuresIn(k, filters[1..], scope)
  }

  predicate Summarizes(failure: Option<Failure>, all: set<Failure>) {
    (failure.None? <==> all == {}) &&
    (failure.Some? ==> failure.value in all && (Narrows(failure.value) <==> forall x :: x in all ==> Narrows(x)))
  }

  lemma {:induction false} FailuresInMember(k: Chain, filters: seq<Filter>, scope: Scope, x: Failure)
    ensures x in FailuresIn(k, filters, scope) <==> exists i :: 0 <= i < |filters| && x in Failures(k, filters[i], scope)
  {
    if filters != [] {
      FailuresInMember(k, filters[1..], scope, x);
      if i :| 0 <= i < |filters[1..]| && x in Failures(k, filters[1..][i], scope) {
        assert x in Failures(k, filters[i + 1], scope);
      }
      if i :| 0 <= i < |filters| && x in Failures(k, filters[i], scope) {
        if i > 0 { assert filters[1..][i - 1] == filters[i]; }
      }
    }
  }

  /** The failure reported stands for all of them: there is one exactly when some
      filter of the tree failed, and it narrows the query to nothing only when
      every one of them may. */
  lemma {:induction false} ReportedFailureStandsForAll(k: Chain, f: Filter, scope: Scope)
    ensures Summarizes(RenderFilter(k, f, scope).failure, Failures(k, f, scope))
    decreases f, 1
  {
    match f.op
    case Or | And =>
      if f.value.Group? && f.value.filters != [] { ListFailureStandsForAll(k, f.value.filters, scope); }
    case Exists =>
      if ExistsRefusal(k, f, scope).None? {
        ListFailureStandsForAll(k, f.value.sub.filters, ExistsScope(k, f, scope));
      }
    case _ =>
  }

  lemma {:induction false} ListFailureStandsForAll(k: Chain, filters: seq<Filter>, scope: Scope)
    ensures Summarizes(Combine(RenderEach(k, filters, scope), false).1, FailuresIn(k, filters, scope))
    ensures Combine(RenderEach(k, filters, scope), true).1 == Combine(RenderEach(k, filters, scope), false).1
    decreases filters, 0
  {
    var rs, all := RenderEach(k, filters, scope), FailuresIn(k, filters, scope);
    forall i | 0 <= i < |rs| ensures Summarizes(rs[i].failure, Failures(k, filters[i], scope)) {
      ReportedFailureStandsForAll(k, filters[i], scope);
      RenderEachAt(k, filters, scope, i);
    }
    ReportCoversAll(rs);
    forall x ensures x in all <==> exists i :: 0 <= i < |filters| && x in Failures(k, filters[i], scope) {
      FailuresInMember(k, filters, scope, x);
    }
    forall i | 0 <= i < |rs| && rs[i].failure.Some? ensures rs[i].failure.value in all {
      assert rs[i].failure.value in Failures(k, filters[i], scope);
    }
    forall x | x in all ensures exists i :: 0 <= i < |rs| && rs[i].failure.Some? && (Narrows(rs[i].failure.value) ==> Narrows(x)) {
      var i :| 0 <= i < |filters| && x in Failures(k, filters[i], scope);
      assert Summarizes(rs[i].failure, Failures(k, filters[i], scope));
    }
  }

  predicate IsPlain(f: Filter) { !f.op.Or? && !f.op.And? && !f.op.Exists? && !f.op.Nothing? && f.column != "" }

  /** A client can spell the filter in a URL, and it names a table in reach. */
  ghost predicate ClientMistake(f: Filter, scope: Scope) {
    (exists token :: ParseFilterOp(token) == Some(f.op)) && (AboutOwn(f, scope) || (scope.tables.Some? && f.table in scope.tables.value))
  }

  /** The operators whose failures narrow are the ones a URL query spells. */
  lemma ClientOperators(op: Op)
    ensures ClientSpelled(op) <==> exists token :: ParseFilterOp(token) == Some(op)
  {
    forall token | token in {"eq", "ne", "gt", "gte", "lt", "lte", "in", "notin", "like", "notlike", "startswith", "endswith", "isnull"}
      ensures token in FilterOps {}
    if ClientSpelled(op) {
      var token :=
        match op
        case Eq => "eq" case Ne => "ne" case Gt => "gt" case Gte => "gte" case Lt => "lt" case Lte => "lte" case In => "in" case NotIn => "notin"
        case Like => "like" case NotLike => "notlike" case StartsWith => "startswith" case EndsWith => "endswith" case _ => "isnull";
      assert ParseFilterOp(token) == Some(op);
    }
  }

  /** A plain filter's failure narrows exactly when it is a client's mistake. */
  lemma ClientMistakesNarrow(k: Chain, f: Filter, scope: Scope)
    requires IsPlain(f) && LeafCondition(k, f, scope).failure.Some?
    ensures Narrows(LeafCondition(k, f, scope).failure.value) <==> ClientMistake(f, scope)
  {
    ClientOperators(f.op);
  }

  /** A list of plain filters narrows the query to nothing, rather than failing it,
      exactly when every filter of it that could not be applied is a client's mistake. */
  lemma ClientListNarrows(k: Chain, filters: seq<Filter>, scope: Scope)
    requires filters != [] && forall i :: 0 <= i < |filters| ==> IsPlain(filters[i])
    ensures
      var failure := Combine(RenderEach(k, filters, scope), false).1;
      (failure.Some? <==> exists i :: 0 <= i < |filters| && LeafCondition(k, filters[i], scope).failure.Some?) &&
      (failure.Some? ==> (Narrows(failure.value) <==>
        forall i :: 0 <= i < |filters| && LeafCondition(k, filters[i], scope).failure.Some? ==> ClientMistake(filters[i], scope)))
  {
    var rs := RenderEach(k, filters, scope);
    ReportCoversAll(rs);
    forall i | 0 <= i < |filters| ensures rs[i] == LeafCondition(k, filters[i], scope) {
      RenderEachAt(k, filters, scope, i);
      if rs[i].failure.Some? { ClientMistakesNarrow(k, filters[i], scope); }
    }
    forall i | 0 <= i < |filters| && rs[i].failure.Some? ensures Narrows(rs[i].failure.value) <==> ClientMistake(filters[i], scope) {
      ClientMistakesNarrow(k, filters[i], scope);
    }
  }

  // ---- foreign columns ----

  /** At the top level a filter is foreign by its own table alone: the other side of an
      EqCol there is the renderer's to refuse. */
  lemma TopLevelIsForeignByTable(f: Filter, own: string)
    requires !f.op.Or? && !f.op.And? && !f.op.Exists?
    ensures Foreign(f, own, "") <==> f.table !in {"", own}
  {
  }

  /** The constant filter names no table, anywhere in the tree. */
  predicate ConstantsAreBare(f: Filter)
    decreases f, 1
  {
    match f.op
    case Or | And => f.value.Group? ==> AllConstantsAreBare(f.value.filters)
    case Exists => f.value.Related? ==> AllConstantsAreBare(f.value.sub.filters)
    case Nothing => f.table == ""
    case _ => true
  }

  predicate AllConstantsAreBare(filters: seq<Filter>)
    decreases filters, 0
  {
    filters == [] || (ConstantsAreBare(filters[0]) && AllConstantsAreBare(filters[1..]))
  }

  /** A scope that reads one table, and knows the table of the query around it. */
  predicate ReadsOne(scope: Scope) { scope.tables.None? && scope.table != "" && (scope.outer != "" ==> scope.outerTable != "") }

  function Enclosing(scope: Scope): string { if scope.outer == "" then "" else scope.outerTable }

  /** Refusing a foreign column refuses nothing that could have been applied: a tree that
      holds one fails to render, and a tree that holds none has no failure of that kind. */
  lemma {:induction false} ForeignFails(k: Chain, f: Filter, scope: Scope)
    requires ReadsOne(scope) && ConstantsAreBare(f)
    ensures Foreign(f, scope.table, Enclosing(scope)) ==> Failures(k, f, scope) != {}
    ensures (exists op :: Unusable(op, true) in Failures(k, f, scope)) ==> Foreign(f, scope.table, Enclosing(scope))
    decreases f, 1
  {
    match f.op
    case Or | And => if f.value.Group? && f.value.filters != [] { AnyForeignFails(k, f.value.filters, scope); }
    case Exists =>
      if ExistsRefusal(k, f, scope).None? { AnyForeignFails(k, f.value.sub.filters, ExistsScope(k, f, scope)); }
    case _ =>
  }

  lemma {:induction false} AnyForeignFails(k: Chain, filters: seq<Filter>, scope: Scope)
    requires ReadsOne(scope) && AllConstantsAreBare(filters)
    ensures AnyForeign(filters, scope.table, Enclosing(scope)) ==> FailuresIn(k, filters, scope) != {}
    ensures (exists op :: Unusable(op, true) in FailuresIn(k, filters, scope)) ==> AnyForeign(filters, scope.table, Enclosing(scope))
    decreases filters, 0
  {
    if filters != [] {
      ForeignFails(k, filters[0], scope);
      AnyForeignFails(k, filters[1..], scope);
    }
  }
}
