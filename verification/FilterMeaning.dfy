/** What filters mean and what the SQL rendered for them answers, and the proof
    that the two agree, or that the SQL accepts less where a filter could not be
    applied. */
module FilterMeaning {
  import opened Sql
  import opened Filters
  import Like

  /** A database: the rows a read of each table sees, and what its regular
      expressions and JSON containment answer. */
  datatype Database = Database(
    rows: map<string, seq<Row>>,
    regex: (string, string) -> bool,
    json: (Cell, string) -> bool)
  {
    function Rows(table: string): seq<Row> {
      if table in rows then rows[table] else []
    }
  }

  // ---- single conditions ----

  function CompareCells(op: Op, a: Cell, b: Cell): Tri {
    if a.Null? || b.Null? then Unknown
    else match op
      case Eq => Truth(a == b)
      case Ne => Truth(a != b)
      case Gt => Truth(a != b && Leq(b, a))
      case Gte => Truth(Leq(b, a))
      case Lt => Truth(a != b && Leq(a, b))
      case Lte => Truth(Leq(a, b))
      case _ => Unknown
  }

  /** IN over a list; gorm spells an empty list as (NULL). */
  function MemberOf(cell: Cell, members: seq<Cell>): Tri {
    if members == [] then Unknown
    else OrAll(seq(|members|, i requires 0 <= i < |members| => CompareCells(Eq, cell, members[i])))
  }

  function Negated(negated: bool, t: Tri): Tri { if negated then Not3(t) else t }

  function OverText(cell: Cell, p: string -> bool): Tri {
    if cell.Null? then Unknown else Truth(p(TextOf(cell)))
  }

  // ---- the SQL ----

  /** The rows a predicate sees by name, the innermost query first. */
  type Env = seq<map<string, Row>>

  /** How SQL resolves a qualified name: the innermost query reading it. */
  function Lookup(env: Env, name: string): Row {
    if env == [] then map[] else if name in env[0] then env[0][name] else Lookup(env[1..], name)
  }

  /** How SQL resolves a bare name: the innermost query with such a column. */
  ghost function BareLookup(env: Env, column: string): Cell {
    if env == [] then Null
    else if name :| name in env[0] && column in env[0][name] then env[0][name][column]
    else BareLookup(env[1..], column)
  }

  ghost function Read(env: Env, c: ColumnRef): Cell {
    if c.qualify == "" then BareLookup(env, c.name) else Get(Lookup(env, c.qualify), c.name)
  }

  /** gorm writes a list of conditions with one word between each two, and an OR
      group of a single condition is written with OR whatever the list joins
      with; AND then binds tighter than OR. */
  predicate OrConnector(p: Pred) { p.Disj? && |p.preds| == 1 }

  function Written(joinOr: bool, ps: seq<Pred>): (words: seq<bool>)
    ensures |words| == |ps|
  {
    seq(|ps|, i requires 0 <= i < |ps| => joinOr || OrConnector(ps[i]))
  }

  function Connect(done: Tri, run: Tri, ts: seq<Tri>, ors: seq<bool>): Tri
    requires |ts| == |ors|
    decreases |ts|
  {
    if ts == [] then Or3(done, run)
    else if ors[0] then Connect(Or3(done, run), ts[0], ts[1..], ors[1..])
    else Connect(done, And3(run, ts[0]), ts[1..], ors[1..])
  }

  function Connected(ts: seq<Tri>, ors: seq<bool>): Tri
    requires |ts| == |ors|
  {
    if ts == [] then True else Connect(False, ts[0], ts[1..], ors[1..])
  }

  ghost function Eval(db: Database, p: Pred, env: Env): Tri
    decreases p, 1
  {
    match p
    case Never => False
    case Compare(c, op, operand) => CompareCells(op, Read(env, c), operand)
    case Member(c, negated, members) => Negated(negated, MemberOf(Read(env, c), members))
    case Pattern(c, negated, pattern, escape) =>
      Negated(negated, OverText(Read(env, c), s => Like.Matches(pattern, s, escape)))
    case NullTest(c, isNull) => Truth(Read(env, c).Null? == isNull)
    case RegexTest(c, negated, expr) => Negated(negated, OverText(Read(env, c), s => db.regex(s, expr)))
    case JSONHas(c, member) => if Read(env, c).Null? then Unknown else Truth(db.json(Read(env, c), member))
    case SameValue(l, r) => CompareCells(Eq, Read(env, l), Read(env, r))
    case Conj(ps) => Connected(EvalEach(db, ps, env), Written(false, ps))
    case Disj(ps) => Connected(EvalEach(db, ps, env), Written(true, ps))
    case SemiJoin(negated, table, name, condition) =>
      var rows := db.Rows(table);
      Truth(negated != (exists i :: 0 <= i < |rows| && (condition.None? || Eval(db, condition.value, [map[name := rows[i]]] + env) == True)))
  }

  ghost function EvalEach(db: Database, ps: seq<Pred>, env: Env): (ts: seq<Tri>)
    ensures |ts| == |ps|
    decreases ps, 0
  {
    if ps == [] then [] else [Eval(db, ps[0], env)] + EvalEach(db, ps[1..], env)
  }

  /** The WHERE of a chain: the conditions its options added, in order, the
      first one that is no OR connector moved to the front. */
  function Lead(ps: seq<Pred>): nat {
    if ps == [] || !OrConnector(ps[0]) then 0 else 1 + Lead(ps[1..])
  }

  function Fronted(ps: seq<Pred>): (qs: seq<Pred>)
    ensures |qs| == |ps|
  {
    var i := Lead(ps);
    if 0 < i < |ps| then ps[0 := ps[i]][i := ps[0]] else ps
  }

  ghost function Where(db: Database, ps: seq<Pred>, env: Env): Tri {
    Connected(EvalEach(db, Fronted(ps), env), Written(false, Fronted(ps)))
  }

  // ---- the meaning ----

  /** The rows a filter is about: the scope's own row, the rows joined beside it
      by table, and the row of the query directly around a subquery. */
  datatype Site = Site(own: Row, beside: map<string, Row>, outer: Option<Row>)

  /** The filter is about the scope's own table: it names none, or that one. */
  predicate AboutOwn(f: Filter, scope: Scope) { f.table == "" || scope.table == "" || f.table == scope.table }

  /** The column exists where the filter says it is. */
  predicate Readable(f: Filter, scope: Scope) {
    f.column != "" &&
    (if AboutOwn(f, scope) then scope.info.columns.None? || f.column in scope.info.columns.value
     else
       scope.tables.Some? && f.table in scope.tables.value &&
       scope.tables.value[f.table].columns.Some? && f.column in scope.tables.value[f.table].columns.value)
  }

  function InfoOf(table: string, scope: Scope): TableInfo {
    if table == "" || scope.table == "" || table == scope.table || scope.tables.None? || table !in scope.tables.value
    then scope.info else scope.tables.value[table]
  }

  /** The column the other side of an EqCol names exists, on the table a
      reference names: a table of the join, or the query around the subquery. */
  predicate Tied(f: Filter, scope: Scope) {
    var other := EqColParent(f.value);
    other.Some? && other.value.1 != "" &&
    var (table, name) := other.value;
    if scope.outer != "" then
      scope.outerColumns.Some? && name in scope.outerColumns.value && (table == "" || table == scope.outerTable)
    else
      scope.tables.Some? && table != "" && (table == scope.table || table in scope.tables.value) &&
      (if table == scope.table then scope.info else scope.tables.value[table]).Has(name)
  }

  predicate ValueFits(k: Chain, f: Filter, scope: Scope) {
    var json := f.column in InfoOf(f.table, scope).json;
    match f.op
    case Eq | Ne | Gt | Gte | Lt | Lte =>
      f.value.Scalar? || f.value.Related? || f.value.Column? || (!json && (f.value.Bytes? || f.value.SelfBinding?))
    case In | NotIn => f.value.List? || f.value.Bytes? || f.value.SelfBinding? || f.value.Group?
    case Like | NotLike | StartsWith | EndsWith | Regex | NotRegex => f.value.Scalar? && f.value.cell.Text?
    case IsNull => f.value.Scalar? && f.value.cell.Flag?
    case JSONContains => !k.dialect.ClickHouse? && json && f.value.Scalar? && f.value.cell.Text?
    case EqCol => Tied(f, scope)
    case _ => false
  }

  /** A filter that says something on its own, its children aside. */
  predicate Applies(k: Chain, f: Filter, scope: Scope) {
    match f.op
    case Or | And => f.value.Group? && f.value.filters != []
    case Exists => ExistsRefusal(k, f, scope).None?
    case Nothing => true
    case _ => Readable(f, scope) && ValueFits(k, f, scope)
  }

  function OwnCell(f: Filter, scope: Scope, site: Site): Cell {
    var row := if AboutOwn(f, scope) then site.own else if f.table in site.beside then site.beside[f.table] else map[];
    Get(row, InfoOf(f.table, scope).ColumnName(f.column))
  }

  function OtherCell(f: Filter, scope: Scope, site: Site): Cell
    requires Tied(f, scope)
  {
    var (table, name) := EqColParent(f.value).value;
    if scope.outer != "" then (if site.outer.Some? then Get(site.outer.value, name) else Null)
    else if table == scope.table then Get(site.own, scope.info.ColumnName(name))
    else if table in site.beside then Get(site.beside[table], scope.tables.value[table].ColumnName(name))
    else Null
  }

  function LeafMeaning(db: Database, f: Filter, cell: Cell): Tri {
    match f.op
    case Eq | Ne | Gt | Gte | Lt | Lte => CompareCells(f.op, cell, Bound(f.value))
    case In => MemberOf(cell, Members(f.value))
    case NotIn => Not3(MemberOf(cell, Members(f.value)))
    case IsNull => Truth(f.value.Scalar? && cell.Null? == (f.value.cell == Flag(true)))
    case _ => if cell.Null? || !(f.value.Scalar? && f.value.cell.Text?) then Unknown else Truth(TextHolds(db, f.op, cell, f.value.cell.s))
  }

  predicate TextHolds(db: Database, op: Op, cell: Cell, v: string)
    requires !cell.Null?
  {
    match op
    case Like => Like.Contains(TextOf(cell), v)
    case NotLike => !Like.Contains(TextOf(cell), v)
    case StartsWith => v <= TextOf(cell)
    case EndsWith => Like.EndsWith(TextOf(cell), v)
    case Regex => db.regex(TextOf(cell), v)
    case NotRegex => !db.regex(TextOf(cell), v)
    case JSONContains => db.json(cell, v)
    case _ => false
  }

  /** What a filter its author could not express would have meant: any answer at
      all, for every filter and every row. */
  type Guess = (Filter, Site) -> Tri

  ghost function Meaning(db: Database, k: Chain, f: Filter, scope: Scope, site: Site, guess: Guess): Tri
    decreases f, 1
  {
    if !Applies(k, f, scope) then guess(f, site)
    else match f.op
      case Or => OrAll(MeaningEach(db, k, f.value.filters, scope, site, guess))
      case And => AndAll(MeaningEach(db, k, f.value.filters, scope, site, guess))
      case Nothing => False
      case EqCol => CompareCells(Eq, OwnCell(f, scope, site), OtherCell(f, scope, site))
      case Exists =>
        var sq := f.value.sub;
        var inner := ExistsScope(k, f, scope);
        var rows := db.Rows(inner.table);
        Truth(sq.negate != (exists i ::
          0 <= i < |rows| && AndAll(MeaningEach(db, k, sq.filters, inner, Site(rows[i], map[], Some(site.own)), guess)) == True))
      case _ => LeafMeaning(db, f, OwnCell(f, scope, site))
  }

  ghost function MeaningEach(db: Database, k: Chain, filters: seq<Filter>, scope: Scope, site: Site, guess: Guess): (ts: seq<Tri>)
    ensures |ts| == |filters|
    decreases filters, 0
  {
    if filters == [] then []
    else [Meaning(db, k, filters[0], scope, site, guess)] + MeaningEach(db, k, filters[1..], scope, site, guess)
  }

  ghost function MeaningAll(db: Database, k: Chain, filters: seq<Filter>, scope: Scope, site: Site, guess: Guess): Tri {
    AndAll(MeaningEach(db, k, filters, scope, site, guess))
  }

  // ---- how the rendered names reach the rows meant ----

  /** The query reads each of the scope's rows under the name the renderer
      spells it by. */
  ghost predicate Reads(scope: Scope, site: Site, env: Env) {
    |env| > 0 &&
    (if scope.info.qualify == "" then |env| == 1 && (exists name :: env[0] == map[name := site.own])
     else scope.info.qualify in env[0] && env[0][scope.info.qualify] == site.own) &&
    (scope.tables.Some? ==>
      scope.info.qualify != "" && scope.outer == "" && scope.table != "" &&
      forall t :: t in scope.tables.value && t != scope.table ==>
        t in site.beside && t != "" &&
        TableColumn(t, scope.tables.value[t], "").qualify in env[0] &&
        env[0][TableColumn(t, scope.tables.value[t], "").qualify] == site.beside[t]) &&
    (scope.outer != "" ==>
      |env| > 1 && scope.outer !in env[0] && scope.outer in env[1] && site.outer == Some(env[1][scope.outer])) &&
    (!scope.derived && scope.parent != "" ==> scope.parent in env[0] && env[0][scope.parent] == site.own)
  }

  // ---- truth values ----

  lemma NullIsNoMember(members: seq<Cell>)
    ensures MemberOf(Null, members) == Unknown
  {
    if members != [] { AllUnknown(seq(|members|, i requires 0 <= i < |members| => CompareCells(Eq, Null, members[i]))); }
  }

  lemma {:induction false} AllUnknown(ts: seq<Tri>)
    requires ts != [] && forall i :: 0 <= i < |ts| ==> ts[i] == Unknown
    ensures OrAll(ts) == Unknown
  {
    if |ts| > 1 { AllUnknown(ts[1..]); }
  }

  lemma {:induction false} ConnectAnd(done: Tri, run: Tri, ts: seq<Tri>, ors: seq<bool>)
    requires |ts| == |ors| && forall i :: 0 <= i < |ors| ==> !ors[i]
    ensures Connect(done, run, ts, ors) == Or3(done, And3(run, AndAll(ts)))
    decreases |ts|
  {
    if ts != [] { ConnectAnd(done, And3(run, ts[0]), ts[1..], ors[1..]); }
  }

  lemma {:induction false} ConnectOr(done: Tri, run: Tri, ts: seq<Tri>, ors: seq<bool>)
    requires |ts| == |ors| && forall i :: 0 <= i < |ors| ==> ors[i]
    ensures Connect(done, run, ts, ors) == Or3(Or3(done, run), OrAll(ts))
    decreases |ts|
  {
    if ts != [] { ConnectOr(Or3(done, run), ts[0], ts[1..], ors[1..]); }
  }

  /** Where no condition is an OR connector a group means what it groups. */
  lemma GroupsMeanThemselves(db: Database, ps: seq<Pred>, env: Env)
    requires forall i :: 0 <= i < |ps| ==> !OrConnector(ps[i])
    ensures Eval(db, Conj(ps), env) == AndAll(EvalEach(db, ps, env))
    ensures |ps| > 0 ==> Eval(db, Disj(ps), env) == OrAll(EvalEach(db, ps, env))
  {
    var ts := EvalEach(db, ps, env);
    if ts != [] {
      ConnectAnd(False, ts[0], ts[1..], Written(false, ps)[1..]);
      ConnectOr(False, ts[0], ts[1..], Written(true, ps)[1..]);
    }
  }

  lemma {:induction false} GroupsKeepOrder(xs: seq<Tri>, ys: seq<Tri>)
    requires |xs| == |ys| && forall i :: 0 <= i < |xs| ==> Below(xs[i], ys[i])
    ensures Below(AndAll(xs), AndAll(ys)) && Below(OrAll(xs), OrAll(ys))
  {
    if xs != [] { GroupsKeepOrder(xs[1..], ys[1..]); }
  }

  lemma {:induction false} EvalEachAt(db: Database, ps: seq<Pred>, env: Env, i: nat)
    requires i < |ps|
    ensures EvalEach(db, ps, env)[i] == Eval(db, ps[i], env)
  {
    if i > 0 { EvalEachAt(db, ps[1..], env, i - 1); }
  }

  lemma {:induction false} MeaningEachAt(db: Database, k: Chain, filters: seq<Filter>, scope: Scope, site: Site, guess: Guess, i: nat)
    requires i < |filters|
    ensures MeaningEach(db, k, filters, scope, site, guess)[i] == Meaning(db, k, filters[i], scope, site, guess)
  {
    if i > 0 { MeaningEachAt(db, k, filters[1..], scope, site, guess, i - 1); }
  }

  // ---- leaves ----

  /** The renderer applies a filter exactly when the filter says something. */
  lemma LeafRefusal(k: Chain, f: Filter, scope: Scope)
    requires !f.op.Or? && !f.op.And? && !f.op.Exists? && !f.op.Nothing?
    requires scope.tables.Some? ==> scope.outer == "" && scope.table != ""
    ensures LeafCondition(k, f, scope).failure.None? <==> Applies(k, f, scope)
    ensures !Applies(k, f, scope) ==> LeafCondition(k, f, scope).pred == Never
    ensures !LeafCondition(k, f, scope).pred.Disj?
  {
  }

  lemma PlacedColumn(f: Filter, scope: Scope, site: Site, env: Env)
    requires Reads(scope, site, env) && Readable(f, scope)
    ensures PlaceFilter(f, scope).Placed?
    ensures Read(env, PlaceFilter(f, scope).column) == OwnCell(f, scope, site)
  {
    if !NamesAnotherTable(f, scope) && scope.info.qualify == "" {
      var column := PlaceFilter(f, scope).column;
      assert env[1..] == [] && BareLookup(env[1..], column.name) == Null;
      var name :| env[0] == map[name := site.own];
      assert name in env[0] && forall n :: n in env[0] ==> n == name;
    }
  }

  /** An EqCol reaches the row it ties to: across the edge of a subquery the row
      of the query directly around it, in a join the table beside it. */
  lemma TiedColumn(f: Filter, column: ColumnRef, scope: Scope, site: Site, env: Env)
    requires Reads(scope, site, env) && Tied(f, scope)
    ensures EqColCondition(f, column, scope).pred.SameValue?
    ensures EqColCondition(f, column, scope).pred.left == column
    ensures Read(env, EqColCondition(f, column, scope).pred.right) == OtherCell(f, scope, site)
  {
    if scope.outer != "" {
      assert Lookup(env, scope.outer) == Lookup(env[1..], scope.outer) == env[1][scope.outer];
    } else {
      var (table, name) := EqColParent(f.value).value;
      var info := if table == scope.table then scope.info else scope.tables.value[table];
      assert TableColumn(table, info, name).qualify == TableColumn(table, info, "").qualify;
    }
  }

  lemma PatternAgrees(db: Database, k: Chain, f: Filter, column: ColumnRef, env: Env)
    requires IsText(f.value)
    ensures f.op.Like? || f.op.NotLike? ==>
      Eval(db, PatternFilter(k, f, column, "%", "%").pred, env) == LeafMeaning(db, f, Read(env, column))
    ensures f.op.StartsWith? ==> Eval(db, PatternFilter(k, f, column, "", "%").pred, env) == LeafMeaning(db, f, Read(env, column))
    ensures f.op.EndsWith? ==> Eval(db, PatternFilter(k, f, column, "%", "").pred, env) == LeafMeaning(db, f, Read(env, column))
  {
    var cell, v, esc := Read(env, column), f.value.cell.s, Like.EscapeChar(k.dialect);
    if !cell.Null? { PatternHolds(db, k, f, cell); }
    match f.op
    case Like | NotLike => PatternIs(db, k, f, column, env, "%", "%");
    case StartsWith =>
      assert "" + Like.Escape(v, esc) + "%" == Like.Escape(v, esc) + "%";
      PatternIs(db, k, f, column, env, "", "%");
    case EndsWith =>
      assert "%" + Like.Escape(v, esc) + "" == "%" + Like.Escape(v, esc);
      PatternIs(db, k, f, column, env, "%", "");
    case _ =>
  }

  lemma PatternIs(db: Database, k: Chain, f: Filter, column: ColumnRef, env: Env, prefix: string, suffix: string)
    requires IsText(f.value)
    ensures
      var cell, esc := Read(env, column), Like.EscapeChar(k.dialect);
      Eval(db, PatternFilter(k, f, column, prefix, suffix).pred, env) ==
        if cell.Null? then Unknown
        else Truth(Like.Matches(prefix + Like.Escape(f.value.cell.s, esc) + suffix, TextOf(cell), esc) != f.op.NotLike?)
  {
  }

  lemma PatternHolds(db: Database, k: Chain, f: Filter, cell: Cell)
    requires IsText(f.value) && !cell.Null?
    ensures
      var v, esc, s := f.value.cell.s, Like.EscapeChar(k.dialect), TextOf(cell);
      (f.op.Like? ==> (Like.Matches("%" + Like.Escape(v, esc) + "%", s, esc) <==> TextHolds(db, f.op, cell, v))) &&
      (f.op.NotLike? ==> (Like.Matches("%" + Like.Escape(v, esc) + "%", s, esc) <==> !TextHolds(db, f.op, cell, v))) &&
      (f.op.StartsWith? ==> (Like.Matches(Like.Escape(v, esc) + "%", s, esc) <==> TextHolds(db, f.op, cell, v))) &&
      (f.op.EndsWith? ==> (Like.Matches("%" + Like.Escape(v, esc), s, esc) <==> TextHolds(db, f.op, cell, v)))
  {
    Like.EscapedLikeIsLiteral(f.value.cell.s, TextOf(cell), k.dialect);
  }

  lemma LeafAgrees(db: Database, k: Chain, f: Filter, scope: Scope, site: Site, env: Env, guess: Guess)
    requires !f.op.Or? && !f.op.And? && !f.op.Exists? && !f.op.Nothing?
    requires Reads(scope, site, env) && Applies(k, f, scope)
    ensures Eval(db, LeafCondition(k, f, scope).pred, env) == Meaning(db, k, f, scope, site, guess)
  {
    PlacedColumn(f, scope, site, env);
    var column := PlaceFilter(f, scope).column;
    var cell := OwnCell(f, scope, site);
    match f.op
    case EqCol => TiedColumn(f, column, scope, site, env);
    case Like | NotLike | StartsWith | EndsWith => PatternAgrees(db, k, f, column, env);
    case _ =>
  }

  // ---- groups and subqueries ----

  lemma {:induction false} ReportCoversAll(rs: seq<Rendered>)
    ensures Report(rs).None? <==> forall i :: 0 <= i < |rs| ==> rs[i].failure.None?
    ensures Report(rs).Some? ==> exists i :: 0 <= i < |rs| && rs[i].failure == Report(rs)
    ensures Report(rs).Some? ==>
      (Narrows(Report(rs).value) <==> forall i :: 0 <= i < |rs| && rs[i].failure.Some? ==> Narrows(rs[i].failure.value))
  {
    if rs != [] {
      var init := rs[..|rs| - 1];
      ReportCoversAll(init);
      assert forall i :: 0 <= i < |init| ==> rs[i] == init[i];
    }
  }

  /** r accepts no row t does not, and exactly t's where nothing failed. */
  ghost predicate Faithful(db: Database, r: Rendered, t: Tri, env: Env) {
    !OrConnector(r.pred) && Below(Eval(db, r.pred, env), t) && (r.failure.None? ==> Eval(db, r.pred, env) == t)
  }

  ghost predicate AllFaithful(db: Database, rs: seq<Rendered>, ts: seq<Tri>, env: Env) {
    |rs| == |ts| && forall i :: 0 <= i < |rs| ==> Faithful(db, rs[i], ts[i], env)
  }

  /** Combining keeps what each member keeps: a list accepts no more than it
      means, and exactly what it means where every member was applied. */
  lemma CombineSafely(db: Database, rs: seq<Rendered>, or: bool, ts: seq<Tri>, env: Env)
    requires rs != [] && AllFaithful(db, rs, ts, env)
    ensures
      var (pred, failure) := Combine(rs, or);
      pred.Some? && Faithful(db, Rendered(pred.value, failure), if or then OrAll(ts) else AndAll(ts), env)
  {
    assert forall i :: 0 <= i < |rs| ==> Faithful(db, rs[i], ts[i], env) ==> !OrConnector(rs[i].pred);
    var ps := Preds(rs);
    var vs := EvalEach(db, ps, env);
    forall i | 0 <= i < |ps| ensures vs[i] == Eval(db, rs[i].pred, env) { EvalEachAt(db, ps, env, i); }
    GroupsMeanThemselves(db, ps, env);
    GroupsKeepOrder(vs, ts);
    ReportCoversAll(rs);
    if Report(rs).None? { assert vs == ts; }
    if |rs| == 1 {
      assert vs[1..] == [] && ts[1..] == [];
      assert AndAll(ts) == ts[0] == OrAll(ts) && AndAll(vs) == vs[0];
    }
  }

  /** A subquery's own name hides no row its conditions are about: it differs
      from the name of the query around it, at any depth and over one table
      throughout. */
  lemma InnerScopeReads(k: Chain, f: Filter, scope: Scope, site: Site, env: Env, row: Row)
    requires Reads(scope, site, env) && f.op.Exists? && ExistsRefusal(k, f, scope).None?
    ensures
      var inner := ExistsScope(k, f, scope);
      inner.info.qualify != scope.parent &&
      Reads(inner, Site(row, map[], Some(site.own)), [map[inner.info.qualify := row]] + env)
  {
    var table := f.value.sub.model.value.table;
    assert |table + "_gst" + Digits(scope.depth + 1)| > |table|;
  }

  /** Subqueries one inside the other, each a filter of the scope the one before opens. */
  predicate Nests(k: Chain, fs: seq<Filter>, scope: Scope)
    decreases |fs|
  {
    fs == [] || (fs[0].op.Exists? && ExistsRefusal(k, fs[0], scope).None? && Nests(k, fs[1..], ExistsScope(k, fs[0], scope)))
  }

  function ScopeAt(k: Chain, fs: seq<Filter>, scope: Scope): Scope
    requires Nests(k, fs, scope)
    decreases |fs|
  {
    if fs == [] then scope else ScopeAt(k, fs[1..], ExistsScope(k, fs[0], scope))
  }

  /** The rows the innermost conditions are about: its own, and the row around it. */
  function SiteAt(rows: seq<Row>, site: Site): Site
    decreases |rows|
  {
    if rows == [] then site else SiteAt(rows[1..], Site(rows[0], map[], Some(site.own)))
  }

  function EnvAt(k: Chain, fs: seq<Filter>, rows: seq<Row>, scope: Scope, env: Env): Env
    requires Nests(k, fs, scope) && |rows| == |fs|
    decreases |fs|
  {
    if fs == [] then env
    else
      var inner := ExistsScope(k, fs[0], scope);
      EnvAt(k, fs[1..], rows[1..], inner, [map[inner.info.qualify := rows[0]]] + env)
  }

  /** However deep subqueries nest, one table throughout included, the names in the
      innermost one find the rows its conditions are about. */
  lemma {:induction false} NestedScopesRead(k: Chain, fs: seq<Filter>, rows: seq<Row>, scope: Scope, site: Site, env: Env)
    requires Reads(scope, site, env) && Nests(k, fs, scope) && |rows| == |fs|
    ensures Reads(ScopeAt(k, fs, scope), SiteAt(rows, site), EnvAt(k, fs, rows, scope, env))
    decreases |fs|
  {
    if fs != [] {
      var inner := ExistsScope(k, fs[0], scope);
      InnerScopeReads(k, fs[0], scope, site, env, rows[0]);
      NestedScopesRead(k, fs[1..], rows[1..], inner, Site(rows[0], map[], Some(site.own)), [map[inner.info.qualify := rows[0]]] + env);
    }
  }

  /** The renderer never widens and means what it renders: for every filter, in
      every scope, over every database, and whatever the filters it could not
      apply would have meant, the SQL accepts no row the filter does not, and
      where nothing failed the two agree. */
  lemma {:induction false} FilterSafe(db: Database, k: Chain, f: Filter, scope: Scope, site: Site, env: Env, guess: Guess)
    requires Reads(scope, site, env)
    ensures
      Faithful(db, RenderFilter(k, f, scope), Meaning(db, k, f, scope, site, guess), env)
    decreases f, 2
  {
    match f.op
    case Or | And => if Applies(k, f, scope) { GroupSafe(db, k, f, scope, site, env, guess); }
    case Exists => if Applies(k, f, scope) { ExistsSafe(db, k, f, scope, site, env, guess); }
    case Nothing =>
    case _ => LeafSafe(db, k, f, scope, site, env, guess);
  }

  lemma LeafSafe(db: Database, k: Chain, f: Filter, scope: Scope, site: Site, env: Env, guess: Guess)
    requires !f.op.Or? && !f.op.And? && !f.op.Exists? && !f.op.Nothing?
    requires Reads(scope, site, env)
    ensures Faithful(db, LeafCondition(k, f, scope), Meaning(db, k, f, scope, site, guess), env)
  {
    LeafRefusal(k, f, scope);
    if Applies(k, f, scope) { LeafAgrees(db, k, f, scope, site, env, guess); }
  }

  lemma {:induction false} GroupSafe(db: Database, k: Chain, f: Filter, scope: Scope, site: Site, env: Env, guess: Guess)
    requires Reads(scope, site, env) && (f.op.Or? || f.op.And?) && Applies(k, f, scope)
    ensures Faithful(db, RenderFilter(k, f, scope), Meaning(db, k, f, scope, site, guess), env)
    decreases f, 0
  {
    var rs := RenderEach(k, f.value.filters, scope);
    ListSafe(db, k, f.value.filters, scope, site, env, guess);
    CombineSafely(db, rs, f.op.Or?, MeaningEach(db, k, f.value.filters, scope, site, guess), env);
    var (pred, failure) := Combine(rs, f.op.Or?);
    assert RenderFilter(k, f, scope) == Rendered(pred.value, failure);
  }

  lemma {:induction false} ExistsSafe(db: Database, k: Chain, f: Filter, scope: Scope, site: Site, env: Env, guess: Guess)
    requires Reads(scope, site, env) && f.op.Exists? && ExistsRefusal(k, f, scope).None?
    ensures RenderFilter(k, f, scope).failure.None? ==>
      Eval(db, RenderFilter(k, f, scope).pred, env) == Meaning(db, k, f, scope, site, guess)
    ensures RenderFilter(k, f, scope).failure == Report(RenderEach(k, f.value.sub.filters, ExistsScope(k, f, scope)))
    ensures RenderFilter(k, f, scope).failure.Some? ==> Eval(db, RenderFilter(k, f, scope).pred, env) == False
    decreases f, 1
  {
    var inner := ExistsScope(k, f, scope);
    var (condition, failure) := Combine(RenderEach(k, f.value.sub.filters, inner), false);
    var rows := db.Rows(inner.table);
    if failure.None? {
      forall i | 0 <= i < |rows|
        ensures condition.Some?
        ensures Eval(db, condition.value, [map[inner.info.qualify := rows[i]]] + env)
             == AndAll(MeaningEach(db, k, f.value.sub.filters, inner, Site(rows[i], map[], Some(site.own)), guess))
      {
        ExistsRowSafe(db, k, f, scope, site, env, rows[i], guess);
      }
    }
  }

  /** One row of the table an existence condition looks into: rendered and intended
      conditions answer it alike. */
  lemma {:induction false} ExistsRowSafe(db: Database, k: Chain, f: Filter, scope: Scope, site: Site, env: Env, row: Row, guess: Guess)
    requires Reads(scope, site, env) && f.op.Exists? && ExistsRefusal(k, f, scope).None?
    requires Combine(RenderEach(k, f.value.sub.filters, ExistsScope(k, f, scope)), false).1.None?
    ensures
      var sq, inner := f.value.sub, ExistsScope(k, f, scope);
      var condition := Combine(RenderEach(k, sq.filters, inner), false).0;
      condition.Some? && Eval(db, condition.value, [map[inner.info.qualify := row]] + env)
        == AndAll(MeaningEach(db, k, sq.filters, inner, Site(row, map[], Some(site.own)), guess))
    decreases f, 0
  {
    var sq, inner := f.value.sub, ExistsScope(k, f, scope);
    InnerScopeReads(k, f, scope, site, env, row);
    var env', site' := [map[inner.info.qualify := row]] + env, Site(row, map[], Some(site.own));
    ListSafe(db, k, sq.filters, inner, site', env', guess);
    CombineSafely(db, RenderEach(k, sq.filters, inner), false, MeaningEach(db, k, sq.filters, inner, site', guess), env');
  }

  lemma {:induction false} ListSafe(db: Database, k: Chain, filters: seq<Filter>, scope: Scope, site: Site, env: Env, guess: Guess)
    requires Reads(scope, site, env)
    ensures AllFaithful(db, RenderEach(k, filters, scope), MeaningEach(db, k, filters, scope, site, guess), env)
    decreases filters, 0
  {
    var rs, ts := RenderEach(k, filters, scope), MeaningEach(db, k, filters, scope, site, guess);
    forall i | 0 <= i < |rs| ensures Faithful(db, rs[i], ts[i], env) {
      FilterSafe(db, k, filters[i], scope, site, env, guess);
      RenderEachAt(k, filters, scope, i);
      MeaningEachAt(db, k, filters, scope, site, guess, i);
    }
  }

  // ---- the theorems ----

  /** renderFilters as its callers use it: what the list renders to accepts no
      row some filter of the list rejects, and exactly the rows they all accept
      when no failure is reported. */
  lemma RenderingNeverWidens(db: Database, k: Chain, filters: seq<Filter>, scope: Scope, site: Site, env: Env, guess: Guess)
    requires Reads(scope, site, env) && filters != []
    ensures
      var (pred, failure) := Combine(RenderEach(k, filters, scope), false);
      pred.Some? && Faithful(db, Rendered(pred.value, failure), MeaningAll(db, k, filters, scope, site, guess), env)
  {
    ListSafe(db, k, filters, scope, site, env, guess);
    CombineSafely(db, RenderEach(k, filters, scope), false, MeaningEach(db, k, filters, scope, site, guess), env);
  }

  lemma {:induction false} AndAllAppend(ts: seq<Tri>, t: Tri)
    ensures AndAll(ts + [t]) == And3(AndAll(ts), t)
  {
    if ts == [] {
      assert [t][1..] == [];
    } else {
      assert (ts + [t])[1..] == ts[1..] + [t];
      AndAllAppend(ts[1..], t);
    }
  }

  lemma {:induction false} EvalEachAppend(db: Database, ps: seq<Pred>, p: Pred, env: Env)
    ensures EvalEach(db, ps + [p], env) == EvalEach(db, ps, env) + [Eval(db, p, env)]
  {
    if ps != [] {
      assert (ps + [p])[1..] == ps[1..] + [p];
      EvalEachAppend(db, ps[1..], p, env);
    }
  }

  /** A predicate that is no OR connector only narrows the conditions a chain
      already carries, a tenant filter among them. */
  lemma AddedConditionNarrows(db: Database, chain: seq<Pred>, pred: Pred, env: Env)
    requires forall i :: 0 <= i < |chain| ==> !OrConnector(chain[i])
    requires !OrConnector(pred)
    ensures Where(db, chain + [pred], env) == And3(Where(db, chain, env), Eval(db, pred, env))
  {
    AndAllAppend(EvalEach(db, chain, env), Eval(db, pred, env));
    EvalEachAppend(db, chain, pred, env);
    GroupsMeanThemselves(db, chain, env);
    GroupsMeanThemselves(db, chain + [pred], env);
  }

  /** What one-alternative OR groups are collapsed for: handed to gorm as they
      are, they turn the condition before them into an alternative. */
  lemma OrConnectorWidens(db: Database, env: Env)
    ensures
      var tenant, anything := Never, Conj([]);
      Where(db, [tenant, Disj([anything])], env) == True && Where(db, [tenant, anything], env) == False
  {
    var tenant, anything := Never, Conj([]);
    var asOr, asIs := [tenant, Disj([anything])], [tenant, anything];
    assert Eval(db, Disj([anything]), env) == True by {
      assert EvalEach(db, [anything], env) == [True];
      assert Connected([True], Written(true, [anything])) == True;
    }
    assert EvalEach(db, asOr, env) == [False, True] by { assert asOr[1..] == [Disj([anything])]; }
    assert EvalEach(db, asIs, env) == [False, True] by { assert asIs[1..] == [anything]; }
    assert Written(false, asOr)[1..] == [true] && Written(false, asIs)[1..] == [false];
    assert Connect(False, False, [True], [true]) == Or3(Or3(False, False), True);
    assert Connect(False, False, [True], [false]) == Or3(False, And3(False, True));
  }
}
