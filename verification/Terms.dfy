/** The terms a select projects (internal/types/term.go) and the joins it reads
    through (internal/types/join.go). */
module Terms {
  import opened Sql
  import opened Filters

  datatype Fn =
    | NoFn | Count | CountDistinct | Sum | Avg | Min | Max
    | RowNumber | Rank | DenseRank | Lag | Lead | Literal

  datatype Window = Window(partition: seq<Term>, orders: seq<(Term, bool)>)

  datatype Term = Term(
    fn: Fn, plain: bool, window: Option<Window>, table: string, column: string,
    bucketed: bool, conditions: seq<Filter>, alias: string)
  {
    function Alias(): string { if alias != "" then alias else column }
    predicate IsMeasure() { !fn.NoFn? && !fn.Literal? }
    predicate IsGroupKey() { fn.NoFn? && !plain }
    predicate IsPlain() { fn.NoFn? && plain }
    predicate IsWindowed() { window.Some? }
    function Named(): Term { this.(alias := Alias()) }
  }

  /** A select's projection declares exactly this term, under the alias it
      projects by. */
  predicate IsSelected(terms: seq<Term>, t: Term) {
    exists i :: 0 <= i < |terms| && terms[i].Named() == t.Named()
  }

  predicate IsAggregate(fn: Fn) {
    fn.Count? || fn.CountDistinct? || fn.Sum? || fn.Avg? || fn.Min? || fn.Max?
  }

  predicate IsWindowFn(fn: Fn) {
    fn.RowNumber? || fn.Rank? || fn.DenseRank? || fn.Lag? || fn.Lead?
  }

  /** What a query joining a select reads about it. keys are the select's own
      group keys, without the terms it reads from selects it joins itself. */
  datatype DerivedInfo = DerivedInfo(
    table: string, grouped: bool, terms: seq<Term>, keys: seq<Term>, nullable: set<string>)

  /** One source joined to a select: a model, or a grouped select read as a
      derived table. keys are the column sets it is unique on. */
  datatype Join = Join(
    table: string, alias: string, left: bool, on: seq<Filter>,
    info: TableInfo, keys: seq<seq<string>>, select: Option<DerivedInfo>)

  function One(fact: bool): nat { if fact then 1 else 0 }

  /** Every term is one thing of four: a measure, a column it asks to be grouped by, a
      plain column, or a constant; and a measure either aggregates or is the function of
      a window alone. */
  lemma KindsOfTerms(t: Term)
    ensures One(t.IsMeasure()) + One(t.IsGroupKey()) + One(t.IsPlain()) + One(t.fn.Literal?) == 1
    ensures One(IsAggregate(t.fn)) + One(IsWindowFn(t.fn)) + One(!t.IsMeasure()) == 1
  {
  }

  /** A column without an alias is the same term as one aliased to its own name, and no
      other alias is. */
  lemma UnaliasedIsSelected(t: Term, alias: string)
    requires t.alias == "" && alias != ""
    ensures IsSelected([t], t.(alias := alias)) <==> alias == t.column
  {
    assert [t][0] == t;
  }
}
