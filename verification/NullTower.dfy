/** Nullability through selects joined to selects, to any depth: what a joined select
    promises of its aliases is what this theorem says of the select itself. */
module NullTower {
  import opened Sql
  import opened Filters
  import opened FilterMeaning
  import opened Terms
  import opened Joins
  import opened JoinProof
  import opened DerivedKeys
  import opened Nullability
  import opened NullProof

  /** A projection and, for each source it joins, the select it reads, None for a
      model. */
  datatype Nested = Nested(p: Projection, under: seq<Option<Nested>>)

  function FlaggedAliases(p: Projection): set<string> {
    set n | 0 <= n < |p.terms| && Flagged(p, Proven(p), p.terms[n]) :: p.terms[n].Alias()
  }

  /** describe and resolveSelectJoin, at every level: a joined select is validated,
      grouped by keys of its own, and described by its terms and the aliases it
      flags. */
  ghost predicate Described(n: Nested)
    decreases n
  {
    Validated(n.p) && |n.under| == |n.p.joins| &&
    forall i :: 0 <= i < |n.under| ==>
      (n.under[i].Some? <==> n.p.joins[i].select.Some?) &&
      (n.under[i].Some? ==>
        Described(n.under[i].value) && n.under[i].value.p.grouped && n.under[i].value.p.keys != [] &&
        n.p.joins[i].select.value.terms == n.under[i].value.p.terms &&
        n.p.joins[i].select.value.nullable == FlaggedAliases(n.under[i].value.p))
  }

  type Mark = Cell -> Cell

  ghost predicate KeepsValues(mark: Mark) { forall c: Cell :: !c.Null? ==> !mark(c).Null? }

  /** A row the select reads, every joined select's row being one it answers. */
  ghost predicate Real(db: Database, k: Chain, n: Nested, mark: Mark, j: Joined)
    decreases n, 1
  {
    Accepts(db, k, n.p, n.p.filters, j) && HonoursNotNull(n.p, n.p.main, RowOf(j, n.p.main)) && |n.under| == |n.p.joins| &&
    forall i :: 0 <= i < |n.under| ==>
      (n.p.joins[i].left && RowOf(j, n.p.joins[i].table) == map[]) ||
      (if n.under[i].None? then HonoursNotNull(n.p, n.p.joins[i].table, RowOf(j, n.p.joins[i].table))
       else AnswersRow(db, k, n.under[i].value, mark, RowOf(j, n.p.joins[i].table)))
  }

  ghost predicate RealUnit(db: Database, k: Chain, n: Nested, mark: Mark, u: Unit)
    decreases n, 2
  {
    (forall i :: 0 <= i < |u| ==> Real(db, k, n, mark, u[i])) && (u == [] ==> n.p.grouped && n.p.keys == [])
  }

  /** A row the select answers: for each term, the answer over some rows and frame. */
  ghost predicate AnswersRow(db: Database, k: Chain, n: Nested, mark: Mark, row: Row)
    decreases n, 4
  {
    forall t :: t in n.p.terms ==> exists here, frame :: AnswersTerm(db, k, n, mark, row, t, here, frame)
  }

  ghost predicate AnswersTerm(db: Database, k: Chain, n: Nested, mark: Mark, row: Row, t: Term, here: Unit, frame: seq<Unit>)
    decreases n, 3
  {
    RealUnit(db, k, n, mark, here) && here in frame && (forall i :: 0 <= i < |frame| ==> RealUnit(db, k, n, mark, frame[i])) &&
    Get(row, t.Alias()) == Answer(db, k, n.p, t, mark, here, frame)
  }

  lemma {:induction false} RealIsLegal(db: Database, k: Chain, n: Nested, mark: Mark, j: Joined)
    requires Described(n) && KeepsValues(mark) && Real(db, k, n, mark, j)
    ensures Legal(db, k, n.p, j)
    decreases n, 1
  {
    forall i | 0 <= i < |n.p.joins| ensures LegalJoined(n.p, n.p.joins[i], RowOf(j, n.p.joins[i].table)) {
      var row := RowOf(j, n.p.joins[i].table);
      if n.under[i].Some? && !(n.p.joins[i].left && row == map[]) {
        AliasesHonoured(db, k, n.under[i].value, mark, row, n.p.joins[i].select.value);
      }
    }
  }

  lemma {:induction false} RealUnitIsLegal(db: Database, k: Chain, n: Nested, mark: Mark, u: Unit)
    requires Described(n) && KeepsValues(mark) && RealUnit(db, k, n, mark, u)
    ensures LegalUnit(db, k, n.p, u)
    decreases n, 2
  {
    forall i | 0 <= i < |u| ensures Legal(db, k, n.p, u[i]) { RealIsLegal(db, k, n, mark, u[i]); }
  }

  /** What a joined select promises of its aliases holds of every row it answers. */
  lemma {:induction false} AliasesHonoured(db: Database, k: Chain, n: Nested, mark: Mark, row: Row, info: DerivedInfo)
    requires Described(n) && KeepsValues(mark) && AnswersRow(db, k, n, mark, row) && n.p.grouped && n.p.keys != []
    requires info.terms == n.p.terms && info.nullable == FlaggedAliases(n.p)
    ensures HonoursAliases(info, row)
    decreases n, 4
  {
    forall m | 0 <= m < |info.terms| && info.terms[m].Alias() !in info.nullable ensures !Get(row, info.terms[m].Alias()).Null? {
      var t := n.p.terms[m];
      assert t in n.p.terms;
      var here, frame :| AnswersTerm(db, k, n, mark, row, t, here, frame);
      assert !Flagged(n.p, Proven(n.p), t);
      TermIsNeverNull(db, k, n, mark, t, here, frame);
    }
  }

  /** At any depth of selects joined to selects, an alias that is not flagged is NULL
      in no row, the keyless window aside. */
  lemma {:induction false} TermIsNeverNull(db: Database, k: Chain, n: Nested, mark: Mark, t: Term, here: Unit, frame: seq<Unit>)
    requires Described(n) && KeepsValues(mark) && t in n.p.terms && !Flagged(n.p, Proven(n.p), t) && !KeylessWindow(n.p, t)
    requires RealUnit(db, k, n, mark, here) && here in frame && forall i :: 0 <= i < |frame| ==> RealUnit(db, k, n, mark, frame[i])
    ensures !Answer(db, k, n.p, t, mark, here, frame).Null?
    decreases n, 3
  {
    RealUnitIsLegal(db, k, n, mark, here);
    forall i | 0 <= i < |frame| ensures LegalUnit(db, k, n.p, frame[i]) { RealUnitIsLegal(db, k, n, mark, frame[i]); }
    UnflaggedIsNeverNull(db, k, n.p, t, mark, here, frame);
  }
}
