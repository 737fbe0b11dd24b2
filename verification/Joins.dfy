/** How a join is proved to match at most one row (database/select_join.go), and
    what that proof is worth: no row of the query is read twice, whatever chain
    of joins it is read through. */
module Joins {
  import opened Sql
  import opened Filters
  import opened FilterMeaning
  import opened Terms

  datatype Error =
    | SourceInvalid | SelectNotGrouped | BucketKey | SelectKey | DuplicateTable
    | NoCorrelation | SelectColumn | NotUnique

  // ---- resolving a joined select ----

  predicate KeyRepeats(keys: seq<Term>, i: nat)
    requires i < |keys|
  {
    exists j :: 0 <= j < i && keys[j].column == keys[i].column
  }

  function KeyColumns(keys: seq<Term>): (columns: seq<string>)
    ensures |columns| == |keys|
  {
    seq(|keys|, i requires 0 <= i < |keys| => keys[i].column)
  }

  /** resolveSelectJoin: the select must be grouped by plain keys of its own
      model, each column once; the key it is joined on is the whole set of them,
      each read under the alias it projects as. */
  method ResolveSelect(info: DerivedInfo, json: set<string>, left: bool, on: seq<Filter>, alias: string)
    returns (join: Option<Join>, err: Option<Error>)
    ensures join.Some? <==> err.None?
    ensures err.None? <==>
      info.grouped && info.keys != [] &&
      forall i :: 0 <= i < |info.keys| ==>
        !info.keys[i].bucketed && (info.keys[i].table == "" || info.keys[i].table == info.table) && !KeyRepeats(info.keys, i)
    ensures join.Some? ==>
      var j := join.value;
      j.table == info.table && j.alias == alias && j.left == left && j.on == on && j.select == Some(info) &&
      j.keys == [KeyColumns(info.keys)] &&
      j.info.columns == Some(set i | 0 <= i < |info.keys| :: info.keys[i].column) &&
      forall i :: 0 <= i < |info.keys| ==> j.info.ColumnName(info.keys[i].column) == info.keys[i].Alias()
  {
    if !info.grouped || info.keys == [] { return None, Some(SelectNotGrouped); }
    var seen: set<string>, rename: map<string, string> := {}, map[];
    for i := 0 to |info.keys|
      invariant seen == set j | 0 <= j < i :: info.keys[j].column
      invariant rename.Keys == seen
      invariant forall j :: 0 <= j < i ==>
        !info.keys[j].bucketed && (info.keys[j].table == "" || info.keys[j].table == info.table) && !KeyRepeats(info.keys, j)
      invariant forall j :: 0 <= j < i ==> info.keys[j].column in rename && rename[info.keys[j].column] == info.keys[j].Alias()
    {
      var key := info.keys[i];
      if key.bucketed { return None, Some(BucketKey); }
      if key.table != "" && key.table != info.table { return None, Some(SelectKey); }
      if key.column in seen { assert KeyRepeats(info.keys, i); return None, Some(SelectKey); }
      seen := seen + {key.column};
      rename := rename[key.column := key.Alias()];
    }
    join := Some(Join(info.table, alias, left, on,
                      TableInfo(Some(seen), json * seen, alias, Some(rename)), [KeyColumns(info.keys)], Some(info)));
    err := None;
  }

  // ---- what the ON pins ----

  predicate OwnsColumn(f: Filter, table: string) { f.table == "" || f.table == table }

  datatype Sides = Sides(own: string, otherTable: string, otherColumn: string)

  function EqColSides(f: Filter, table: string): Sides {
    match EqColParent(f.value)
    case None => Sides("", "", "")
    case Some((parentTable, parent)) =>
      if parent == "" then Sides("", "", "")
      else if OwnsColumn(f, table) && parentTable != table then Sides(f.column, parentTable, parent)
      else if parentTable == table && f.table != "" && f.table != table then Sides(parent, f.table, f.column)
      else Sides("", "", "")
  }

  /** The filters that hold of every row a list accepts: its members, and the
      members of its AND groups. A filter inside an OR group is none of them. */
  function Conjuncts(filters: seq<Filter>): seq<Filter>
    decreases filters, 0
  {
    if filters == [] then [] else ConjunctsOf(filters[0]) + Conjuncts(filters[1..])
  }

  function ConjunctsOf(f: Filter): seq<Filter>
    decreases f, 1
  {
    if f.op.And? then (if f.value.Group? then Conjuncts(f.value.filters) else []) else [f]
  }

  /** The column of the joined table a conjunct pins with an equality, to a value
      or to a column of a table read before it; "" for none. */
  function Pin(f: Filter, table: string, before: set<string>): string {
    if f.op.Eq? then (if OwnsColumn(f, table) then f.column else "")
    else if f.op.EqCol? && EqColSides(f, table).otherTable in before && EqColSides(f, table).otherTable != "" then EqColSides(f, table).own
    else ""
  }

  predicate PinnedBy(fs: seq<Filter>, table: string, before: set<string>, column: string) {
    column != "" && exists i :: 0 <= i < |fs| && Pin(fs[i], table, before) == column
  }

  predicate TiedBy(fs: seq<Filter>, table: string, before: set<string>, tie: (string, string)) {
    exists i :: 0 <= i < |fs| && fs[i].op.EqCol? && Pin(fs[i], table, before) != "" &&
      tie == (EqColSides(fs[i], table).otherTable, EqColSides(fs[i], table).otherColumn)
  }

  /** A joined table while the query is validated: what its source resolved to,
      and the columns of earlier tables its ON ties it to. */
  class JoinedTable {
    const join: Join
    var joinColumns: set<(string, string)>

    constructor (join: Join)
      ensures this.join == join && joinColumns == {}
    {
      this.join, joinColumns := join, {};
    }

    /** The walk of pinnedColumns over one list: what it adds to the pinned
        columns and to the columns tied to is what the list's conjuncts pin and
        tie. */
    method Walk(filters: seq<Filter>, before: set<string>, pinned: set<string>) returns (now: set<string>)
      requires "" !in pinned
      modifies this
      ensures forall c :: c in now <==> c in pinned || PinnedBy(Conjuncts(filters), join.table, before, c)
      ensures forall t :: t in joinColumns <==> t in old(joinColumns) || TiedBy(Conjuncts(filters), join.table, before, t)
      decreases filters
    {
      now := pinned;
      for n := 0 to |filters|
        invariant "" !in now
        invariant forall c :: c in now <==> c in pinned || PinnedBy(Conjuncts(filters[..n]), join.table, before, c)
        invariant forall t :: t in joinColumns <==> t in old(joinColumns) || TiedBy(Conjuncts(filters[..n]), join.table, before, t)
      {
        var f := filters[n];
        ConjunctsStep(filters, n);
        ghost var done := Conjuncts(filters[..n]);
        SplitPins(done, ConjunctsOf(f), join.table, before);
        match f.op {
          case And =>
            if f.value.Group? { now := Walk(f.value.filters, before, now); }
          case Eq =>
            if OwnsColumn(f, join.table) && f.column != "" { now := now + {f.column}; }
            SinglePin(f, join.table, before);
          case EqCol =>
            var sides := EqColSides(f, join.table);
            if sides.own != "" && sides.otherTable != "" && sides.otherTable in before {
              now := now + {sides.own};
              joinColumns := joinColumns + {(sides.otherTable, sides.otherColumn)};
            }
            SinglePin(f, join.table, before);
          case _ => SinglePin(f, join.table, before);
        }
      }
      assert filters[..|filters|] == filters;
    }

    method PinnedColumns(before: set<string>) returns (pinned: set<string>)
      modifies this
      ensures forall c :: c in pinned <==> PinnedBy(Conjuncts(join.on), join.table, before, c)
      ensures forall t :: t in joinColumns <==> TiedBy(Conjuncts(join.on), join.table, before, t)
    {
      joinColumns := {};
      pinned := Walk(join.on, before, {});
    }
  }

  lemma {:induction false} ConjunctsAppend(a: seq<Filter>, b: seq<Filter>)
    ensures Conjuncts(a + b) == Conjuncts(a) + Conjuncts(b)
  {
    if a == [] {
      assert a + b == b;
    } else {
      assert (a + b)[1..] == a[1..] + b;
      ConjunctsAppend(a[1..], b);
    }
  }

  lemma ConjunctsStep(filters: seq<Filter>, n: nat)
    requires n < |filters|
    ensures Conjuncts(filters[..n + 1]) == Conjuncts(filters[..n]) + ConjunctsOf(filters[n])
  {
    assert filters[..n + 1] == filters[..n] + [filters[n]];
    ConjunctsAppend(filters[..n], [filters[n]]);
    assert [filters[n]][1..] == [];
  }

  lemma SplitPins(a: seq<Filter>, b: seq<Filter>, table: string, before: set<string>)
    ensures forall c :: PinnedBy(a + b, table, before, c) <==> PinnedBy(a, table, before, c) || PinnedBy(b, table, before, c)
    ensures forall t :: TiedBy(a + b, table, before, t) <==> TiedBy(a, table, before, t) || TiedBy(b, table, before, t)
  {
    assert forall i :: 0 <= i < |a| ==> (a + b)[i] == a[i];
    assert forall i :: 0 <= i < |b| ==> (a + b)[|a| + i] == b[i];
  }

  lemma SinglePin(f: Filter, table: string, before: set<string>)
    ensures forall c :: PinnedBy([f], table, before, c) <==> c != "" && Pin(f, table, before) == c
    ensures forall t :: TiedBy([f], table, before, t) <==>
      f.op.EqCol? && Pin(f, table, before) != "" && t == (EqColSides(f, table).otherTable, EqColSides(f, table).otherColumn)
  {
    assert [f][0] == f;
  }

  predicate Covered(pinned: set<string>, key: seq<string>) {
    key != [] && forall i :: 0 <= i < |key| ==> key[i] in pinned
  }

  /** The pinned columns cover one of the keys whole. */
  method CoversKey(pinned: set<string>, keys: seq<seq<string>>) returns (covers: bool)
    ensures covers <==> exists i :: 0 <= i < |keys| && Covered(pinned, keys[i])
  {
    for i := 0 to |keys|
      invariant forall j :: 0 <= j < i ==> !Covered(pinned, keys[j])
    {
      var key := keys[i];
      if |key| == 0 { continue; }
      var covered := true;
      for n := 0 to |key|
        invariant covered
        invariant forall m :: 0 <= m < n ==> key[m] in pinned
      {
        if key[n] !in pinned {
          covered := false;
          break;
        }
      }
      if covered { return true; }
    }
    return false;
  }
}
