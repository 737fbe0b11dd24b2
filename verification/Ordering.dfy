/** ORDER BY and the slices LIMIT and OFFSET take of it. SQL leaves rows that sort
    equal in any order, so an ordered read may answer any sorting of its rows. */
module Ordering {
  import opened Sql

  /** One ordering by an output column. */
  datatype Order = Order(column: string, desc: bool)

  predicate RowLeq(orders: seq<Order>, a: Row, b: Row) {
    orders == [] ||
    var x, y := Get(a, orders[0].column), Get(b, orders[0].column);
    if x == y then RowLeq(orders[1..], a, b) else if orders[0].desc then Leq(y, x) else Leq(x, y)
  }

  /** An ORDER BY orders any rows totally, ties aside. */
  lemma {:induction false} RowLeqOrder(orders: seq<Order>, a: Row, b: Row, c: Row)
    ensures RowLeq(orders, a, a)
    ensures RowLeq(orders, a, b) || RowLeq(orders, b, a)
    ensures RowLeq(orders, a, b) && RowLeq(orders, b, c) ==> RowLeq(orders, a, c)
  {
    if orders != [] {
      var x, y, z := Get(a, orders[0].column), Get(b, orders[0].column), Get(c, orders[0].column);
      RowLeqOrder(orders[1..], a, b, c);
      LeqOrder(x, y, z);
      LeqOrder(z, y, x);
      LeqOrder(x, z, y);
    }
  }

  predicate Sorted(orders: seq<Order>, rows: seq<Row>) {
    forall i, j {:trigger RowLeq(orders, rows[i], rows[j])} :: 0 <= i < j < |rows| ==> RowLeq(orders, rows[i], rows[j])
  }

  /** What a read ordered by orders may answer. */
  predicate IsSorting(orders: seq<Order>, rows: seq<Row>, answer: seq<Row>) {
    multiset(rows) == multiset(answer) && Sorted(orders, answer)
  }

  function Min(a: nat, b: nat): nat { if a < b then a else b }

  function Take(rows: seq<Row>, n: nat): seq<Row> { rows[..Min(n, |rows|)] }

  function Skip(rows: seq<Row>, n: nat): seq<Row> { rows[Min(n, |rows|)..] }

  /** OFFSET and LIMIT; no limit reads to the end. */
  function Slice(rows: seq<Row>, offset: nat, limit: Option<nat>): seq<Row> {
    if limit.Some? then Take(Skip(rows, offset), limit.value) else Skip(rows, offset)
  }

  /** A page the statement may answer. */
  ghost predicate IsPage(orders: seq<Order>, rows: seq<Row>, offset: nat, limit: Option<nat>, page: seq<Row>) {
    exists sorted :: IsSorting(orders, rows, sorted) && page == Slice(sorted, offset, limit)
  }

  function Flatten(lists: seq<seq<Row>>): seq<Row> {
    if lists == [] then [] else lists[0] + Flatten(lists[1..])
  }

  lemma {:induction false} FlattenLast(lists: seq<seq<Row>>)
    requires lists != []
    ensures Flatten(lists) == Flatten(lists[..|lists| - 1]) + lists[|lists| - 1]
  {
    var n := |lists| - 1;
    if n == 0 {
      assert Flatten(lists[1..]) == [];
    } else {
      var tail, first := lists[1..], lists[..n];
      FlattenLast(tail);
      assert first[1..] == tail[..n - 1] && tail[n - 1] == lists[n] && first[0] == lists[0];
      assert Flatten(first) == lists[0] + Flatten(tail[..n - 1]);
    }
  }

  // ---- every list has a sorting ----

  function Insert(orders: seq<Order>, r: Row, rows: seq<Row>): seq<Row> {
    if rows == [] then [r]
    else if RowLeq(orders, r, rows[0]) then [r] + rows
    else [rows[0]] + Insert(orders, r, rows[1..])
  }

  function Sort(orders: seq<Order>, rows: seq<Row>): seq<Row> {
    if rows == [] then [] else Insert(orders, rows[0], Sort(orders, rows[1..]))
  }

  lemma BagOfHead(rows: seq<Row>)
    requires rows != []
    ensures multiset(rows) == multiset{rows[0]} + multiset(rows[1..])
  {
    assert rows == [rows[0]] + rows[1..];
  }

  lemma BagWithout(rows: seq<Row>, i: nat)
    requires i < |rows|
    ensures multiset(rows) == multiset{rows[i]} + multiset(rows[..i] + rows[i + 1..])
  {
    assert rows == rows[..i] + [rows[i]] + rows[i + 1..];
  }

  lemma SameBagMember(a: seq<Row>, b: seq<Row>, r: Row)
    requires multiset(a) == multiset(b) && r in a
    ensures r in b
  {
    assert r in multiset(a) && r in multiset(b);
  }

  lemma SortedCons(orders: seq<Order>, r: Row, rows: seq<Row>)
    requires Sorted(orders, rows) && forall x :: x in rows ==> RowLeq(orders, r, x)
    ensures Sorted(orders, [r] + rows)
  {
  }

  lemma SortedHead(orders: seq<Order>, rows: seq<Row>, r: Row)
    requires Sorted(orders, rows) && r in rows
    ensures RowLeq(orders, rows[0], r)
  {
    RowLeqOrder(orders, r, r, r);
  }

  lemma {:induction false} InsertSorts(orders: seq<Order>, r: Row, rows: seq<Row>)
    requires Sorted(orders, rows)
    ensures IsSorting(orders, [r] + rows, Insert(orders, r, rows))
  {
    if rows != [] {
      if RowLeq(orders, r, rows[0]) {
        forall x | x in rows ensures RowLeq(orders, r, x) {
          SortedHead(orders, rows, x);
          RowLeqOrder(orders, r, rows[0], x);
        }
        SortedCons(orders, r, rows);
      } else {
        var rest := Insert(orders, r, rows[1..]);
        InsertSorts(orders, r, rows[1..]);
        BagOfHead(rows);
        forall x | x in rest ensures RowLeq(orders, rows[0], x) {
          SameBagMember(rest, [r] + rows[1..], x);
          RowLeqOrder(orders, r, rows[0], r);
          if x in rows[1..] { SortedHead(orders, rows, x); }
        }
        SortedCons(orders, rows[0], rest);
      }
    }
  }

  lemma {:induction false} SortSorts(orders: seq<Order>, rows: seq<Row>)
    ensures IsSorting(orders, rows, Sort(orders, rows))
  {
    if rows != [] {
      SortSorts(orders, rows[1..]);
      InsertSorts(orders, rows[0], Sort(orders, rows[1..]));
      BagOfHead(rows);
    }
  }

  // ---- an order without ties has one sorting ----

  /** No two rows of the list sort equal. */
  predicate NoTies(orders: seq<Order>, rows: seq<Row>) {
    forall i, j :: 0 <= i < j < |rows| ==> !(RowLeq(orders, rows[i], rows[j]) && RowLeq(orders, rows[j], rows[i]))
  }

  /** Equal rows aside, no two members of a bag sort equal. */
  predicate Antisymmetric(orders: seq<Order>, rows: seq<Row>) {
    forall a, b :: a in rows && b in rows && RowLeq(orders, a, b) && RowLeq(orders, b, a) ==> a == b
  }

  lemma NoTiesIsAntisymmetric(orders: seq<Order>, rows: seq<Row>)
    requires NoTies(orders, rows)
    ensures Antisymmetric(orders, rows)
  {
    forall a, b | a in rows && b in rows && RowLeq(orders, a, b) && RowLeq(orders, b, a) ensures a == b {
      var i :| 0 <= i < |rows| && rows[i] == a;
      var j :| 0 <= j < |rows| && rows[j] == b;
    }
  }

  lemma {:induction false} SortingIsUnique(orders: seq<Order>, rows: seq<Row>, x: seq<Row>, y: seq<Row>)
    requires Antisymmetric(orders, rows) && multiset(x) == multiset(y) && (forall r :: r in x ==> r in rows)
    requires Sorted(orders, x) && Sorted(orders, y)
    ensures x == y
    decreases |x|
  {
    assert |multiset(x)| == |x| && |multiset(y)| == |y|;
    if x != [] {
      SameBagMember(x, y, x[0]);
      SameBagMember(y, x, y[0]);
      SortedHead(orders, x, y[0]);
      SortedHead(orders, y, x[0]);
      BagOfHead(x);
      BagOfHead(y);
      assert x[0] == y[0];
      assert multiset(x[1..]) == multiset(x) - multiset{x[0]} == multiset(y[1..]);
      SortingIsUnique(orders, rows, x[1..], y[1..]);
      assert x == [x[0]] + x[1..] && y == [y[0]] + y[1..];
    }
  }

  /** Under an order without ties the page is the page, however it is read. */
  lemma PageIsDetermined(orders: seq<Order>, rows: seq<Row>, offset: nat, limit: Option<nat>, page: seq<Row>)
    requires Antisymmetric(orders, rows) && IsPage(orders, rows, offset, limit, page)
    ensures page == Slice(Sort(orders, rows), offset, limit)
  {
    var sorted :| IsSorting(orders, rows, sorted) && page == Slice(sorted, offset, limit);
    SortSorts(orders, rows);
    forall r | r in sorted ensures r in rows { SameBagMember(sorted, rows, r); }
    SortingIsUnique(orders, rows, sorted, Sort(orders, rows));
  }

  // ---- counting ----

  /** How many rows sort no later than y. */
  function CountLeq(orders: seq<Order>, rows: seq<Row>, y: Row): nat {
    if rows == [] then 0 else (if RowLeq(orders, rows[0], y) then 1 else 0) + CountLeq(orders, rows[1..], y)
  }

  lemma {:induction false} CountAppend(orders: seq<Order>, a: seq<Row>, b: seq<Row>, y: Row)
    ensures CountLeq(orders, a + b, y) == CountLeq(orders, a, y) + CountLeq(orders, b, y)
  {
    if a == [] {
      assert a + b == b;
    } else {
      assert (a + b)[1..] == a[1..] + b;
      CountAppend(orders, a[1..], b, y);
    }
  }

  lemma CountWithout(orders: seq<Order>, b: seq<Row>, i: nat, y: Row)
    requires i < |b|
    ensures CountLeq(orders, b, y) == (if RowLeq(orders, b[i], y) then 1 else 0) + CountLeq(orders, b[..i] + b[i + 1..], y)
  {
    var tail := [b[i]] + b[i + 1..];
    CountAppend(orders, b[..i], tail, y);
    CountAppend(orders, b[..i], b[i + 1..], y);
    assert b == b[..i] + tail && tail[1..] == b[i + 1..];
  }

  lemma {:induction false} CountOfBag(orders: seq<Order>, a: seq<Row>, b: seq<Row>, y: Row)
    requires multiset(a) == multiset(b)
    ensures CountLeq(orders, a, y) == CountLeq(orders, b, y)
    decreases |a|
  {
    assert |multiset(a)| == |a| && |multiset(b)| == |b|;
    if a != [] {
      SameBagMember(a, b, a[0]);
      var i :| 0 <= i < |b| && b[i] == a[0];
      var rest := b[..i] + b[i + 1..];
      BagOfHead(a);
      BagWithout(b, i);
      assert multiset(a[1..]) == multiset(a) - multiset{a[0]} == multiset(rest);
      CountOfBag(orders, a[1..], rest, y);
      CountWithout(orders, b, i, y);
    }
  }

  lemma {:induction false} CountAll(orders: seq<Order>, rows: seq<Row>, y: Row)
    ensures CountLeq(orders, rows, y) <= |rows|
    ensures (forall i :: 0 <= i < |rows| ==> RowLeq(orders, rows[i], y)) ==> CountLeq(orders, rows, y) == |rows|
    ensures (forall i :: 0 <= i < |rows| ==> !RowLeq(orders, rows[i], y)) ==> CountLeq(orders, rows, y) == 0
  {
    if rows != [] { CountAll(orders, rows[1..], y); }
  }
}
