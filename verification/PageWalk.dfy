/** Pages 1 to n of one size, each read by a statement of its own, hold every row
    once exactly when no two different rows of the read sort equal. */
module PageWalk {
  import opened Sql
  import opened Ordering
  import opened Paging
  import opened PagingProof

  /** What the pages may answer, each read on its own. */
  ghost predicate PagesRead(orders: seq<Order>, rows: seq<Row>, size: nat, pages: seq<seq<Row>>) {
    forall i :: 0 <= i < |pages| ==> IsPage(orders, rows, i * size, Some(size), pages[i])
  }

  /** The first n pages are the first n * size rows of the one sorting. */
  lemma {:induction false} PagesAreFirstRows(orders: seq<Order>, rows: seq<Row>, size: nat, pages: seq<seq<Row>>)
    requires Antisymmetric(orders, rows) && PagesRead(orders, rows, size, pages)
    ensures Flatten(pages) == Take(Sort(orders, rows), |pages| * size)
  {
    if pages != [] {
      var n := |pages| - 1;
      PagesAreFirstRows(orders, rows, size, pages[..n]);
      FlattenLast(pages);
      PageIsDetermined(orders, rows, n * size, Some(size), pages[n]);
      TakeThenSlice(Sort(orders, rows), n * size, size);
      assert n * size + size == |pages| * size;
    }
  }

  lemma TakeThenSlice(rows: seq<Row>, offset: nat, size: nat)
    ensures Take(rows, offset) + Slice(rows, offset, Some(size)) == Take(rows, offset + size)
  {
  }

  lemma PagesHoldEveryRow(orders: seq<Order>, rows: seq<Row>, size: nat, pages: seq<seq<Row>>)
    requires Antisymmetric(orders, rows) && PagesRead(orders, rows, size, pages) && |rows| <= |pages| * size
    ensures multiset(Flatten(pages)) == multiset(rows)
  {
    PagesAreFirstRows(orders, rows, size, pages);
    SortSorts(orders, rows);
    TakeAll(rows, Sort(orders, rows), |pages| * size);
  }

  lemma TakeAll(rows: seq<Row>, sorted: seq<Row>, n: nat)
    requires multiset(rows) == multiset(sorted) && |rows| <= n
    ensures Take(sorted, n) == sorted
  {
    assert |multiset(sorted)| == |multiset(rows)|;
  }

  // ---- ties lose rows ----

  lemma SwapIsSorting(orders: seq<Order>, s: seq<Row>, i: nat, j: nat) returns (t: seq<Row>)
    requires i < j < |s| && Sorted(orders, s) && RowLeq(orders, s[i], s[j]) && RowLeq(orders, s[j], s[i])
    ensures t == s[i := s[j]][j := s[i]] && IsSorting(orders, s, t)
  {
    t := s[i := s[j]][j := s[i]];
    forall k | 0 <= k < |s| ensures RowLeq(orders, s[k], t[k]) && RowLeq(orders, t[k], s[k]) {
      RowLeqOrder(orders, s[k], s[k], s[k]);
    }
    forall x, y | 0 <= x < y < |s| ensures RowLeq(orders, t[x], t[y]) {
      RowLeqOrder(orders, t[x], s[x], s[y]);
      RowLeqOrder(orders, t[x], s[y], t[y]);
    }
  }

  function Singles(s: seq<Row>): (pages: seq<seq<Row>>)
    ensures |pages| == |s| && forall i :: 0 <= i < |s| ==> pages[i] == [s[i]]
  {
    seq(|s|, i requires 0 <= i < |s| => [s[i]])
  }

  lemma {:induction false} FlattenSingles(pages: seq<seq<Row>>, s: seq<Row>)
    requires |pages| == |s| && forall i :: 0 <= i < |s| ==> pages[i] == [s[i]]
    ensures Flatten(pages) == s
  {
    if s != [] {
      FlattenSingles(pages[1..], s[1..]);
      assert s == [s[0]] + s[1..];
    }
  }

  lemma SinglePage(orders: seq<Order>, rows: seq<Row>, s: seq<Row>, i: nat)
    requires IsSorting(orders, rows, s) && i < |s|
    ensures IsPage(orders, rows, i * 1, Some(1), [s[i]])
  {
    assert Slice(s, i * 1, Some(1)) == [s[i]];
  }

  lemma TiesAt(orders: seq<Order>, rows: seq<Row>) returns (s: seq<Row>, i: nat, j: nat)
    requires !Antisymmetric(orders, rows)
    ensures IsSorting(orders, rows, s) && i < j < |s| && s[i] != s[j]
    ensures RowLeq(orders, s[i], s[j]) && RowLeq(orders, s[j], s[i])
  {
    var a, b :| a in rows && b in rows && RowLeq(orders, a, b) && RowLeq(orders, b, a) && a != b;
    s := Sort(orders, rows);
    SortSorts(orders, rows);
    SameBagMember(rows, s, a);
    SameBagMember(rows, s, b);
    var x :| 0 <= x < |s| && s[x] == a;
    var y :| 0 <= y < |s| && s[y] == b;
    i, j := if x < y then x else y, if x < y then y else x;
  }

  /** Two rows that sort equal can take each other's place between the pages: one
      is then read twice and the other never. */
  lemma TiedPagesLoseRow(orders: seq<Order>, rows: seq<Row>) returns (pages: seq<seq<Row>>)
    requires !Antisymmetric(orders, rows)
    ensures PagesRead(orders, rows, 1, pages) && |pages| == |rows| && multiset(Flatten(pages)) != multiset(rows)
  {
    var s, i, j := TiesAt(orders, rows);
    var t := SwapIsSorting(orders, s, i, j);
    var read := s[j := t[j]];
    pages := Singles(read);
    assert |multiset(s)| == |multiset(rows)|;
    forall k | 0 <= k < |pages| ensures IsPage(orders, rows, k * 1, Some(1), pages[k]) {
      SinglePage(orders, rows, if k == j then t else s, k);
    }
    FlattenSingles(pages, read);
    LosesOne(s, j, t[j]);
  }

  lemma LosesOne(s: seq<Row>, j: nat, r: Row)
    requires j < |s| && r != s[j]
    ensures multiset(s[j := r]) != multiset(s)
  {
    assert multiset(s[j := r]) == multiset(s) - multiset{s[j]} + multiset{r};
    assert multiset(s[j := r])[r] == multiset(s)[r] + 1;
  }

  /** The pages partition the rows, whatever the statements answer, exactly when
      different rows never sort equal. */
  lemma PagesPartitionExactly(orders: seq<Order>, rows: seq<Row>)
    ensures Antisymmetric(orders, rows) <==>
      forall size: nat, pages :: PagesRead(orders, rows, size, pages) && |rows| <= |pages| * size ==>
        multiset(Flatten(pages)) == multiset(rows)
  {
    if Antisymmetric(orders, rows) {
      forall size: nat, pages | PagesRead(orders, rows, size, pages) && |rows| <= |pages| * size
        ensures multiset(Flatten(pages)) == multiset(rows)
      {
        PagesHoldEveryRow(orders, rows, size, pages);
      }
    } else {
      var pages := TiedPagesLoseRow(orders, rows);
      assert |rows| <= |pages| * 1;
    }
  }

  /** The pages of an order without ties are the first rows of its one sorting. */
  lemma UntiedPagesPartition(orders: seq<Order>, rows: seq<Row>, size: nat, pages: seq<seq<Row>>)
    requires NoTies(orders, rows) && PagesRead(orders, rows, size, pages)
    ensures Flatten(pages) == Take(Sort(orders, rows), |pages| * size)
    ensures |rows| <= |pages| * size ==> multiset(Flatten(pages)) == multiset(rows)
  {
    NoTiesIsAntisymmetric(orders, rows);
    PagesAreFirstRows(orders, rows, size, pages);
    if |rows| <= |pages| * size { PagesHoldEveryRow(orders, rows, size, pages); }
  }

  /** The pages of a model keyed by one column partition its rows, whatever order
      its caller asked for. */
  lemma CompletedPagesPartition(m: Model, orders: seq<Order>, rows: seq<Row>, size: nat, pages: seq<seq<Row>>)
    requires WellFormed(m) && |Primary(m)| == 1 && Honours(m, rows)
    requires PagesRead(CompletedOrder(m, orders), rows, size, pages)
    ensures Flatten(pages) == Take(Sort(CompletedOrder(m, orders), rows), |pages| * size)
    ensures |rows| <= |pages| * size ==> multiset(Flatten(pages)) == multiset(rows)
  {
    SingleKeyCompletes(m, orders, rows);
    UntiedPagesPartition(CompletedOrder(m, orders), rows, size, pages);
  }
}
