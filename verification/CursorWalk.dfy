/** Lists paged by a cursor (database/query_options.go, database/read.go): what a
    page holds, and that following the cursors walks the feed once. */
module CursorWalk {
  import opened Sql
  import opened Ordering
  import opened Paging
  import opened PagingProof
  import opened PageWalk

  /** How a cursor spells the values of a column, and what the database reads a
      spelling as. */
  datatype Spelling = Spelling(spell: Cell -> string, read: string -> Cell)

  predicate Less(a: Cell, b: Cell) { !a.Null? && !b.Null? && Leq(a, b) && a != b }

  predicate Past(b: Boundary, s: Spelling, r: Row) {
    if b.greater then Less(s.read(b.value), Get(r, b.column)) else Less(Get(r, b.column), s.read(b.value))
  }

  /** The rows the boundary of a page keeps. */
  function Kept(rows: seq<Row>, b: Option<Boundary>, s: Spelling): seq<Row> {
    if b.None? then rows
    else if rows == [] then []
    else (if Past(b.value, s, rows[0]) then [rows[0]] else []) + Kept(rows[1..], b, s)
  }

  function BoundaryOf(c: Cursor): Option<Boundary> {
    if c.value == "" then None else Some(Boundary(c.order.column, !Desc(c), c.value))
  }

  function Reversed(rows: seq<Row>): (r: seq<Row>)
    ensures |r| == |rows| && forall i :: 0 <= i < |rows| ==> r[i] == rows[|rows| - 1 - i]
  {
    seq(|rows|, i requires 0 <= i < |rows| => rows[|rows| - 1 - i])
  }

  /** What a cursor read may deliver. */
  ghost predicate IsCursorPage(rows: seq<Row>, c: Cursor, s: Spelling, offset: nat, limit: Option<nat>, page: seq<Row>) {
    IsPage([Order(c.order.column, Desc(c))], Kept(rows, BoundaryOf(c), s), offset, limit, if c.backward then Reversed(page) else page)
  }

  /** The table a list reads: whatever its statement answers is one of the pages
      the statement allows. */
  datatype Table = Table(rows: seq<Row>, spelling: Spelling, find: (seq<Order>, Option<Boundary>, nat, Option<nat>) -> seq<Row>)

  ghost predicate Answering(t: Table) {
    forall orders, b, offset, limit :: IsPage(orders, Kept(t.rows, b, t.spelling), offset, limit, t.find(orders, b, offset, limit))
  }

  method Reverse(a: array<Row>)
    modifies a
    ensures a[..] == Reversed(old(a[..]))
  {
    var i, j := 0, a.Length - 1;
    while i < j
      invariant 0 <= i <= a.Length && j == a.Length - 1 - i
      invariant forall k :: 0 <= k < i || j < k < a.Length ==> a[k] == old(a[a.Length - 1 - k])
      invariant forall k :: i <= k <= j ==> a[k] == old(a[k])
    {
      a[i], a[j] := a[j], a[i];
      i, j := i + 1, j - 1;
    }
  }

  /** A list delivers a page of its cursor, in the feed's own order whichever way
      the cursor travels, or a page of its order; a page read by number of the
      completed order. */
  method List(chain: Chain, t: Table) returns (dest: array<Row>)
    requires Answering(t) && chain.clauses == chain.orders && chain.boundary == None && (chain.cursor.Some? ==> chain.orders == [])
    modifies chain`clauses, chain`boundary
    ensures fresh(dest)
    ensures chain.cursor.Some? ==> IsCursorPage(t.rows, chain.cursor.value, t.spelling, chain.offset, chain.limit, dest[..])
    ensures chain.cursor.None? ==>
      IsPage(if chain.paginated then CompletedOrder(chain.model, chain.orders) else chain.orders, t.rows, chain.offset, chain.limit, dest[..])
  {
    chain.ApplyCursorPagination();
    chain.CompleteOrder();
    assert chain.cursor.Some? ==> chain.clauses == [Order(chain.cursor.value.order.column, Desc(chain.cursor.value))];
    var found := t.find(chain.clauses, chain.boundary, chain.offset, chain.limit);
    dest := new Row[|found|](i requires 0 <= i < |found| => found[i]);
    assert dest[..] == found;
    if chain.cursor.Some? && chain.cursor.value.backward {
      Reverse(dest);
      assert Reversed(dest[..]) == found;
    }
  }

  // ---- the feed ----

  predicate Before(order: Order, a: Row, b: Row) {
    if order.desc then Less(Get(b, order.column), Get(a, order.column)) else Less(Get(a, order.column), Get(b, order.column))
  }

  /** Every position of the feed comes before the later ones, strictly. */
  predicate Strict(feed: seq<Row>, order: Order) {
    forall i, j {:trigger Before(order, feed[i], feed[j])} :: 0 <= i < j < |feed| ==> Before(order, feed[i], feed[j])
  }

  /** The one feed of rows under a cursor's order. */
  predicate IsFeed(rows: seq<Row>, order: Order, feed: seq<Row>) {
    multiset(rows) == multiset(feed) && Strict(feed, order)
  }

  /** A cursor at row r: its value is read back as r's, and is not the empty value,
      which bounds nothing. */
  predicate Spelled(s: Spelling, column: string, r: Row) {
    !Get(r, column).Null? && s.read(s.spell(Get(r, column))) == Get(r, column) && s.spell(Get(r, column)) != ""
  }

  predicate AllSpelled(s: Spelling, column: string, rows: seq<Row>) {
    forall i {:trigger Spelled(s, column, rows[i])} :: 0 <= i < |rows| ==> Spelled(s, column, rows[i])
  }

  lemma OneOrder(order: Order, a: Row, b: Row)
    ensures
      var x, y := Get(a, order.column), Get(b, order.column);
      RowLeq([order], a, b) <==> x == y || if order.desc then Leq(y, x) else Leq(x, y)
  {
    assert [order][1..] == [];
  }

  lemma BeforeIsStrict(order: Order, a: Row, b: Row)
    requires Before(order, a, b)
    ensures RowLeq([order], a, b) && !RowLeq([order], b, a)
    ensures RowLeq([Flip(order)], b, a) && !RowLeq([Flip(order)], a, b)
  {
    OneOrder(order, a, b);
    OneOrder(order, b, a);
    OneOrder(Flip(order), a, b);
    OneOrder(Flip(order), b, a);
    LeqOrder(Get(a, order.column), Get(b, order.column), Null);
  }

  function Flip(order: Order): Order { order.(desc := !order.desc) }

  /** No two different rows of a feed sort equal, in either direction. */
  lemma FeedHasNoTies(order: Order, feed: seq<Row>, part: seq<Row>)
    requires Strict(feed, order) && forall r :: r in part ==> r in feed
    ensures Antisymmetric([order], part) && Antisymmetric([Flip(order)], part)
  {
    forall a, b | a in part && b in part && a != b
      ensures !(RowLeq([order], a, b) && RowLeq([order], b, a)) && !(RowLeq([Flip(order)], a, b) && RowLeq([Flip(order)], b, a))
    {
      var i :| 0 <= i < |feed| && feed[i] == a;
      var j :| 0 <= j < |feed| && feed[j] == b;
      if i < j { BeforeIsStrict(order, a, b); } else { BeforeIsStrict(order, b, a); }
    }
  }

  // ---- the rows past a boundary ----

  lemma {:induction false} KeptCount(rows: seq<Row>, b: Boundary, s: Spelling, r: Row)
    ensures multiset(Kept(rows, Some(b), s))[r] == if Past(b, s, r) then multiset(rows)[r] else 0
  {
    if rows != [] {
      KeptCount(rows[1..], b, s, r);
      BagOfHead(rows);
    }
  }

  lemma KeptOfBag(x: seq<Row>, y: seq<Row>, b: Boundary, s: Spelling)
    requires multiset(x) == multiset(y)
    ensures multiset(Kept(x, Some(b), s)) == multiset(Kept(y, Some(b), s))
  {
    forall r ensures multiset(Kept(x, Some(b), s))[r] == multiset(Kept(y, Some(b), s))[r] {
      KeptCount(x, b, s, r);
      KeptCount(y, b, s, r);
    }
  }

  lemma {:induction false} KeptAppend(x: seq<Row>, y: seq<Row>, b: Boundary, s: Spelling)
    ensures Kept(x + y, Some(b), s) == Kept(x, Some(b), s) + Kept(y, Some(b), s)
  {
    if x == [] {
      assert x + y == y;
    } else {
      assert (x + y)[1..] == x[1..] + y;
      KeptAppend(x[1..], y, b, s);
    }
  }

  lemma {:induction false} KeptAllOrNone(x: seq<Row>, b: Boundary, s: Spelling)
    ensures (forall i :: 0 <= i < |x| ==> Past(b, s, x[i])) ==> Kept(x, Some(b), s) == x
    ensures (forall i :: 0 <= i < |x| ==> !Past(b, s, x[i])) ==> Kept(x, Some(b), s) == []
  {
    if x != [] { KeptAllOrNone(x[1..], b, s); }
  }

  lemma KeptBeside(order: Order, s: Spelling, at: Row, b: Boundary, r: Row, earlier: bool)
    requires b.column == order.column && s.read(b.value) == Get(at, order.column)
    requires if earlier then Before(order, r, at) else Before(order, at, r)
    ensures Past(b, s, r) <==> ((b.greater == order.desc) == earlier)
  {
    LeqOrder(Get(at, order.column), Get(r, order.column), Null);
  }

  /** A boundary at row i of a feed splits it there. */
  lemma BoundarySplits(feed: seq<Row>, order: Order, s: Spelling, i: nat, b: Boundary)
    requires Strict(feed, order) && i < |feed| && b.column == order.column && s.read(b.value) == Get(feed[i], order.column)
    ensures Kept(feed, Some(b), s) == if b.greater == order.desc then feed[..i] else feed[i + 1..]
  {
    var before, at, after := feed[..i], [feed[i]], feed[i + 1..];
    assert feed == before + (at + after);
    KeptAppend(before, at + after, b, s);
    KeptAppend(at, after, b, s);
    KeptAllOrNone(at, b, s);
    KeptBefore(feed, order, s, i, b);
    KeptAfter(feed, order, s, i, b);
  }

  lemma KeptBefore(feed: seq<Row>, order: Order, s: Spelling, i: nat, b: Boundary)
    requires Strict(feed, order) && i < |feed| && b.column == order.column && s.read(b.value) == Get(feed[i], order.column)
    ensures Kept(feed[..i], Some(b), s) == if b.greater == order.desc then feed[..i] else []
  {
    forall k | 0 <= k < i ensures Past(b, s, feed[..i][k]) <==> b.greater == order.desc {
      KeptBeside(order, s, feed[i], b, feed[k], true);
    }
    KeptAllOrNone(feed[..i], b, s);
  }

  lemma KeptAfter(feed: seq<Row>, order: Order, s: Spelling, i: nat, b: Boundary)
    requires Strict(feed, order) && i < |feed| && b.column == order.column && s.read(b.value) == Get(feed[i], order.column)
    ensures Kept(feed[i + 1..], Some(b), s) == if b.greater == order.desc then [] else feed[i + 1..]
  {
    var after := feed[i + 1..];
    forall k | 0 <= k < |after| ensures Past(b, s, after[k]) <==> b.greater != order.desc {
      KeptBeside(order, s, feed[i], b, feed[i + 1 + k], false);
    }
    KeptAllOrNone(after, b, s);
  }

  // ---- one page ----

  lemma PartIsSorted(feed: seq<Row>, order: Order, i: nat, j: nat)
    requires Strict(feed, order) && i <= j <= |feed|
    ensures Sorted([order], feed[i..j]) && Sorted([Flip(order)], Reversed(feed[i..j]))
  {
    var part := feed[i..j];
    forall x, y | 0 <= x < y < |part| ensures RowLeq([order], part[x], part[y]) && RowLeq([Flip(order)], part[y], part[x]) {
      BeforeIsStrict(order, feed[i + x], feed[i + y]);
    }
  }

  lemma {:induction false} ReversedBag(rows: seq<Row>)
    ensures multiset(Reversed(rows)) == multiset(rows)
  {
    if rows != [] {
      ReversedBag(rows[1..]);
      assert Reversed(rows) == Reversed(rows[1..]) + [rows[0]];
      BagOfHead(rows);
    }
  }

  /** A read of the rows of a sorted list, no two of them tied, is a slice of it. */
  lemma ReadIsSlice(rows: seq<Row>, order: Order, sorted: seq<Row>, limit: Option<nat>, page: seq<Row>)
    requires multiset(rows) == multiset(sorted) && Sorted([order], sorted) && Antisymmetric([order], rows)
    requires IsPage([order], rows, 0, limit, page)
    ensures page == Slice(sorted, 0, limit)
  {
    PageIsDetermined([order], rows, 0, limit, page);
    SortSorts([order], rows);
    forall r | r in sorted ensures r in rows { SameBagMember(sorted, rows, r); }
    SortingIsUnique([order], rows, sorted, Sort([order], rows));
  }

  function CursorAt(order: Order, s: Spelling, r: Row, backward: bool): Cursor {
    Cursor("", order, s.spell(Get(r, order.column)), backward)
  }

  /** The rows a cursor at row i of the feed reads: those that follow it, or those
      before it. */
  lemma CursorReads(rows: seq<Row>, order: Order, feed: seq<Row>, s: Spelling, i: nat, backward: bool)
    requires IsFeed(rows, order, feed) && i < |feed| && Spelled(s, order.column, feed[i])
    ensures
      var part := if backward then feed[..i] else feed[i + 1..];
      multiset(Kept(rows, BoundaryOf(CursorAt(order, s, feed[i], backward)), s)) == multiset(part) &&
      forall r :: r in part ==> r in feed
  {
    var b := BoundaryOf(CursorAt(order, s, feed[i], backward)).value;
    BoundarySplits(feed, order, s, i, b);
    KeptOfBag(rows, feed, b, s);
  }

  lemma PartHasNoTies(order: Order, feed: seq<Row>, part: seq<Row>, read: seq<Row>)
    requires Strict(feed, order) && (forall r :: r in part ==> r in feed) && multiset(read) == multiset(part)
    ensures Antisymmetric([order], read) && Antisymmetric([Flip(order)], read)
  {
    forall r | r in read ensures r in feed { SameBagMember(read, part, r); }
    FeedHasNoTies(order, feed, read);
  }

  /** The page a forward cursor at row i delivers is the rows that follow it. */
  lemma ForwardPageIsNext(rows: seq<Row>, order: Order, feed: seq<Row>, s: Spelling, i: nat, size: nat, page: seq<Row>)
    requires IsFeed(rows, order, feed) && i < |feed| && Spelled(s, order.column, feed[i])
    requires IsCursorPage(rows, CursorAt(order, s, feed[i], false), s, 0, Some(size), page)
    ensures page == Slice(feed, i + 1, Some(size))
  {
    var part, read := feed[i + 1..], Kept(rows, BoundaryOf(CursorAt(order, s, feed[i], false)), s);
    CursorReads(rows, order, feed, s, i, false);
    PartHasNoTies(order, feed, part, read);
    PartIsSorted(feed, order, i + 1, |feed|);
    assert feed[i + 1..|feed|] == part;
    ReadIsSlice(read, order, part, Some(size), page);
  }

  /** The page a backward cursor at row i delivers is the rows before it, in the
      feed's own order. */
  lemma BackwardPageIsPrevious(rows: seq<Row>, order: Order, feed: seq<Row>, s: Spelling, i: nat, size: nat, page: seq<Row>)
    requires IsFeed(rows, order, feed) && i < |feed| && Spelled(s, order.column, feed[i])
    requires IsCursorPage(rows, CursorAt(order, s, feed[i], true), s, 0, Some(size), page)
    ensures page == feed[if i < size then 0 else i - size..i]
  {
    var part, read := feed[..i], Kept(rows, BoundaryOf(CursorAt(order, s, feed[i], true)), s);
    CursorReads(rows, order, feed, s, i, true);
    PartHasNoTies(order, feed, part, read);
    PartIsSorted(feed, order, 0, i);
    assert feed[0..i] == part;
    ReversedBag(part);
    ReadIsSlice(read, Flip(order), Reversed(part), Some(size), Reversed(page));
    LastOfReversed(part, size, page);
  }

  lemma LastOfReversed(part: seq<Row>, size: nat, page: seq<Row>)
    requires Reversed(page) == Take(Reversed(part), size)
    ensures page == part[if |part| < size then 0 else |part| - size..]
  {
    assert page == Reversed(Reversed(page));
  }

  lemma FirstOfSlice(feed: seq<Row>, start: nat, size: nat, page: seq<Row>)
    requires page == Slice(feed, start, Some(size)) && page != []
    ensures start < |feed| && page[0] == feed[start]
  {
  }

  /** Paging forward from the last row of a page and back from the first row of the
      next delivers the page again. */
  lemma BackUndoesForward(rows: seq<Row>, order: Order, feed: seq<Row>, s: Spelling, start: nat, size: nat, next: seq<Row>, back: seq<Row>)
    requires IsFeed(rows, order, feed) && AllSpelled(s, order.column, feed) && 0 < size && start + size <= |feed|
    requires IsCursorPage(rows, CursorAt(order, s, feed[start + size - 1], false), s, 0, Some(size), next) && next != []
    requires IsCursorPage(rows, CursorAt(order, s, next[0], true), s, 0, Some(size), back)
    ensures back == feed[start..start + size]
  {
    ForwardPageIsNext(rows, order, feed, s, start + size - 1, size, next);
    FirstOfSlice(feed, start + size, size, next);
    BackwardPageIsPrevious(rows, order, feed, s, start + size, size, back);
  }

  // ---- the whole walk ----

  /** Pages read one after the other: the first without a value, each later one at
      the last row of the page before it. */
  ghost predicate IsTraversal(rows: seq<Row>, order: Order, s: Spelling, size: nat, pages: seq<seq<Row>>) {
    forall k :: 0 <= k < |pages| ==> IsCursorPage(rows, CursorOf(order, s, pages, k), s, 0, Some(size), pages[k])
  }

  /** A client stops at an empty page. */
  predicate Followed(pages: seq<seq<Row>>) {
    forall k :: 0 <= k < |pages| - 1 ==> pages[k] != []
  }

  function CursorOf(order: Order, s: Spelling, pages: seq<seq<Row>>, k: nat): Cursor
    requires k < |pages|
  {
    if k == 0 || pages[k - 1] == [] then Cursor("", order, "", false)
    else CursorAt(order, s, pages[k - 1][|pages[k - 1]| - 1], false)
  }

  lemma FirstPage(rows: seq<Row>, order: Order, feed: seq<Row>, s: Spelling, size: nat, page: seq<Row>)
    requires IsFeed(rows, order, feed) && IsCursorPage(rows, Cursor("", order, "", false), s, 0, Some(size), page)
    ensures page == Take(feed, size)
  {
    PartHasNoTies(order, feed, feed, rows);
    PartIsSorted(feed, order, 0, |feed|);
    assert feed[0..|feed|] == feed;
    ReadIsSlice(rows, order, feed, Some(size), page);
  }

  lemma LastOfSlice(feed: seq<Row>, start: nat, size: nat, page: seq<Row>)
    requires page == Slice(feed, start, Some(size)) && page != []
    ensures
      var i := start + |page| - 1;
      i < |feed| && page[|page| - 1] == feed[i] && Slice(feed, i + 1, Some(size)) == Slice(feed, start + size, Some(size))
  {
  }

  lemma NextOfTraversal(rows: seq<Row>, order: Order, feed: seq<Row>, s: Spelling, start: nat, size: nat, page: seq<Row>, next: seq<Row>)
    requires IsFeed(rows, order, feed) && AllSpelled(s, order.column, feed) && size > 0
    requires page == Slice(feed, start, Some(size)) && page != []
    requires IsCursorPage(rows, CursorAt(order, s, page[|page| - 1], false), s, 0, Some(size), next)
    ensures next == Slice(feed, start + size, Some(size))
  {
    var i := start + |page| - 1;
    LastOfSlice(feed, start, size, page);
    assert Spelled(s, order.column, feed[i]);
    ForwardPageIsNext(rows, order, feed, s, i, size, next);
  }

  predicate IsSliceAt(feed: seq<Row>, start: nat, size: nat, page: seq<Row>) { page == Slice(feed, start, Some(size)) }

  lemma TraversalStep(rows: seq<Row>, order: Order, feed: seq<Row>, s: Spelling, start: nat, size: nat, pages: seq<seq<Row>>, k: nat)
    requires IsFeed(rows, order, feed) && AllSpelled(s, order.column, feed) && size > 0 && 0 < k < |pages| && pages[k - 1] != []
    requires IsCursorPage(rows, CursorOf(order, s, pages, k), s, 0, Some(size), pages[k])
    requires IsSliceAt(feed, start, size, pages[k - 1])
    ensures IsSliceAt(feed, start + size, size, pages[k])
  {
    NextOfTraversal(rows, order, feed, s, start, size, pages[k - 1], pages[k]);
  }

  /** The pages are the feed cut into pieces of size, as far as they go. */
  predicate Cuts(feed: seq<Row>, size: nat, pages: seq<seq<Row>>)
    decreases |pages|
  {
    pages == [] || (pages[0] == Take(feed, size) && Cuts(Skip(feed, size), size, pages[1..]))
  }

  lemma SkipAgain(feed: seq<Row>, start: nat, size: nat)
    ensures Skip(Skip(feed, start), size) == Skip(feed, start + size)
    ensures Slice(feed, start, Some(size)) == Take(Skip(feed, start), size)
  {
  }

  lemma CutsFrom(feed: seq<Row>, start: nat, size: nat, pages: seq<seq<Row>>, k: nat)
    requires k < |pages| && IsSliceAt(feed, start, size, pages[k])
    requires k + 1 < |pages| ==> Cuts(Skip(feed, start + size), size, pages[k + 1..])
    ensures Cuts(Skip(feed, start), size, pages[k..])
  {
    SkipAgain(feed, start, size);
    assert pages[k..][1..] == pages[k + 1..];
  }

  /** Wherever a page is a slice of the feed, the next page is the slice after. */
  ghost predicate Steps(feed: seq<Row>, size: nat, pages: seq<seq<Row>>) {
    forall k, start :: StepsAt(feed, size, pages, k, start)
  }

  predicate StepsAt(feed: seq<Row>, size: nat, pages: seq<seq<Row>>, k: nat, start: nat) {
    k + 1 < |pages| && IsSliceAt(feed, start, size, pages[k]) ==> IsSliceAt(feed, start + size, size, pages[k + 1])
  }

  lemma TraversalSteps(rows: seq<Row>, order: Order, feed: seq<Row>, s: Spelling, size: nat, pages: seq<seq<Row>>)
    requires IsFeed(rows, order, feed) && AllSpelled(s, order.column, feed) && size > 0
    requires IsTraversal(rows, order, s, size, pages) && Followed(pages)
    ensures Steps(feed, size, pages)
  {
    forall k: nat, start: nat ensures StepsAt(feed, size, pages, k, start) {
      if k + 1 < |pages| && IsSliceAt(feed, start, size, pages[k]) { TraversalStep(rows, order, feed, s, start, size, pages, k + 1); }
    }
  }

  lemma {:induction false} TraversalCuts(feed: seq<Row>, start: nat, size: nat, pages: seq<seq<Row>>, k: nat)
    requires Steps(feed, size, pages) && k < |pages| && IsSliceAt(feed, start, size, pages[k])
    ensures Cuts(Skip(feed, start), size, pages[k..])
    decreases |pages| - k
  {
    if k + 1 < |pages| {
      assert StepsAt(feed, size, pages, k, start);
      TraversalCuts(feed, start + size, size, pages, k + 1);
    }
    CutsFrom(feed, start, size, pages, k);
  }

  lemma FollowedRest(pages: seq<seq<Row>>)
    requires Followed(pages) && |pages| > 1
    ensures Followed(pages[1..]) && pages[0] != []
  {
    var rest := pages[1..];
    assert forall k :: 0 <= k < |rest| ==> rest[k] == pages[k + 1];
  }

  lemma {:induction false} CutsEnd(feed: seq<Row>, size: nat, pages: seq<seq<Row>>)
    requires Cuts(feed, size, pages) && Followed(pages) && pages != [] && size > 0
    ensures pages[|pages| - 1] == [] ==> Flatten(pages) == feed
    decreases |pages|
  {
    assert feed == Take(feed, size) + Skip(feed, size);
    if |pages| == 1 {
      assert Flatten(pages[1..]) == [];
    } else {
      FollowedRest(pages);
      CutsEnd(Skip(feed, size), size, pages[1..]);
    }
  }

  lemma {:induction false} CutsAreFew(feed: seq<Row>, size: nat, pages: seq<seq<Row>>)
    requires Cuts(feed, size, pages) && Followed(pages) && |pages| >= 2 && size > 0
    ensures (|pages| - 2) * size < |feed|
    decreases |pages|
  {
    FollowedRest(pages);
    if |pages| > 2 {
      var rest := pages[1..];
      FollowedRest(rest);
      CutsAreFew(Skip(feed, size), size, rest);
      assert (|pages| - 2) * size == (|rest| - 2) * size + size;
    }
  }

  /** Following the cursors from the first page to an empty one enumerates the feed
      once and in order, and no walk reads more pages than the feed fills, one
      empty page aside. */
  lemma TraversalEnumerates(rows: seq<Row>, order: Order, feed: seq<Row>, s: Spelling, size: nat, pages: seq<seq<Row>>)
    requires IsFeed(rows, order, feed) && AllSpelled(s, order.column, feed) && size > 0
    requires IsTraversal(rows, order, s, size, pages) && Followed(pages) && pages != []
    ensures pages[|pages| - 1] == [] ==> Flatten(pages) == feed
    ensures |pages| >= 2 ==> (|pages| - 2) * size < |feed|
  {
    FirstPage(rows, order, feed, s, size, pages[0]);
    TraversalSteps(rows, order, feed, s, size, pages);
    TraversalCuts(feed, 0, size, pages, 0);
    assert Skip(feed, 0) == feed && pages[0..] == pages;
    CutsEnd(feed, size, pages);
    if |pages| >= 2 { CutsAreFew(feed, size, pages); }
  }

  // ---- which values and which columns it holds for ----

  /** The page read after row i is the rows that follow it exactly when the value of
      row i is not spelled as the empty value: that one reads from the start. */
  lemma NextPageExactly(rows: seq<Row>, order: Order, feed: seq<Row>, s: Spelling, i: nat, size: nat, page: seq<Row>)
    requires IsFeed(rows, order, feed) && size > 0 && i < |feed| && !Get(feed[i], order.column).Null?
    requires s.read(s.spell(Get(feed[i], order.column))) == Get(feed[i], order.column)
    requires IsCursorPage(rows, CursorAt(order, s, feed[i], false), s, 0, Some(size), page)
    ensures page == Slice(feed, i + 1, Some(size)) <==> s.spell(Get(feed[i], order.column)) != ""
  {
    if s.spell(Get(feed[i], order.column)) == "" {
      FirstPage(rows, order, feed, s, size, page);
      assert page[0] == feed[0];
      if i + 1 < |feed| {
        BeforeIsStrict(order, feed[0], feed[i + 1]);
        OneOrder(order, feed[0], feed[0]);
        assert Slice(feed, i + 1, Some(size))[0] == feed[i + 1];
      }
    } else {
      ForwardPageIsNext(rows, order, feed, s, i, size, page);
    }
  }

  /** Two codes, the empty one first: the cursor at it reads the feed from its start and
      delivers it again. */
  lemma EmptyValueRestarts()
    ensures
      var order, s := Order("code", false), Spelling((c: Cell) => if c.Text? then c.s else "", v => Text(v));
      var a, b: Row := map["code" := Text("")], map["code" := Text("a")];
      IsFeed([a, b], order, [a, b]) && IsCursorPage([a, b], CursorAt(order, s, a, false), s, 0, Some(1), [a])
  {
    var order := Order("code", false);
    var a, b: Row := map["code" := Text("")], map["code" := Text("a")];
    assert Before(order, a, b);
    OneOrder(order, a, b);
    assert IsSorting([order], [a, b], [a, b]) && [a] == Slice([a, b], 0, Some(1));
  }

  /** Every walk of the cursor over every table honouring the model reads each row
      once. */
  ghost predicate AlwaysWalks(m: Model, order: Order) {
    forall rows, s, size, pages :: ReadsAll(m, order, rows, s, size, pages)
  }

  ghost predicate ReadsAll(m: Model, order: Order, rows: seq<Row>, s: Spelling, size: nat, pages: seq<seq<Row>>) {
    Honours(m, rows) && AllSpelled(s, order.column, rows) && IsWalk(rows, order, s, size, pages) ==>
      multiset(Flatten(pages)) == multiset(rows)
  }

  ghost predicate IsWalk(rows: seq<Row>, order: Order, s: Spelling, size: nat, pages: seq<seq<Row>>) {
    size > 0 && IsTraversal(rows, order, s, size, pages) && Followed(pages) && pages != [] && pages[|pages| - 1] == []
  }

  lemma KeyedRowsFormFeed(m: Model, order: Order, rows: seq<Row>, s: Spelling) returns (feed: seq<Row>)
    requires WellFormed(m) && CoversKey(m, {order.column}) && Honours(m, rows) && AllSpelled(s, order.column, rows)
    ensures IsFeed(rows, order, feed) && AllSpelled(s, order.column, feed)
  {
    feed := Sort([order], rows);
    SortSorts([order], rows);
    assert Columns([order]) == {order.column} by { assert [order][0].column == order.column; }
    CoveredOrderHasNoTies(m, [order], rows);
    forall i | 0 <= i < |feed| ensures Spelled(s, order.column, feed[i]) {
      SameBagMember(feed, rows, feed[i]);
    }
    SortedUntied(order, rows, feed);
  }

  lemma TwiceInBag(rows: seq<Row>, i: nat, j: nat)
    requires i < j < |rows| && rows[i] == rows[j]
    ensures multiset(rows)[rows[i]] >= 2
  {
    BagWithout(rows, i);
    var rest := rows[..i] + rows[i + 1..];
    assert rest[j - 1] == rows[j] && rows[j] in multiset(rest);
  }

  lemma OnceInBag(order: Order, rows: seq<Row>, i: nat)
    requires NoTies([order], rows) && i < |rows|
    ensures multiset(rows)[rows[i]] == 1
  {
    BagWithout(rows, i);
    var rest := rows[..i] + rows[i + 1..];
    forall k | 0 <= k < |rest| ensures rest[k] != rows[i] {
      RowLeqOrder([order], rows[i], rows[i], rows[i]);
    }
    assert rows[i] !in multiset(rest);
  }

  /** A sorting of rows that do not tie has no ties either. */
  lemma UntiedInBag(order: Order, rows: seq<Row>, feed: seq<Row>, i: nat, j: nat)
    requires NoTies([order], rows) && multiset(rows) == multiset(feed) && i < j < |feed|
    ensures Get(feed[i], order.column) != Get(feed[j], order.column)
  {
    if Get(feed[i], order.column) == Get(feed[j], order.column) {
      OneOrder(order, feed[i], feed[j]);
      OneOrder(order, feed[j], feed[i]);
      SameBagMember(feed, rows, feed[i]);
      SameBagMember(feed, rows, feed[j]);
      NoTiesIsAntisymmetric([order], rows);
      TwiceInBag(feed, i, j);
      var x :| 0 <= x < |rows| && rows[x] == feed[i];
      OnceInBag(order, rows, x);
    }
  }

  lemma SortedUntied(order: Order, rows: seq<Row>, feed: seq<Row>)
    requires IsSorting([order], rows, feed) && NoTies([order], rows) && forall i :: 0 <= i < |feed| ==> !Get(feed[i], order.column).Null?
    ensures Strict(feed, order)
  {
    forall i, j | 0 <= i < j < |feed| ensures Before(order, feed[i], feed[j]) {
      OneOrder(order, feed[i], feed[j]);
      UntiedInBag(order, rows, feed, i, j);
    }
  }

  /** Two rows that share the column and nothing else. */
  lemma SharedRows(m: Model, column: string) returns (a: Row, b: Row)
    requires WellFormed(m) && Identifies(m, column) && !CoversKey(m, {column})
    ensures Honours(m, [a, b]) && Get(a, column) == Get(b, column) == Num(0)
  {
    a, b := Twin(m, {column}, false), Twin(m, {column}, true);
    TwinsHonour(m, {column});
    IdentifyingCell(m, column);
  }

  /** A walk of their pages of one row reads the first and ends. */
  lemma SharedRowsAreSkipped(m: Model, order: Order, a: Row, b: Row)
    requires Honours(m, [a, b]) && Get(a, order.column) == Get(b, order.column) == Num(0)
    ensures !AlwaysWalks(m, order)
  {
    var s := Spelling(c => "0", v => Num(0));
    WalkOfTwins(order, s, a, b);
    NotAllRead(a, b);
    MissedRow(m, order, [a, b], s, 1, [[a], []]);
  }

  lemma MissedRow(m: Model, order: Order, rows: seq<Row>, s: Spelling, size: nat, pages: seq<seq<Row>>)
    requires Honours(m, rows) && AllSpelled(s, order.column, rows) && IsWalk(rows, order, s, size, pages)
    requires multiset(Flatten(pages)) != multiset(rows)
    ensures !AlwaysWalks(m, order)
  {
    assert !ReadsAll(m, order, rows, s, size, pages);
  }

  lemma NotAllRead(a: Row, b: Row)
    ensures multiset(Flatten([[a], []])) != multiset([a, b])
  {
    FlattenLast([[a], []]);
    FlattenLast([[a]]);
    assert |multiset([a])| == 1 && |multiset([a, b])| == 2;
    assert [[a], []][..1] == [[a]] && [[a]][..0] == [] && Flatten([]) == [];
  }

  lemma IdentifyingCell(m: Model, column: string)
    requires WellFormed(m) && Identifies(m, column)
    ensures Get(Twin(m, {column}, false), column) == Get(Twin(m, {column}, true), column) == Num(0)
  {
    var i :| 0 <= i < |m.columns| && m.columns[i].name == column && !m.columns[i].nullable;
    TwinCell(m, {column}, false, i);
    TwinCell(m, {column}, true, i);
  }

  lemma WalkOfTwins(order: Order, s: Spelling, a: Row, b: Row)
    requires Get(a, order.column) == Get(b, order.column) == Num(0) == s.read("0") && s.spell(Num(0)) == "0"
    ensures IsWalk([a, b], order, s, 1, [[a], []]) && AllSpelled(s, order.column, [a, b])
  {
    TwinsFirstPage(order, s, a, b);
    TwinsNextPage(order, s, a, b);
    var pages := [[a], []];
    assert CursorOf(order, s, pages, 0) == Cursor("", order, "", false);
    assert pages[0][|pages[0]| - 1] == a && CursorOf(order, s, pages, 1) == CursorAt(order, s, a, false);
  }

  lemma TwinsFirstPage(order: Order, s: Spelling, a: Row, b: Row)
    requires Get(a, order.column) == Get(b, order.column)
    ensures IsCursorPage([a, b], Cursor("", order, "", false), s, 0, Some(1), [a])
  {
    OneOrder(order, a, b);
    assert IsSorting([order], [a, b], [a, b]) && [a] == Slice([a, b], 0, Some(1));
  }

  lemma TwinsNextPage(order: Order, s: Spelling, a: Row, b: Row)
    requires Get(a, order.column) == Get(b, order.column) == Num(0) == s.read("0") && s.spell(Num(0)) == "0"
    ensures IsCursorPage([a, b], CursorAt(order, s, a, false), s, 0, Some(1), [])
  {
    KeptAllOrNone([a, b], BoundaryOf(CursorAt(order, s, a, false)).value, s);
    assert IsSorting([order], [], []) && [] == Slice([], 0, Some(1));
  }

  /** A cursor the chain takes on walks every table exactly when its column is a key
      of the model by itself. */
  lemma CursorWalksExactly(m: Model, order: Order)
    requires WellFormed(m) && Identifies(m, order.column)
    ensures AlwaysWalks(m, order) <==> CoversKey(m, {order.column})
  {
    if CoversKey(m, {order.column}) {
      forall rows, s, size, pages ensures ReadsAll(m, order, rows, s, size, pages) {
        if Honours(m, rows) && AllSpelled(s, order.column, rows) && IsWalk(rows, order, s, size, pages) {
          var feed := KeyedRowsFormFeed(m, order, rows, s);
          TraversalEnumerates(rows, order, feed, s, size, pages);
        }
      }
    } else {
      var a, b := SharedRows(m, order.column);
      SharedRowsAreSkipped(m, order, a, b);
    }
  }
}
