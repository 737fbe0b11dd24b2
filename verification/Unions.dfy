/** UNION ALL over selects (database/union.go): the options of a union, the plan
    it builds, and the proof that pushing its order and limit into every member
    keeps the page. */
module Unions {
  import opened Sql
  import opened Ordering

  /** One member of the statement: the order and limit pushed into it; limit zero
      reads it whole. */
  datatype Member = Member(orders: seq<Order>, limit: nat)

  /** A statement stacking its members, or adding up the count of each. */
  datatype Plan = Plan(members: seq<Member>, orders: seq<Order>, limit: Option<nat>, offset: nat) | Counts(members: seq<Member>)

  datatype Error = PageWithoutOrder

  class Union {
    const branches: nat
    var orders: seq<Order>
    var limit: nat
    var offset: nat
    var hasLimit: bool
    var paged: bool

    /** A limit is positive, and nothing is skipped but by a page, which sets both. */
    ghost predicate Valid()
      reads this
    {
      (hasLimit <==> limit > 0) && (paged ==> hasLimit) && (offset > 0 ==> paged)
    }

    constructor (branches: nat)
      ensures Valid() && this.branches == branches && orders == [] && !hasLimit && offset == 0
    {
      this.branches, orders, limit, offset, hasLimit, paged := branches, [], 0, 0, false, false;
    }

    /** The limit the rows are cut to, none when there is none. */
    ghost function Limited(): Option<nat>
      reads this
    {
      if hasLimit then Some(limit) else None
    }

    method OrderBy(more: seq<Order>)
      requires Valid()
      modifies this`orders
      ensures Valid() && orders == old(orders) + more
    {
      orders := orders + more;
    }

    /** Limit reads from the first row: the skip of an earlier page is dropped. */
    method Limit(n: int)
      requires Valid()
      modifies this`limit, this`offset, this`hasLimit, this`paged
      ensures Valid() && offset == 0 && !paged && Limited() == if n <= 0 then None else Some(n)
    {
      offset, paged := 0, false;
      if n <= 0 {
        limit, hasLimit := 0, false;
        return;
      }
      limit, hasLimit := n, true;
    }

    /** Page keeps page number page of size rows; a page below 1 is the first. */
    method Page(page: int, size: int)
      requires Valid()
      modifies this`limit, this`offset, this`hasLimit, this`paged
      ensures Valid() && (paged <==> size > 0)
      ensures size <= 0 ==> Limited() == None && offset == 0
      ensures size > 0 ==> Limited() == Some(size) && offset == (if page < 1 then 0 else (page - 1) * size)
    {
      if size <= 0 {
        limit, offset, hasLimit, paged := 0, 0, false, false;
        return;
      }
      var number := if page < 1 then 1 else page;
      limit, offset, hasLimit, paged := size, (number - 1) * size, true, true;
    }

    function Pushdown(): Member
      reads this
    {
      if !hasLimit then Member([], 0) else Member(orders, offset + limit)
    }

    /** The statement of a read: every member with what was pushed into it, in branch
        order, then the union's own order, limit and offset. A count adds up its
        members', reads no page and pushes nothing. */
    method Build(counting: bool) returns (plan: Option<Plan>, err: Option<Error>)
      requires Valid()
      ensures plan.None? <==> !counting && paged && orders == []
      ensures plan.None? <==> err == Some(PageWithoutOrder)
      ensures plan.Some? ==> plan.value == if counting then Counts(seq(branches, n => Member([], 0))) else ReadPlan(branches, orders, offset, Limited())
    {
      if !counting && paged && orders == [] { return None, Some(PageWithoutOrder); }
      var pushed := if counting then Member([], 0) else Pushdown();
      var members := [];
      for i := 0 to branches
        invariant |members| == i && forall j :: 0 <= j < i ==> members[j] == pushed
      {
        members := members + [pushed];
      }
      assert members == seq(branches, n => pushed);
      if counting { return Some(Counts(members)), None; }
      return Some(Plan(members, orders, if hasLimit then Some(limit) else None, offset)), None;
    }
  }

  function ReadPlan(branches: nat, orders: seq<Order>, offset: nat, limit: Option<nat>): Plan {
    var member := if limit.Some? then Member(orders, offset + limit.value) else Member([], 0);
    Plan(seq(branches, n => member), orders, limit, offset)
  }

  // ---- what a plan answers ----

  /** A member may read any sorting of its branch, cut to its limit. */
  predicate MemberReads(m: Member, branch: seq<Row>, sorted: seq<Row>, read: seq<Row>) {
    IsSorting(m.orders, branch, sorted) && read == if m.limit == 0 then sorted else Take(sorted, m.limit)
  }

  /** The rows a plan may answer over branches: the members' reads stacked, in any
      sorting of the union's order, sliced. */
  predicate Answers(plan: Plan, branches: seq<seq<Row>>, sorted: seq<seq<Row>>, read: seq<seq<Row>>, stack: seq<Row>, page: seq<Row>) {
    plan.Plan? && |plan.members| == |branches| == |sorted| == |read| &&
    (forall i :: 0 <= i < |branches| ==> MemberReads(plan.members[i], branches[i], sorted[i], read[i])) &&
    IsSorting(plan.orders, Flatten(read), stack) && page == Slice(stack, plan.offset, plan.limit)
  }

  // ---- the first rows of every member suffice ----

  function TakeEach(lists: seq<seq<Row>>, k: nat): (r: seq<seq<Row>>)
    ensures |r| == |lists|
  {
    seq(|lists|, i requires 0 <= i < |lists| => Take(lists[i], k))
  }

  function SkipEach(lists: seq<seq<Row>>, k: nat): (r: seq<seq<Row>>)
    ensures |r| == |lists|
  {
    seq(|lists|, i requires 0 <= i < |lists| => Skip(lists[i], k))
  }

  lemma {:induction false} SplitBags(lists: seq<seq<Row>>, k: nat)
    ensures multiset(Flatten(lists)) == multiset(Flatten(TakeEach(lists, k))) + multiset(Flatten(SkipEach(lists, k)))
  {
    if lists != [] {
      SplitBags(lists[1..], k);
      assert TakeEach(lists, k)[1..] == TakeEach(lists[1..], k) && SkipEach(lists, k)[1..] == SkipEach(lists[1..], k);
      BagOfSplit(lists[0], k);
    }
  }

  lemma {:induction false} SameBags(a: seq<seq<Row>>, b: seq<seq<Row>>)
    requires |a| == |b| && forall i :: 0 <= i < |a| ==> multiset(a[i]) == multiset(b[i])
    ensures multiset(Flatten(a)) == multiset(Flatten(b))
  {
    if a != [] { SameBags(a[1..], b[1..]); }
  }

  /** A row a member left out has at least k rows of its own member before it, so
      at least k rows of the stack sort no later. */
  lemma {:induction false} LeftOutIsLate(orders: seq<Order>, lists: seq<seq<Row>>, k: nat, y: Row)
    requires (forall i :: 0 <= i < |lists| ==> Sorted(orders, lists[i])) && y in Flatten(SkipEach(lists, k))
    ensures CountLeq(orders, Flatten(TakeEach(lists, k)), y) >= k
  {
    var head := Take(lists[0], k);
    assert TakeEach(lists, k)[1..] == TakeEach(lists[1..], k) && SkipEach(lists, k)[1..] == SkipEach(lists[1..], k);
    CountAppend(orders, head, Flatten(TakeEach(lists[1..], k)), y);
    if y in Skip(lists[0], k) {
      var n :| 0 <= n < |Skip(lists[0], k)| && Skip(lists[0], k)[n] == y;
      assert lists[0][k + n] == y;
      CountAll(orders, head, y);
    } else {
      LeftOutIsLate(orders, lists[1..], k, y);
    }
  }

  /** A row of the first k of a sorted stack sorts no later than y when k rows of
      the stack do. */
  lemma EarlyRowsPrecede(orders: seq<Order>, stack: seq<Row>, k: nat, j: nat, y: Row)
    requires Sorted(orders, stack) && j < k && j < |stack| && CountLeq(orders, stack, y) >= k
    ensures RowLeq(orders, stack[j], y)
  {
    if !RowLeq(orders, stack[j], y) {
      forall p | j <= p < |stack| ensures !RowLeq(orders, stack[p], y) {
        RowLeqOrder(orders, stack[j], stack[p], y);
      }
      assert stack == stack[..j] + stack[j..];
      CountAppend(orders, stack[..j], stack[j..], y);
      CountAll(orders, stack[..j], y);
      CountAll(orders, stack[j..], y);
    }
  }

  lemma SortedConcat(orders: seq<Order>, a: seq<Row>, b: seq<Row>)
    requires Sorted(orders, a) && Sorted(orders, b)
    requires forall i, j :: 0 <= i < |a| && 0 <= j < |b| ==> RowLeq(orders, a[i], b[j])
    ensures Sorted(orders, a + b)
  {
  }

  /** Every row outside the first k of the stack, left out by its member or not,
      sorts after them. */
  lemma FirstPrecedeLate(orders: seq<Order>, lists: seq<seq<Row>>, k: nat, stack: seq<Row>, j: nat, y: Row)
    requires forall i :: 0 <= i < |lists| ==> Sorted(orders, lists[i])
    requires IsSorting(orders, Flatten(TakeEach(lists, k)), stack)
    requires j < |Take(stack, k)| && (y in Skip(stack, k) || y in Flatten(SkipEach(lists, k)))
    ensures RowLeq(orders, Take(stack, k)[j], y)
  {
    if y in Skip(stack, k) {
      var p :| 0 <= p < |Skip(stack, k)| && Skip(stack, k)[p] == y;
      assert stack[k + p] == y;
    } else {
      LeftOutIsLate(orders, lists, k, y);
      CountOfBag(orders, Flatten(TakeEach(lists, k)), stack, y);
      EarlyRowsPrecede(orders, stack, k, j, y);
    }
  }

  lemma BagOfSplit(rows: seq<Row>, k: nat)
    ensures multiset(rows) == multiset(Take(rows, k)) + multiset(Skip(rows, k))
  {
    assert rows == Take(rows, k) + Skip(rows, k);
  }

  lemma BagOfConcat(a: seq<Row>, b: seq<Row>)
    ensures multiset(a + b) == multiset(a) + multiset(b)
  {
  }

  lemma Rearranged(first: multiset<Row>, tail: multiset<Row>, out: multiset<Row>, rest: multiset<Row>)
    requires rest == tail + out
    ensures first + rest == (first + tail) + out
  {
  }

  lemma FirstAndRestAreAll(lists: seq<seq<Row>>, k: nat, stack: seq<Row>, rest: seq<Row>)
    requires multiset(stack) == multiset(Flatten(TakeEach(lists, k)))
    requires multiset(rest) == multiset(Skip(stack, k) + Flatten(SkipEach(lists, k)))
    ensures multiset(Flatten(lists)) == multiset(Take(stack, k) + rest)
  {
    var first, tail, out := Take(stack, k), Skip(stack, k), Flatten(SkipEach(lists, k));
    SplitBags(lists, k);
    BagOfSplit(stack, k);
    BagOfConcat(tail, out);
    BagOfConcat(first, rest);
    Rearranged(multiset(first), multiset(tail), multiset(out), multiset(rest));
  }

  lemma ShortStackLeavesNothing(lists: seq<seq<Row>>, k: nat, stack: seq<Row>, rest: seq<Row>)
    requires multiset(stack) == multiset(Flatten(TakeEach(lists, k))) && |stack| < k
    requires multiset(rest) == multiset(Skip(stack, k) + Flatten(SkipEach(lists, k)))
    ensures rest == []
  {
    SameBagLength(Flatten(TakeEach(lists, k)), stack);
    NothingLeftOut(lists, k);
    SameBagLength(Skip(stack, k) + Flatten(SkipEach(lists, k)), rest);
  }

  /** The first k rows of the stacked prefixes are the first k rows of some
      sorting of everything. */
  lemma FirstRowsSuffice(orders: seq<Order>, lists: seq<seq<Row>>, k: nat, stack: seq<Row>) returns (sorted: seq<Row>)
    requires forall i :: 0 <= i < |lists| ==> Sorted(orders, lists[i])
    requires IsSorting(orders, Flatten(TakeEach(lists, k)), stack)
    ensures IsSorting(orders, Flatten(lists), sorted) && Take(sorted, k) == Take(stack, k)
  {
    var first, late := Take(stack, k), Skip(stack, k) + Flatten(SkipEach(lists, k));
    var rest := Sort(orders, late);
    SortSorts(orders, late);
    FirstAndRestAreAll(lists, k, stack, rest);
    forall j, n | 0 <= j < |first| && 0 <= n < |rest| ensures RowLeq(orders, first[j], rest[n]) {
      SameBagMember(rest, late, rest[n]);
      FirstPrecedeLate(orders, lists, k, stack, j, rest[n]);
    }
    SortedConcat(orders, first, rest);
    sorted := first + rest;
    if |stack| < k { ShortStackLeavesNothing(lists, k, stack, rest); }
    TakeOfConcat(first, rest, k);
  }

  lemma TakeOfConcat(first: seq<Row>, rest: seq<Row>, k: nat)
    requires |first| == k || (|first| < k && rest == [])
    ensures Take(first + rest, k) == first
  {
  }

  lemma SameBagLength(a: seq<Row>, b: seq<Row>)
    requires multiset(a) == multiset(b)
    ensures |a| == |b|
  {
    assert |multiset(a)| == |a| && |multiset(b)| == |b|;
  }

  lemma {:induction false} NothingLeftOut(lists: seq<seq<Row>>, k: nat)
    requires |Flatten(TakeEach(lists, k))| < k
    ensures Flatten(SkipEach(lists, k)) == []
  {
    if lists != [] {
      assert TakeEach(lists, k)[1..] == TakeEach(lists[1..], k) && SkipEach(lists, k)[1..] == SkipEach(lists[1..], k);
      NothingLeftOut(lists[1..], k);
    }
  }

  lemma SliceOfTake(a: seq<Row>, b: seq<Row>, offset: nat, limit: nat)
    requires Take(a, offset + limit) == Take(b, offset + limit)
    ensures Slice(a, offset, Some(limit)) == Slice(b, offset, Some(limit))
  {
    var k := offset + limit;
    assert Slice(a, offset, Some(limit)) == Skip(Take(a, k), offset);
    assert Slice(b, offset, Some(limit)) == Skip(Take(b, k), offset);
  }

  /** Pushdown keeps the page: whatever page the members and the stack answer, the
      union could have given it with nothing pushed. */
  lemma PushdownKeepsPage(orders: seq<Order>, offset: nat, limit: Option<nat>, branches: seq<seq<Row>>, sorted: seq<seq<Row>>, read: seq<seq<Row>>, stack: seq<Row>, page: seq<Row>)
    requires limit.Some? ==> limit.value > 0
    requires Answers(ReadPlan(|branches|, orders, offset, limit), branches, sorted, read, stack, page)
    ensures IsPage(orders, Flatten(branches), offset, limit, page)
  {
    if limit.Some? {
      LimitedPage(orders, offset, limit.value, branches, sorted, read, stack, page);
    } else {
      WholePage(orders, offset, branches, sorted, read, stack, page);
    }
  }

  lemma WholePage(orders: seq<Order>, offset: nat, branches: seq<seq<Row>>, sorted: seq<seq<Row>>, read: seq<seq<Row>>, stack: seq<Row>, page: seq<Row>)
    requires Answers(ReadPlan(|branches|, orders, offset, None), branches, sorted, read, stack, page)
    ensures IsPage(orders, Flatten(branches), offset, None, page)
  {
    MembersAreBranches(ReadPlan(|branches|, orders, offset, None), branches, sorted, read, stack, page);
    MembersReadWhole(orders, offset, branches, sorted, read, stack, page);
    assert IsSorting(orders, Flatten(branches), stack);
  }

  lemma LimitedPage(orders: seq<Order>, offset: nat, limit: nat, branches: seq<seq<Row>>, sorted: seq<seq<Row>>, read: seq<seq<Row>>, stack: seq<Row>, page: seq<Row>)
    requires limit > 0
    requires Answers(ReadPlan(|branches|, orders, offset, Some(limit)), branches, sorted, read, stack, page)
    ensures IsPage(orders, Flatten(branches), offset, Some(limit), page)
  {
    MembersAreBranches(ReadPlan(|branches|, orders, offset, Some(limit)), branches, sorted, read, stack, page);
    MembersTake(orders, offset, limit, branches, sorted, read, stack);
    FirstRowsPage(orders, offset, limit, sorted, stack, Flatten(branches));
  }

  lemma MembersAreBranches(plan: Plan, branches: seq<seq<Row>>, sorted: seq<seq<Row>>, read: seq<seq<Row>>, stack: seq<Row>, page: seq<Row>)
    requires Answers(plan, branches, sorted, read, stack, page)
    ensures multiset(Flatten(sorted)) == multiset(Flatten(branches))
  {
    forall i | 0 <= i < |branches| ensures multiset(sorted[i]) == multiset(branches[i]) {
      assert MemberReads(plan.members[i], branches[i], sorted[i], read[i]);
    }
    SameBags(sorted, branches);
  }

  lemma MembersReadWhole(orders: seq<Order>, offset: nat, branches: seq<seq<Row>>, sorted: seq<seq<Row>>, read: seq<seq<Row>>, stack: seq<Row>, page: seq<Row>)
    requires Answers(ReadPlan(|branches|, orders, offset, None), branches, sorted, read, stack, page)
    ensures read == sorted && multiset(stack) == multiset(Flatten(sorted))
  {
    var plan := ReadPlan(|branches|, orders, offset, None);
    forall i | 0 <= i < |branches| ensures read[i] == sorted[i] {
      assert MemberReads(plan.members[i], branches[i], sorted[i], read[i]);
    }
  }

  lemma FirstRowsPage(orders: seq<Order>, offset: nat, limit: nat, sorted: seq<seq<Row>>, stack: seq<Row>, rows: seq<Row>)
    requires forall i :: 0 <= i < |sorted| ==> Sorted(orders, sorted[i])
    requires IsSorting(orders, Flatten(TakeEach(sorted, offset + limit)), stack)
    requires multiset(Flatten(sorted)) == multiset(rows)
    ensures IsPage(orders, rows, offset, Some(limit), Slice(stack, offset, Some(limit)))
  {
    var whole := FirstRowsSuffice(orders, sorted, offset + limit, stack);
    SliceOfTake(whole, stack, offset, limit);
    assert IsSorting(orders, rows, whole);
  }

  lemma MembersTake(orders: seq<Order>, offset: nat, limit: nat, branches: seq<seq<Row>>, sorted: seq<seq<Row>>, read: seq<seq<Row>>, stack: seq<Row>)
    requires limit > 0
    requires Answers(ReadPlan(|branches|, orders, offset, Some(limit)), branches, sorted, read, stack, Slice(stack, offset, Some(limit)))
    ensures |sorted| == |branches| && forall i :: 0 <= i < |branches| ==> Sorted(orders, sorted[i])
    ensures IsSorting(orders, Flatten(TakeEach(sorted, offset + limit)), stack)
  {
    var plan := ReadPlan(|branches|, orders, offset, Some(limit));
    forall i | 0 <= i < |branches| ensures Sorted(orders, sorted[i]) && read[i] == TakeEach(sorted, offset + limit)[i] {
      assert MemberReads(plan.members[i], branches[i], sorted[i], read[i]);
    }
    assert read == TakeEach(sorted, offset + limit);
  }

  /** With a limit and no order the answer is some of the rows, as many as the
      limit allows. */
  lemma UnorderedLimitIsSubBag(limit: nat, branches: seq<seq<Row>>, page: seq<Row>)
    requires IsPage([], Flatten(branches), 0, Some(limit), page)
    ensures multiset(page) <= multiset(Flatten(branches)) && |page| == Min(limit, |Flatten(branches)|)
  {
    var rows := Flatten(branches);
    var sorted :| IsSorting([], rows, sorted) && page == Slice(sorted, 0, Some(limit));
    assert |multiset(rows)| == |rows| && |multiset(sorted)| == |sorted|;
    assert sorted == page + sorted[|page|..];
  }
}
