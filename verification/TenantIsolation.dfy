/** Merging a batch the guard lets through leaves every other tenant's rows alone:
    one statement after the other, for the tables whose keys the guard covers. */
module TenantIsolation {
  import opened Sql
  import opened Upsert

  /** The columns an index holds whole. */
  function WholeColumns(index: Index): seq<string> { Unprefixed(index.columns, index.prefixed) }

  function Unprefixed(columns: seq<string>, prefixed: set<string>): (whole: seq<string>)
    ensures forall c :: c in whole <==> c in columns && c !in prefixed
  {
    if columns == [] then []
    else (if columns[0] in prefixed then [] else [columns[0]]) + Unprefixed(columns[1..], prefixed)
  }

  /** The unique keys a write may merge on besides the primary key: every unique index,
      over prefixes, expressions and part of the rows too. */
  predicate Merging(t: Table, index: Index) {
    index.unique && (index in t.tagged || index in t.plans || exists i :: 0 <= i < |t.fields| && index == Unique(t.fields[i]))
  }

  function Unique(column: string): Index { Index([column], {}, true, false, true) }

  /** An index whose key is its columns' values, and nothing else. */
  predicate Exact(index: Index) { !index.partial && index.plain && WholeColumns(index) == index.columns }

  /** What else two rows share where they have one key: the prefixes, the expressions,
      the condition of a partial index. */
  type Sharing = (Index, Row, Row) -> bool

  predicate SharesKey(sharing: Sharing, index: Index, row: Row, stored: Row) {
    Collides(WholeColumns(index), row, stored) && (Exact(index) || sharing(index, row, stored))
  }

  /** The insert stamps the caller's tenant. */
  function Stamped(t: Table, obj: Row, acting: string): Row { obj[t.tenant := Text(acting)] }

  /** The row the insert would store: a primary key zero in every column is numbered. */
  function Stored(t: Table, obj: Row, acting: string, number: Cell): Row {
    var stamped := Stamped(t, obj, acting);
    if Keyed(t, stamped) then stamped else stamped[t.numbered := number]
  }

  ghost predicate Hits(t: Table, sharing: Sharing, row: Row, stored: Row) {
    Collides(t.primary, row, stored) || exists index :: Merging(t, index) && SharesKey(sharing, index, row, stored)
  }

  /** What the database does with one object: inserts it, or writes some of its
      columns, the tenant's never among them, over a row holding one of its keys. */
  datatype Choice = Insert(number: Cell) | Update(number: Cell, at: nat, written: set<string>)

  ghost predicate Legal(t: Table, sharing: Sharing, rows: seq<Row>, obj: Row, acting: string, c: Choice) {
    var stored := Stored(t, obj, acting, c.number);
    (!Keyed(t, Stamped(t, obj, acting)) ==>
      t.numbered in t.primary && t.numbered != t.tenant && forall r :: 0 <= r < |rows| ==> Get(rows[r], t.numbered) != c.number) &&
    match c
    case Insert(_) => forall r :: 0 <= r < |rows| ==> !Hits(t, sharing, rows[r], stored)
    case Update(_, at, _) => at < |rows| && Hits(t, sharing, rows[at], stored)
  }

  function Overlay(t: Table, row: Row, stored: Row, written: set<string>): Row {
    row + map c | c in written && c in stored && c != t.tenant :: stored[c]
  }

  function Merge(t: Table, rows: seq<Row>, obj: Row, acting: string, c: Choice): seq<Row> {
    var stored := Stored(t, obj, acting, c.number);
    match c
    case Insert(_) => rows + [stored]
    case Update(_, at, written) => if at < |rows| then rows[at := Overlay(t, rows[at], stored, written)] else rows
  }

  function MergeAll(t: Table, rows: seq<Row>, objs: seq<Row>, acting: string, choices: seq<Choice>): seq<Row>
    requires |objs| == |choices|
    decreases |objs|
  {
    if objs == [] then rows else MergeAll(t, Merge(t, rows, objs[0], acting, choices[0]), objs[1..], acting, choices[1..])
  }

  ghost predicate AllLegal(t: Table, sharing: Sharing, rows: seq<Row>, objs: seq<Row>, acting: string, choices: seq<Choice>)
    requires |objs| == |choices|
    decreases |objs|
  {
    objs == [] || (Legal(t, sharing, rows, objs[0], acting, choices[0]) &&
      AllLegal(t, sharing, Merge(t, rows, objs[0], acting, choices[0]), objs[1..], acting, choices[1..]))
  }

  predicate IsForeign(t: Table, row: Row, acting: string) { Get(row, t.tenant) != Text(acting) }

  /** The rows of the other tenants. */
  function Foreign(t: Table, rows: seq<Row>, acting: string): seq<Row> {
    if rows == [] then [] else (if IsForeign(t, rows[0], acting) then [rows[0]] else []) + Foreign(t, rows[1..], acting)
  }

  /** An index no two tenants share a key of unless the guard sees it: among the
      columns it holds whole is the tenant's, or the primary key, or an index the guard
      looks through. */
  ghost predicate Covered(t: Table, index: Index) {
    t.tenant in WholeColumns(index) || (forall p :: p in t.primary ==> p in WholeColumns(index)) ||
    exists key :: Guarded(t, key) && forall c :: c in key ==> c in WholeColumns(index)
  }

  ghost predicate Isolated(t: Table) { forall index :: Merging(t, index) ==> Covered(t, index) }

  // ---- one object ----

  lemma CollidesAlike(columns: seq<string>, row: Row, a: Row, b: Row)
    requires Collides(columns, row, a) && forall c :: c in columns ==> Get(a, c) == Get(b, c)
    ensures Collides(columns, row, b)
  {
    forall i | 0 <= i < |columns| ensures Get(row, columns[i]) == Get(b, columns[i]) && !Get(b, columns[i]).Null? {
      assert columns[i] in columns;
    }
  }

  lemma CollidesOn(columns: seq<string>, row: Row, obj: Row, c: string)
    requires Collides(columns, row, obj) && c in columns
    ensures Get(row, c) == Get(obj, c)
  {
  }

  lemma CollidesWithin(columns: seq<string>, part: seq<string>, row: Row, obj: Row)
    requires Collides(columns, row, obj) && forall p :: p in part ==> p in columns
    ensures Collides(part, row, obj)
  {
    forall i | 0 <= i < |part| ensures Get(row, part[i]) == Get(obj, part[i]) && !Get(obj, part[i]).Null? {
      assert part[i] in columns;
    }
  }

  /** A key of the stored row that holds neither the tenant nor a number is a key of
      the object. */
  lemma StoredAgrees(t: Table, obj: Row, acting: string, number: Cell, c: string)
    requires c != t.tenant && (Keyed(t, Stamped(t, obj, acting)) || c != t.numbered)
    ensures Get(Stored(t, obj, acting, number), c) == Get(obj, c)
  {
  }

  lemma PrimaryHitIsOwn(t: Table, sharing: Sharing, row: Row, rows: seq<Row>, obj: Row, acting: string, c: Choice)
    requires t.primary != [] && Legal(t, sharing, rows, obj, acting, c) && row in rows
    requires Collides(t.primary, row, Stored(t, obj, acting, c.number))
    requires Looks(t, row, obj) ==> !IsForeign(t, row, acting)
    ensures !IsForeign(t, row, acting)
  {
    var stamped, stored := Stamped(t, obj, acting), Stored(t, obj, acting, c.number);
    if t.tenant in t.primary {
      CollidesOn(t.primary, row, stored, t.tenant);
      assert Get(stored, t.tenant) == Text(acting);
    } else if Keyed(t, stamped) {
      forall p | p in t.primary ensures Get(stored, p) == Get(obj, p) { StoredAgrees(t, obj, acting, c.number, p); }
      CollidesAlike(t.primary, row, stored, obj);
      assert Keyed(t, obj);
    } else {
      NumberIsFresh(t, sharing, rows, row, obj, acting, c);
    }
  }

  lemma NumberIsFresh(t: Table, sharing: Sharing, rows: seq<Row>, row: Row, obj: Row, acting: string, c: Choice)
    requires Legal(t, sharing, rows, obj, acting, c) && row in rows && !Keyed(t, Stamped(t, obj, acting))
    ensures Get(row, t.numbered) != Get(Stored(t, obj, acting, c.number), t.numbered)
  {
  }

  /** A row under a key holding a guarded one is one the guard looked at. */
  lemma GuardedHitIsOwn(t: Table, sharing: Sharing, row: Row, rows: seq<Row>, obj: Row, acting: string, c: Choice, key: seq<string>)
    requires t.primary != [] && Legal(t, sharing, rows, obj, acting, c) && row in rows
    requires Guarded(t, key) && Collides(key, row, Stored(t, obj, acting, c.number))
    requires Looks(t, row, obj) ==> !IsForeign(t, row, acting)
    ensures !IsForeign(t, row, acting)
  {
    var stamped, stored := Stamped(t, obj, acting), Stored(t, obj, acting, c.number);
    if t.tenant in key {
      CollidesOn(key, row, stored, t.tenant);
      assert Get(stored, t.tenant) == Text(acting);
    } else if !Keyed(t, stamped) && t.numbered in key {
      CollidesOn(key, row, stored, t.numbered);
      NumberIsFresh(t, sharing, rows, row, obj, acting, c);
    } else {
      forall p | p in key ensures Get(stored, p) == Get(obj, p) { StoredAgrees(t, obj, acting, c.number, p); }
      CollidesAlike(key, row, stored, obj);
    }
  }

  lemma IndexHitIsOwn(t: Table, sharing: Sharing, row: Row, rows: seq<Row>, obj: Row, acting: string, c: Choice, index: Index)
    requires t.primary != [] && Legal(t, sharing, rows, obj, acting, c) && row in rows && Covered(t, index)
    requires SharesKey(sharing, index, row, Stored(t, obj, acting, c.number))
    requires Looks(t, row, obj) ==> !IsForeign(t, row, acting)
    ensures !IsForeign(t, row, acting)
  {
    var stored, whole := Stored(t, obj, acting, c.number), WholeColumns(index);
    if t.tenant in whole {
      CollidesOn(whole, row, stored, t.tenant);
      assert Get(stored, t.tenant) == Text(acting);
    } else if forall p :: p in t.primary ==> p in whole {
      CollidesWithin(whole, t.primary, row, stored);
      PrimaryHitIsOwn(t, sharing, row, rows, obj, acting, c);
    } else {
      var key :| Guarded(t, key) && forall c :: c in key ==> c in whole;
      CollidesWithin(whole, key, row, stored);
      GuardedHitIsOwn(t, sharing, row, rows, obj, acting, c, key);
    }
  }

  /** Whatever row a merge writes over, it is the caller's tenant's. */
  lemma HitIsOwn(t: Table, sharing: Sharing, rows: seq<Row>, obj: Row, acting: string, c: Choice, at: nat)
    requires t.primary != [] && Isolated(t) && Legal(t, sharing, rows, obj, acting, c) && at < |rows|
    requires Hits(t, sharing, rows[at], Stored(t, obj, acting, c.number)) && (Looks(t, rows[at], obj) ==> !IsForeign(t, rows[at], acting))
    ensures !IsForeign(t, rows[at], acting)
  {
    if Collides(t.primary, rows[at], Stored(t, obj, acting, c.number)) {
      PrimaryHitIsOwn(t, sharing, rows[at], rows, obj, acting, c);
    } else {
      var index :| Merging(t, index) && SharesKey(sharing, index, rows[at], Stored(t, obj, acting, c.number));
      IndexHitIsOwn(t, sharing, rows[at], rows, obj, acting, c, index);
    }
  }

  // ---- the batch ----

  lemma {:induction false} ForeignAppend(t: Table, a: seq<Row>, b: seq<Row>, acting: string)
    ensures Foreign(t, a + b, acting) == Foreign(t, a, acting) + Foreign(t, b, acting)
  {
    if a == [] {
      assert a + b == b;
    } else {
      assert (a + b)[1..] == a[1..] + b;
      ForeignAppend(t, a[1..], b, acting);
    }
  }

  lemma ForeignOfOne(t: Table, row: Row, acting: string)
    ensures Foreign(t, [row], acting) == if IsForeign(t, row, acting) then [row] else []
  {
    assert [row][1..] == [];
  }

  lemma {:induction false} InForeign(t: Table, rows: seq<Row>, acting: string, row: Row)
    ensures row in Foreign(t, rows, acting) <==> row in rows && IsForeign(t, row, acting)
  {
    if rows != [] {
      InForeign(t, rows[1..], acting, row);
      assert rows == [rows[0]] + rows[1..];
    }
  }

  lemma ForeignOfUpdate(t: Table, rows: seq<Row>, at: nat, row: Row, acting: string)
    requires at < |rows| && !IsForeign(t, rows[at], acting) && !IsForeign(t, row, acting)
    ensures Foreign(t, rows[at := row], acting) == Foreign(t, rows, acting)
  {
    assert rows == rows[..at] + [rows[at]] + rows[at + 1..];
    assert rows[at := row] == rows[..at] + [row] + rows[at + 1..];
    ForeignAppend(t, rows[..at] + [rows[at]], rows[at + 1..], acting);
    ForeignAppend(t, rows[..at] + [row], rows[at + 1..], acting);
    ForeignAppend(t, rows[..at], [rows[at]], acting);
    ForeignAppend(t, rows[..at], [row], acting);
    ForeignOfOne(t, rows[at], acting);
    ForeignOfOne(t, row, acting);
  }

  lemma OwnStays(t: Table, row: Row, stored: Row, written: set<string>, acting: string)
    requires !IsForeign(t, row, acting)
    ensures !IsForeign(t, Overlay(t, row, stored, written), acting)
  {
  }

  lemma StoredIsOwn(t: Table, sharing: Sharing, rows: seq<Row>, obj: Row, acting: string, c: Choice)
    requires Legal(t, sharing, rows, obj, acting, c)
    ensures !IsForeign(t, Stored(t, obj, acting, c.number), acting)
  {
  }

  lemma MergeKeepsForeign(t: Table, sharing: Sharing, rows: seq<Row>, obj: Row, acting: string, c: Choice)
    requires t.primary != [] && Isolated(t) && Legal(t, sharing, rows, obj, acting, c) && Clear(t, rows, [obj], acting)
    ensures Foreign(t, Merge(t, rows, obj, acting, c), acting) == Foreign(t, rows, acting)
  {
    var stored := Stored(t, obj, acting, c.number);
    match c
    case Insert(_) =>
      StoredIsOwn(t, sharing, rows, obj, acting, c);
      ForeignAppend(t, rows, [stored], acting);
      ForeignOfOne(t, stored, acting);
    case Update(_, at, written) =>
      assert [obj][0] == obj;
      HitIsOwn(t, sharing, rows, obj, acting, c, at);
      OwnStays(t, rows[at], stored, written, acting);
      ForeignOfUpdate(t, rows, at, Overlay(t, rows[at], stored, written), acting);
  }

  lemma StillClear(t: Table, rows: seq<Row>, next: seq<Row>, objs: seq<Row>, rest: seq<Row>, acting: string)
    requires Clear(t, rows, objs, acting) && Foreign(t, next, acting) == Foreign(t, rows, acting) && forall o :: o in rest ==> o in objs
    ensures Clear(t, next, rest, acting)
  {
    forall r, o | 0 <= r < |next| && 0 <= o < |rest| && Looks(t, next[r], rest[o]) ensures Get(next[r], t.tenant) == Text(acting) {
      InForeign(t, next, acting, next[r]);
      InForeign(t, rows, acting, next[r]);
      assert rest[o] in rest;
      var j :| 0 <= j < |objs| && objs[j] == rest[o];
      var row := next[r];
      assert row in rows || !IsForeign(t, row, acting);
    }
  }

  /** Merging a batch the guard accepts, in whatever way the database resolves its
      conflicts, leaves the rows of every other tenant as they were. */
  lemma {:induction false} AcceptedBatchKeepsForeign(t: Table, sharing: Sharing, rows: seq<Row>, objs: seq<Row>, acting: string, choices: seq<Choice>)
    requires t.primary != [] && Isolated(t) && Clear(t, rows, objs, acting)
    requires |objs| == |choices| && AllLegal(t, sharing, rows, objs, acting, choices)
    ensures Foreign(t, MergeAll(t, rows, objs, acting, choices), acting) == Foreign(t, rows, acting)
    decreases |objs|
  {
    if objs != [] {
      var next := Merge(t, rows, objs[0], acting, choices[0]);
      StillClear(t, rows, rows, objs, [objs[0]], acting);
      MergeKeepsForeign(t, sharing, rows, objs[0], acting, choices[0]);
      StillClear(t, rows, next, objs, objs[1..], acting);
      AcceptedBatchKeepsForeign(t, sharing, next, objs[1..], acting, choices[1..]);
    }
  }

  // ---- the tables it holds for ----

  /** Whatever the rows, the batch and what the indexes' prefixes, expressions and
      conditions share, an accepted batch keeps the other tenants' rows. */
  ghost predicate AlwaysKeeps(t: Table, acting: string) {
    forall sharing, rows, objs, choices :: Keeps(t, sharing, acting, rows, objs, choices)
  }

  ghost predicate Keeps(t: Table, sharing: Sharing, acting: string, rows: seq<Row>, objs: seq<Row>, choices: seq<Choice>) {
    |objs| == |choices| && Clear(t, rows, objs, acting) && AllLegal(t, sharing, rows, objs, acting, choices) ==>
      Foreign(t, MergeAll(t, rows, objs, acting, choices), acting) == Foreign(t, rows, acting)
  }

  /** The columns the rows of the counterexample hold. */
  function Held(t: Table, whole: seq<string>): seq<string> { t.primary + whole + [t.tenant] }

  /** Another tenant's row that agrees with obj on whole alone. */
  function Neighbour(t: Table, whole: seq<string>, other: string): Row {
    map c | c in Held(t, whole) :: if c == t.tenant then Text(other) else if c in whole then Num(1) else Num(2)
  }

  function Incoming(t: Table, whole: seq<string>, acting: string): Row {
    (map c | c in Held(t, whole) :: if c == t.tenant then Text(acting) else Num(1))[Longer(Held(t, whole)) := Num(1)]
  }

  lemma HeldNames(t: Table, whole: seq<string>)
    ensures t.tenant in Held(t, whole) && forall c :: c in t.primary || c in whole ==> c in Held(t, whole)
    ensures Longer(Held(t, whole)) !in Held(t, whole)
  {
    LongerIsLonger(Held(t, whole));
    assert Held(t, whole)[|Held(t, whole)| - 1] == t.tenant;
  }

  lemma AlikeOn(columns: seq<string>, row: Row, obj: Row, c: string)
    requires Collides(columns, row, obj) && c in columns
    ensures Get(row, c) == Get(obj, c) && !Get(row, c).Null?
  {
  }

  /** A column the index does not hold whole tells the two rows apart, or is NULL. */
  lemma OtherColumnDiffers(t: Table, whole: seq<string>, c: string, acting: string, other: string)
    requires c !in whole && acting != other
    ensures
      var row, obj := Neighbour(t, whole, other), Incoming(t, whole, acting);
      Get(row, c) != Get(obj, c) || Get(row, c).Null?
  {
    HeldNames(t, whole);
  }

  lemma NeighbourIsNotLookedAt(t: Table, index: Index, acting: string, other: string)
    requires acting != other && !Covered(t, index)
    ensures !Looks(t, Neighbour(t, WholeColumns(index), other), Incoming(t, WholeColumns(index), acting))
  {
    var whole := WholeColumns(index);
    var row, obj := Neighbour(t, whole, other), Incoming(t, whole, acting);
    var p :| p in t.primary && p !in whole;
    OtherColumnDiffers(t, whole, p, acting, other);
    if Collides(t.primary, row, obj) { AlikeOn(t.primary, row, obj, p); }
    forall key | Guarded(t, key) ensures !Collides(key, row, obj) {
      var c :| c in key && c !in whole;
      OtherColumnDiffers(t, whole, c, acting, other);
      if Collides(key, row, obj) { AlikeOn(key, row, obj, c); }
    }
  }

  lemma NeighbourIsHit(t: Table, index: Index, acting: string, other: string)
    requires Merging(t, index) && t.tenant !in WholeColumns(index) && t.primary != [] && acting != ""
    ensures
      var row, obj := Neighbour(t, WholeColumns(index), other), Incoming(t, WholeColumns(index), acting);
      Stored(t, obj, acting, Num(0)) == obj && Keyed(t, Stamped(t, obj, acting)) && Hits(t, (i, a, b) => true, row, obj)
  {
    var whole := WholeColumns(index);
    var row, obj := Neighbour(t, whole, other), Incoming(t, whole, acting);
    HeldNames(t, whole);
    assert obj[t.tenant := Text(acting)] == obj;
    assert t.primary[0] in t.primary && !IsZero(Get(obj, t.primary[0]));
    forall i | 0 <= i < |whole| ensures Get(row, whole[i]) == Get(obj, whole[i]) && !Get(obj, whole[i]).Null? { assert whole[i] in whole; }
    assert SharesKey((i, a, b) => true, index, row, obj);
  }

  /** A unique index that is not covered: its row is written over though the guard
      accepts the batch. */
  lemma UncoveredKeyIsMerged(t: Table, index: Index, acting: string, other: string)
    requires acting != "" && acting != other && t.primary != [] && Merging(t, index) && !Covered(t, index)
    ensures !AlwaysKeeps(t, acting)
  {
    var whole := WholeColumns(index);
    var row, obj, extra := Neighbour(t, whole, other), Incoming(t, whole, acting), Longer(Held(t, whole));
    HeldNames(t, whole);
    NeighbourIsNotLookedAt(t, index, acting, other);
    NeighbourIsHit(t, index, acting, other);
    Overwritten(t, (i, a, b) => true, row, obj, acting, Update(Num(0), 0, {extra}), extra);
  }

  lemma Overwritten(t: Table, sharing: Sharing, row: Row, obj: Row, acting: string, c: Choice, extra: string)
    requires c == Update(c.number, 0, {extra}) && Stored(t, obj, acting, c.number) == obj && Legal(t, sharing, [row], obj, acting, c)
    requires !Looks(t, row, obj) && IsForeign(t, row, acting) && extra != t.tenant && extra in obj && extra !in row
    ensures !AlwaysKeeps(t, acting)
  {
    var written := Overlay(t, row, obj, {extra});
    assert extra in written;
    assert [row][0 := written] == [written] && MergeAll(t, [row], [obj], acting, [c]) == [written] by {
      assert [obj][1..] == [] && [c][1..] == [];
    }
    ForeignOfOne(t, row, acting);
    ForeignOfOne(t, written, acting);
    assert AllLegal(t, sharing, [row], [obj], acting, [c]) by { assert [obj][1..] == [] && [c][1..] == []; }
    assert !Keeps(t, sharing, acting, [row], [obj], [c]);
  }

  /** The guard isolates the tenants of a table, whatever its indexes are over, exactly
      when every unique index holds whole the tenant column, the primary key, or an
      index the guard looks through. */
  lemma TenantsAreIsolatedExactly(t: Table, acting: string)
    requires t.primary != [] && acting != ""
    ensures AlwaysKeeps(t, acting) <==> Isolated(t)
  {
    if Isolated(t) {
      forall sharing, rows, objs, choices ensures Keeps(t, sharing, acting, rows, objs, choices) {
        if |objs| == |choices| && Clear(t, rows, objs, acting) && AllLegal(t, sharing, rows, objs, acting, choices) {
          AcceptedBatchKeepsForeign(t, sharing, rows, objs, acting, choices);
        }
      }
    } else {
      var index :| Merging(t, index) && !Covered(t, index);
      UncoveredKeyIsMerged(t, index, acting, acting + "x");
    }
  }

  /** An index of columns held whole is covered but where it lies within part of the
      primary key without the tenant. */
  lemma PlainIndexIsCovered(t: Table, index: Index)
    requires Merging(t, index) && Exact(index) && (BesidePrimary(t, index.columns) || t.tenant in index.columns || forall p :: p in t.primary ==> p in index.columns)
    ensures Covered(t, index)
  {
    if BesidePrimary(t, index.columns) {
      if i :| 0 <= i < |t.fields| && index == Unique(t.fields[i]) { assert t.fields[i] !in t.primary; }
      assert Guarded(t, index.columns);
    }
  }

  // ---- what the database is taken to do ----

  /** The rows a write may be merged over: one holding the primary key, a unique column,
      or a unique index - what it holds of whole columns and, of one over prefixes,
      expressions or part of the rows, what those share. */
  lemma HitsExactly(t: Table, sharing: Sharing, row: Row, stored: Row)
    ensures Hits(t, sharing, row, stored) <==>
      HoldAlike(t.primary, row, stored) ||
      (exists field :: field in t.fields && HoldAlike([field], row, stored)) ||
      exists index :: (index in t.tagged || index in t.plans) && index.unique && HoldAlike(WholeColumns(index), row, stored) &&
        ((!index.partial && index.plain && WholeColumns(index) == index.columns) || sharing(index, row, stored))
  {
    forall columns ensures Collides(columns, row, stored) <==> HoldAlike(columns, row, stored) { CollidesIsAlike(columns, row, stored); }
    forall field ensures WholeColumns(Unique(field)) == [field] { assert [field][1..] == [] && Unprefixed([], {}) == []; }
    if field :| field in t.fields && HoldAlike([field], row, stored) {
      var i :| 0 <= i < |t.fields| && t.fields[i] == field;
      assert Merging(t, Unique(field)) && SharesKey(sharing, Unique(field), row, stored);
    }
    if index :| (index in t.tagged || index in t.plans) && index.unique && SharesKey(sharing, index, row, stored) {
      assert Merging(t, index);
    }
  }

  /** A merge adds the row it stores, with the caller's tenant, or writes the columns it
      may, never the tenant's, over one row. */
  lemma MergeIs(t: Table, rows: seq<Row>, obj: Row, acting: string, c: Choice)
    requires c.Update? ==> c.at < |rows|
    ensures
      var next, stored := Merge(t, rows, obj, acting, c), Stored(t, obj, acting, c.number);
      if c.Insert? then next == rows + [stored] && (t.numbered != t.tenant ==> Get(stored, t.tenant) == Text(acting))
      else
        |next| == |rows| && (forall i :: 0 <= i < |rows| && i != c.at ==> next[i] == rows[i]) &&
        forall column :: Get(next[c.at], column) ==
          if column in c.written && column in stored && column != t.tenant then stored[column] else Get(rows[c.at], column)
  {
  }
}
