/** The foreign-tenant guard of an upsert (database/upsert.go): the unique keys it
    looks through, and the rows it reads before a batch is merged. */
module Upsert {
  import opened Sql

  /** An index by its columns: those it holds only a prefix of, whether it is unique,
      holds only part of the rows, and holds columns alone, no expression. */
  datatype Index = Index(columns: seq<string>, prefixed: set<string>, unique: bool, partial: bool, plain: bool)

  /** A model's tenant column, empty when it has none, its primary key and the column
      of it the database numbers, the indexes its tags declare, its unique columns,
      and the indexes its Indexes plans. */
  datatype Table =
    Table(tenant: string, primary: seq<string>, numbered: string, tagged: seq<Index>, fields: seq<string>, plans: seq<Index>)

  predicate BesidePrimary(t: Table, columns: seq<string>) {
    exists i :: 0 <= i < |columns| && columns[i] !in t.primary
  }

  /** uniqueIndexUsable. */
  predicate Usable(t: Table, index: Index) {
    index.unique && !index.partial && index.plain && BesidePrimary(t, index.columns)
  }

  /** The unique indexes the guard looks through. */
  predicate Guarded(t: Table, columns: seq<string>) {
    (exists i :: 0 <= i < |t.tagged| && t.tagged[i].columns == columns && Usable(t, t.tagged[i])) ||
    (exists i :: 0 <= i < |t.fields| && columns == [t.fields[i]] && t.fields[i] !in t.primary) ||
    (exists i :: 0 <= i < |t.plans| && t.plans[i].columns == columns && Usable(t, t.plans[i]))
  }

  method CollectUniqueIndexes(t: Table) returns (indexes: seq<seq<string>>)
    ensures forall columns :: columns in indexes <==> Guarded(t, columns)
  {
    indexes := UsableOf(t, t.tagged);
    for i := 0 to |t.fields|
      invariant forall columns :: columns in indexes <==>
        (exists k :: 0 <= k < |t.tagged| && t.tagged[k].columns == columns && Usable(t, t.tagged[k])) ||
        (exists k :: 0 <= k < i && columns == [t.fields[k]] && t.fields[k] !in t.primary)
    {
      if t.fields[i] !in t.primary { indexes := indexes + [[t.fields[i]]]; }
    }
    var planned := UsableOf(t, t.plans);
    indexes := indexes + planned;
  }

  method UsableOf(t: Table, declared: seq<Index>) returns (indexes: seq<seq<string>>)
    ensures forall columns :: columns in indexes <==> exists k :: 0 <= k < |declared| && declared[k].columns == columns && Usable(t, declared[k])
  {
    indexes := [];
    for i := 0 to |declared|
      invariant forall columns :: columns in indexes <==> exists k :: 0 <= k < i && declared[k].columns == columns && Usable(t, declared[k])
    {
      if Usable(t, declared[i]) { indexes := indexes + [declared[i].columns]; }
    }
  }

  predicate IsZero(c: Cell) { c == Null || c == Flag(false) || c == Num(0) || c == Text("") }

  /** The caller, or a row, numbers its primary key itself: the database numbers one
      that is zero in every column. */
  predicate Keyed(t: Table, obj: Row) {
    exists i :: 0 <= i < |t.primary| && !IsZero(Get(obj, t.primary[i]))
  }

  /** A row holds the key obj has over the columns; NULL differs from every value. */
  predicate Collides(columns: seq<string>, row: Row, obj: Row) {
    forall i :: 0 <= i < |columns| ==> Get(row, columns[i]) == Get(obj, columns[i]) && !Get(obj, columns[i]).Null?
  }

  function KeyOf(columns: seq<string>, obj: Row): (key: seq<Cell>)
    ensures |key| == |columns| && forall i :: 0 <= i < |key| ==> key[i] == Get(obj, columns[i])
  {
    seq(|columns|, i requires 0 <= i < |columns| => Get(obj, columns[i]))
  }

  predicate Whole(key: seq<Cell>) { forall i :: 0 <= i < |key| ==> !key[i].Null? }

  /** One IN over the keys of a batch. */
  datatype In = In(columns: seq<string>, keys: seq<seq<Cell>>)

  /** A row the condition selects; no key holding NULL selects one. */
  predicate Selects(condition: In, row: Row) {
    exists k :: 0 <= k < |condition.keys| && Whole(condition.keys[k]) && KeyOf(condition.columns, row) == condition.keys[k]
  }

  lemma KeyCollides(columns: seq<string>, row: Row, obj: Row)
    ensures Whole(KeyOf(columns, obj)) && KeyOf(columns, row) == KeyOf(columns, obj) <==> Collides(columns, row, obj)
  {
    if Collides(columns, row, obj) { assert KeyOf(columns, row) == KeyOf(columns, obj); }
    if Whole(KeyOf(columns, obj)) && KeyOf(columns, row) == KeyOf(columns, obj) {
      assert forall i :: 0 <= i < |columns| ==> KeyOf(columns, row)[i] == Get(row, columns[i]) && KeyOf(columns, obj)[i] == Get(obj, columns[i]);
    }
  }

  /** A row of the batch's primary keys, or of an index's. */
  predicate InBatch(columns: seq<string>, row: Row, objs: seq<Row>, t: Table, primary: bool) {
    exists i :: 0 <= i < |objs| && (primary ==> Keyed(t, objs[i])) && Collides(columns, row, objs[i])
  }

  method PrimaryKeys(t: Table, objs: seq<Row>) returns (condition: In)
    ensures condition.columns == t.primary
    ensures forall row :: Selects(condition, row) <==> InBatch(t.primary, row, objs, t, true)
  {
    var keys: seq<seq<Cell>> := [];
    for i := 0 to |objs|
      invariant forall row :: Selects(In(t.primary, keys), row) <==> InBatch(t.primary, row, objs[..i], t, true)
    {
      var numbered := false;
      for c := 0 to |t.primary|
        invariant numbered <==> exists k :: 0 <= k < c && !IsZero(Get(objs[i], t.primary[k]))
      {
        numbered := numbered || !IsZero(Get(objs[i], t.primary[c]));
      }
      MoreKeys(t.primary, keys, objs, i, t, true, numbered);
      if numbered { keys := keys + [KeyOf(t.primary, objs[i])]; }
    }
    assert objs[..|objs|] == objs;
    condition := In(t.primary, keys);
  }

  method IndexKeys(t: Table, columns: seq<string>, objs: seq<Row>) returns (condition: In)
    ensures condition.columns == columns
    ensures forall row :: Selects(condition, row) <==> InBatch(columns, row, objs, t, false)
  {
    var keys: seq<seq<Cell>> := [];
    for i := 0 to |objs|
      invariant forall row :: Selects(In(columns, keys), row) <==> InBatch(columns, row, objs[..i], t, false)
    {
      var key := KeyOf(columns, objs[i]);
      MoreKeys(columns, keys, objs, i, t, false, Whole(key));
      if Whole(key) { keys := keys + [key]; }
    }
    assert objs[..|objs|] == objs;
    condition := In(columns, keys);
  }

  /** One more object of the batch, its key taken along or left out. */
  lemma MoreKeys(columns: seq<string>, keys: seq<seq<Cell>>, objs: seq<Row>, i: nat, t: Table, primary: bool, taken: bool)
    requires i < |objs| && forall row :: Selects(In(columns, keys), row) <==> InBatch(columns, row, objs[..i], t, primary)
    requires taken <==> if primary then Keyed(t, objs[i]) else Whole(KeyOf(columns, objs[i]))
    ensures
      var more := if taken then keys + [KeyOf(columns, objs[i])] else keys;
      forall row :: Selects(In(columns, more), row) <==> InBatch(columns, row, objs[..i + 1], t, primary)
  {
    var more := if taken then keys + [KeyOf(columns, objs[i])] else keys;
    forall row ensures Selects(In(columns, more), row) <==> InBatch(columns, row, objs[..i + 1], t, primary) {
      KeyCollides(columns, row, objs[i]);
      MoreSelected(columns, keys, KeyOf(columns, objs[i]), row);
      MoreInBatch(columns, row, objs, i, t, primary);
    }
  }

  lemma MoreSelected(columns: seq<string>, keys: seq<seq<Cell>>, key: seq<Cell>, row: Row)
    ensures Selects(In(columns, keys + [key]), row) <==> Selects(In(columns, keys), row) || (Whole(key) && KeyOf(columns, row) == key)
  {
    var more := keys + [key];
    assert more[|keys|] == key;
    if Selects(In(columns, keys), row) {
      var k :| 0 <= k < |keys| && Whole(keys[k]) && KeyOf(columns, row) == keys[k];
      assert more[k] == keys[k];
    }
  }

  lemma MoreInBatch(columns: seq<string>, row: Row, objs: seq<Row>, i: nat, t: Table, primary: bool)
    requires i < |objs|
    ensures InBatch(columns, row, objs[..i + 1], t, primary) <==>
      InBatch(columns, row, objs[..i], t, primary) || ((primary ==> Keyed(t, objs[i])) && Collides(columns, row, objs[i]))
  {
    var less, more := objs[..i], objs[..i + 1];
    assert more[i] == objs[i] && forall k :: 0 <= k < i ==> more[k] == less[k];
  }

  /** The rows the guard reads before it lets obj be merged. */
  ghost predicate Looks(t: Table, row: Row, obj: Row) {
    (Keyed(t, obj) && Collides(t.primary, row, obj)) || exists columns :: Guarded(t, columns) && Collides(columns, row, obj)
  }

  /** No row under a key of the batch belongs to another tenant. */
  ghost predicate Clear(t: Table, rows: seq<Row>, objs: seq<Row>, acting: string) {
    forall r, o :: 0 <= r < |rows| && 0 <= o < |objs| && Looks(t, rows[r], objs[o]) ==> Get(rows[r], t.tenant) == Text(acting)
  }

  /** A batch is refused when a row holding one of its keys belongs to another
      tenant. A model without tenants, and a caller acting across them, pay no
      read. */
  method RefuseForeignTenantRows(t: Table, rows: seq<Row>, objs: seq<Row>, acting: Option<string>) returns (accepted: bool)
    ensures t.tenant == "" || acting.None? ==> accepted
    ensures t.tenant != "" && acting.Some? ==> (accepted <==> Clear(t, rows, objs, acting.value))
  {
    if t.tenant == "" || acting.None? { return true; }
    var indexes := CollectUniqueIndexes(t);
    var keyed := PrimaryKeys(t, objs);
    var conditions := [keyed];
    for i := 0 to |indexes|
      invariant |conditions| == i + 1 && conditions[0] == keyed
      invariant forall k :: 0 <= k < i ==> Answers(t, indexes[k], objs, conditions[k + 1])
    {
      var condition := IndexKeys(t, indexes[i], objs);
      conditions := conditions + [condition];
    }
    AllLookedAt(t, indexes, objs, conditions);
    for r := 0 to |rows|
      invariant forall k :: 0 <= k < r && LookedAt(t, rows[k], objs) ==> Get(rows[k], t.tenant) == Text(acting.value)
    {
      if (exists k :: 0 <= k < |conditions| && Selects(conditions[k], rows[r])) && Get(rows[r], t.tenant) != Text(acting.value) {
        assert LookedAt(t, rows[r], objs);
        ghost var o :| 0 <= o < |objs| && Looks(t, rows[r], objs[o]);
        return false;
      }
    }
    assert forall r, o :: 0 <= r < |rows| && 0 <= o < |objs| && Looks(t, rows[r], objs[o]) ==> LookedAt(t, rows[r], objs);
    accepted := true;
  }

  ghost predicate LookedAt(t: Table, row: Row, objs: seq<Row>) { exists o :: 0 <= o < |objs| && Looks(t, row, objs[o]) }

  ghost predicate Answers(t: Table, columns: seq<string>, objs: seq<Row>, condition: In) {
    forall row :: Selects(condition, row) <==> InBatch(columns, row, objs, t, false)
  }

  lemma AllLookedAt(t: Table, indexes: seq<seq<string>>, objs: seq<Row>, conditions: seq<In>)
    requires (forall columns :: columns in indexes <==> Guarded(t, columns)) && |conditions| == |indexes| + 1
    requires forall row :: Selects(conditions[0], row) <==> InBatch(t.primary, row, objs, t, true)
    requires forall k :: 0 <= k < |indexes| ==> Answers(t, indexes[k], objs, conditions[k + 1])
    ensures forall row :: (exists k :: 0 <= k < |conditions| && Selects(conditions[k], row)) <==> LookedAt(t, row, objs)
  {
    forall row ensures (exists k :: 0 <= k < |conditions| && Selects(conditions[k], row)) <==> LookedAt(t, row, objs) {
      if k :| 0 <= k < |conditions| && Selects(conditions[k], row) { SelectedIsLookedAt(t, indexes, objs, conditions, row, k); }
      if LookedAt(t, row, objs) { LookedAtIsSelected(t, indexes, objs, conditions, row); }
    }
  }

  lemma SelectedIsLookedAt(t: Table, indexes: seq<seq<string>>, objs: seq<Row>, conditions: seq<In>, row: Row, k: nat)
    requires (forall columns :: columns in indexes <==> Guarded(t, columns)) && |conditions| == |indexes| + 1
    requires forall row :: Selects(conditions[0], row) <==> InBatch(t.primary, row, objs, t, true)
    requires forall k :: 0 <= k < |indexes| ==> Answers(t, indexes[k], objs, conditions[k + 1])
    requires k < |conditions| && Selects(conditions[k], row)
    ensures LookedAt(t, row, objs)
  {
    if k == 0 {
      var o :| 0 <= o < |objs| && Keyed(t, objs[o]) && Collides(t.primary, row, objs[o]);
      assert Looks(t, row, objs[o]);
    } else {
      var columns := indexes[k - 1];
      assert Answers(t, columns, objs, conditions[k - 1 + 1]) && Guarded(t, columns);
      var o :| 0 <= o < |objs| && Collides(columns, row, objs[o]);
      assert Looks(t, row, objs[o]);
    }
  }

  lemma LookedAtIsSelected(t: Table, indexes: seq<seq<string>>, objs: seq<Row>, conditions: seq<In>, row: Row)
    requires (forall columns :: columns in indexes <==> Guarded(t, columns)) && |conditions| == |indexes| + 1
    requires forall row :: Selects(conditions[0], row) <==> InBatch(t.primary, row, objs, t, true)
    requires forall k :: 0 <= k < |indexes| ==> Answers(t, indexes[k], objs, conditions[k + 1])
    requires LookedAt(t, row, objs)
    ensures exists k :: 0 <= k < |conditions| && Selects(conditions[k], row)
  {
    var o :| 0 <= o < |objs| && Looks(t, row, objs[o]);
    if Keyed(t, objs[o]) && Collides(t.primary, row, objs[o]) {
      assert InBatch(t.primary, row, objs, t, true);
      assert Selects(conditions[0], row);
    } else {
      var columns :| Guarded(t, columns) && Collides(columns, row, objs[o]);
      var k :| 0 <= k < |indexes| && indexes[k] == columns;
      assert Answers(t, columns, objs, conditions[k + 1]) && InBatch(columns, row, objs, t, false);
      assert Selects(conditions[k + 1], row);
    }
  }

  // ---- what a refusal means ----

  /** A unique key the model declares that the guard reads rows by: a unique index of
      columns over all rows, or a unique column, holding a column beside the primary
      key. */
  ghost predicate DeclaresKey(t: Table, columns: seq<string>) {
    (exists c :: c in columns && c !in t.primary) &&
    ((exists index :: (index in t.tagged || index in t.plans) && index.columns == columns && index.unique && index.plain && !index.partial) ||
     exists field :: field in t.fields && columns == [field])
  }

  lemma GuardedIsDeclared(t: Table, columns: seq<string>)
    ensures Guarded(t, columns) <==> DeclaresKey(t, columns)
  {
    if DeclaresKey(t, columns) {
      var c :| c in columns && c !in t.primary;
      var at :| 0 <= at < |columns| && columns[at] == c;
      if field :| field in t.fields && columns == [field] {
        var i :| 0 <= i < |t.fields| && t.fields[i] == field;
      } else {
        var index :| (index in t.tagged || index in t.plans) && index.columns == columns && index.unique && index.plain && !index.partial;
        if index in t.tagged { var i :| 0 <= i < |t.tagged| && t.tagged[i] == index; } else { var i :| 0 <= i < |t.plans| && t.plans[i] == index; }
      }
    }
  }

  /** Two rows hold the same values, none of them NULL, in all the columns. */
  ghost predicate HoldAlike(columns: seq<string>, row: Row, obj: Row) {
    forall c :: c in columns ==> Get(row, c) == Get(obj, c) && Get(obj, c) != Null
  }

  /** The row is one another tenant's, and holds a declared key of obj: the primary key
      its caller gave it, or another unique key whole. */
  ghost predicate SharesForeignKey(t: Table, row: Row, obj: Row, acting: string) {
    Get(row, t.tenant) != Text(acting) &&
    ((HoldAlike(t.primary, row, obj) && exists c :: c in t.primary && Get(obj, c) !in {Null, Flag(false), Num(0), Text("")}) ||
     exists columns :: DeclaresKey(t, columns) && HoldAlike(columns, row, obj))
  }

  lemma CollidesIsAlike(columns: seq<string>, row: Row, obj: Row)
    ensures Collides(columns, row, obj) <==> HoldAlike(columns, row, obj)
  {
    if HoldAlike(columns, row, obj) { assert forall i :: 0 <= i < |columns| ==> columns[i] in columns; }
    if Collides(columns, row, obj) {
      forall c | c in columns ensures Get(row, c) == Get(obj, c) && Get(obj, c) != Null { var i :| 0 <= i < |columns| && columns[i] == c; }
    }
  }

  lemma LookedAtExactly(t: Table, row: Row, obj: Row, acting: string)
    ensures Looks(t, row, obj) && Get(row, t.tenant) != Text(acting) <==> SharesForeignKey(t, row, obj, acting)
  {
    forall columns ensures Guarded(t, columns) <==> DeclaresKey(t, columns) { GuardedIsDeclared(t, columns); }
    forall columns ensures Collides(columns, row, obj) <==> HoldAlike(columns, row, obj) { CollidesIsAlike(columns, row, obj); }
    if c :| c in t.primary && Get(obj, c) !in {Null, Flag(false), Num(0), Text("")} {
      var i :| 0 <= i < |t.primary| && t.primary[i] == c;
      assert Keyed(t, obj);
    }
  }

  /** A batch is refused exactly when some row of another tenant holds a declared key of
      one of its objects; an upsert that shares no unique key with one is accepted. */
  lemma RefusedForSharedKeyExactly(t: Table, rows: seq<Row>, objs: seq<Row>, acting: string)
    ensures Clear(t, rows, objs, acting) <==> forall row, obj :: row in rows && obj in objs ==> !SharesForeignKey(t, row, obj, acting)
  {
    forall row, obj ensures Looks(t, row, obj) && Get(row, t.tenant) != Text(acting) <==> SharesForeignKey(t, row, obj, acting) {
      LookedAtExactly(t, row, obj, acting);
    }
    if Clear(t, rows, objs, acting) {
      forall row, obj | row in rows && obj in objs ensures !SharesForeignKey(t, row, obj, acting) {
        var r :| 0 <= r < |rows| && rows[r] == row;
        var o :| 0 <= o < |objs| && objs[o] == obj;
      }
    }
    if forall row, obj :: row in rows && obj in objs ==> !SharesForeignKey(t, row, obj, acting) {
      forall r, o | 0 <= r < |rows| && 0 <= o < |objs| && Looks(t, rows[r], objs[o]) ensures Get(rows[r], t.tenant) == Text(acting) {
        assert rows[r] in rows && objs[o] in objs;
        assert !SharesForeignKey(t, rows[r], objs[o], acting);
      }
    }
  }
}
