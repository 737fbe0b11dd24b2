/** What code learns of its transactions: whether a transaction, a body or a
    registration returned an error is what the record shows. */
module AfterCommitReports {
  import opened AfterCommit
  import opened AfterCommitProof
  import opened Nesting

  // ---- the context a program is left in ----

  lemma {:induction false} DoKeepsContext(p: Program, inside: nat, w: World)
    ensures SameContext(w.frames, Do(p, inside, w).1.frames)
    decreases p
  {
    match p
    case Register(ok) => SameFrames(w, inside, ok);
    case Fail =>
    case Attempt(body) => DoAllKeepsContext(body, inside, w);
    case Transact(instance, body, _) =>
      DoAllKeepsContext(body, instance, if Joins(w.frames, instance) then w else Opens(w, instance));
  }

  lemma {:induction false} DoAllKeepsContext(ps: seq<Program>, inside: nat, w: World)
    ensures SameContext(w.frames, DoAll(ps, inside, w).1.frames)
    decreases ps
  {
    if ps != [] {
      DoKeepsContext(ps[0], inside, w);
      var (ok, next) := Do(ps[0], inside, w);
      if ok { DoAllKeepsContext(ps[1..], inside, next); }
    }
  }

  // ---- the end of a transaction ----

  lemma {:induction false} RunEventsAre(tx: nat, actions: seq<Action>, n: nat, ok: bool)
    ensures Ran(n, tx, ok) in RunEvents(tx, actions) <==> Action(n, ok) in actions
  {
    if actions != [] {
      var rest := actions[..|actions| - 1];
      RunEventsAre(tx, rest, n, ok);
      assert actions == rest + [actions[|actions| - 1]];
    }
  }

  /** A commit is without error exactly when no action of it is on record as failed. */
  lemma CommitIsCleanExactly(w: World)
    requires Inv(w) && w.frames != []
    ensures
      var top, log := w.frames[|w.frames| - 1], Closes(w, true).log;
      Committed(top.tx) in log && (AllOk(top.actions) <==> forall n :: Ran(n, top.tx, false) !in log)
  {
    var top, log := w.frames[|w.frames| - 1], Closes(w, true).log;
    assert FrameAgrees(w, top);
    NoneRanOf(w.log, top.tx);
    UpToFailureIs(top.actions);
    var reached := UpToFailure(top.actions);
    forall n ensures Ran(n, top.tx, false) in log <==> Action(n, false) in reached { RunEventsAre(top.tx, reached, n, false); }
    if !AllOk(reached) {
      var i :| 0 <= i < |reached| && !reached[i].ok;
      assert reached[i] == Action(reached[i].number, false);
    }
  }

  /** A transaction that opens one of its own returns nil exactly when its commit is on
      record and no action run after it failed; it rolled back exactly when its body
      returned an error, or its commit failed. */
  lemma TransactReports(instance: nat, body: seq<Program>, commits: bool, inside: nat, w: World)
    requires Inv(w) && !Joins(w.frames, instance)
    ensures
      var (ok, r) := Do(Transact(instance, body, commits), inside, w);
      (ok <==> Committed(w.begun) in r.log && forall n :: Ran(n, w.begun, false) !in r.log) &&
      (RolledBack(w.begun) in r.log <==> !(commits && DoAll(body, instance, Opens(w, instance)).0)) &&
      (Committed(w.begun) in r.log <==> RolledBack(w.begun) !in r.log)
  {
    var (done, after) := DoAll(body, instance, Opens(w, instance));
    OpensKeeps(w, instance);
    DoAllKeeps(body, instance, Opens(w, instance));
    DoAllKeepsContext(body, instance, Opens(w, instance));
    var top := after.frames[|after.frames| - 1];
    assert Opens(w, instance).frames[|w.frames|].tx == w.begun == top.tx;
    assert FrameAgrees(after, top);
    if done && commits {
      CommitIsCleanExactly(after);
      CommittedKeeps(after);
      EndsOnce(Closes(after, true).log, w.begun);
    } else {
      RolledBackKeeps(after);
      EndsOnce(Closes(after, false).log, w.begun);
    }
  }

  // ---- bodies ----

  /** A body goes on to its second part exactly where the first returned no error. */
  lemma {:induction false} BodyStops(a: seq<Program>, b: seq<Program>, inside: nat, w: World)
    ensures DoAll(a + b, inside, w) == if DoAll(a, inside, w).0 then DoAll(b, inside, DoAll(a, inside, w).1) else DoAll(a, inside, w)
    decreases |a|
  {
    if a == [] {
      assert a + b == b;
    } else {
      assert (a + b)[0] == a[0] && (a + b)[1..] == a[1..] + b;
      var (ok, next) := Do(a[0], inside, w);
      if ok { BodyStops(a[1..], b, inside, next); }
    }
  }

  /** What the record shows of a statement, run in w up to r: a transaction's commit
      and the actions after it, an error returned, or nothing that could fail. */
  ghost predicate Succeeded(p: Program, inside: nat, w: World, r: World)
    decreases p
  {
    match p
    case Register(ok) => w.frames == [] ==> ok
    case Fail => false
    case Attempt(_) => true
    case Transact(instance, body, _) =>
      if Joins(w.frames, instance) then AllSucceeded(body, instance, w)
      else Committed(w.begun) in r.log && forall n :: Ran(n, w.begun, false) !in r.log
  }

  ghost predicate AllSucceeded(ps: seq<Program>, inside: nat, w: World)
    decreases ps
  {
    ps == [] || (Succeeded(ps[0], inside, w, Do(ps[0], inside, w).1) && AllSucceeded(ps[1..], inside, Do(ps[0], inside, w).1))
  }

  /** Every program returns nil exactly when the record shows that it succeeded. */
  lemma {:induction false} ReturnIsOnRecord(p: Program, inside: nat, w: World)
    requires Inv(w)
    ensures Do(p, inside, w).0 <==> Succeeded(p, inside, w, Do(p, inside, w).1)
    decreases p
  {
    if p.Transact? {
      if Joins(w.frames, p.instance) { BodyIsOnRecord(p.body, p.instance, w); }
      else { TransactReports(p.instance, p.body, p.commits, inside, w); }
    }
  }

  lemma {:induction false} BodyIsOnRecord(ps: seq<Program>, inside: nat, w: World)
    requires Inv(w)
    ensures DoAll(ps, inside, w).0 <==> AllSucceeded(ps, inside, w)
    decreases ps
  {
    if ps != [] {
      ReturnIsOnRecord(ps[0], inside, w);
      DoKeeps(ps[0], inside, w);
      if Do(ps[0], inside, w).0 { BodyIsOnRecord(ps[1..], inside, Do(ps[0], inside, w).1); }
    }
  }

  /** An action failing after a nested commit is an error of the code around it: unless
      that code goes on after it, its own transaction is rolled back. */
  lemma FailedActionRollsBackCaller(a: seq<Program>, nested: Program, b: seq<Program>, instance: nat, commits: bool, inside: nat, w: World, n: nat)
    requires Inv(w) && !Joins(w.frames, instance) && nested.Transact?
    requires
      var before := DoAll(a, instance, Opens(w, instance));
      before.0 && !Joins(before.1.frames, nested.instance) && Ran(n, before.1.begun, false) in Do(nested, instance, before.1).1.log
    ensures RolledBack(w.begun) in Do(Transact(instance, a + [nested] + b, commits), inside, w).1.log
  {
    var o := Opens(w, instance);
    var (_, before) := DoAll(a, instance, o);
    OpensKeeps(w, instance);
    DoAllKeeps(a, instance, o);
    TransactReports(nested.instance, nested.body, nested.commits, instance, before);
    assert !DoAll([nested], instance, before).0;
    BodyStops(a, [nested], instance, o);
    BodyStops(a + [nested], b, instance, o);
    TransactReports(instance, a + [nested] + b, commits, inside, w);
  }
}
