/** Transactions nested across instances: an action waits for the transaction the
    caller is writing in exactly when that is the innermost one open. */
module Nesting {
  import opened AfterCommit
  import opened AfterCommitProof

  function Instances(frames: seq<Frame>): (r: seq<nat>)
    ensures |r| == |frames|
  {
    seq(|frames|, i requires 0 <= i < |frames| => frames[i].instance)
  }

  /** Every transaction or write the program runs on an instance with a transaction
      open already is inside the innermost open one. */
  predicate Straight(p: Program, stack: seq<nat>)
    decreases p
  {
    match p
    case Attempt(body) => AllStraight(body, stack)
    case Transact(instance, body, _) =>
      if instance in stack then instance == stack[|stack| - 1] && AllStraight(body, stack) else AllStraight(body, stack + [instance])
    case _ => true
  }

  predicate AllStraight(ps: seq<Program>, stack: seq<nat>)
    decreases ps
  {
    ps == [] || (Straight(ps[0], stack) && AllStraight(ps[1..], stack))
  }

  /** Every action is held by the boundary of the transaction its caller is in. */
  predicate HeldRight(log: seq<Event>) {
    forall k :: 0 <= k < |log| && log[k].Registered? ==> log[k].tx == log[k].joined
  }

  lemma HeldRightMore(log: seq<Event>, more: seq<Event>)
    requires HeldRight(log) && forall k :: 0 <= k < |more| && more[k].Registered? ==> more[k].tx == more[k].joined
    ensures HeldRight(log + more)
  {
  }

  /** The transactions and instances of a context. */
  predicate SameContext(a: seq<Frame>, b: seq<Frame>) {
    |a| == |b| && forall i :: 0 <= i < |a| ==> a[i].tx == b[i].tx && a[i].instance == b[i].instance
  }

  lemma {:induction false} DoStraight(p: Program, inside: nat, w: World)
    requires Straight(p, Instances(w.frames)) && HeldRight(w.log) && (w.frames != [] ==> inside == w.frames[|w.frames| - 1].instance)
    ensures var r := Do(p, inside, w).1; HeldRight(r.log) && SameContext(w.frames, r.frames)
    decreases p
  {
    match p
    case Register(ok) =>
      SameFrames(w, inside, ok);
      HeldRightMore(w.log, [Registers(w, inside, ok).log[|w.log|]]);
    case Fail =>
    case Attempt(body) => DoAllStraight(body, inside, w);
    case Transact(instance, body, commits) =>
      JoinsIsIn(w.frames, instance);
      if Joins(w.frames, instance) {
        DoAllStraight(body, instance, w);
      } else {
        var inner := Opens(w, instance);
        assert Instances(inner.frames) == Instances(w.frames) + [instance];
        HeldRightMore(w.log, [Begun(w.begun)]);
        DoAllStraight(body, instance, inner);
        var (ok, after) := DoAll(body, instance, inner);
        CloseHolds(after, ok && commits);
      }
  }

  lemma JoinsIsIn(frames: seq<Frame>, instance: nat)
    ensures Joins(frames, instance) <==> instance in Instances(frames)
  {
    assert forall i :: 0 <= i < |frames| ==> Instances(frames)[i] == frames[i].instance;
  }

  lemma CloseHolds(w: World, commits: bool)
    requires HeldRight(w.log) && w.frames != []
    ensures HeldRight(Closes(w, commits).log)
  {
    var top := w.frames[|w.frames| - 1];
    RunEventsAreRan(top.tx, UpToFailure(top.actions));
    if commits { HeldRightMore(w.log, [Committed(top.tx)]); }
  }

  lemma {:induction false} DoAllStraight(ps: seq<Program>, inside: nat, w: World)
    requires AllStraight(ps, Instances(w.frames)) && HeldRight(w.log) && (w.frames != [] ==> inside == w.frames[|w.frames| - 1].instance)
    ensures var r := DoAll(ps, inside, w).1; HeldRight(r.log) && SameContext(w.frames, r.frames)
    decreases ps
  {
    if ps != [] {
      DoStraight(ps[0], inside, w);
      var (ok, next) := Do(ps[0], inside, w);
      assert Instances(next.frames) == Instances(w.frames);
      if ok { DoAllStraight(ps[1..], inside, next); }
    }
  }

  /** In a straight program, one instance only included, no action runs before the
      transaction its caller was in has committed, or when that is rolled back. */
  lemma StraightActionsWait(ps: seq<Program>)
    requires AllStraight(ps, [])
    ensures forall k :: 0 <= k < |Record(ps)| && Record(ps)[k].Ran? ==> Waits(Record(ps), k)
  {
    DoAllKeeps(ps, 0, Start);
    assert Instances(Start.frames) == [];
    DoAllStraight(ps, 0, Start);
    var log := Record(ps);
    forall k | 0 <= k < |log| && log[k].Ran? ensures Waits(log, k) { RanAfterCommit(log, k); }
  }

  /** The action run at k was registered in a transaction that has committed by then
      and is never rolled back. */
  predicate Waits(log: seq<Event>, k: nat)
    requires k < |log| && log[k].Ran?
  {
    exists i :: 0 <= i < k && log[i].Registered? && log[i].number == log[k].number &&
      Committed(log[i].joined) in log[..k] && RolledBack(log[i].joined) !in log
  }

  lemma {:induction false} OneInstanceIsStraight(ps: seq<Program>, instance: nat, stack: seq<nat>)
    requires OneInstance(ps, instance) && (stack == [] || stack == [instance])
    ensures AllStraight(ps, stack)
    decreases ps
  {
    if ps != [] {
      OneInstanceIsStraight(ps[1..], instance, stack);
      assert [] + [instance] == [instance];
      match ps[0]
      case Attempt(body) => OneInstanceIsStraight(body, instance, stack);
      case Transact(_, body, _) => OneInstanceIsStraight(body, instance, [instance]);
      case _ =>
    }
  }

  predicate OneInstance(ps: seq<Program>, instance: nat)
    decreases ps
  {
    ps == [] || (OneInstance(ps[1..], instance) &&
      match ps[0]
      case Attempt(body) => OneInstance(body, instance)
      case Transact(i, body, _) => i == instance && OneInstance(body, instance)
      case _ => true)
  }

  // ---- A inside B inside A ----

  const First := World([Frame(0, 0, [])], 1, 0, [Begun(0)])
  const Second := World([Frame(0, 0, []), Frame(1, 1, [])], 2, 0, [Begun(0), Begun(1)])
  const Third := World([Frame(0, 0, []), Frame(1, 1, [Action(0, true)])], 2, 1, [Begun(0), Begun(1), Registered(0, 1, 0)])
  const Fourth := World([Frame(0, 0, [])], 2, 1, [Begun(0), Begun(1), Registered(0, 1, 0), Committed(1), Ran(0, 1, true)])

  lemma DoAllOfOne(p: Program, inside: nat, w: World)
    ensures DoAll([p], inside, w) == Do(p, inside, w)
  {
    assert [p][1..] == [];
  }

  lemma WriteRegisters()
    ensures Do(Transact(0, [Register(true)], true), 1, Second) == (true, Third)
  {
    assert Second.frames[0].instance == 0;
    assert TxOf(Second.frames, 0) == 0 by { assert Second.frames[..1] == [Frame(0, 0, [])]; }
    assert Registers(Second, 0, true) == Third by { assert [] + [Action(0, true)] == [Action(0, true)]; }
    DoAllOfOne(Register(true), 0, Second);
  }

  lemma InnerCommits()
    ensures Do(Transact(1, [Transact(0, [Register(true)], true)], true), 0, First) == (true, Fourth)
  {
    WriteRegisters();
    DoAllOfOne(Transact(0, [Register(true)], true), 1, Second);
    assert !Joins(First.frames, 1) && Opens(First, 1) == Second;
    assert AllOk(Third.frames[1].actions) && Closes(Third, true) == Fourth by { RunsOne(Action(0, true), 1); }
  }

  lemma RunsOne(action: Action, tx: nat)
    ensures RunEvents(tx, UpToFailure([action])) == [Ran(action.number, tx, action.ok)]
  {
    assert UpToFailure([action]) == [action] by { assert [action][1..] == []; }
    assert [action][..0] == [];
  }

  /** A transaction on A around one on B around a write on A that registers an action:
      B commits and the action runs; then A is rolled back, and what it wrote with
      it. */
  lemma ActionOfRolledBackWrite()
    ensures
      var ps := [Transact(0, [Transact(1, [Transact(0, [Register(true)], true)], true), Fail], true)];
      Record(ps) == [Begun(0), Begun(1), Registered(0, 1, 0), Committed(1), Ran(0, 1, true), RolledBack(0)]
  {
    var inner := Transact(1, [Transact(0, [Register(true)], true)], true);
    InnerCommits();
    assert DoAll([inner, Fail], 0, First) == (false, Fourth) by {
      assert [inner, Fail][1..] == [Fail];
      DoAllOfOne(Fail, 0, Fourth);
    }
    assert Opens(Start, 0) == First;
    DoAllOfOne(Transact(0, [inner, Fail], true), 0, Start);
  }
}
