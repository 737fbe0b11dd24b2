/** The exact condition for an action to wait for the transaction it is registered
    in, whatever becomes of the transactions open around it. */
module NestingExactly {
  import opened AfterCommit
  import opened AfterCommitProof
  import opened Nesting

  /** The open transactions end, innermost first. */
  function CloseAll(w: World, outcomes: seq<bool>): World
    requires |outcomes| == |w.frames|
    decreases |outcomes|
  {
    if outcomes == [] then w else CloseAll(Closes(w, outcomes[0]), outcomes[1..])
  }

  lemma ClosesKeeps(w: World, commits: bool)
    requires Inv(w) && w.frames != []
    ensures Inv(Closes(w, commits)) && w.log <= Closes(w, commits).log
  {
    if commits { CommittedKeeps(w); } else { RolledBackKeeps(w); }
  }

  lemma {:induction false} CloseAllKeeps(w: World, outcomes: seq<bool>)
    requires Inv(w) && |outcomes| == |w.frames|
    ensures Inv(CloseAll(w, outcomes)) && w.log <= CloseAll(w, outcomes).log
    decreases |outcomes|
  {
    if outcomes != [] {
      ClosesKeeps(w, outcomes[0]);
      CloseAllKeeps(Closes(w, outcomes[0]), outcomes[1..]);
    }
  }

  predicate AllBack(outcomes: seq<bool>) { forall i :: 0 <= i < |outcomes| ==> !outcomes[i] }

  lemma {:induction false} RollsBack(w: World, outcomes: seq<bool>, i: nat)
    requires Inv(w) && |outcomes| == |w.frames| && i < |w.frames| && AllBack(outcomes)
    ensures RolledBack(w.frames[i].tx) in CloseAll(w, outcomes).log
    decreases |outcomes|
  {
    var next := Closes(w, outcomes[0]);
    ClosesKeeps(w, outcomes[0]);
    CloseAllKeeps(next, outcomes[1..]);
    if i < |w.frames| - 1 {
      RollsBack(next, outcomes[1..], i);
    } else {
      assert next.log[|w.log|] == RolledBack(w.frames[i].tx);
    }
  }

  lemma SameRegistration(log: seq<Event>, i: nat, j: nat)
    requires Honest(log) && i <= j < |log| && log[i].Registered? && log[j].Registered? && log[i].number == log[j].number
    ensures i == j
  {
    var before := log[..j];
    assert forall m :: 0 <= m < j ==> before[m] == log[m];
    assert MayFollow(before, log[j]);
  }

  /** Every run of action n at a position of the record waited. */
  predicate AllWait(log: seq<Event>, n: nat) {
    forall k :: 0 <= k < |log| && log[k].Ran? && log[k].number == n ==> Waits(log, k)
  }

  lemma HeldActionWaits(log: seq<Event>, at: nat)
    requires Honest(log) && at < |log| && log[at].Registered? && log[at].tx == log[at].joined
    ensures AllWait(log, log[at].number)
  {
    forall k | 0 <= k < |log| && log[k].Ran? && log[k].number == log[at].number ensures Waits(log, k) {
      RanAfterCommit(log, k);
      var e :| e in log[..k] && e.Registered? && e.number == log[k].number && e.tx == log[k].tx;
      var i :| 0 <= i < k && log[i] == e;
      if i <= at { SameRegistration(log, i, at); } else { SameRegistration(log, at, i); }
    }
  }

  lemma LostActionRan(log: seq<Event>, at: nat, k: nat)
    requires Honest(log) && at < |log| && log[at].Registered? && RolledBack(log[at].joined) in log
    requires k < |log| && log[k].Ran? && log[k].number == log[at].number
    ensures !AllWait(log, log[at].number)
  {
    if Waits(log, k) {
      var i :| 0 <= i < k && log[i].Registered? && log[i].number == log[k].number && RolledBack(log[i].joined) !in log;
      if i <= at { SameRegistration(log, i, at); } else { SameRegistration(log, at, i); }
    }
  }

  lemma {:induction false} TxOfIsFrame(frames: seq<Frame>, instance: nat) returns (i: nat)
    requires Joins(frames, instance)
    ensures i < |frames| && frames[i].instance == instance && frames[i].tx == TxOf(frames, instance)
  {
    var n := |frames| - 1;
    if frames[n].instance == instance {
      i := n;
    } else {
      var j :| 0 <= j < |frames| && frames[j].instance == instance;
      assert frames[..n][j].instance == instance;
      i := TxOfIsFrame(frames[..n], instance);
    }
  }

  lemma {:induction false} LastRuns(actions: seq<Action>, tx: nat)
    requires actions != [] && AllOk(actions[..|actions| - 1])
    ensures Ran(actions[|actions| - 1].number, tx, actions[|actions| - 1].ok) in RunEvents(tx, UpToFailure(actions))
  {
    var n := |actions| - 1;
    StopsAt(actions, if actions[n].ok then n + 1 else n);
    assert actions[..n + 1] == actions;
  }

  /** The commit of the innermost transaction runs the action just registered, when
      those before it succeed. */
  lemma CommitRuns(w: World, inside: nat) returns (k: nat)
    requires w.frames != [] && AllOk(w.frames[|w.frames| - 1].actions)
    ensures
      var log := Closes(Registers(w, inside, true), true).log;
      k < |log| && log[k].Ran? && log[k].number == w.registered
  {
    var r := Registers(w, inside, true);
    var top := r.frames[|r.frames| - 1];
    assert top.actions[..|top.actions| - 1] == w.frames[|w.frames| - 1].actions;
    LastRuns(top.actions, top.tx);
    var log := Closes(r, true).log;
    var e := Ran(w.registered, top.tx, true);
    assert e in log;
    k :| 0 <= k < |log| && log[k] == e;
  }

  /** In any context: however the open transactions end, an action runs only once the
      transaction its caller is in has committed, and never when that is rolled back,
      exactly when that transaction is the innermost one. */
  lemma ActionWaitsExactly(w: World, inside: nat)
    requires Inv(w) && w.frames != [] && Joins(w.frames, inside) && AllOk(w.frames[|w.frames| - 1].actions)
    ensures
      (forall outcomes :: |outcomes| == |w.frames| ==> AllWait(CloseAll(Registers(w, inside, true), outcomes).log, w.registered)) <==>
      w.frames[|w.frames| - 1].instance == inside
  {
    var r := Registers(w, inside, true);
    RegistersKeeps(w, inside, true);
    if w.frames[|w.frames| - 1].instance == inside {
      forall outcomes | |outcomes| == |w.frames| ensures AllWait(CloseAll(r, outcomes).log, w.registered) {
        CloseAllKeeps(r, outcomes);
        HeldActionWaits(CloseAll(r, outcomes).log, |w.log|);
      }
    } else {
      var outcomes := OuterRollsBack(w, inside);
    }
  }

  /** The innermost transaction commits and the action just registered runs, with
      its caller's transaction still open. */
  lemma RanWhileOpen(w: World, inside: nat) returns (next: World, k: nat, i: nat)
    requires Inv(w) && w.frames != [] && Joins(w.frames, inside) && AllOk(w.frames[|w.frames| - 1].actions)
    requires w.frames[|w.frames| - 1].instance != inside
    ensures next == Closes(Registers(w, inside, true), true) && Inv(next) && |next.frames| == |w.frames| - 1
    ensures |w.log| < |next.log| && next.log[|w.log|].Registered? && next.log[|w.log|].number == w.registered
    ensures i < |next.frames| && next.log[|w.log|].joined == next.frames[i].tx
    ensures k < |next.log| && next.log[k].Ran? && next.log[k].number == w.registered
  {
    next := Closes(Registers(w, inside, true), true);
    RegisterThenCommitKeeps(w, inside);
    k := CommitRuns(w, inside);
    i := TxOfIsFrame(w.frames, inside);
    RegisteredStays(w, inside, i);
  }

  lemma RegisterThenCommitKeeps(w: World, inside: nat)
    requires Inv(w) && w.frames != []
    ensures Inv(Closes(Registers(w, inside, true), true))
  {
    RegistersKeeps(w, inside, true);
    ClosesKeeps(Registers(w, inside, true), true);
  }

  lemma RegisteredStays(w: World, inside: nat, i: nat)
    requires i < |w.frames| && w.frames[i].tx == TxOf(w.frames, inside) && i != |w.frames| - 1
    ensures
      var next := Closes(Registers(w, inside, true), true);
      |w.log| < |next.log| && next.log[|w.log|] == Registered(w.registered, w.frames[|w.frames| - 1].tx, TxOf(w.frames, inside)) &&
      |next.frames| == |w.frames| - 1 && next.frames[i] == w.frames[i]
  {
    SameFrames(w, inside, true);
  }

  lemma OuterRollsBack(w: World, inside: nat) returns (outcomes: seq<bool>)
    requires Inv(w) && w.frames != [] && Joins(w.frames, inside) && AllOk(w.frames[|w.frames| - 1].actions)
    requires w.frames[|w.frames| - 1].instance != inside
    ensures |outcomes| == |w.frames| && !AllWait(CloseAll(Registers(w, inside, true), outcomes).log, w.registered)
  {
    var rest: seq<bool> := seq(|w.frames| - 1, i => false);
    outcomes := [true] + rest;
    assert outcomes[1..] == rest && outcomes[0];
    var next, k, i := RanWhileOpen(w, inside);
    RanThenLost(next, rest, |w.log|, k, i);
  }

  lemma RanThenLost(w: World, rest: seq<bool>, at: nat, k: nat, i: nat)
    requires Inv(w) && |rest| == |w.frames| && AllBack(rest) && i < |w.frames|
    requires at < |w.log| && w.log[at].Registered? && w.log[at].joined == w.frames[i].tx
    requires k < |w.log| && w.log[k].Ran? && w.log[k].number == w.log[at].number
    ensures !AllWait(CloseAll(w, rest).log, w.log[at].number)
  {
    CloseAllKeeps(w, rest);
    RollsBack(w, rest, i);
    LostActionRan(CloseAll(w, rest).log, at, k);
  }
}
