/** After-commit actions (database/transaction_boundary.go, database/after_commit.go,
    database/transaction.go): the boundary a transaction opens, and what nested
    transactions and writes on several instances put on record. */
module AfterCommit {

  /** An action, numbered by its registration, and whether it succeeds. */
  datatype Action = Action(number: nat, ok: bool)

  /** What running actions in order gets to: everything up to the first failure. */
  function UpToFailure(actions: seq<Action>): seq<Action> {
    if actions == [] then []
    else if actions[0].ok then [actions[0]] + UpToFailure(actions[1..]) else [actions[0]]
  }

  predicate AllOk(actions: seq<Action>) { forall i :: 0 <= i < |actions| ==> actions[i].ok }

  /** The actions reached are those before the first failure, and that one. */
  lemma {:induction false} UpToFailureIs(actions: seq<Action>)
    ensures
      var n := |UpToFailure(actions)|;
      n <= |actions| && UpToFailure(actions) == actions[..n] && (n < |actions| ==> n > 0 && !actions[n - 1].ok) &&
      (forall i :: 0 <= i < n - 1 ==> actions[i].ok) && (AllOk(UpToFailure(actions)) <==> AllOk(actions))
  {
    if actions != [] && actions[0].ok {
      UpToFailureIs(actions[1..]);
      var rest := UpToFailure(actions[1..]);
      assert actions[..|rest| + 1] == [actions[0]] + actions[1..][..|rest|];
      assert forall i :: 0 < i < |actions| ==> actions[i] == actions[1..][i - 1];
      assert forall i :: 0 < i < |rest| + 1 ==> UpToFailure(actions)[i] == rest[i - 1];
    }
  }

  class TransactionBoundary {
    var actions: seq<Action>

    constructor ()
      ensures actions == []
    {
      actions := [];
    }

    method Add(action: Action)
      modifies this
      ensures actions == old(actions) + [action]
    {
      actions := actions + [action];
    }

    /** Actions run in the order they were registered, up to the first that fails,
        and none is left to run again. */
    method Run() returns (ran: seq<Action>, ok: bool)
      modifies this
      ensures actions == [] && ran == UpToFailure(old(actions)) && (ok <==> AllOk(old(actions)))
    {
      var taken := actions;
      actions, ran, ok := [], [], true;
      UpToFailureIs(taken);
      for i := 0 to |taken|
        invariant actions == [] && ran == taken[..i] && AllOk(ran)
      {
        ran := ran + [taken[i]];
        if !taken[i].ok {
          StopsAt(taken, i);
          return ran, false;
        }
      }
      StopsAt(taken, |taken|);
    }
  }

  lemma {:induction false} StopsAt(actions: seq<Action>, n: nat)
    requires n <= |actions| && AllOk(actions[..n]) && (n < |actions| ==> !actions[n].ok)
    ensures UpToFailure(actions) == if n < |actions| then actions[..n + 1] else actions
  {
    if n > 0 {
      assert actions[..n][0].ok && actions[1..][..n - 1] == actions[..n][1..];
      StopsAt(actions[1..], n - 1);
    }
  }

  // ---- programs ----

  /** What code does in a context: registers an action that will succeed or fail,
      runs a transaction or a hooked write on an instance, returns an error, or goes
      on after one. */
  datatype Program =
    | Register(ok: bool)
    | Transact(instance: nat, body: seq<Program>, commits: bool)
    | Fail
    | Attempt(body: seq<Program>)

  /** A transaction open in the context, and the actions its boundary holds. */
  datatype Frame = Frame(tx: nat, instance: nat, actions: seq<Action>)

  /** What a run puts on record. joined is the transaction the code registering the
      action is inside of. */
  datatype Event =
    | Begun(tx: nat)
    | Registered(number: nat, tx: nat, joined: nat)
    | Committed(tx: nat)
    | RolledBack(tx: nat)
    | Ran(number: nat, tx: nat, ok: bool)
    | RanAtOnce(number: nat)

  /** The context, innermost transaction last, how many transactions were opened and
      actions registered, and the record. */
  datatype World = World(frames: seq<Frame>, begun: nat, registered: nat, log: seq<Event>)

  /** The transaction a context has open on an instance. */
  predicate Joins(frames: seq<Frame>, instance: nat) {
    exists i :: 0 <= i < |frames| && frames[i].instance == instance
  }

  function TxOf(frames: seq<Frame>, instance: nat): nat {
    if frames == [] then 0
    else if frames[|frames| - 1].instance == instance then frames[|frames| - 1].tx
    else TxOf(frames[..|frames| - 1], instance)
  }

  /** AfterCommit in a context: the innermost boundary takes the action, whichever
      transaction the caller is in, the one on the instance inside. */
  function Registers(w: World, inside: nat, ok: bool): (r: World)
    ensures |r.frames| == |w.frames|
  {
    if w.frames == [] then w.(registered := w.registered + 1, log := w.log + [RanAtOnce(w.registered)])
    else
      var n := |w.frames| - 1;
      var top := w.frames[n];
      w.(
        frames := w.frames[..n] + [top.(actions := top.actions + [Action(w.registered, ok)])],
        registered := w.registered + 1,
        log := w.log + [Registered(w.registered, top.tx, TxOf(w.frames, inside))])
  }

  function RunEvents(tx: nat, actions: seq<Action>): seq<Event> {
    if actions == [] then [] else RunEvents(tx, actions[..|actions| - 1]) + [Ran(actions[|actions| - 1].number, tx, actions[|actions| - 1].ok)]
  }

  function Opens(w: World, instance: nat): World {
    w.(frames := w.frames + [Frame(w.begun, instance, [])], begun := w.begun + 1, log := w.log + [Begun(w.begun)])
  }

  /** The innermost transaction ends: committed, its actions run; or rolled back. */
  function Closes(w: World, commits: bool): World
    requires w.frames != []
  {
    var top := w.frames[|w.frames| - 1];
    var outer := w.frames[..|w.frames| - 1];
    if commits then w.(frames := outer, log := w.log + [Committed(top.tx)] + RunEvents(top.tx, UpToFailure(top.actions)))
    else w.(frames := outer, log := w.log + [RolledBack(top.tx)])
  }

  function Do(p: Program, inside: nat, w: World): (r: (bool, World))
    ensures |r.1.frames| == |w.frames|
    decreases p
  {
    match p
    case Register(ok) => (w.frames != [] || ok, Registers(w, inside, ok))
    case Fail => (false, w)
    case Attempt(body) => (true, DoAll(body, inside, w).1)
    case Transact(instance, body, commits) =>
      if Joins(w.frames, instance) then DoAll(body, instance, w)
      else
        var (ok, after) := DoAll(body, instance, Opens(w, instance));
        var commit := ok && commits;
        (commit && AllOk(after.frames[|after.frames| - 1].actions), Closes(after, commit))
  }

  /** A body runs until a statement of it returns an error. */
  function DoAll(ps: seq<Program>, inside: nat, w: World): (r: (bool, World))
    ensures |r.1.frames| == |w.frames|
    decreases ps
  {
    if ps == [] then (true, w)
    else
      var (ok, next) := Do(ps[0], inside, w);
      if ok then DoAll(ps[1..], inside, next) else (false, next)
  }
}
