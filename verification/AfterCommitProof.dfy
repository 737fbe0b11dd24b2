/** What every record of nested transactions keeps. */
module AfterCommitProof {
  import opened AfterCommit

  // ---- an honest record ----

  function RegisteredOf(log: seq<Event>, tx: nat): seq<nat> {
    if log == [] then []
    else
      var e := log[|log| - 1];
      RegisteredOf(log[..|log| - 1], tx) + if e.Registered? && e.tx == tx then [e.number] else []
  }

  function RanOf(log: seq<Event>, tx: nat): seq<nat> {
    if log == [] then []
    else
      var e := log[|log| - 1];
      RanOf(log[..|log| - 1], tx) + if e.Ran? && e.tx == tx then [e.number] else []
  }

  predicate Ended(log: seq<Event>, tx: nat) { Committed(tx) in log || RolledBack(tx) in log }

  predicate Open(log: seq<Event>, tx: nat) { Begun(tx) in log && !Ended(log, tx) }

  /** An event an honest record may go on with: actions registered with an open
      transaction, run once it has committed, the first not run yet, and none after
      one that failed. */
  ghost predicate MayFollow(log: seq<Event>, e: Event) {
    match e
    case Begun(tx) => Begun(tx) !in log && !Ended(log, tx)
    case Registered(n, tx, _) => Open(log, tx) && forall r :: r in log && r.Registered? ==> r.number != n
    case Committed(tx) => Open(log, tx)
    case RolledBack(tx) => Open(log, tx)
    case Ran(n, tx, _) =>
      Committed(tx) in log && RanOf(log, tx) + [n] <= RegisteredOf(log, tx) && forall m :: Ran(m, tx, false) !in log
    case RanAtOnce(_) => true
  }

  ghost predicate Honest(log: seq<Event>) {
    forall k {:trigger MayFollow(log[..k], log[k])} :: 0 <= k < |log| ==> MayFollow(log[..k], log[k])
  }

  lemma HonestAppend(log: seq<Event>, e: Event)
    requires Honest(log) && MayFollow(log, e)
    ensures Honest(log + [e])
  {
    var more := log + [e];
    forall k | 0 <= k < |more| ensures MayFollow(more[..k], more[k]) {
      assert more[..k] == log[..k];
      if k == |log| { assert log[..k] == log; }
    }
  }

  lemma OfAppend(log: seq<Event>, e: Event, tx: nat)
    ensures RegisteredOf(log + [e], tx) == RegisteredOf(log, tx) + if e.Registered? && e.tx == tx then [e.number] else []
    ensures RanOf(log + [e], tx) == RanOf(log, tx) + if e.Ran? && e.tx == tx then [e.number] else []
  {
    assert (log + [e])[..|log|] == log;
  }

  lemma HonestPrefix(log: seq<Event>, k: nat)
    requires Honest(log) && k <= |log|
    ensures Honest(log[..k])
  {
    var rest := log[..k];
    assert forall i :: 0 <= i < k ==> rest[..i] == log[..i] && rest[i] == log[i];
  }

  // ---- what an honest record shows ----

  lemma {:induction false} RegisteredIsOnRecord(log: seq<Event>, tx: nat, i: nat)
    requires i < |RegisteredOf(log, tx)|
    ensures exists e :: e in log && e.Registered? && e.number == RegisteredOf(log, tx)[i] && e.tx == tx
  {
    var n := |log| - 1;
    if i < |RegisteredOf(log[..n], tx)| {
      RegisteredIsOnRecord(log[..n], tx, i);
      var e :| e in log[..n] && e.Registered? && e.number == RegisteredOf(log[..n], tx)[i] && e.tx == tx;
      assert e in log;
    } else {
      assert log[n] in log;
    }
  }

  lemma {:induction false} RanIsPrefix(log: seq<Event>, tx: nat)
    requires Honest(log)
    ensures RanOf(log, tx) <= RegisteredOf(log, tx)
  {
    if log != [] {
      var n := |log| - 1;
      HonestPrefix(log, n);
      RanIsPrefix(log[..n], tx);
      assert MayFollow(log[..n], log[n]) && log == log[..n] + [log[n]];
      OfAppend(log[..n], log[n], tx);
    }
  }

  lemma {:induction false} EndsOnce(log: seq<Event>, tx: nat)
    requires Honest(log)
    ensures !(Committed(tx) in log && RolledBack(tx) in log)
  {
    if log != [] {
      var n := |log| - 1;
      HonestPrefix(log, n);
      EndsOnce(log[..n], tx);
      assert MayFollow(log[..n], log[n]);
      if log[n] == Committed(tx) || log[n] == RolledBack(tx) { EndsOpen(log[..n], log[n], tx); }
      assert log == log[..n] + [log[n]];
    }
  }

  lemma EndsOpen(log: seq<Event>, e: Event, tx: nat)
    requires MayFollow(log, e) && (e == Committed(tx) || e == RolledBack(tx))
    ensures !Ended(log, tx)
  {
  }

  /** An action runs only after the transaction whose boundary holds it has
      committed, and that transaction is never rolled back. */
  lemma RanAfterCommit(log: seq<Event>, k: nat)
    requires Honest(log) && k < |log| && log[k].Ran?
    ensures Committed(log[k].tx) in log[..k] && RolledBack(log[k].tx) !in log
    ensures exists e :: e in log[..k] && e.Registered? && e.number == log[k].number && e.tx == log[k].tx
  {
    var tx := log[k].tx;
    assert MayFollow(log[..k], log[k]);
    RegisteredIsOnRecord(log[..k], tx, |RanOf(log[..k], tx)|);
    assert Committed(tx) in log;
    EndsOnce(log, tx);
  }

  lemma {:induction false} NumbersDiffer(log: seq<Event>, tx: nat, i: nat, j: nat)
    requires Honest(log) && i < j < |RegisteredOf(log, tx)|
    ensures RegisteredOf(log, tx)[i] != RegisteredOf(log, tx)[j]
  {
    var n := |log| - 1;
    HonestPrefix(log, n);
    assert MayFollow(log[..n], log[n]);
    if j < |RegisteredOf(log[..n], tx)| {
      NumbersDiffer(log[..n], tx, i, j);
    } else {
      RegisteredIsOnRecord(log[..n], tx, i);
    }
  }

  // ---- every run keeps it ----

  function Numbers(actions: seq<Action>): (r: seq<nat>)
    ensures |r| == |actions|
  {
    seq(|actions|, i requires 0 <= i < |actions| => actions[i].number)
  }

  predicate FrameAgrees(w: World, f: Frame) {
    Open(w.log, f.tx) && f.tx < w.begun && Numbers(f.actions) == RegisteredOf(w.log, f.tx) && RanOf(w.log, f.tx) == []
  }

  predicate FramesAgree(w: World) { forall i {:trigger FrameAgrees(w, w.frames[i])} :: 0 <= i < |w.frames| ==> FrameAgrees(w, w.frames[i]) }

  predicate FramesDiffer(frames: seq<Frame>) {
    forall i, j :: 0 <= i < j < |frames| ==> frames[i].tx != frames[j].tx && frames[i].instance != frames[j].instance
  }

  predicate CountsAgree(w: World) {
    forall e :: e in w.log ==>
      match e
      case Begun(tx) => tx < w.begun
      case Registered(n, tx, _) => n < w.registered && tx < w.begun
      case Committed(tx) => tx < w.begun
      case RolledBack(tx) => tx < w.begun
      case Ran(_, tx, _) => tx < w.begun
      case RanAtOnce(n) => n < w.registered
  }

  ghost predicate Inv(w: World) { Honest(w.log) && FramesAgree(w) && FramesDiffer(w.frames) && CountsAgree(w) }

  lemma {:induction false} NothingOfUnopened(log: seq<Event>, tx: nat)
    requires forall e :: e in log && (e.Registered? || e.Ran?) ==> e.tx != tx
    ensures RegisteredOf(log, tx) == [] && RanOf(log, tx) == []
  {
    if log != [] {
      assert log[|log| - 1] in log;
      NothingOfUnopened(log[..|log| - 1], tx);
    }
  }

  predicate Touches(e: Event, tx: nat) { !e.RanAtOnce? && e.tx == tx }

  /** An event of another transaction leaves a frame as it was. */
  lemma FrameOn(w: World, r: World, e: Event, f: Frame)
    requires FrameAgrees(w, f) && r.log == w.log + [e] && r.begun >= w.begun && !Touches(e, f.tx)
    ensures FrameAgrees(r, f)
  {
    OfAppend(w.log, e, f.tx);
  }

  lemma CountsOn(w: World, r: World, e: Event)
    requires CountsAgree(w) && r.log == w.log + [e] && r.begun >= w.begun && r.registered >= w.registered
    requires if e.RanAtOnce? then e.number < r.registered else e.tx < r.begun && (e.Registered? ==> e.number < r.registered)
    ensures CountsAgree(r)
  {
  }

  lemma NewFrame(w: World, instance: nat)
    requires CountsAgree(w)
    ensures MayFollow(w.log, Begun(w.begun)) && FrameAgrees(Opens(w, instance), Frame(w.begun, instance, []))
  {
    NothingOfUnopened(w.log, w.begun);
    OfAppend(w.log, Begun(w.begun), w.begun);
  }

  lemma OpensKeeps(w: World, instance: nat)
    requires Inv(w) && !Joins(w.frames, instance)
    ensures Inv(Opens(w, instance))
  {
    var r, e := Opens(w, instance), Begun(w.begun);
    NewFrame(w, instance);
    HonestAppend(w.log, e);
    CountsOn(w, r, e);
    forall i | 0 <= i < |w.frames| ensures FrameAgrees(r, r.frames[i]) && w.frames[i].tx < w.begun {
      assert FrameAgrees(w, w.frames[i]);
      FrameOn(w, r, e, w.frames[i]);
    }
  }

  lemma TopOn(w: World, inside: nat, ok: bool)
    requires CountsAgree(w) && w.frames != [] && FrameAgrees(w, w.frames[|w.frames| - 1])
    ensures
      var r := Registers(w, inside, ok);
      FrameAgrees(r, r.frames[|r.frames| - 1]) && MayFollow(w.log, r.log[|w.log|])
  {
    var top, r := w.frames[|w.frames| - 1], Registers(w, inside, ok);
    OfAppend(w.log, r.log[|w.log|], top.tx);
    assert Numbers(top.actions + [Action(w.registered, ok)]) == Numbers(top.actions) + [w.registered];
  }

  lemma OuterOn(w: World, inside: nat, ok: bool, i: nat)
    requires FramesAgree(w) && FramesDiffer(w.frames) && i < |w.frames| - 1
    ensures FrameAgrees(Registers(w, inside, ok), w.frames[i])
  {
    var r := Registers(w, inside, ok);
    assert FrameAgrees(w, w.frames[i]) && w.frames[i].tx != w.frames[|w.frames| - 1].tx;
    FrameOn(w, r, r.log[|w.log|], w.frames[i]);
  }

  lemma SameFrames(w: World, inside: nat, ok: bool)
    ensures
      var r := Registers(w, inside, ok);
      forall i :: 0 <= i < |w.frames| ==> r.frames[i].tx == w.frames[i].tx && r.frames[i].instance == w.frames[i].instance
    ensures forall i :: 0 <= i < |w.frames| - 1 ==> Registers(w, inside, ok).frames[i] == w.frames[i]
  {
  }

  lemma RegistersKeeps(w: World, inside: nat, ok: bool)
    requires Inv(w)
    ensures Inv(Registers(w, inside, ok))
  {
    var r := Registers(w, inside, ok);
    var e := r.log[|w.log|];
    SameFrames(w, inside, ok);
    if w.frames != [] {
      assert FrameAgrees(w, w.frames[|w.frames| - 1]);
      TopOn(w, inside, ok);
    }
    RegistersRest(w, inside, ok);
    HonestAppend(w.log, e);
    CountsOn(w, r, e);
  }

  lemma RegistersRest(w: World, inside: nat, ok: bool)
    requires FramesAgree(w) && FramesDiffer(w.frames) && CountsAgree(w)
    ensures FramesAgree(Registers(w, inside, ok))
  {
    var r := Registers(w, inside, ok);
    SameFrames(w, inside, ok);
    forall i | 0 <= i < |r.frames| ensures FrameAgrees(r, r.frames[i]) {
      if i < |w.frames| - 1 { OuterOn(w, inside, ok, i); } else { TopOn(w, inside, ok); }
    }
  }

  /** Running a committed transaction's actions keeps the record honest, and leaves
      the other transactions' part of it as it was. */
  lemma {:induction false} RunKeeps(log: seq<Event>, tx: nat, actions: seq<Action>, m: nat, other: nat)
    requires Honest(log) && Committed(tx) in log && RanOf(log, tx) == [] && Numbers(actions) == RegisteredOf(log, tx) && other != tx
    requires m <= |actions| && (forall i :: 0 <= i < m - 1 ==> actions[i].ok) && forall n :: Ran(n, tx, false) !in log
    ensures
      var run := log + RunEvents(tx, actions[..m]);
      Honest(run) && RanOf(run, tx) == Numbers(actions)[..m] && RegisteredOf(run, tx) == RegisteredOf(log, tx) &&
      (forall n :: Ran(n, tx, false) in run ==> m > 0 && !actions[m - 1].ok) &&
      RanOf(run, other) == RanOf(log, other) && RegisteredOf(run, other) == RegisteredOf(log, other)
    decreases m
  {
    if m == 0 {
      assert log + RunEvents(tx, []) == log;
    } else {
      var before := log + RunEvents(tx, actions[..m - 1]);
      var e := Ran(actions[m - 1].number, tx, actions[m - 1].ok);
      RunKeeps(log, tx, actions, m - 1, other);
      RunStep(tx, actions, m);
      assert log + RunEvents(tx, actions[..m]) == before + [e];
      assert Numbers(actions)[..m] == Numbers(actions)[..m - 1] + [e.number];
      HonestAppend(before, e);
      OfAppend(before, e, tx);
      OfAppend(before, e, other);
    }
  }

  lemma RunStep(tx: nat, actions: seq<Action>, m: nat)
    requires 0 < m <= |actions|
    ensures RunEvents(tx, actions[..m]) == RunEvents(tx, actions[..m - 1]) + [Ran(actions[m - 1].number, tx, actions[m - 1].ok)]
  {
    assert actions[..m][..m - 1] == actions[..m - 1];
  }

  lemma {:induction false} RunEventsAreRan(tx: nat, actions: seq<Action>)
    ensures forall e :: e in RunEvents(tx, actions) ==> e.Ran? && e.tx == tx
  {
    if actions != [] { RunEventsAreRan(tx, actions[..|actions| - 1]); }
  }

  lemma NoneRanOf(log: seq<Event>, tx: nat)
    requires RanOf(log, tx) == []
    ensures forall n, ok :: Ran(n, tx, ok) !in log
  {
    if log != [] {
      var k := |log| - 1;
      NoneRanOf(log[..k], tx);
      assert log == log[..k] + [log[k]];
    }
  }

  // ---- a transaction's end ----

  lemma RolledBackKeeps(w: World)
    requires Inv(w) && w.frames != []
    ensures Inv(Closes(w, false))
  {
    var n := |w.frames| - 1;
    var r, e := Closes(w, false), RolledBack(w.frames[n].tx);
    assert FrameAgrees(w, w.frames[n]);
    HonestAppend(w.log, e);
    CountsOn(w, r, e);
    forall i | 0 <= i < n ensures FrameAgrees(r, r.frames[i]) { FrameOn(w, r, e, w.frames[i]); }
  }

  /** A world right after its innermost transaction committed, its actions still to
      run. */
  function CommitsOnly(w: World): World
    requires w.frames != []
  {
    var n := |w.frames| - 1;
    w.(frames := w.frames[..n], log := w.log + [Committed(w.frames[n].tx)])
  }

  lemma CommitsOnlyKeeps(w: World)
    requires Inv(w) && w.frames != []
    ensures
      var r, top := CommitsOnly(w), w.frames[|w.frames| - 1];
      Inv(r) && Committed(top.tx) in r.log && RanOf(r.log, top.tx) == [] && Numbers(top.actions) == RegisteredOf(r.log, top.tx) &&
      top.tx < r.begun && forall i :: 0 <= i < |r.frames| ==> r.frames[i].tx != top.tx
  {
    var n := |w.frames| - 1;
    var r, e := CommitsOnly(w), Committed(w.frames[n].tx);
    assert FrameAgrees(w, w.frames[n]);
    HonestAppend(w.log, e);
    CountsOn(w, r, e);
    OfAppend(w.log, e, w.frames[n].tx);
    forall i | 0 <= i < n ensures FrameAgrees(r, r.frames[i]) { FrameOn(w, r, e, w.frames[i]); }
  }

  /** Events a transaction's actions leave do not touch the frames of others. */
  lemma FrameAfterRun(w: World, r: World, tx: nat, ran: seq<Action>, f: Frame)
    requires FrameAgrees(w, f) && r.log == w.log + RunEvents(tx, ran) && r.begun == w.begun && f.tx != tx
    requires RanOf(r.log, f.tx) == RanOf(w.log, f.tx) && RegisteredOf(r.log, f.tx) == RegisteredOf(w.log, f.tx)
    ensures FrameAgrees(r, f)
  {
    RunEventsAreRan(tx, ran);
  }

  lemma CountsAfterRun(w: World, r: World, tx: nat, ran: seq<Action>)
    requires CountsAgree(w) && r.log == w.log + RunEvents(tx, ran) && r.begun == w.begun && r.registered == w.registered && tx < w.begun
    ensures CountsAgree(r)
  {
    RunEventsAreRan(tx, ran);
  }

  lemma CommittedKeeps(w: World)
    requires Inv(w) && w.frames != []
    ensures Inv(Closes(w, true))
    ensures
      var top := w.frames[|w.frames| - 1];
      RanOf(Closes(w, true).log, top.tx) == Numbers(UpToFailure(top.actions))
  {
    var top, c, r := w.frames[|w.frames| - 1], CommitsOnly(w), Closes(w, true);
    CommitsOnlyKeeps(w);
    UpToFailureIs(top.actions);
    NoneRanOf(c.log, top.tx);
    var m := |UpToFailure(top.actions)|;
    assert UpToFailure(top.actions) == top.actions[..m];
    assert r.log == c.log + RunEvents(top.tx, top.actions[..m]);
    RunKeeps(c.log, top.tx, top.actions, m, top.tx + 1);
    CountsAfterRun(c, r, top.tx, top.actions[..m]);
    forall i | 0 <= i < |r.frames| ensures FrameAgrees(r, r.frames[i]) {
      assert FrameAgrees(c, c.frames[i]);
      RunKeeps(c.log, top.tx, top.actions, m, r.frames[i].tx);
      FrameAfterRun(c, r, top.tx, top.actions[..m], r.frames[i]);
    }
    assert Numbers(top.actions)[..m] == Numbers(top.actions[..m]);
  }

  lemma {:induction false} DoKeeps(p: Program, inside: nat, w: World)
    requires Inv(w)
    ensures Inv(Do(p, inside, w).1)
    decreases p
  {
    match p
    case Register(ok) => RegistersKeeps(w, inside, ok);
    case Fail =>
    case Attempt(body) => DoAllKeeps(body, inside, w);
    case Transact(instance, body, commits) =>
      if Joins(w.frames, instance) {
        DoAllKeeps(body, instance, w);
      } else {
        OpensKeeps(w, instance);
        DoAllKeeps(body, instance, Opens(w, instance));
        var (ok, after) := DoAll(body, instance, Opens(w, instance));
        if ok && commits { CommittedKeeps(after); } else { RolledBackKeeps(after); }
      }
  }

  lemma {:induction false} DoAllKeeps(ps: seq<Program>, inside: nat, w: World)
    requires Inv(w)
    ensures Inv(DoAll(ps, inside, w).1)
    decreases ps
  {
    if ps != [] {
      DoKeeps(ps[0], inside, w);
      var (ok, next) := Do(ps[0], inside, w);
      if ok { DoAllKeeps(ps[1..], inside, next); }
    }
  }

  const Start := World([], 0, 0, [])

  /** The record of any program of nested transactions and writes. */
  function Record(ps: seq<Program>): seq<Event> { DoAll(ps, 0, Start).1.log }

  /** An action runs only after its transaction has committed, never of one rolled
      back; each once at the most, and those of a transaction in the order they were
      registered, from the first. */
  lemma ActionsAreSafe(ps: seq<Program>)
    ensures forall k :: 0 <= k < |Record(ps)| && Record(ps)[k].Ran? ==> RanRight(Record(ps), k)
    ensures forall tx :: RanOf(Record(ps), tx) <= RegisteredOf(Record(ps), tx) && AllDiffer(RegisteredOf(Record(ps), tx))
  {
    DoAllKeeps(ps, 0, Start);
    var log := Record(ps);
    forall k | 0 <= k < |log| && log[k].Ran? ensures RanRight(log, k) { RanAfterCommit(log, k); }
    forall tx ensures RanOf(log, tx) <= RegisteredOf(log, tx) && AllDiffer(RegisteredOf(log, tx)) {
      RanIsPrefix(log, tx);
      forall i, j | 0 <= i < j < |RegisteredOf(log, tx)| ensures RegisteredOf(log, tx)[i] != RegisteredOf(log, tx)[j] {
        NumbersDiffer(log, tx, i, j);
      }
    }
  }

  ghost predicate RanRight(log: seq<Event>, k: nat)
    requires k < |log| && log[k].Ran?
  {
    Committed(log[k].tx) in log[..k] && RolledBack(log[k].tx) !in log &&
    exists e :: e in log[..k] && e.Registered? && e.number == log[k].number && e.tx == log[k].tx
  }

  predicate AllDiffer(numbers: seq<nat>) { forall i, j :: 0 <= i < j < |numbers| ==> numbers[i] != numbers[j] }
}
