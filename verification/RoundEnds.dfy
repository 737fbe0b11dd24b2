/** How a round under a lease ends (cronjob/job.go, runClaimed): what it has put on
    record, and what becomes of its instant. */
module RoundEnds {
  import opened Sql
  import opened Lease
  import opened LeaseProof
  import opened LeaseSafety
  import opened Schedule
  import opened JobProof

  /** The statements a round's end sends: a round that ran to its end records it, also
      when its lease is known lost or turns out gone; one cut short gives the name
      back, unless its lease is lost. */
  function Ends(s: State, token: nat, finished: bool, passed: int): seq<Step>
    requires token in s.handles
  {
    var lost := s.handles[token].lost;
    if finished && lost then [FinishLate(token)]
    else if finished then (if IsHolder(s, token) then [Finish(token, passed)] else [Finish(token, passed), FinishLate(token)])
    else if lost then []
    else [Release(token)]
  }

  function DoEach(s: State, steps: seq<Step>): State
    decreases |steps|
  {
    if steps == [] || !Enabled(s, steps[0]) then s else DoEach(Do(s, steps[0]), steps[1..])
  }

  /** Runs on: states that follow one another from s. */
  predicate RunsOn(s: State, states: seq<State>, steps: seq<Step>) {
    |states| == |steps| + 1 && states[0] == s &&
    forall i :: 0 <= i < |steps| ==> Enabled(states[i], steps[i]) && states[i + 1] == Do(states[i], steps[i])
  }

  /** The record has an instant done with: recorded finished, or passed by a later
      claim. */
  predicate DoneWith(log: seq<Event>, x: int) { Recorded(x) in log || x < Last(log) }

  lemma {:induction false} LastGrows(log: seq<Event>, n: nat)
    requires Honest(log) && n <= |log|
    ensures Last(log[..n]) <= Last(log)
    decreases |log|
  {
    if n < |log| {
      var k := |log| - 1;
      HonestPrefix(log, k);
      LastGrows(log[..k], n);
      assert log[..k][..n] == log[..n];
      assert MayFollow(log[..k], log[k]);
    } else {
      assert log[..n] == log;
    }
  }

  /** An instant done with has no further round. */
  lemma DoneWithStays(log: seq<Event>, n: nat, x: int, k: nat)
    requires Honest(log) && n <= k < |log| && DoneWith(log[..n], x) && 0 < x <= Last(log[..n])
    ensures log[k] != Claimed(x) && log[k] != Reran(x)
  {
    HonestPrefix(log, k);
    LastGrows(log[..k], n);
    assert log[..k][..n] == log[..n];
    assert forall e :: e in log[..n] ==> e in log[..k] by { assert log[..k] == log[..n] + log[n..k]; }
    assert MayFollow(log[..k], log[k]);
  }

  lemma LogGrows(s: State, step: Step)
    requires Enabled(s, step)
    ensures s.log <= Do(s, step).log
  {
  }

  lemma {:induction false} RunsOnKeeps(s: State, states: seq<State>, steps: seq<Step>, i: nat)
    requires Inv(s) && RunsOn(s, states, steps) && i < |states|
    ensures Inv(states[i]) && s.log <= states[i].log
  {
    if i > 0 {
      RunsOnKeeps(s, states, steps, i - 1);
      StepKeeps(states[i - 1], steps[i - 1]);
      LogGrows(states[i - 1], steps[i - 1]);
    }
  }

  lemma DoEachOfOne(s: State, step: Step)
    requires Enabled(s, step)
    ensures DoEach(s, [step]) == Do(s, step)
  {
    assert [step][1..] == [];
  }

  lemma OnTimeIsDoneWith(s: State, token: nat, passed: int)
    requires Inv(s) && token in s.handles && IsHolder(s, token)
    ensures
      var t := Finished(s, token, passed);
      s.log <= t.log && DoneWith(t.log, s.handles[token].slot) && s.handles[token].slot <= Last(t.log)
  {
    var t := Finished(s, token, passed);
    FinishKeeps(s, token, passed);
    assert t.log[|s.log|] == Recorded(s.handles[token].slot);
    assert t.log[..|s.log|] == s.log;
    LastGrows(t.log, |s.log|);
  }

  /** The end of a finished round leaves its instant done with, whoever holds the
      name by then. */
  lemma FinishedIsDoneWith(s: State, token: nat, passed: int)
    requires Inv(s) && token in s.handles
    ensures
      var t := DoEach(s, Ends(s, token, true, passed));
      Inv(t) && s.log <= t.log && DoneWith(t.log, s.handles[token].slot) && 0 < s.handles[token].slot <= Last(t.log)
  {
    assert 0 < s.handles[token].slot;
    if !s.handles[token].lost && IsHolder(s, token) {
      DoEachOfOne(s, Finish(token, passed));
      FinishKeeps(s, token, passed);
      OnTimeIsDoneWith(s, token, passed);
    } else {
      DoEachOfOne(s, FinishLate(token));
      FinishLateKeeps(s, token);
      LateIsDoneWith(s, token);
      var late := [Finish(token, passed), FinishLate(token)];
      assert late[1..] == [FinishLate(token)];
      assert DoEach(s, Ends(s, token, true, passed)) == FinishedLate(s, token);
    }
  }

  lemma LateIsDoneWith(s: State, token: nat)
    requires Inv(s) && token in s.handles
    ensures
      var t := FinishedLate(s, token);
      s.log <= t.log && DoneWith(t.log, s.handles[token].slot) && s.handles[token].slot <= Last(t.log)
  {
    var x := s.handles[token].slot;
    if s.row.value.unfinished == x {
      LastAppend(s.log, Recorded(x));
      assert (s.log + [Recorded(x)])[|s.log|] == Recorded(x);
    }
  }

  /** A round that ran to its end is never run again: in no run from there on is its
      instant claimed, for the first or the second time. */
  lemma FinishedNeverRunsAgain(s: State, token: nat, passed: int, states: seq<State>, steps: seq<Step>, i: nat, k: nat)
    requires Inv(s) && token in s.handles && RunsOn(DoEach(s, Ends(s, token, true, passed)), states, steps)
    requires i < |states| && |states[0].log| <= k < |states[i].log|
    ensures states[i].log[k] != Claimed(s.handles[token].slot) && states[i].log[k] != Reran(s.handles[token].slot)
  {
    FinishedIsDoneWith(s, token, passed);
    RunsOnKeeps(states[0], states, steps, i);
    assert states[i].log[..|states[0].log|] == states[0].log;
    DoneWithStays(states[i].log, |states[0].log|, s.handles[token].slot, k);
  }

  // ---- a name given back ----

  /** A step that puts nothing on record leaves a free name free, and its row's instants
      as they are. */
  lemma FreeStays(s: State, step: Step)
    requires Inv(s) && Enabled(s, step) && Expired(s) && Do(s, step).log == s.log
    ensures Expired(Do(s, step)) && Do(s, step).row == Some(s.row.value.(expires := Do(s, step).row.value.expires))
    ensures Do(s, step).minted == s.minted
  {
  }

  lemma {:induction false} FreeStaysFree(s: State, states: seq<State>, steps: seq<Step>, i: nat)
    requires Inv(s) && RunsOn(s, states, steps) && i < |states| && Expired(s) && states[i].log == s.log
    ensures Inv(states[i]) && Expired(states[i]) && states[i].row == Some(s.row.value.(expires := states[i].row.value.expires))
    ensures states[i].minted == s.minted
  {
    if i > 0 {
      RunsOnKeeps(s, states, steps, i - 1);
      LogGrows(states[i - 1], steps[i - 1]);
      FreeStaysFree(s, states, steps, i - 1);
      FreeStays(states[i - 1], steps[i - 1]);
      StepKeeps(states[i - 1], steps[i - 1]);
    }
  }

  /** A first round cut short under its lease, given back: as long as no replica puts
      anything on record, and whatever the replicas do meanwhile, whoever looks finds
      it, and whoever found it claims its instant a second time. */
  lemma CutShortRunsAgain(s: State, token: nat, states: seq<State>, steps: seq<Step>, i: nat)
    requires Inv(s) && token in s.handles && IsHolder(s, token) && !s.handles[token].lost
    requires Recorded(s.handles[token].slot) !in s.log && s.row.value.rerun < s.handles[token].slot && s.row.value.slot == s.handles[token].slot
    requires RunsOn(DoEach(s, Ends(s, token, false, 0)), states, steps) && i < |states| && states[i].log == s.log
    ensures
      var u := Unfinished(s.handles[token].slot, s.row.value.term);
      u in Do(states[i], Find).found &&
      (u in states[i].found ==>
        Do(states[i], ClaimRerun(u)).log == s.log + [Reran(s.handles[token].slot)] && IsHolder(Do(states[i], ClaimRerun(u)), s.minted))
  {
    DoEachOfOne(s, Release(token));
    StepKeeps(s, Release(token));
    FreeStaysFree(Do(s, Release(token)), states, steps, i);
  }

  /** A round that recorded its end leaves the name free: as long as nothing else is put
      on record, a claim of an instant past those it overran, whenever read since, is
      written. */
  lemma FinishedLeavesNameFree(s: State, token: nat, passed: int, states: seq<State>, steps: seq<Step>, i: nat, read: Read)
    requires Inv(s) && token in s.handles && IsHolder(s, token) && !s.handles[token].lost
    requires RunsOn(Do(s, Finish(token, passed)), states, steps) && i < |states| && states[i].log == states[0].log
    requires read in states[i].pending && read.term == s.row.value.term && read.expired && read.slot < read.at
    ensures Do(states[i], WriteClaim(read)).log == states[0].log + [Claimed(read.at)]
    ensures IsHolder(Do(states[i], WriteClaim(read)), s.minted)
  {
    StepKeeps(s, Finish(token, passed));
    FreeStaysFree(Do(s, Finish(token, passed)), states, steps, i);
  }

  // ---- overrun instants and the catch-up ----

  /** Steps whose overruns are recorded under unexpired leases. */
  ghost predicate AllGuarded(states: seq<State>, steps: seq<Step>)
    requires |states| == |steps| + 1
  {
    forall i :: 0 <= i < |steps| ==> Guarded(states[i], steps[i])
  }

  lemma {:induction false} LastSlotGrows(s: State, states: seq<State>, steps: seq<Step>, i: nat)
    requires GuardedInv(s) && s.row.Some? && RunsOn(s, states, steps) && AllGuarded(states, steps) && i < |states|
    ensures GuardedInv(states[i]) && states[i].row.Some? && s.row.value.slot <= states[i].row.value.slot
  {
    if i > 0 {
      LastSlotGrows(s, states, steps, i - 1);
      assert Guarded(states[i - 1], steps[i - 1]);
      GuardedStep(states[i - 1], steps[i - 1]);
      SlotStep(states[i - 1], steps[i - 1]);
    }
  }

  /** The row keeps milliseconds; a day without an instant takes none along. */
  function PassedMs(passed: Option<int>): int { if passed.Some? then passed.value / Millisecond else -62_135_596_800_000 }

  /** A round that ends at now and records the last instant it overran, under its lease
      and with the database clock there: in every run from there on, no replica that
      starts later catches up an instant that came by now. */
  lemma OverrunIsNotCaughtUp(s: State, token: nat, j: Schedule, now: int, passed: Option<int>, states: seq<State>, steps: seq<Step>, i: nat, later: int, x: int)
    requires GuardedInv(s) && token in s.handles && IsHolder(s, token) && !s.handles[token].lost && !Expired(s)
    requires Passed(j, now, passed) && PassedMs(passed) <= s.now && forall y :: IsInstant(j, y) ==> y % Millisecond == 0
    requires RunsOn(Do(s, Finish(token, PassedMs(passed))), states, steps) && AllGuarded(states, steps) && i < |states| && now <= later
    requires states[i].row.Some? && IsPrevious(j, later, x) && states[i].row.value.slot * Millisecond < x
    ensures now < x
  {
    var t := Do(s, Finish(token, PassedMs(passed)));
    GuardedStep(s, Finish(token, PassedMs(passed)));
    LastSlotGrows(t, states, steps, i);
    if passed.Some? {
      assert passed.value == PassedMs(passed) * Millisecond;
      assert PassedMs(passed) <= states[i].row.value.slot;
    }
  }

  /** A round that knows its lease lost gives nothing back: it sends no more than the late
      record of its end, and nothing when it was cut short. */
  lemma LostRoundEndsLate(s: State, token: nat, finished: bool, passed: int)
    requires token in s.handles
    ensures Ends(Do(s, Lose(token)), token, finished, passed) == if finished then [FinishLate(token)] else []
  {
  }
}
