/** What the record of any run of the lease protocol shows: instants claimed in
    order, at most two rounds each, and when an overrun instant stays skipped. */
module LeaseSafety {
  import opened Sql
  import opened Lease
  import opened LeaseProof

  // ---- reading an honest record ----

  lemma {:induction false} ClaimedAreBelowLast(log: seq<Event>)
    requires Honest(log)
    ensures forall x :: Claimed(x) in log ==> x <= Last(log)
    ensures Last(log) > 0 ==> Claimed(Last(log)) in log
  {
    if log != [] {
      var n := |log| - 1;
      var rest := log[..n];
      assert forall k :: 0 <= k < n ==> rest[..k] == log[..k] && rest[k] == log[k];
      ClaimedAreBelowLast(rest);
      assert MayFollow(log[..n], log[n]);
      assert log == rest + [log[n]];
    }
  }

  lemma HonestPrefix(log: seq<Event>, k: nat)
    requires Honest(log) && k <= |log|
    ensures Honest(log[..k])
  {
    var rest := log[..k];
    assert forall i :: 0 <= i < k ==> rest[..i] == log[..i] && rest[i] == log[i];
  }

  /** Each claim is of a later instant than every claim before it. */
  lemma ClaimsIncrease(log: seq<Event>, i: nat, j: nat)
    requires Honest(log) && i < j < |log| && log[i].Claimed? && log[j].Claimed?
    ensures log[i].slot < log[j].slot
  {
    HonestPrefix(log, j);
    ClaimedAreBelowLast(log[..j]);
    assert log[..j][i] == log[i] && MayFollow(log[..j], log[j]);
  }

  /** An instant is claimed a second time only after its claim, with its round not
      on record as finished and no later instant claimed, and never a third. */
  lemma RerunIsOwed(log: seq<Event>, k: nat)
    requires Honest(log) && k < |log| && log[k].Reran?
    ensures Claimed(log[k].slot) in log[..k] && Recorded(log[k].slot) !in log[..k] && Reran(log[k].slot) !in log[..k]
    ensures forall y :: Claimed(y) in log[..k] ==> y <= log[k].slot
  {
    HonestPrefix(log, k);
    ClaimedAreBelowLast(log[..k]);
    assert MayFollow(log[..k], log[k]);
  }

  function Rounds(log: seq<Event>, x: int): nat {
    if log == [] then 0
    else
      var e := log[|log| - 1];
      Rounds(log[..|log| - 1], x) + if e == Claimed(x) || e == Reran(x) then 1 else 0
  }

  lemma {:induction false} RoundsCount(log: seq<Event>, x: int)
    requires Honest(log)
    ensures Rounds(log, x) == (if Claimed(x) in log then 1 else 0) + if Reran(x) in log then 1 else 0
  {
    if log != [] {
      var n := |log| - 1;
      HonestPrefix(log, n);
      RoundsCount(log[..n], x);
      ClaimedAreBelowLast(log[..n]);
      assert MayFollow(log[..n], log[n]);
      assert log == log[..n] + [log[n]];
    }
  }

  /** Over every interleaving of the replicas, crashes, lost leases and expiries: the
      instants claimed increase, none has more than two rounds, and the second round
      of an instant is owed. */
  lemma EveryRunIsSafe(states: seq<State>, steps: seq<Step>, s: State)
    requires IsRun(states, steps) && s in states
    ensures forall i, j :: 0 <= i < j < |s.log| && s.log[i].Claimed? && s.log[j].Claimed? ==> s.log[i].slot < s.log[j].slot
    ensures forall x :: Rounds(s.log, x) <= 2
    ensures forall k :: 0 <= k < |s.log| && s.log[k].Reran? ==> Owed(s.log[..k], s.log[k].slot)
  {
    var n :| 0 <= n < |states| && states[n] == s;
    RunKeeps(states, steps, n);
    forall i, j | 0 <= i < j < |s.log| && s.log[i].Claimed? && s.log[j].Claimed? ensures s.log[i].slot < s.log[j].slot {
      ClaimsIncrease(s.log, i, j);
    }
    forall x ensures Rounds(s.log, x) <= 2 { RoundsCount(s.log, x); }
    forall k | 0 <= k < |s.log| && s.log[k].Reran? ensures Owed(s.log[..k], s.log[k].slot) { RerunIsOwed(s.log, k); }
  }

  /** The instant was claimed, its round is not on record as finished, it has not run
      twice, and no later instant has been claimed. */
  ghost predicate Owed(log: seq<Event>, x: int) {
    Claimed(x) in log && Recorded(x) !in log && Reran(x) !in log && forall y :: Claimed(y) in log ==> y <= x
  }

  /** A claim starts a term above every term handed out before, and one held name
      has one holder: the handle of the highest term. */
  lemma ClaimsFenceEarlierHandles(states: seq<State>, steps: seq<Step>, i: nat, token: nat)
    requires IsRun(states, steps) && i < |steps| && states[i + 1].minted > states[i].minted && token in states[i].handles
    ensures states[i].minted in states[i + 1].handles
    ensures states[i + 1].handles[states[i].minted].term > states[i].handles[token].term
    ensures IsHolder(states[i + 1], states[i].minted) && !IsHolder(states[i + 1], token)
  {
    RunKeeps(states, steps, i);
    assert states[i + 1] == Do(states[i], steps[i]);
  }

  // ---- overrun instants ----

  /** The record of overrun instants only moves under a lease that has not expired. */
  predicate Guarded(s: State, step: Step) {
    step.Finish? && IsHolder(s, step.token) && s.row.value.slot < step.passed <= s.now ==> !Expired(s)
  }

  predicate GuardedRun(states: seq<State>, steps: seq<Step>) {
    IsRun(states, steps) && forall i :: 0 <= i < |steps| ==> Guarded(states[i], steps[i])
  }

  /** Once a lease has expired, its row's last instant stays as a claim read it. */
  predicate PendingFresh(s: State) {
    forall r :: r in s.pending && r.expired && s.row.Some? && r.term == s.row.value.term ==> r.slot == s.row.value.slot
  }

  predicate OverrunsOnRecord(s: State) {
    forall e :: e in s.log && e.Overran? ==> s.row.Some? && e.slot <= s.row.value.slot
  }

  /** No instant a round overran, and none before it, is claimed afterwards. */
  predicate StaySkipped(log: seq<Event>) {
    forall i, j :: 0 <= i < j < |log| && log[i].Overran? && log[j].Claimed? ==> log[i].slot < log[j].slot
  }

  predicate GuardedInv(s: State) { Inv(s) && PendingFresh(s) && OverrunsOnRecord(s) && StaySkipped(s.log) }

  lemma SkippedAppend(log: seq<Event>, more: seq<Event>)
    requires StaySkipped(log) && (forall e :: e in more && e.Claimed? ==> forall o :: o in log && o.Overran? ==> o.slot < e.slot)
    requires forall e :: e in more && e.Claimed? ==> |more| == 1
    ensures StaySkipped(log + more)
  {
    var all := log + more;
    forall i, j | 0 <= i < j < |all| && all[i].Overran? && all[j].Claimed? ensures all[i].slot < all[j].slot {
      if j >= |log| { assert all[j] in more && all[i] in log; }
    }
  }

  lemma GuardedMint(s: State, read: Read)
    requires GuardedInv(s) && Enabled(s, WriteClaim(read))
    ensures GuardedInv(WriteClaimed(s, read))
  {
    StepKeeps(s, WriteClaim(read));
    if s.row.Some? && s.row.value.term == read.term && Expired(s) {
      SkippedAppend(s.log, [Claimed(read.at)]);
    }
  }

  lemma FinishStaysFresh(s: State, token: nat, passed: int)
    requires Inv(s) && PendingFresh(s) && Enabled(s, Finish(token, passed)) && Guarded(s, Finish(token, passed))
    ensures PendingFresh(Finished(s, token, passed))
  {
  }

  lemma FinishOnRecord(s: State, token: nat, passed: int, more: seq<Event>)
    requires OverrunsOnRecord(s) && Enabled(s, Finish(token, passed)) && IsHolder(s, token)
    requires more == [Recorded(s.handles[token].slot)] + if s.row.value.slot < passed <= s.now then [Overran(passed)] else []
    ensures OverrunsOnRecord(Finished(s, token, passed)) && Finished(s, token, passed).log == s.log + more
  {
  }

  lemma GuardedFinish(s: State, token: nat, passed: int)
    requires GuardedInv(s) && Enabled(s, Finish(token, passed)) && Guarded(s, Finish(token, passed))
    ensures GuardedInv(Finished(s, token, passed))
  {
    StepKeeps(s, Finish(token, passed));
    if IsHolder(s, token) {
      var more := [Recorded(s.handles[token].slot)] + if s.row.value.slot < passed <= s.now then [Overran(passed)] else [];
      SkippedAppend(s.log, more);
      FinishStaysFresh(s, token, passed);
      FinishOnRecord(s, token, passed, more);
    }
  }

  lemma GuardedStep(s: State, step: Step)
    requires GuardedInv(s) && Enabled(s, step) && Guarded(s, step)
    ensures GuardedInv(Do(s, step))
  {
    StepKeeps(s, step);
    match step
    case WriteClaim(read) => GuardedMint(s, read);
    case Finish(token, passed) => GuardedFinish(s, token, passed);
    case Insert(at) => if s.row.None? { SkippedAppend(s.log, [Claimed(at)]); }
    case ClaimRerun(u) => SkippedAppend(s.log, [Reran(u.slot)]);
    case FinishLate(token) => SkippedAppend(s.log, [Recorded(s.handles[token].slot)]);
    case _ =>
  }

  /** A run whose rounds record what they overran only under an unexpired lease never
      claims an overrun instant, a catch-up included, and its row's last instant
      never goes back. */
  lemma {:induction false} OverrunStaysSkipped(states: seq<State>, steps: seq<Step>, i: nat)
    requires GuardedRun(states, steps) && i < |states|
    ensures GuardedInv(states[i])
    ensures i > 0 && states[i - 1].row.Some? ==> states[i].row.Some? && states[i - 1].row.value.slot <= states[i].row.value.slot
  {
    if i > 0 {
      OverrunStaysSkipped(states, steps, i - 1);
      assert Guarded(states[i - 1], steps[i - 1]);
      GuardedStep(states[i - 1], steps[i - 1]);
      if states[i - 1].row.Some? { SlotStep(states[i - 1], steps[i - 1]); }
    }
  }

  lemma SlotStep(s: State, step: Step)
    requires GuardedInv(s) && Enabled(s, step) && s.row.Some?
    ensures Do(s, step).row.Some? && s.row.value.slot <= Do(s, step).row.value.slot
  {
  }

  /** A claim standing between its read and its write takes the instant at. */
  predicate Takes(s: State, read: Read) {
    read.expired && read.slot < read.at && s.row.Some? && s.row.value.term == read.term && Expired(s)
  }

  /** A claim another replica may be standing on: one of those pending, or one whose
      read lands now. */
  predicate Standing(s: State, read: Read) {
    read in s.pending || (s.row.Some? && read.at > 0 && read == Read(read.at, s.row.value.term, s.row.value.slot, Expired(s)))
  }

  /** The overrun a round records is honoured by every replica, wherever it stands,
      exactly when the record lands before the round's lease expires. */
  lemma OverrunIsHonouredExactly(s: State, token: nat, passed: int)
    requires Inv(s) && Enabled(s, Finish(token, passed)) && IsHolder(s, token) && s.row.value.slot < passed <= s.now
    ensures !Expired(s) <==> forall read :: Standing(s, read) && read.at <= passed ==> !Takes(Finished(s, token, passed), read)
  {
    if Expired(s) {
      var read := Read(passed, s.row.value.term, s.row.value.slot, true);
      assert Standing(s, read) && Takes(Finished(s, token, passed), read);
    }
  }

  /** Two replicas: the round of instant 1 outlives its lease and records at 20000
      that it overran 3, between the other replica's read and write of its claim of
      2. The last instant on record goes back to 2, and 3 is claimed after all. */
  lemma LateFinishLosesOverrun() returns (states: seq<State>, steps: seq<Step>)
    ensures IsRun(states, steps)
    ensures states[|states| - 1].log == [Claimed(1), Recorded(1), Overran(3), Claimed(2), Claimed(3)]
  {
    var s0 := State(0, None, 0, map[], {}, {}, []);
    var first, second := Read(2, 1, 1, true), Read(3, 2, 2, true);
    steps := [Insert(1), Tick(20000), ReadForClaim(2), Finish(0, 3), WriteClaim(first), Tick(20000), ReadForClaim(3), WriteClaim(second)];
    var s1, s2, s3, s4 := OverrunRecorded(s0, first);
    var s5, s6, s7, s8 := OverrunClaimed(s4, first, second);
    states := [s0, s1, s2, s3, s4, s5, s6, s7, s8];
  }

  lemma OverrunRecorded(s0: State, first: Read) returns (s1: State, s2: State, s3: State, s4: State)
    requires s0 == State(0, None, 0, map[], {}, {}, []) && first == Read(2, 1, 1, true)
    ensures s1 == Do(s0, Insert(1)) && s2 == Do(s1, Tick(20000)) && s3 == Do(s2, ReadForClaim(2))
    ensures Enabled(s2, ReadForClaim(2)) && Enabled(s3, Finish(0, 3)) && s4 == Do(s3, Finish(0, 3))
    ensures s4 == State(20000, Some(LeaseRow(0, 1, 0, 3, 0, 0)), 1, map[], {first}, {}, [Claimed(1), Recorded(1), Overran(3)])
  {
    s1 := Do(s0, Insert(1));
    s2 := Do(s1, Tick(20000));
    s3 := Do(s2, ReadForClaim(2));
    s4 := Do(s3, Finish(0, 3));
    assert s3.pending == {first} && s4.handles == map[];
  }

  lemma OverrunClaimed(s4: State, first: Read, second: Read) returns (s5: State, s6: State, s7: State, s8: State)
    requires first == Read(2, 1, 1, true) && second == Read(3, 2, 2, true)
    requires s4 == State(20000, Some(LeaseRow(0, 1, 0, 3, 0, 0)), 1, map[], {first}, {}, [Claimed(1), Recorded(1), Overran(3)])
    ensures Enabled(s4, WriteClaim(first)) && s5 == Do(s4, WriteClaim(first)) && s6 == Do(s5, Tick(20000))
    ensures Enabled(s6, ReadForClaim(3)) && s7 == Do(s6, ReadForClaim(3)) && Enabled(s7, WriteClaim(second)) && s8 == Do(s7, WriteClaim(second))
    ensures s8.log == [Claimed(1), Recorded(1), Overran(3), Claimed(2), Claimed(3)]
  {
    s5 := Do(s4, WriteClaim(first));
    s6 := Do(s5, Tick(20000));
    s7 := Do(s6, ReadForClaim(3));
    assert second in s7.pending;
    s8 := Do(s7, WriteClaim(second));
  }
}
