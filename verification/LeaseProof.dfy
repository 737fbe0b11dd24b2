/** What every interleaving of the lease protocol keeps. */
module LeaseProof {
  import opened Sql
  import opened Lease

  // ---- the record ----

  /** The last instant claimed for its first round. */
  function Last(log: seq<Event>): int {
    if log == [] then 0
    else
      var e := log[|log| - 1];
      if e.Claimed? then e.slot else Last(log[..|log| - 1])
  }

  /** An event an honest record may go on with: a claim only of a later instant, a
      second claim only of the last one claimed, not run twice and not recorded
      finished. */
  predicate MayFollow(log: seq<Event>, e: Event) {
    match e
    case Claimed(x) => x > Last(log)
    case Reran(x) => x == Last(log) > 0 && Recorded(x) !in log && Reran(x) !in log
    case Recorded(x) => 0 < x <= Last(log)
    case Overran(x) => x > Last(log)
  }

  predicate Honest(log: seq<Event>) {
    forall k {:trigger MayFollow(log[..k], log[k])} :: 0 <= k < |log| ==> MayFollow(log[..k], log[k])
  }

  // ---- the invariant ----

  predicate RowAgrees(s: State) {
    match s.row
    case None => s.log == [] && s.handles == map[] && s.pending == {} && s.found == {}
    case Some(row) =>
      row.holder < s.minted && 0 < Last(s.log) <= row.slot && row.rerun <= Last(s.log) &&
      (row.unfinished == 0 || (row.unfinished == Last(s.log) && Recorded(Last(s.log)) !in s.log)) &&
      (row.unfinished == 0 ==> Recorded(Last(s.log)) in s.log) && (Reran(Last(s.log)) in s.log ==> row.rerun == Last(s.log))
  }

  predicate HandlesAgree(s: State) {
    forall token :: token in s.handles ==>
      token < s.minted && s.row.Some? && 0 < s.handles[token].slot <= Last(s.log) && s.handles[token].term <= s.row.value.term &&
      (token == s.row.value.holder ==> s.handles[token].slot == Last(s.log)) &&
      (token == s.row.value.holder <==> s.handles[token].term == s.row.value.term)
  }

  predicate PendingAgree(s: State) {
    forall r :: r in s.pending ==>
      s.row.Some? && r.at > 0 && r.term <= s.row.value.term &&
      (r.term == s.row.value.term ==> Last(s.log) <= r.slot <= s.row.value.slot && (r.expired ==> Expired(s)))
  }

  predicate FoundAgree(s: State) {
    forall u :: u in s.found ==> s.row.Some? && u.term <= s.row.value.term && (u.term == s.row.value.term ==> u.slot == Last(s.log))
  }

  predicate Inv(s: State) {
    Honest(s.log) && RowAgrees(s) && HandlesAgree(s) && PendingAgree(s) && FoundAgree(s)
  }

  lemma HonestAppend(log: seq<Event>, e: Event)
    requires Honest(log) && MayFollow(log, e)
    ensures Honest(log + [e])
  {
    var more := log + [e];
    forall k | 0 <= k < |more| ensures MayFollow(more[..k], more[k]) {
      assert more[..k] == log[..k];
      if k == |log| { assert log[..k] == log; }
    }
  }

  lemma LastAppend(log: seq<Event>, e: Event)
    ensures Last(log + [e]) == if e.Claimed? then e.slot else Last(log)
  {
    assert (log + [e])[..|log|] == log;
  }

  // ---- every step keeps it ----

  lemma MintKeeps(s: State, term: nat, slot: int, row: LeaseRow, event: Event, t: State)
    requires Inv(s) && MayFollow(s.log, event) && (event.Claimed? || event.Reran?) && event.slot == slot
    requires row.holder == s.minted && row.term > (if s.row.Some? then s.row.value.term else 0)
    requires row.slot == row.unfinished == slot && row.rerun == (if event.Reran? then slot else if s.row.Some? then s.row.value.rerun else 0)
    requires t.row == Some(row) && t.minted == s.minted + 1 && t.handles == s.handles[s.minted := Handle(row.term, slot, false)]
    requires t.log == s.log + [event] && t.pending <= s.pending && t.found <= s.found
    ensures Inv(t)
  {
    HonestAppend(s.log, event);
    LastAppend(s.log, event);
    NoneBeyondLast(s.log);
    assert RowAgrees(t);
    assert HandlesAgree(t);
    assert PendingAgree(t);
    assert FoundAgree(t);
  }

  lemma {:induction false} NoneBeyondLast(log: seq<Event>)
    requires Honest(log)
    ensures Last(log) >= 0
    ensures forall x :: Recorded(x) in log || Reran(x) in log ==> x <= Last(log)
  {
    if log != [] {
      var n := |log| - 1;
      var rest := log[..n];
      assert forall k :: 0 <= k < n ==> rest[..k] == log[..k] && rest[k] == log[k];
      NoneBeyondLast(rest);
      assert MayFollow(log[..n], log[n]);
      assert log == rest + [log[n]];
    }
  }

  lemma WriteKeeps(s: State, read: Read)
    requires Inv(s) && Enabled(s, WriteClaim(read))
    ensures Inv(WriteClaimed(s, read))
  {
    if s.row.Some? && s.row.value.term == read.term && Expired(s) {
      var row := LeaseRow(s.minted, read.term + 1, s.now + Duration, read.at, read.at, s.row.value.rerun);
      MintKeeps(s, read.term, read.at, row, Claimed(read.at), WriteClaimed(s, read));
    }
  }

  lemma InsertKeeps(s: State, at: int)
    requires Inv(s) && at > 0
    ensures Inv(Do(s, Insert(at)))
  {
    if s.row.None? {
      MintKeeps(s, 1, at, LeaseRow(s.minted, 1, s.now + Duration, at, at, 0), Claimed(at), Do(s, Insert(at)));
    }
  }

  lemma ReclaimKeeps(s: State, u: Unfinished)
    requires Inv(s) && u in s.found
    ensures Inv(Reclaimed(s, u))
  {
    if IsCutShort(s) && s.row.value.term == u.term {
      var row := s.row.value.(holder := s.minted, term := s.row.value.term + 1, expires := s.now + Duration, rerun := s.row.value.slot);
      MintKeeps(s, u.term, u.slot, row, Reran(u.slot), Reclaimed(s, u));
    }
  }

  lemma FinishKeeps(s: State, token: nat, passed: int)
    requires Inv(s) && token in s.handles
    ensures Inv(Finished(s, token, passed))
  {
    if IsHolder(s, token) {
      var t, slot := Finished(s, token, passed), s.handles[token].slot;
      var first := s.log + [Recorded(slot)];
      HonestAppend(s.log, Recorded(slot));
      LastAppend(s.log, Recorded(slot));
      if s.row.value.slot < passed <= s.now {
        HonestAppend(first, Overran(passed));
        LastAppend(first, Overran(passed));
        assert t.log == first + [Overran(passed)];
      } else {
        assert t.log == first;
      }
    }
  }

  lemma FinishLateKeeps(s: State, token: nat)
    requires Inv(s) && token in s.handles
    ensures Inv(FinishedLate(s, token))
  {
    if s.row.value.unfinished == s.handles[token].slot {
      HonestAppend(s.log, Recorded(s.handles[token].slot));
      LastAppend(s.log, Recorded(s.handles[token].slot));
    }
  }

  /** Every step of every replica keeps the invariant. */
  lemma StepKeeps(s: State, step: Step)
    requires Inv(s) && Enabled(s, step)
    ensures Inv(Do(s, step))
  {
    match step
    case WriteClaim(read) => WriteKeeps(s, read);
    case Insert(at) => InsertKeeps(s, at);
    case ClaimRerun(u) => ReclaimKeeps(s, u);
    case Finish(token, passed) => FinishKeeps(s, token, passed);
    case FinishLate(token) => FinishLateKeeps(s, token);
    case _ =>
  }

  lemma {:induction false} RunKeeps(states: seq<State>, steps: seq<Step>, i: nat)
    requires IsRun(states, steps) && i < |states|
    ensures Inv(states[i])
  {
    if i > 0 {
      RunKeeps(states, steps, i - 1);
      StepKeeps(states[i - 1], steps[i - 1]);
    }
  }
}
