/** How long a lease holds its name: whatever the replicas do meanwhile, from a claim
    or a renewal on nobody else claims it for the whole of its duration. */
module LeaseHolds {
  import opened Sql
  import opened Lease
  import opened RoundEnds

  /** The holder's own statements that give the name back. */
  predicate GivesBack(step: Step, token: nat) { step == Release(token) || (step.Finish? && step.token == token) }

  /** The name is token's, under this term and for this instant, until then at least. */
  predicate Holds(s: State, token: nat, term: nat, slot: int, until: int) {
    s.row.Some? && s.row.value.holder == token && s.row.value.term == term && s.row.value.slot == slot && s.row.value.expires >= until
  }

  /** No round starts between the two records. */
  predicate NoneStarted(before: seq<Event>, log: seq<Event>) {
    before <= log && forall k :: |before| <= k < |log| ==> !log[k].Claimed? && !log[k].Reran?
  }

  lemma StepHolds(s: State, step: Step, token: nat, term: nat, slot: int, until: int)
    requires Enabled(s, step) && !GivesBack(step, token) && Holds(s, token, term, slot, until) && s.now < until <= s.now + Duration
    ensures Holds(Do(s, step), token, term, slot, until) && NoneStarted(s.log, Do(s, step).log) && Do(s, step).now >= s.now
  {
  }

  /** Until it expires a lease is held, its holder's own end aside. */
  lemma {:induction false} HeldUntilExpiry(s: State, states: seq<State>, steps: seq<Step>, token: nat, i: nat)
    requires IsHolder(s, token) && s.row.value.expires <= s.now + Duration && RunsOn(s, states, steps) && i < |states|
    requires states[i].now < s.row.value.expires && forall j :: 0 <= j < i ==> !GivesBack(steps[j], token)
    ensures Holds(states[i], token, s.row.value.term, s.row.value.slot, s.row.value.expires) && NoneStarted(s.log, states[i].log)
    ensures s.now <= states[i].now
  {
    if i > 0 {
      ClockAdvances(s, states, steps, i - 1);
      HeldUntilExpiry(s, states, steps, token, i - 1);
      StepHolds(states[i - 1], steps[i - 1], token, s.row.value.term, s.row.value.slot, s.row.value.expires);
    }
  }

  lemma ClockAdvances(s: State, states: seq<State>, steps: seq<Step>, i: nat)
    requires RunsOn(s, states, steps) && i < |steps|
    ensures states[i].now <= states[i + 1].now
  {
    assert states[i + 1] == Do(states[i], steps[i]);
  }

  /** A renewal of an unexpired lease holds the name for the whole duration from when
      it was written: nobody starts a round of the job before. */
  lemma RenewalHolds(s: State, states: seq<State>, steps: seq<Step>, token: nat, i: nat)
    requires token in s.handles && IsHolder(s, token) && !Expired(s)
    requires RunsOn(Do(s, Renew(token)), states, steps) && i < |states|
    requires states[i].now < s.now + 15000 && forall j :: 0 <= j < i ==> !GivesBack(steps[j], token)
    ensures Holds(states[i], token, s.row.value.term, s.row.value.slot, s.now + 15000) && NoneStarted(s.log, states[i].log)
  {
    HeldUntilExpiry(Do(s, Renew(token)), states, steps, token, i);
  }

  /** A lease that expired, or is another's by now, is renewed no more. */
  lemma LateRenewalIsLost(s: State, token: nat)
    requires token in s.handles && (Expired(s) || !IsHolder(s, token))
    ensures Do(s, Renew(token)) == s
  {
  }

  /** The first claim of a name, a claim that lands and one of a round cut short: each
      holds it for the duration, for the instant claimed. */
  lemma ClaimHolds(s: State, step: Step, states: seq<State>, steps: seq<Step>, i: nat)
    requires Enabled(s, step) && Do(s, step).minted == s.minted + 1
    requires RunsOn(Do(s, step), states, steps) && i < |states|
    requires states[i].now < s.now + 15000 && forall j :: 0 <= j < i ==> !GivesBack(steps[j], s.minted)
    ensures
      var t := Do(s, step);
      t.row.Some? && t.log[|s.log|..] == [if step.ClaimRerun? then Reran(t.handles[s.minted].slot) else Claimed(t.handles[s.minted].slot)] &&
      Holds(states[i], s.minted, t.handles[s.minted].term, t.row.value.slot, s.now + 15000) && NoneStarted(t.log, states[i].log)
  {
    HeldUntilExpiry(Do(s, step), states, steps, s.minted, i);
  }

  /** From the moment it expires on, whoever read the name since its last claim and read
      it expired, for an instant after its last, claims it. */
  lemma ExpiredNameIsClaimed(s: State, read: Read)
    requires Enabled(s, WriteClaim(read)) && s.row.Some? && read.term == s.row.value.term && s.now >= s.row.value.expires
    ensures
      var t := Do(s, WriteClaim(read));
      t.minted == s.minted + 1 && t.log == s.log + [Claimed(read.at)] && t.handles[s.minted] == Handle(s.row.value.term + 1, read.at, false) &&
      t.row == Some(LeaseRow(s.minted, s.row.value.term + 1, s.now + 15000, read.at, read.at, s.row.value.rerun))
  {
  }

  /** No statement of a claim or of a round's end is sent twice: what it was sent for is
      gone with it. */
  lemma StatementsAreSentOnce(s: State, step: Step)
    requires Enabled(s, step)
    requires step.WriteClaim? || step.ClaimRerun? || step.Crash? || step.FinishLate? || ((step.Release? || step.Finish?) && IsHolder(s, step.token))
    requires forall token :: token in s.handles ==> token < s.minted
    ensures !Enabled(Do(s, step), step)
  {
  }
}
