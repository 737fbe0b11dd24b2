/** What a job's loop keeps: the instants it hands out increase, none between the
    first and the one waited for goes unaccounted, and an overrun instant on record
    is not caught up. */
module JobProof {
  import opened Sql
  import opened Schedule
  import opened EverySchedule
  import opened JobLoop

  // ---- the instants handed out ----

  predicate Increasing(entries: seq<Entry>) {
    forall i, j :: 0 <= i < j < |entries| && entries[i].Handed? && entries[j].Handed? ==> entries[i].at < entries[j].at
  }

  /** Every instant handed out lies at or before top. */
  predicate HandedBy(entries: seq<Entry>, top: int) {
    forall i :: 0 <= i < |entries| && entries[i].Handed? ==> entries[i].at <= top
  }

  /** The clock as the loop last read it. */
  function Clock(t0: int, start: Start, events: seq<Event>): int {
    if events == [] then (if start.Caught? then start.ended else t0) else events[|events| - 1].ended
  }

  /** The clock never steps back, and a timer fires once its moment has come. */
  predicate Timed(s: Schedule, t0: int, first: Option<int>, start: Start, events: seq<Event>)
    decreases |events|
  {
    if events == [] then start.Caught? ==> start.at <= t0 <= start.ended
    else
      var rest, e := events[..|events| - 1], events[|events| - 1];
      var waiting := Turns(s, first, start, rest).next;
      Timed(s, t0, first, start, rest) && Clock(t0, start, rest) <= e.ended && (e.Due? && waiting.Some? ==> waiting.value <= e.ended)
  }

  lemma MoreEntries(entries: seq<Entry>, e: Entry, skips: seq<Entry>, top: int)
    requires Increasing(entries) && HandedBy(entries, top) && (e.Handed? ==> top < e.at)
    requires |skips| <= 1 && forall i :: 0 <= i < |skips| ==> skips[i].Skipped?
    ensures Increasing(entries + [e] + skips)
    ensures HandedBy(entries + [e] + skips, if e.Handed? then e.at else top)
  {
  }

  lemma AfterIsLater(s: Schedule, ran: int, now: int)
    requires AnswersFirst(s, Max(now, ran))
    ensures After(s, ran, now).Some? ==> After(s, ran, now).value > ran && After(s, ran, now).value > now && IsInstant(s, After(s, ran, now).value)
  {
    assert AnswersFirst(s, Max(now, ran));
  }

  lemma HigherTop(entries: seq<Entry>, low: int, high: int)
    requires HandedBy(entries, low) && low <= high
    ensures HandedBy(entries, high)
  {
  }

  /** A catch-up whose claim was lost. */
  predicate Lost(start: Start) { start.Caught? && !start.won }

  /** A lost catch-up leaves the loop waiting for its first instant: it has to be a later
      one. The scheduler reads the first instant off one clock and the catch-up's off a
      later one, and nothing keeps an instant from falling between. */
  predicate BeginsApart(first: Option<int>, start: Start) { Lost(start) && first.Some? ==> start.at < first.value }

  lemma BeginIncreases(s: Schedule, first: Option<int>, start: Start)
    requires start.Caught? && (start.won ==> AnswersFirst(s, Max(start.ended, start.at)))
    requires start.at <= start.ended && BeginsApart(first, start)
    ensures
      var l := Begin(s, first, start);
      Increasing(l.entries) && HandedBy(l.entries, start.ended) && (l.next.Some? ==> HandedBy(l.entries, l.next.value - 1))
  {
    if start.won {
      AfterIsLater(s, start.at, start.ended);
      MoreEntries([], Handed(start.at), Skips(s, start.at, After(s, start.at, start.ended)), start.at - 1);
      assert [] + [Handed(start.at)] == [Handed(start.at)];
    }
  }

  /** With a clock that never steps back, the instants a replica hands to runInstant
      strictly increase, across catch-up, due rounds and second rounds, and the one
      it waits for is later than all of them, when the loop begins apart. */
  lemma {:induction false} HandedInstantsIncrease(s: Schedule, low: int, high: int, t0: int, first: Option<int>, start: Start, events: seq<Event>)
    requires Answering(s, low, high) && Within(s, low, high, first, start, events) && Timed(s, t0, first, start, events)
    ensures
      var l := Turns(s, first, start, events);
      BeginsApart(first, start) ==>
        Increasing(l.entries) && HandedBy(l.entries, Clock(t0, start, events)) && (l.next.Some? ==> HandedBy(l.entries, l.next.value - 1))
    decreases |events|
  {
    if !BeginsApart(first, start) {
    } else if events == [] {
      if start.Caught? { BeginIncreases(s, first, start); }
    } else {
      var rest, e := events[..|events| - 1], events[|events| - 1];
      HandedInstantsIncrease(s, low, high, t0, first, start, rest);
      TurnIncreases(s, low, high, Turns(s, first, start, rest), e, Clock(t0, start, rest));
    }
  }

  lemma OneTurn(s: Schedule, first: Option<int>, start: Start, e: Event)
    ensures Turns(s, first, start, [e]) == Turn(s, Begin(s, first, start), e)
  {
    assert [e][..0] == [];
  }

  /** Whatever the loop meets from its start on. */
  ghost predicate AlwaysIncreases(s: Schedule, low: int, high: int, t0: int, first: Option<int>, start: Start) {
    forall events :: Within(s, low, high, first, start, events) && Timed(s, t0, first, start, events) ==> Increasing(Turns(s, first, start, events).entries)
  }

  /** The instants handed out increase, whatever wakes the loop, exactly when a lost
      catch-up lies before the loop's first instant. */
  lemma HandedInstantsIncreaseExactly(s: Schedule, low: int, high: int, t0: int, first: Option<int>, start: Start)
    requires Answering(s, low, high) && Within(s, low, high, first, start, []) && Timed(s, t0, first, start, [])
    requires first.Some? ==> Asks(low, high, first.value, Max(Clock(t0, start, []), first.value))
    ensures AlwaysIncreases(s, low, high, t0, first, start) <==> BeginsApart(first, start)
  {
    if BeginsApart(first, start) {
      forall events | Within(s, low, high, first, start, events) && Timed(s, t0, first, start, events)
        ensures Increasing(Turns(s, first, start, events).entries)
      {
        HandedInstantsIncrease(s, low, high, t0, first, start, events);
      }
    } else {
      var events := [Due(Max(Clock(t0, start, []), first.value))];
      OneTurn(s, first, start, events[0]);
      assert events[..0] == [];
      var entries := Turns(s, first, start, events).entries;
      assert entries[0] == Handed(start.at) && entries[1] == Handed(first.value);
      assert !Increasing(entries) && Within(s, low, high, first, start, events) && Timed(s, t0, first, start, events);
    }
  }

  /** A lost catch-up leaves its own entry, and the loop as it would be without it. */
  lemma {:induction false} LostCatchUpChangesNothing(s: Schedule, first: Option<int>, start: Start, events: seq<Event>)
    requires Lost(start)
    ensures Turns(s, first, start, events).next == Turns(s, first, Fresh, events).next
    ensures Turns(s, first, start, events).entries == [Handed(start.at)] + Turns(s, first, Fresh, events).entries
    decreases |events|
  {
    if events != [] { LostCatchUpChangesNothing(s, first, start, events[..|events| - 1]); }
  }

  /** One turn asks about moments between low and high. */
  predicate TurnWithin(low: int, high: int, l: Loop, e: Event) {
    l.next.Some? ==>
      match e
      case Due(ended) => Asks(low, high, l.next.value, ended)
      case CutShort(slot, won, ended) => won ==> Asks(low, high, slot, ended)
  }

  lemma TurnIncreases(s: Schedule, low: int, high: int, l: Loop, e: Event, clock: int)
    requires Answering(s, low, high) && TurnWithin(low, high, l, e) && Increasing(l.entries) && HandedBy(l.entries, clock) && clock <= e.ended
    requires l.next.Some? ==> HandedBy(l.entries, l.next.value - 1) && (e.Due? ==> l.next.value <= e.ended)
    ensures
      var m := Turn(s, l, e);
      Increasing(m.entries) && HandedBy(m.entries, e.ended) && (m.next.Some? ==> HandedBy(m.entries, m.next.value - 1))
  {
    HigherTop(l.entries, clock, e.ended);
    if l.next.Some? && (e.Due? || e.won) {
      var ran := if e.Due? then l.next.value else e.slot;
      AfterIsLater(s, ran, e.ended);
      if e.Due? {
        MoreEntries(l.entries, Handed(ran), Skips(s, ran, After(s, ran, e.ended)), ran - 1);
      } else {
        MoreEntries(l.entries, Rerun(ran), Skips(s, ran, After(s, ran, e.ended)), clock);
      }
    }
  }

  /** Due rounds one after the other hand out later and later instants wherever the
      clock goes. */
  lemma {:induction false} DueInstantsIncrease(s: Schedule, low: int, high: int, first: Option<int>, events: seq<Event>)
    requires Answering(s, low, high) && Within(s, low, high, first, Fresh, events) && forall i :: 0 <= i < |events| ==> events[i].Due?
    ensures
      var l := Turns(s, first, Fresh, events);
      Increasing(l.entries) && (l.next.Some? ==> HandedBy(l.entries, l.next.value - 1))
    decreases |events|
  {
    if events != [] {
      var rest, e := events[..|events| - 1], events[|events| - 1];
      DueInstantsIncrease(s, low, high, first, rest);
      var l := Turns(s, first, Fresh, rest);
      if l.next.Some? {
        AfterIsLater(s, l.next.value, e.ended);
        MoreEntries(l.entries, Handed(l.next.value), Skips(s, l.next.value, After(s, l.next.value, e.ended)), l.next.value - 1);
      }
    }
  }

  /** The loop waits for an instant later than h, an instant of the schedule, exactly
      when the round it ran or its clock has reached h: a second round of an earlier
      instant, on a clock set back before h, has h handed out again. */
  lemma WaitsPastExactly(s: Schedule, ran: int, now: int, h: int)
    requires AnswersFirst(s, Max(now, ran)) && IsInstant(s, h)
    ensures (After(s, ran, now).Some? ==> After(s, ran, now).value > h) <==> h <= ran || h <= now
  {
    assert AnswersFirst(s, Max(now, ran));
  }

  // ---- every instant accounted for ----

  predicate Covers(s: Schedule, e: Entry, x: int) {
    match e
    case Handed(at) => x == at
    case Rerun(at) => x == at
    case Skipped(after, next, _) => x in Between(s, after, next)
  }

  predicate Accounted(s: Schedule, entries: seq<Entry>, x: int) {
    exists i :: 0 <= i < |entries| && Covers(s, entries[i], x)
  }

  lemma AccountedAppend(s: Schedule, a: seq<Entry>, b: seq<Entry>, x: int)
    ensures Accounted(s, a + b, x) <==> Accounted(s, a, x) || Accounted(s, b, x)
  {
    if Accounted(s, a, x) {
      var i :| 0 <= i < |a| && Covers(s, a[i], x);
      assert (a + b)[i] == a[i];
    }
    if Accounted(s, b, x) {
      var i :| 0 <= i < |b| && Covers(s, b[i], x);
      assert (a + b)[|a| + i] == b[i];
    }
  }

  /** A round and the skips after it account for the instants from its own up to the
      one waited for, and no others. */
  lemma RoundAccounts(s: Schedule, e: Entry, ran: int, following: int, x: int)
    requires IsInstant(s, x) && (e == Handed(ran) || e == Rerun(ran)) && ran < following
    ensures Accounted(s, [e] + Skips(s, ran, Some(following)), x) <==> ran <= x < following
  {
    var entries := [e] + Skips(s, ran, Some(following));
    assert Covers(s, entries[0], x) <==> x == ran;
    if x in Between(s, ran, following) {
      NotEmpty(Between(s, ran, following), x);
      assert Covers(s, entries[1], x);
    }
  }

  lemma NotEmpty(xs: set<int>, x: int)
    requires x in xs
    ensures |xs| > 0
  {
  }

  /** The schedule has an instant after every moment between low and high. */
  ghost predicate Lasting(s: Schedule, low: int, high: int) { forall t :: low <= t <= high ==> s.next(t).Some? }

  /** A second round keeps every instant accounted for, from the one that was waited
      for up to the one waited for next, exactly when its own is not later than the
      one that was waited for. */
  lemma SecondRoundAccountsExactly(s: Schedule, waiting: int, slot: int, ended: int)
    requires AnswersFirst(s, Max(ended, slot)) && After(s, slot, ended).Some? && IsInstant(s, waiting)
    ensures
      (forall x :: waiting <= x < After(s, slot, ended).value && IsInstant(s, x) ==>
        Accounted(s, [Rerun(slot)] + Skips(s, slot, After(s, slot, ended)), x)) <==> slot <= waiting
  {
    var following := After(s, slot, ended).value;
    AfterIsLater(s, slot, ended);
    forall x | IsInstant(s, x) ensures Accounted(s, [Rerun(slot)] + Skips(s, slot, Some(following)), x) <==> slot <= x < following {
      RoundAccounts(s, Rerun(slot), slot, following, x);
    }
  }

  /** The latest instant the loop has waited for. */
  function Latest(s: Schedule, first: int, start: Start, events: seq<Event>): int
    decreases |events|
  {
    var next := Turns(s, Some(first), start, events).next;
    var before := if events == [] then first else Latest(s, first, start, events[..|events| - 1]);
    if next.Some? then Max(before, next.value) else before
  }

  /** A catch-up that was won, and every second round, was of an instant no later than
      the latest the loop had waited for. */
  predicate Behind(s: Schedule, first: int, start: Start, events: seq<Event>)
    decreases |events|
  {
    if events == [] then start.Caught? && start.won ==> start.at <= first
    else
      var rest, e := events[..|events| - 1], events[|events| - 1];
      Behind(s, first, start, rest) && (e.CutShort? && e.won ==> e.slot <= Latest(s, first, start, rest))
  }

  /** Every instant from the loop's first up to the latest it waited for was handed out,
      run a second time, or counted as skipped. */
  ghost predicate AllAccounted(s: Schedule, first: int, start: Start, events: seq<Event>) {
    forall x :: IsInstant(s, x) && first <= x < Latest(s, first, start, events) ==> Accounted(s, Turns(s, Some(first), start, events).entries, x)
  }

  /** It was so at every turn. */
  ghost predicate AlwaysAccounted(s: Schedule, first: int, start: Start, events: seq<Event>)
    decreases |events|
  {
    AllAccounted(s, first, start, events) && (events == [] || AlwaysAccounted(s, first, start, events[..|events| - 1]))
  }

  /** What a loop that never runs dry keeps: it waits for an instant, none later than the
      latest, and accounts for none past that, a lost catch-up's own aside. */
  lemma {:induction false} LatestHolds(s: Schedule, low: int, high: int, first: int, start: Start, events: seq<Event>)
    requires Answering(s, low, high) && Lasting(s, low, high) && Within(s, low, high, Some(first), start, events) && IsInstant(s, first)
    ensures
      var l, latest := Turns(s, Some(first), start, events), Latest(s, first, start, events);
      l.next.Some? && first <= latest && l.next.value <= latest && IsInstant(s, latest) && IsInstant(s, l.next.value) &&
      (!Lost(start) ==> forall x :: IsInstant(s, x) && latest <= x ==> !Accounted(s, l.entries, x))
    decreases |events|
  {
    if events == [] {
      if start.Caught? && start.won { BeginHolds(s, first, start); }
    } else {
      var rest, e := events[..|events| - 1], events[|events| - 1];
      LatestHolds(s, low, high, first, start, rest);
      forall x | IsInstant(s, x) && Latest(s, first, start, events) <= x && !Lost(start)
        ensures !Accounted(s, Turns(s, Some(first), start, events).entries, x)
      {
        TurnAdds(s, low, high, Turns(s, Some(first), start, rest), e, x);
      }
      TurnAdds(s, low, high, Turns(s, Some(first), start, rest), e, first);
    }
  }

  lemma BeginHolds(s: Schedule, first: int, start: Start)
    requires start.Caught? && start.won && AnswersFirst(s, Max(start.ended, start.at)) && s.next(Max(start.ended, start.at)).Some?
    ensures
      var l := Begin(s, Some(first), start);
      l.next.Some? && IsInstant(s, l.next.value) && start.at < l.next.value &&
      forall x :: IsInstant(s, x) ==> (Accounted(s, l.entries, x) <==> start.at <= x < l.next.value)
  {
    AfterIsLater(s, start.at, start.ended);
    forall x | IsInstant(s, x) ensures Accounted(s, Begin(s, Some(first), start).entries, x) <==> start.at <= x < After(s, start.at, start.ended).value {
      RoundAccounts(s, Handed(start.at), start.at, After(s, start.at, start.ended).value, x);
    }
  }

  /** What one turn adds to the instants accounted for: those from its round's own up to
      the one waited for next. */
  lemma TurnAdds(s: Schedule, low: int, high: int, l: Loop, e: Event, x: int)
    requires Answering(s, low, high) && Lasting(s, low, high) && TurnWithin(low, high, l, e) && IsInstant(s, x) && l.next.Some?
    ensures
      var m, ran := Turn(s, l, e), if e.Due? then l.next.value else e.slot;
      m.next.Some? && (IsInstant(s, l.next.value) ==> IsInstant(s, m.next.value)) &&
      (Accounted(s, m.entries, x) <==> Accounted(s, l.entries, x) || ((e.Due? || e.won) && ran <= x < m.next.value)) &&
      (e.Due? || e.won ==> ran < m.next.value)
  {
    if e.Due? || e.won {
      var ran := if e.Due? then l.next.value else e.slot;
      var entry := if e.Due? then Handed(ran) else Rerun(ran);
      AfterIsLater(s, ran, e.ended);
      assert s.next(Max(e.ended, ran)).Some?;
      RoundAccounts(s, entry, ran, After(s, ran, e.ended).value, x);
      AccountedAppend(s, l.entries, [entry] + Skips(s, ran, After(s, ran, e.ended)), x);
      assert l.entries + [entry] + Skips(s, ran, After(s, ran, e.ended)) == l.entries + ([entry] + Skips(s, ran, After(s, ran, e.ended)));
    }
  }

  /** Behind rounds keep every instant accounted for, whatever became of the catch-up. */
  lemma {:induction false} InstantsAreAccounted(s: Schedule, low: int, high: int, first: int, start: Start, events: seq<Event>)
    requires Answering(s, low, high) && Lasting(s, low, high) && Within(s, low, high, Some(first), start, events) && IsInstant(s, first)
    requires Behind(s, first, start, events)
    ensures AlwaysAccounted(s, first, start, events)
    decreases |events|
  {
    if events == [] {
      if start.Caught? && start.won { BeginHolds(s, first, start); }
    } else {
      var rest, e := events[..|events| - 1], events[|events| - 1];
      InstantsAreAccounted(s, low, high, first, start, rest);
      LatestHolds(s, low, high, first, start, rest);
      forall x | IsInstant(s, x) && first <= x < Latest(s, first, start, events)
        ensures Accounted(s, Turns(s, Some(first), start, events).entries, x)
      {
        TurnAdds(s, low, high, Turns(s, Some(first), start, rest), e, x);
      }
    }
  }

  /** A round past the latest instant waited for leaves that one unaccounted. */
  lemma {:induction false} AccountedIsBehind(s: Schedule, low: int, high: int, first: int, start: Start, events: seq<Event>)
    requires Answering(s, low, high) && Lasting(s, low, high) && Within(s, low, high, Some(first), start, events) && IsInstant(s, first)
    requires AlwaysAccounted(s, first, start, events) && !Lost(start)
    ensures Behind(s, first, start, events)
    decreases |events|
  {
    if events == [] {
      if start.Caught? { BeginHolds(s, first, start); }
    } else {
      var rest, e := events[..|events| - 1], events[|events| - 1];
      AccountedIsBehind(s, low, high, first, start, rest);
      LatestHolds(s, low, high, first, start, rest);
      TurnAdds(s, low, high, Turns(s, Some(first), start, rest), e, Latest(s, first, start, rest));
    }
  }

  /** At every turn every instant up to the latest waited for is accounted for exactly
      when the catch-up, if it was won, and every second round were of instants no later
      than the latest waited for by then. A lost catch-up changes nothing of it. */
  lemma InstantsAreAccountedExactly(s: Schedule, low: int, high: int, first: int, start: Start, events: seq<Event>)
    requires Answering(s, low, high) && Lasting(s, low, high) && Within(s, low, high, Some(first), start, events) && IsInstant(s, first)
    ensures !Lost(start) ==> (AlwaysAccounted(s, first, start, events) <==> Behind(s, first, start, events))
    ensures Lost(start) ==> (Behind(s, first, start, events) ==> AlwaysAccounted(s, first, start, events))
  {
    if Behind(s, first, start, events) {
      InstantsAreAccounted(s, low, high, first, start, events);
    } else if !Lost(start) && AlwaysAccounted(s, first, start, events) {
      AccountedIsBehind(s, low, high, first, start, events);
    }
  }

  /** A loop over a schedule firing every period, from the epoch on and within int64:
      what it hands out increases when it begins apart, and every instant is accounted
      for when its rounds are behind. */
  lemma EveryLoopIsRight(period: int, low: int, high: int, t0: int, first: int, start: Start, events: seq<Event>)
    requires 0 < period <= MaxInt64 && 0 <= low && GridAfter(period, high) <= MaxInt64 && IsInstant(Every(period), first)
    requires Within(Every(period), low, high, Some(first), start, events) && Timed(Every(period), t0, Some(first), start, events)
    ensures BeginsApart(Some(first), start) ==> Increasing(Turns(Every(period), Some(first), start, events).entries)
    ensures Behind(Every(period), first, start, events) ==> AlwaysAccounted(Every(period), first, start, events)
  {
    EveryAnswersRange(period, low, high);
    HandedInstantsIncrease(Every(period), low, high, t0, Some(first), start, events);
    InstantsAreAccountedExactly(Every(period), low, high, first, start, events);
  }

  /** Every ten seconds, the first instant read as the one at 10 before 10 and a catch-up
      of it lost after: it is handed out a second time. */
  lemma LostCatchUpIsHandedTwice()
    ensures
      var s, second := Every(10_000_000_000), 1_000_000_000;
      var start, events := Caught(10 * second, false, 10 * second), [Due(11 * second)];
      IsPrevious(s, 10 * second, 10 * second) && Timed(s, 10 * second, Some(10 * second), start, events) &&
      var entries := Turns(s, Some(10 * second), start, events).entries;
      entries[..2] == [Handed(10 * second), Handed(10 * second)] && !Increasing(entries)
  {
    var s, second := Every(10_000_000_000), 1_000_000_000;
    var start, events := Caught(10 * second, false, 10 * second), [Due(11 * second)];
    EveryAnswers(10_000_000_000, 10 * second - 1);
    AnswersOnGrid(10_000_000_000, 10 * second - 1);
    OneTurn(s, Some(10 * second), start, events[0]);
    assert events[..0] == [];
    var entries := Turns(s, Some(10 * second), start, events).entries;
    assert |entries| >= 2 && entries[0] == Handed(10 * second) && entries[1] == Handed(10 * second);
  }

  lemma TenSecondsGrid()
    ensures
      var s, second := Every(10_000_000_000), 1_000_000_000;
      After(s, 20 * second, 25 * second) == Some(30 * second) && IsInstant(s, 10 * second)
  {
    var second := 1_000_000_000;
    EveryAnswers(10_000_000_000, 25 * second);
    EveryAnswers(10_000_000_000, 10 * second - 1);
    AnswersOnGrid(10_000_000_000, 25 * second);
    AnswersOnGrid(10_000_000_000, 10 * second - 1);
  }

  /** The first instant read as the one at 10, and the one at 20 caught up: the loop goes
      on to 30, and the instant at 10 is in no entry. */
  lemma LaterCatchUpLosesInstant()
    ensures
      var s, second := Every(10_000_000_000), 1_000_000_000;
      var l := Turns(s, Some(10 * second), Caught(20 * second, true, 25 * second), []);
      l.next == Some(30 * second) && IsInstant(s, 10 * second) && !Accounted(s, l.entries, 10 * second)
  {
    var s, second := Every(10_000_000_000), 1_000_000_000;
    TenSecondsGrid();
    RoundAccounts(s, Handed(20 * second), 20 * second, 30 * second, 10 * second);
  }

  /** Every ten seconds, waiting for the instant at 10 and handed a round of the one at
      20 that another replica claimed: the instant at 10 is lost from the log. */
  lemma LaterSecondRoundLosesInstant()
    ensures
      var s, second := Every(10_000_000_000), 1_000_000_000;
      var following := After(s, 20 * second, 25 * second);
      following == Some(30 * second) && IsInstant(s, 10 * second) &&
      !Accounted(s, [Rerun(20 * second)] + Skips(s, 20 * second, following), 10 * second)
  {
    var s, second := Every(10_000_000_000), 1_000_000_000;
    TenSecondsGrid();
    RoundAccounts(s, Rerun(20 * second), 20 * second, 30 * second, 10 * second);
  }

  // ---- the record of a round's end ----

  /** What a round that ran to its end takes along: the most recent instant by then. */
  ghost predicate Passed(s: Schedule, now: int, passed: Option<int>) {
    if passed.Some? then IsPrevious(s, now, passed.value)
    else forall x :: now - CatchUpLookback < x <= now ==> !IsInstant(s, x)
  }
}
