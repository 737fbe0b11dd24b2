/** One job's loop (cronjob/job.go): which instants it hands out, catches up, runs
    again or skips, and the claim it retries. The clock, the lease's answers and the
    order the loop's channels fire in are its inputs. */
module JobLoop {
  import opened Sql
  import opened Schedule

  /** The schedule answers the first instant after from, and after every instant
      between from and to: the moments a count of them asks about. */
  ghost predicate Counts(s: Schedule, from: int, to: Option<int>) {
    forall t :: t == from || (to.Some? && from < t < to.value && IsInstant(s, t)) ==> AnswersFirst(s, t)
  }

  function Between(s: Schedule, from: int, to: int): set<int> {
    set x | from < x < to && IsInstant(s, x)
  }

  /** The instants a run overran: those after it and before the one waited for. */
  function Overrun(s: Schedule, from: int, to: Option<int>): set<int> {
    if to.None? then {} else Between(s, from, to.value)
  }

  method InstantsBetween(s: Schedule, from: int, to: Option<int>) returns (skipped: nat)
    requires Counts(s, from, to)
    ensures skipped == |Overrun(s, from, to)|
  {
    skipped := 0;
    var t := s.next(from);
    ghost var last := from;
    assert AnswersFirst(s, from);
    assert Between(s, from, last + 1) == {};
    while t.Some? && to.Some? && t.value < to.value
      invariant last == from || (to.Some? && from < last < to.value && IsInstant(s, last))
      invariant t == s.next(last) && skipped == |Between(s, from, last + 1)| && (to.None? ==> last == from)
      decreases if to.Some? then to.value - last else 0
    {
      BetweenStep(s, from, last);
      last := t.value;
      t := s.next(t.value);
      skipped := skipped + 1;
    }
    if to.Some? { BetweenEnds(s, from, last, to.value); }
  }

  lemma BetweenStep(s: Schedule, from: int, last: int)
    requires from <= last && AnswersFirst(s, last) && s.next(last).Some?
    ensures |Between(s, from, s.next(last).value + 1)| == |Between(s, from, last + 1)| + 1
  {
    var t := s.next(last).value;
    assert Between(s, from, t + 1) == Between(s, from, last + 1) + {t};
  }

  lemma BetweenEnds(s: Schedule, from: int, last: int, to: int)
    requires from <= last && AnswersFirst(s, last) && (s.next(last).Some? ==> to <= s.next(last).value) && (last == from || last < to)
    ensures Between(s, from, to) == Between(s, from, last + 1)
  {
  }

  function Max(a: int, b: int): int { if a < b then b else a }

  /** The instant waited for once the round for ran ended at now: the first after
      now, and never ran itself again. */
  function After(s: Schedule, ran: int, now: int): Option<int> { s.next(Max(now, ran)) }

  datatype Entry = Handed(at: int) | Rerun(at: int) | Skipped(after: int, next: int, count: nat)

  /** The loop's record of the instants a round overran, when it overran any. */
  function Skips(s: Schedule, ran: int, following: Option<int>): seq<Entry> {
    var count := |Overrun(s, ran, following)|;
    if count > 0 then [Skipped(ran, following.value, count)] else []
  }

  method NextAfter(s: Schedule, ran: int, now: int) returns (following: Option<int>, skips: seq<Entry>)
    requires Answering(s, ran, Max(now, ran))
    ensures following == After(s, ran, now) && skips == Skips(s, ran, following)
  {
    assert AnswersFirst(s, Max(now, ran));
    var after := now;
    if after < ran { after := ran; }
    following := s.next(after);
    var skipped := InstantsBetween(s, ran, following);
    skips := if skipped > 0 then [Skipped(ran, following.value, skipped)] else [];
  }

  // ---- the catch-up ----

  datatype LastSlot = Unanswered | NeverClaimed | At(slot: int)

  /** The instant caught up: the most recent one, when the job has run before and the
      last instant on record is earlier. */
  method CatchUp(s: Schedule, now: int, last: LastSlot) returns (at: Option<int>)
    requires Answering(s, now - CatchUpLookback, now) && Spaced(s, now - CatchUpLookback, now)
    ensures forall x :: at == Some(x) <==> IsPrevious(s, now, x) && last.At? && last.slot < x
  {
    var prev := PreviousInstant(s, now);
    if prev.None? || !last.At? || prev.value <= last.slot { return None; }
    return prev;
  }

  // ---- the claim ----

  datatype Outcome = Won | Refused | Failed

  /** What one try of the claim meets: its outcome, whether the loop's context had
      ended by then, the clock after it, and whether the context ended during the
      wait for the next try. */
  datatype Try = Try(outcome: Outcome, ended: bool, now: int, endedWaiting: bool)

  const RetryInterval := 2_000_000_000

  /** The claim ends with this try: it was answered, the process is stopping, or the
      next try would not come before the next instant. */
  predicate Settles(s: Schedule, at: int, t: Try) {
    t.outcome != Failed || t.ended || t.endedWaiting ||
    (s.next(at).Some? && s.next(at).value <= t.now + RetryInterval)
  }

  /** The claim of an instant is tried until a try settles it, and no further; None
      while none of the tries has. */
  method ClaimSlot(s: Schedule, at: int, tries: seq<Try>) returns (claimed: Option<bool>, made: nat)
    ensures made <= |tries| && forall k :: 0 <= k < made - 1 ==> !Settles(s, at, tries[k])
    ensures claimed.Some? ==> made > 0 && Settles(s, at, tries[made - 1]) && (claimed.value <==> tries[made - 1].outcome == Won)
    ensures claimed.None? <==> forall k :: 0 <= k < |tries| ==> !Settles(s, at, tries[k])
  {
    made := 0;
    var following := s.next(at);
    while made < |tries|
      invariant made <= |tries| && forall k :: 0 <= k < made ==> !Settles(s, at, tries[k])
    {
      var t := tries[made];
      made := made + 1;
      if t.outcome != Failed || t.ended { return Some(t.outcome == Won), made; }
      var retryAt := t.now + RetryInterval;
      if following.Some? && retryAt >= following.value { return Some(false), made; }
      if t.endedWaiting { return Some(false), made; }
    }
    claimed := None;
  }

  /** A claim is tried again two seconds on, unless the next instant comes by then. */
  lemma RetriesInTwoSeconds(s: Schedule, at: int, t: Try)
    requires t.outcome == Failed && !t.ended && !t.endedWaiting
    ensures !Settles(s, at, t) <==> (s.next(at).Some? ==> t.now + 2_000_000_000 < s.next(at).value)
  {
  }

  // ---- the loop ----

  /** What wakes the loop: the instant waited for, its round ended at a moment, or a
      round cut short, which runs again when its claim is won. */
  datatype Event = Due(ended: int) | CutShort(slot: int, won: bool, ended: int)

  /** A catch-up handed out, won or not, its round ended at a moment. */
  datatype Start = Fresh | Caught(at: int, won: bool, ended: int)

  datatype Loop = Loop(next: Option<int>, entries: seq<Entry>)

  function Begin(s: Schedule, first: Option<int>, start: Start): Loop {
    match start
    case Fresh => Loop(first, [])
    case Caught(at, won, ended) =>
      if won then Loop(After(s, at, ended), [Handed(at)] + Skips(s, at, After(s, at, ended))) else Loop(first, [Handed(at)])
  }

  /** One turn of the loop; a loop with no instant left has ended. */
  function Turn(s: Schedule, l: Loop, e: Event): Loop {
    if l.next.None? then l
    else match e
      case Due(ended) =>
        var following := After(s, l.next.value, ended);
        Loop(following, l.entries + [Handed(l.next.value)] + Skips(s, l.next.value, following))
      case CutShort(slot, won, ended) =>
        if won then Loop(After(s, slot, ended), l.entries + [Rerun(slot)] + Skips(s, slot, After(s, slot, ended))) else l
  }

  function Turns(s: Schedule, first: Option<int>, start: Start, events: seq<Event>): Loop {
    if events == [] then Begin(s, first, start)
    else Turn(s, Turns(s, first, start, events[..|events| - 1]), events[|events| - 1])
  }

  /** The moments the loop asks its schedule about after the round for ran, which ended
      at now, lie between low and high. */
  predicate Asks(low: int, high: int, ran: int, now: int) { low <= ran && Max(now, ran) <= high }

  /** Every round of the loop asks about moments between low and high. */
  predicate Within(s: Schedule, low: int, high: int, first: Option<int>, start: Start, events: seq<Event>)
    decreases |events|
  {
    if events == [] then start.Caught? && start.won ==> Asks(low, high, start.at, start.ended)
    else
      var rest, e := events[..|events| - 1], events[|events| - 1];
      var waiting := Turns(s, first, start, rest).next;
      Within(s, low, high, first, start, rest) &&
      (waiting.Some? ==>
        match e
        case Due(ended) => Asks(low, high, waiting.value, ended)
        case CutShort(slot, won, ended) => won ==> Asks(low, high, slot, ended))
  }

  lemma {:induction false} WithinPrefix(s: Schedule, low: int, high: int, first: Option<int>, start: Start, events: seq<Event>, n: nat)
    requires Within(s, low, high, first, start, events) && n <= |events|
    ensures Within(s, low, high, first, start, events[..n])
    decreases |events|
  {
    if n < |events| {
      var rest := events[..|events| - 1];
      WithinPrefix(s, low, high, first, start, rest, n);
      assert rest[..n] == events[..n];
    } else {
      assert events[..n] == events;
    }
  }

  lemma {:induction false} EndedStaysEnded(s: Schedule, first: Option<int>, start: Start, events: seq<Event>, i: nat)
    requires i <= |events| && Turns(s, first, start, events[..i]).next.None?
    ensures Turns(s, first, start, events) == Turns(s, first, start, events[..i])
    decreases |events|
  {
    if i < |events| {
      var n := |events| - 1;
      assert events[..n][..i] == events[..i];
      EndedStaysEnded(s, first, start, events[..n], i);
    } else {
      assert events[..i] == events;
    }
  }

  method RunLoop(s: Schedule, first: Option<int>, start: Start, events: seq<Event>, ghost low: int, ghost high: int) returns (next: Option<int>, entries: seq<Entry>)
    requires Answering(s, low, high) && Within(s, low, high, first, start, events)
    ensures Loop(next, entries) == Turns(s, first, start, events)
  {
    next, entries := first, [];
    WithinPrefix(s, low, high, first, start, events, 0);
    var skips;
    if start.Caught? {
      entries := [Handed(start.at)];
      if start.won {
        next, skips := NextAfter(s, start.at, start.ended);
        entries := entries + skips;
      }
    }
    for i := 0 to |events|
      invariant Loop(next, entries) == Turns(s, first, start, events[..i])
    {
      assert events[..i + 1][..i] == events[..i];
      WithinPrefix(s, low, high, first, start, events, i + 1);
      if next.None? {
        EndedStaysEnded(s, first, start, events, i);
        return;
      }
      match events[i]
      case Due(ended) =>
        entries := entries + [Handed(next.value)];
        next, skips := NextAfter(s, next.value, ended);
        entries := entries + skips;
      case CutShort(slot, won, ended) =>
        if won {
          entries := entries + [Rerun(slot)];
          next, skips := NextAfter(s, slot, ended);
          entries := entries + skips;
        }
    }
    assert events[..|events|] == events;
  }
}
