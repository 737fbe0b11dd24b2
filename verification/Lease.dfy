/** The lease row the replicas of a scheduler share (internal/lease/slot.go,
    internal/lease/lease.go): every statement of the protocol is a step of its
    own, and steps of any replicas interleave, so a claim reads in one step and
    writes in another, with anything in between. One job's row, instants as
    positive milliseconds; 0 is no instant. */
module Lease {
  import opened Sql

  datatype LeaseRow = LeaseRow(holder: nat, term: nat, expires: int, slot: int, unfinished: int, rerun: int)

  /** A claim's handle: its term, the instant it was made for, and whether the loss
      of the lease is known. */
  datatype Handle = Handle(term: nat, slot: int, lost: bool)

  /** What a claim of the instant at read before it writes. */
  datatype Read = Read(at: int, term: nat, slot: int, expired: bool)

  datatype Unfinished = Unfinished(slot: int, term: nat)

  /** What a run put on record: an instant claimed, one claimed a second time, one
      whose round is recorded finished, and the last instant a round overran. */
  datatype Event = Claimed(slot: int) | Reran(slot: int) | Recorded(slot: int) | Overran(slot: int)

  /** The database clock, the row, the handles by the token minted for each, the
      claims between their read and their write, the rounds found cut short, and
      the record. */
  datatype State = State(
    now: nat, row: Option<LeaseRow>, minted: nat, handles: map<nat, Handle>, pending: set<Read>, found: set<Unfinished>, log: seq<Event>)

  datatype Step =
    | Tick(d: nat)
    | ReadForClaim(at: int)
    | WriteClaim(read: Read)
    | Insert(at: int)
    | Renew(token: nat)
    | Lose(token: nat)
    | Crash(token: nat)
    | Release(token: nat)
    | Finish(token: nat, passed: int)
    | FinishLate(token: nat)
    | Find
    | ClaimRerun(u: Unfinished)

  /** How long a claim or a renewal holds the name. */
  const Duration := 15000

  predicate Init(s: State) {
    s.row == None && s.minted == 0 && s.handles == map[] && s.pending == {} && s.found == {} && s.log == []
  }

  predicate Expired(s: State) { s.row.Some? && s.row.value.expires <= s.now }

  predicate IsHolder(s: State, token: nat) { s.row.Some? && s.row.value.holder == token }

  /** A step a replica can take. */
  predicate Enabled(s: State, step: Step) {
    match step
    case Tick(_) => true
    case ReadForClaim(at) => at > 0 && s.row.Some?
    case WriteClaim(read) => read in s.pending && read.expired && read.slot < read.at
    case Insert(at) => at > 0
    case Renew(token) => token in s.handles
    case Lose(token) => token in s.handles
    case Crash(token) => token in s.handles
    case Release(token) => token in s.handles && !s.handles[token].lost
    case Finish(token, passed) => token in s.handles && !s.handles[token].lost
    case FinishLate(token) => token in s.handles
    case Find => true
    case ClaimRerun(u) => u in s.found
  }

  function Mint(s: State, slot: int, row: LeaseRow, event: Event): State {
    s.(row := Some(row), minted := s.minted + 1, handles := s.handles[s.minted := Handle(row.term, slot, false)], log := s.log + [event])
  }

  /** The claim's UPDATE: it takes the name while the term has not moved since the
      read and the lease has expired. */
  function WriteClaimed(s: State, read: Read): State {
    var left := s.(pending := s.pending - {read});
    if s.row.Some? && s.row.value.term == read.term && Expired(s) then
      Mint(left, read.at, LeaseRow(s.minted, read.term + 1, s.now + Duration, read.at, read.at, s.row.value.rerun), Claimed(read.at))
    else left
  }

  /** The record of a round that ran to its end under its own name, and of the
      instants it overran up to passed; an instant yet to come is not taken along. */
  function Finished(s: State, token: nat, passed: int): State
    requires token in s.handles
  {
    if !IsHolder(s, token) then s
    else
      var row := s.row.value;
      var moves := row.slot < passed && passed <= s.now;
      s.(
        row := Some(row.(expires := 0, unfinished := 0, slot := if moves then passed else row.slot)),
        handles := s.handles - {token},
        log := s.log + [Recorded(s.handles[token].slot)] + if moves then [Overran(passed)] else [])
  }

  function FinishedLate(s: State, token: nat): State
    requires token in s.handles
  {
    var left := s.(handles := s.handles - {token});
    if s.row.Some? && s.row.value.unfinished == s.handles[token].slot then
      left.(row := Some(s.row.value.(unfinished := 0)), log := s.log + [Recorded(s.handles[token].slot)])
    else left
  }

  /** The round on record is one cut short, free to claim a second time. */
  predicate IsCutShort(s: State) {
    Expired(s) && s.row.value.unfinished == s.row.value.slot && s.row.value.rerun < s.row.value.slot
  }

  function Reclaimed(s: State, u: Unfinished): State {
    var left := s.(found := s.found - {u});
    if IsCutShort(s) && s.row.value.term == u.term then
      var row := s.row.value;
      Mint(left, u.slot, row.(holder := s.minted, term := row.term + 1, expires := s.now + Duration, rerun := row.slot), Reran(u.slot))
    else left
  }

  function Do(s: State, step: Step): State
    requires Enabled(s, step)
  {
    match step
    case Tick(d) => s.(now := s.now + d)
    case ReadForClaim(at) => s.(pending := s.pending + {Read(at, s.row.value.term, s.row.value.slot, Expired(s))})
    case WriteClaim(read) => WriteClaimed(s, read)
    case Insert(at) => if s.row.Some? then s else Mint(s, at, LeaseRow(s.minted, 1, s.now + Duration, at, at, 0), Claimed(at))
    case Renew(token) =>
      if IsHolder(s, token) && !Expired(s) then s.(row := Some(s.row.value.(expires := s.now + Duration))) else s
    case Lose(token) => s.(handles := s.handles[token := s.handles[token].(lost := true)])
    case Crash(token) => s.(handles := s.handles - {token})
    case Release(token) =>
      if IsHolder(s, token) then s.(row := Some(s.row.value.(expires := 0)), handles := s.handles - {token}) else s
    case Finish(token, passed) => Finished(s, token, passed)
    case FinishLate(token) => FinishedLate(s, token)
    case Find => if IsCutShort(s) then s.(found := s.found + {Unfinished(s.row.value.slot, s.row.value.term)}) else s
    case ClaimRerun(u) => Reclaimed(s, u)
  }

  /** States a run passes through, from an initial one. */
  predicate IsRun(states: seq<State>, steps: seq<Step>) {
    |states| == |steps| + 1 && Init(states[0]) &&
    forall i :: 0 <= i < |steps| ==> Enabled(states[i], steps[i]) && states[i + 1] == Do(states[i], steps[i])
  }
}
