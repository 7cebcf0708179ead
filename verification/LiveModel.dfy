/**
 The live indexer: it compares what the node reports about watched addresses with the
 stored positions, records each difference as an event, and keeps a cursor and a table
 of the heights it could not look at. `Once` relates the state before and after one
 polling round, whatever the node answers.
 */
module LiveModel {
  import opened ByteStrings
  import opened CoverageGaps

  // --------------------------------------------------------------------- positions

  datatype Amounts = Amounts(balance: int, stake: int, replenished: int, locked: int) {
    function Plus(other: Amounts): Amounts {
      Amounts(balance + other.balance, stake + other.stake, replenished + other.replenished, locked + other.locked)
    }

    /** `delta_between`. */
    function Minus(other: Amounts): Amounts {
      Amounts(balance - other.balance, stake - other.stake, replenished - other.replenished, locked - other.locked)
    }
  }

  const ZERO := Amounts(0, 0, 0, 0)

  /** What the node reports about an address. */
  datatype Observation = Observation(state: string, amounts: Amounts, delegatee: string, inviterTx: string)

  datatype Position = Position(epoch: nat, seen: Observation, updatedHeight: nat)

  // ------------------------------------------------------------------------ events

  datatype Source = LiveDelta | Resync

  datatype Kind =
    | InvitationLocked | InvitationReversal | InvitationUnlock
    | SessionReward | ProposerReward | CommitteeReward
    | BalanceReversal | StateChange | AttributeChange
    | GapNetChange | SameHeightCorrection

  datatype Flow = Credit | Debit | Neutral

  /** The list an event's id is hashed from; events marked as no reward are keyed without their amounts. */
  datatype EventKey =
    | DeltaKey(source: Source, epoch: nat, height: nat, address: string, kind: Kind, delta: Amounts, tx: string)
    | MarkedKey(source: Source, epoch: nat, height: nat, address: string, kind: Kind, tx: string)

  datatype Event = Event(key: EventKey, flow: Flow, delta: Amounts)

  /** A block as far as it matters for an event. */
  datatype Block = Block(height: nat, coinbase: string, validationFinished: bool)

  function FlowOf(delta: Amounts): Flow {
    var amount := delta.balance + delta.stake;
    if amount > 0 || delta.locked > 0 then Credit
    else if amount < 0 || delta.locked < 0 then Debit
    else Neutral
  }

  /** `classify_delta`. */
  function KindOf(address: string, delta: Amounts, oldState: string, newState: string, block: Block): Kind {
    var amount := delta.balance + delta.stake;
    if delta.locked > 0 then InvitationLocked
    else if delta.locked < 0 then
      if newState == "Killed" || newState == "Undefined" || delta.stake < 0 then InvitationReversal else InvitationUnlock
    else if amount > 0 && block.validationFinished then SessionReward
    else if amount > 0 && address == block.coinbase then ProposerReward
    else if amount > 0 then CommitteeReward
    else if amount < 0 then BalanceReversal
    else if oldState != newState then StateChange
    else AttributeChange
  }

  /** `event_from_delta`. */
  function EventFrom(source: Source, address: string, epoch: nat, block: Block, before: Observation, after: Observation): Event {
    var delta := after.amounts.Minus(before.amounts);
    var kind := KindOf(address, delta, before.state, after.state, block);
    Event(DeltaKey(source, epoch, block.height, address, kind, delta, after.inviterTx), FlowOf(delta), delta)
  }

  /** `mark_non_reward_event`: another kind and another id, the same amounts. */
  function Marked(e: Event, kind: Kind): Event {
    e.(key := MarkedKey(e.key.source, e.key.epoch, e.key.height, e.key.address, kind, e.key.tx))
  }

  // ------------------------------------------------------------------- the indexer

  /** The tables and cursors, and three things only the proofs look at: the amounts an address had when it was first
      stored, the heights that were processed, and what was lost in events ignored because their id was taken. */
  datatype World = World(
    positions: map<string, Position>,
    events: map<EventKey, Event>,
    seeded: set<nat>,
    cursor: nat,
    gaps: set<Gap>,
    first: map<string, Amounts>,
    processed: set<nat>,
    lost: map<string, Amounts>)

  const FRESH := World(map[], map[], {}, 0, {}, map[], {}, map[])

  function Lost(w: World, address: string): Amounts {
    if address in w.lost then w.lost[address] else ZERO
  }

  /** Store a position, and insert or ignore the event about it. */
  function Store(w: World, address: string, p: Position, note: Option<Event>): World {
    w.(positions := w.positions[address := p],
       events := if note.Some? && note.value.key !in w.events then w.events[note.value.key := note.value] else w.events,
       first := if address in w.positions then w.first else w.first[address := p.seen.amounts],
       lost := if note.Some? && note.value.key in w.events then w.lost[address := Lost(w, address).Plus(note.value.delta)] else w.lost)
  }

  /** An identity in the answer to `dna_identities`, with the position read for it. */
  datatype Listed = Listed(address: string, seen: Observation, listedLocked: int)

  const TRACKED_STATES := {"Candidate", "Newbie", "Verified", "Human", "Suspended", "Zombie"}

  predicate IsPending(i: Listed) {
    (i.seen.state in TRACKED_STATES || i.listedLocked > 0) && i.address != ""
  }

  function Pending(listed: seq<Listed>): seq<Listed> {
    if listed == [] then []
    else
      var front, last := Pending(listed[..|listed| - 1]), listed[|listed| - 1];
      if IsPending(last) then front + [last] else front
  }

  function SeedOne(w: World, epoch: nat, block: Block, i: Listed): World {
    var p := Position(epoch, i.seen, block.height);
    if i.address !in w.positions then Store(w, i.address, p, None)
    else
      var was := w.positions[i.address].seen;
      var changed := i.seen.amounts.Minus(was.amounts) != ZERO || was.state != i.seen.state;
      Store(w, i.address, p,
            if changed then Some(Marked(EventFrom(Resync, i.address, epoch, block, was, i.seen), GapNetChange)) else None)
  }

  /** The loop of `seed_current_positions`. */
  function SeedAll(w: World, epoch: nat, block: Block, pending: seq<Listed>): World {
    if pending == [] then w
    else SeedOne(SeedAll(w, epoch, block, pending[..|pending| - 1]), epoch, block, pending[|pending| - 1])
  }

  function ScanOne(w: World, epoch: nat, block: Block, answers: map<string, Observation>, address: string): World {
    if address !in answers then w
    else
      var seen := answers[address];
      var p := Position(epoch, seen, block.height);
      if address !in w.positions then Store(w, address, p, None)
      else
        var stored := w.positions[address];
        var was := stored.seen;
        var changed := seen.amounts.Minus(was.amounts) != ZERO || was.state != seen.state || was.delegatee != seen.delegatee;
        var event := EventFrom(LiveDelta, address, epoch, block, was, seen);
        Store(w, address, p,
              if !changed then None
              else if stored.updatedHeight == block.height then Some(Marked(event, SameHeightCorrection))
              else Some(event))
  }

  function ScanAll(w: World, epoch: nat, block: Block, answers: map<string, Observation>, order: seq<string>): World {
    if order == [] then w
    else ScanOne(ScanAll(w, epoch, block, answers, order[..|order| - 1]), epoch, block, answers, order[|order| - 1])
  }

  predicate Watched(p: Position) {
    p.seen.state in TRACKED_STATES || p.seen.amounts.locked > 0
  }

  /** The addresses a live scan looks at: the watched ones and the coinbase. */
  function Addresses(positions: map<string, Position>, block: Block): set<string> {
    (set a | a in positions && Watched(positions[a])) + {block.coinbase} - {""}
  }

  // ------------------------------------------------------------------------- once

  /** The answer to `dna_identities`: none, one that was stored in full, or one whose storing stopped with an error
      after these identities. */
  datatype Listing = NotListed | Stored(listed: seq<Listed>) | StoredInPart(listed: seq<Listed>)

  /** The live read: put off because the head moved or the node stopped answering, stored in full, or stopped with an
      error when these addresses had been dealt with. An address without an answer is skipped. */
  datatype Reading =
    | Deferred
    | Read(answers: map<string, Observation>)
    | ReadInPart(answers: map<string, Observation>, reached: set<string>)

  /** What one call of `once` meets. */
  datatype Scan = Scan(epoch: nat, block: Block, listing: Listing, reading: Reading)

  const GAP_REASON := "historical balance RPC unavailable; live delta indexer resumed at current tip"

  /** The state after the epoch was seeded, if it had to be. */
  function Seeded(w: World, s: Scan): World
    requires s.epoch in w.seeded || s.listing.Stored?
  {
    if s.epoch in w.seeded then w
    else
      var filled := SeedAll(w, s.epoch, s.block, Pending(s.listing.listed));
      filled.(seeded := filled.seeded + {s.epoch})
  }

  ghost predicate GapNoted(before: set<Gap>, cursor: nat, height: nat, after: set<Gap>) {
    if cursor != 0 && height > cursor + 1 then Recorded(before, cursor + 1, height - 1, GAP_REASON, after)
    else after == before
  }

  ghost predicate Distinct(order: seq<string>) {
    forall i, j | 0 <= i < j < |order| :: order[i] != order[j]
  }

  /** A live scan of addresses in this order. */
  ghost predicate LiveScan(w: World, s: Scan, order: seq<string>, next: World) {
    match s.reading
    case Deferred => next == w
    case Read(answers) =>
      && Distinct(order) && (forall a :: a in order <==> a in Addresses(w.positions, s.block))
      && var after := ScanAll(w, s.epoch, s.block, answers, order);
         next == after.(cursor := s.block.height, processed := after.processed + {s.block.height})
    case ReadInPart(answers, reached) =>
      && Distinct(order) && (forall a :: a in order <==> a in Addresses(w.positions, s.block) * reached)
      && next == ScanAll(w, s.epoch, s.block, answers, order)
  }

  /** One call of `once`, without rolling files. */
  ghost predicate Once(w: World, s: Scan, next: World) {
    if s.epoch !in w.seeded && s.listing.NotListed? then next == w
    else if s.epoch !in w.seeded && s.listing.StoredInPart? then
      next == SeedAll(w, s.epoch, s.block, Pending(s.listing.listed))
    else
      var ready := Seeded(w, s);
      if ready.cursor >= s.block.height then next == ready
      else
        exists gaps, order ::
          GapNoted(ready.gaps, ready.cursor, s.block.height, gaps) && LiveScan(ready.(gaps := gaps), s, order, next)
  }

  /** A run from an empty ledger. */
  ghost predicate IsRun(worlds: seq<World>, scans: seq<Scan>) {
    && |worlds| == |scans| + 1 && worlds[0] == FRESH
    && forall i | 0 <= i < |scans| :: Once(worlds[i], scans[i], worlds[i + 1])
  }

  /** Every address at most once in the part of the answer that is used. */
  ghost predicate ListedOnce(pending: seq<Listed>) {
    forall i, j | 0 <= i < j < |pending| :: pending[i].address != pending[j].address
  }

  /** No answer lists an address twice, and no loop stops with an error. */
  ghost predicate Smooth(s: Scan) {
    && (s.listing.Stored? ==> ListedOnce(Pending(s.listing.listed)))
    && !s.listing.StoredInPart? && !s.reading.ReadInPart?
  }
}
